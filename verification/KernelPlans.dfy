/** The ranges the kernel is entered on (src/boot/main.c): the low four gigabytes at
    their own addresses, the same memory again at the kernel's offset, and the kernel's
    segments with the permissions their program headers ask for; and what the processor
    makes of tables that mean them. */
module KernelPlans {
  import opened Words
  import opened Processor
  import opened PageEntries
  import opened PageTree
  import opened AddressMap
  import opened PageRights
  import opened RangePlans
  import opened ElfImage

  const IDENTITY_MAP_BYTES: u64 := 0x1_0000_0000

  // ----- the ranges build_kernel_tables asks for -----

  function PageDown(value: u64): u64 { value - value % 4096 }

  /** `(value + PAGE_BYTES - 1) & ~(PAGE_BYTES - 1)`, wrapping. */
  function PageUp(value: u64): u64 { PageDown((value + 4095) % U64_LIMIT) }

  function DirectFlags(noExecute: bool): u64 {
    PAGE_WRITABLE + (if noExecute then PAGE_NO_EXECUTE else 0)
  }

  function SegmentFlags(s: Segment, noExecute: bool): u64 {
    (if s.Writable() then PAGE_WRITABLE else 0) +
    (if !s.Executable() && noExecute then PAGE_NO_EXECUTE else 0)
  }

  function SegmentRange(s: Segment, noExecute: bool, huge: bool): Range {
    Range(PageDown(s.virtualAddress), PageDown(s.physicalAddress),
          PageUp((s.memoryBytes + s.virtualAddress % 4096) % U64_LIMIT),
          SegmentFlags(s, noExecute), huge)
  }

  /** The distance between where the kernel is linked and where it is loaded. */
  function DirectBase(image: Image): u64
    requires image.segments != []
  {
    (image.segments[0].virtualAddress - image.segments[0].physicalAddress) % U64_LIMIT
  }

  function DirectBytes(base: u64): u64 {
    var room := (U64_LIMIT - base - PAGE_BYTES) % U64_LIMIT;
    if room < IDENTITY_MAP_BYTES then room else IDENTITY_MAP_BYTES
  }

  function BelowKernel(image: Image, noExecute: bool, huge: bool): Range
    requires image.segments != []
  {
    Range(DirectBase(image), 0, PageDown(image.lowest), DirectFlags(noExecute), huge)
  }

  function AboveKernel(image: Image, noExecute: bool, huge: bool): Range
    requires image.segments != []
    requires PageUp(image.highest) < DirectBytes(DirectBase(image))
  {
    var high := PageUp(image.highest);
    Range((DirectBase(image) + high) % U64_LIMIT, high, DirectBytes(DirectBase(image)) - high,
          DirectFlags(noExecute), huge)
  }

  function IdentityRange(huge: bool): Range {
    Range(0, 0, IDENTITY_MAP_BYTES, PAGE_WRITABLE, huge)
  }

  /** The direct map goes around the kernel rather than over it. */
  function DirectPlan(image: Image, noExecute: bool, huge: bool): seq<Range>
    requires image.segments != []
  {
    if DirectBase(image) == 0 then []
    else
      (if PageDown(image.lowest) > 0 then [BelowKernel(image, noExecute, huge)] else []) +
      (if PageUp(image.highest) < DirectBytes(DirectBase(image))
       then [AboveKernel(image, noExecute, huge)] else [])
  }

  /** Segments that are reachable at their own addresses need nothing more. */
  function SegmentPlan(segments: seq<Segment>, noExecute: bool, huge: bool): (plan: seq<Range>)
  {
    if segments == [] then []
    else
      var last := segments[|segments| - 1];
      SegmentPlan(segments[..|segments| - 1], noExecute, huge) +
      (if last.virtualAddress == last.physicalAddress then [] else [SegmentRange(last, noExecute, huge)])
  }

  function Plan(image: Image, noExecute: bool, huge: bool): seq<Range>
    requires image.segments != []
  {
    [IdentityRange(huge)] + DirectPlan(image, noExecute, huge) + SegmentPlan(image.segments, noExecute, huge)
  }

  lemma NoSegments(noExecute: bool, huge: bool)
    ensures forall segments: seq<Segment> :: segments == [] ==> SegmentPlan(segments, noExecute, huge) == []
  {
  }

  lemma SegmentPlanStep(segments: seq<Segment>, noExecute: bool, huge: bool, i: nat)
    requires i < |segments|
    ensures SegmentPlan(segments[..i + 1], noExecute, huge) == SegmentPlan(segments[..i], noExecute, huge) +
      (if segments[i].virtualAddress == segments[i].physicalAddress then []
       else [SegmentRange(segments[i], noExecute, huge)])
  {
    assert segments[..i + 1][..i] == segments[..i];
  }

  lemma {:induction false} SegmentPlanStarts(segments: seq<Segment>, noExecute: bool, huge: bool, i: nat)
    requires i <= |segments|
    ensures SegmentPlan(segments[..i], noExecute, huge) <= SegmentPlan(segments, noExecute, huge)
    decreases |segments| - i
  {
    hide SegmentRange;
    if i < |segments| {
      SegmentPlanStep(segments, noExecute, huge, i);
      SegmentPlanStarts(segments, noExecute, huge, i + 1);
    } else {
      assert segments[..i] == segments;
    }
  }

  // ----- what the processor makes of them -----

  /** The flags of each kind of range, as access rights on a processor that knows the
      no-execute bit if it is used. */
  lemma PlannedFlags(s: Segment, noExecute: bool, huge: bool, physical: int)
    ensures FlagsAccepted(SegmentFlags(s, noExecute)) && FlagsAccepted(DirectFlags(noExecute))
    ensures FlagsAccepted(PAGE_WRITABLE)
    ensures AsAsked(Features(noExecute, huge), physical, SegmentFlags(s, noExecute)) ==
      Some(Access(physical, s.flags / 2 % 2 == 1, false, s.flags % 2 == 1 || !noExecute))
    ensures AsAsked(Features(noExecute, huge), physical, DirectFlags(noExecute)) ==
      Some(Access(physical, true, false, !noExecute))
    ensures AsAsked(Features(noExecute, huge), physical, PAGE_WRITABLE) == Some(Access(physical, true, false, true))
  {
  }

  /** Every address a planned range contains is canonical. */
  lemma PlannedIsCanonical(r: Range, w: u64)
    requires Accepted(r) && OneHalf(r) && Contains(r, w)
    ensures Canonical(w)
  {
    BetweenIsCanonical(r, w);
  }

  /** What a planned range says about one of its addresses. */
  lemma PlannedAccess(f: Features, m: seq<u64>, root: int, plan: seq<Range>, huge: bool, i: nat, w: u64)
    requires Means(m, root, plan) && Obeyed(m, root, huge) && (huge ==> f.gigabytePages)
    requires i < |plan| && Contains(plan[i], w)
    ensures Reaches(f, m, root, w) ==
      AsAsked(f, (plan[i].physical + (w - plan[i].virtual)) % 0x10_0000_0000_0000, plan[i].flags)
  {
    hide Canonical, FlagsAccepted, LeafFlags, LevelAt, Translation, Reaches, OneHalf;
    var r := plan[i];
    PlannedIsCanonical(r, w);
    LeafGrants(r.flags, LevelAt(r.huge, r.virtual, r.physical, r.bytes, w - r.virtual));
    assert Translation(m, root, w) == Some(Expected(r, w - r.virtual));
  }

  /** Nothing else leads anywhere. */
  lemma OnlyPlanned(f: Features, m: seq<u64>, root: int, plan: seq<Range>, huge: bool, w: u64)
    requires Means(m, root, plan) && Obeyed(m, root, huge) && (huge ==> f.gigabytePages)
    requires Reaches(f, m, root, w).Some?
    ensures exists i :: 0 <= i < |plan| && Contains(plan[i], w)
  {
    hide Translation, Reaches, Honours, NoOverlap, Contains;
    assert Translation(m, root, w).Some?;
  }

  lemma {:induction false} SegmentPlanned(segments: seq<Segment>, noExecute: bool, huge: bool, j: nat) returns (i: nat)
    requires j < |segments| && segments[j].virtualAddress != segments[j].physicalAddress
    ensures i < |SegmentPlan(segments, noExecute, huge)|
    ensures SegmentPlan(segments, noExecute, huge)[i] == SegmentRange(segments[j], noExecute, huge)
  {
    hide SegmentRange;
    var rest := segments[..|segments| - 1];
    if j == |segments| - 1 {
      i := |SegmentPlan(rest, noExecute, huge)|;
    } else {
      i := SegmentPlanned(rest, noExecute, huge, j);
    }
  }

  lemma {:induction false} PlannedBySegment(
    segments: seq<Segment>, noExecute: bool, huge: bool, i: nat) returns (j: nat)
    requires i < |SegmentPlan(segments, noExecute, huge)|
    ensures j < |segments| && segments[j].virtualAddress != segments[j].physicalAddress
    ensures SegmentPlan(segments, noExecute, huge)[i] == SegmentRange(segments[j], noExecute, huge)
  {
    hide SegmentRange;
    var rest := segments[..|segments| - 1];
    if i < |SegmentPlan(rest, noExecute, huge)| {
      j := PlannedBySegment(rest, noExecute, huge, i);
    } else {
      j := |segments| - 1;
    }
  }
}
