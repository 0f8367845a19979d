/** Building the tables the kernel is entered on (src/boot/main.c). */
module KernelTables {
  import opened Words
  import opened ArenaAllocator
  import opened PageEntries
  import opened PageTree
  import opened AddressMap
  import opened PageBlocks
  import opened PageNeeds
  import opened Paging
  import opened RangePlans
  import opened ElfImage
  import opened PageRights
  import opened KernelPlans
  import opened KernelViews
  import opened KernelPages

  /** Tables that mean a plan, with none of them empty, and no more of them than the
      plan can take beyond `limit`. */
  ghost predicate Follows(tables: PageTables, plan: seq<Range>, limit: int)
    reads tables, tables.arena, tables.ram
  {
    && tables.Valid() && tables.root != NULL
    && Means(tables.ram[..], tables.root, plan) && Tight(tables.ram[..], tables.root)
    && AlignUp(tables.arena.base + tables.arena.used, 4096) <= limit + 4096 * TablesForPlan(plan)
  }

  /** A plan that can be followed: ranges that are accepted, do not overlap, and leave
      room for the tables they can take. */
  ghost predicate CanFollow(tables: PageTables, plan: seq<Range>, limit: int)
    reads tables, tables.arena
  {
    PlanFits(plan) && limit + 4096 * TablesForPlan(plan) <= tables.arena.base + tables.arena.capacity
  }

  lemma StartCanBeFollowed(tables: PageTables, plan: seq<Range>, more: seq<Range>, limit: int)
    ensures CanFollow(tables, plan + more, limit) ==> CanFollow(tables, plan, limit)
  {
    hide PlanFits, TablesForPlan;
    if PlanFits(plan + more) {
      StartFits(plan, more);
    }
    PlanGrows(plan, more);
  }

  /** One mapping added to those there are, whenever the longer plan can be followed. */
  method MapRange(
    tables: PageTables, virtual: u64, physical: u64, bytes: u64, flags: u64, ghost plan: seq<Range>, ghost limit: int)
    returns (ok: bool)
    requires Follows(tables, plan, limit)
    modifies tables`tables, tables.arena`used, tables.ram
    ensures var r := Range(virtual, physical, bytes, flags, tables.hugePages);
      && (ok ==> Follows(tables, plan + [r], limit))
      && (CanFollow(tables, plan + [r], limit) ==> ok)
    ensures tables.Valid() && tables.Kept(old(tables.ram[..]))
  {
    hide Means, MapsPrefix, Canonical, FlagsAccepted, OneHalf, Tight, PlanFits;
    hide Unmapped, Grown, TablesFor, AlignUp, OutsideKept, AllPlain, Obeyed, AccessesKept, ReachedAsAsked, Reached;
    ghost var before := tables.ram[..];
    ghost var nodes, used := tables.tables.Values, tables.arena.used;
    ghost var r := Range(virtual, physical, bytes, flags, tables.hugePages);
    PlanWithRange(plan, r);
    if PlanFits(plan + [r]) {
      ApartIsUnmapped(before, tables.root, plan, r);
      LastIsAccepted(plan, r);
    }
    ok := tables.Map(virtual, physical, bytes, flags);
    if ok {
      MapAddsRange(before, tables.ram[..], tables.root, plan, r);
      TablesReckoned(tables.arena.base, used, tables.arena.used, r, nodes, tables.tables.Values);
    }
  }

  method MapSegment(
    tables: PageTables, s: Segment, writable: bool, noExecute: bool, ghost plan: seq<Range>, ghost limit: int)
    returns (ok: bool)
    requires Follows(tables, plan, limit) && writable == s.Writable()
    modifies tables`tables, tables.arena`used, tables.ram
    ensures ok ==> Follows(tables, plan + [SegmentRange(s, noExecute, tables.hugePages)], limit)
    ensures CanFollow(tables, plan + [SegmentRange(s, noExecute, tables.hugePages)], limit) ==> ok
    ensures tables.Valid() && tables.Kept(old(tables.ram[..]))
  {
    hide Follows, CanFollow, OutsideKept;
    var virtual := PageDown(s.virtualAddress);
    var physical := PageDown(s.physicalAddress);
    var leading := s.virtualAddress - virtual;
    var bytes := (s.memoryBytes + leading) % U64_LIMIT;
    bytes := PageUp(bytes);
    var flags := if writable then PAGE_WRITABLE else 0;
    if !s.Executable() && noExecute {
      flags := flags + PAGE_NO_EXECUTE;
    }
    ok := MapRange(tables, virtual, physical, bytes, flags, plan, limit);
  }

  method MapDirect(tables: PageTables, image: Image, noExecute: bool, ghost plan: seq<Range>, ghost limit: int)
    returns (ok: bool)
    requires Follows(tables, plan, limit) && image.segments != []
    modifies tables`tables, tables.arena`used, tables.ram
    ensures ok ==> Follows(tables, plan + DirectPlan(image, noExecute, tables.hugePages), limit)
    ensures CanFollow(tables, plan + DirectPlan(image, noExecute, tables.hugePages), limit) ==> ok
    ensures tables.Valid() && tables.Kept(old(tables.ram[..]))
  {
    hide Follows, CanFollow, OutsideKept;
    KeepsItself(tables);
    FollowsMeans(tables, plan, limit);
    var directBase := DirectBase(image);
    if directBase == 0 {
      assert plan + [] == plan;
      return true;
    }
    var directBytes := DirectBytes(directBase);
    var kernelLow := PageDown(image.lowest);
    var kernelHigh := PageUp(image.highest);
    ghost var begin := tables.ram[..];
    ghost var below: seq<Range> := [];
    ghost var above: seq<Range> :=
      if kernelHigh < directBytes then [AboveKernel(image, noExecute, tables.hugePages)] else [];
    if kernelLow > 0 {
      below := [BelowKernel(image, noExecute, tables.hugePages)];
      assert below == [Range(directBase, 0, kernelLow, DirectFlags(noExecute), tables.hugePages)];
      ok := MapRange(tables, directBase, 0, kernelLow, DirectFlags(noExecute), plan, limit);
      StartCanBeFollowed(tables, plan + below, above, limit);
      assert plan + below + above == plan + DirectPlan(image, noExecute, tables.hugePages);
      if !ok {
        return;
      }
    }
    assert plan + [] == plan;
    ghost var middle := tables.ram[..];
    if kernelHigh < directBytes {
      ok := MapRange(tables, (directBase + kernelHigh) % U64_LIMIT, kernelHigh, directBytes - kernelHigh,
                     DirectFlags(noExecute), plan + below, limit);
      KeptOn(begin, middle, tables.ram[..], tables.arena.base, tables.arena.base + tables.arena.capacity);
      assert plan + below + above == plan + (below + above);
      return;
    }
    assert below + [] == below;
    return true;
  }

  lemma KeepsItself(tables: PageTables)
    ensures tables.Kept(tables.ram[..])
  {
  }

  /** When it succeeds the processor finds through the tables exactly what the kernel is to
      find; and given an arena with room for the root and for the tables the image can
      take, it succeeds exactly if the image is mappable. Nothing outside the arena is
      written. */
  method BuildKernelTables(
    tables: PageTables, arena: Arena, image: Image, noExecute: bool, gigabytePages: bool)
    returns (ok: bool)
    requires arena.Valid() && image.segments != []
    requires arena.base + arena.capacity <= 8 * tables.ram.Length
    requires arena.base + arena.capacity <= PHYSICAL_LIMIT
    modifies tables, arena`used, tables.ram
    ensures tables.Valid() && tables.arena == arena && tables.Kept(old(tables.ram[..]))
    ensures ok ==> tables.root != NULL && Means(tables.ram[..], tables.root, Plan(image, noExecute, gigabytePages))
    ensures ok ==> PlanFits(Plan(image, noExecute, gigabytePages))
    ensures var plan := Plan(image, noExecute, gigabytePages);
      PlanFits(plan) && old(RoomForPlan(arena, plan)) ==> ok
    // The same for what the parser lets through, in terms of the image.
    ensures ok && AllSound(image.segments) ==>
      Mappable(image) && KernelSees(tables.ram[..], tables.root, image, noExecute, gigabytePages)
    ensures AllSound(image.segments) && Mappable(image) && old(RoomForImage(arena, image)) ==> ok
  {
    hide SegmentRange, DirectPlan, CanFollow, OutsideKept, Follows, PlanFits, SegmentPlan, Plan;
    hide Tight, TablesForPlan, AlignUp, Means, Mappable, KernelSees, AllSound, TablesForImage, Obeyed;
    if AllSound(image.segments) {
      PlanFitsExactly(image, noExecute, gigabytePages);
      RoomIsEnough(arena, image, noExecute, gigabytePages);
    }
    ghost var begin := tables.ram[..];
    ghost var plan := Plan(image, noExecute, gigabytePages);
    ghost var limit := AlignUp(arena.base + arena.used, 4096) + 4096;
    AlignUpBounds(arena.base + arena.used, 4096);
    ok := tables.Create(arena, gigabytePages);
    RoomMeans(tables, plan, limit);
    if !ok {
      return;
    }
    NothingFollows(tables, limit);
    ghost var before := [IdentityRange(gigabytePages)] + DirectPlan(image, noExecute, gigabytePages);
    PlanIs(image, noExecute, gigabytePages);
    ok := MapFirst(tables, image, noExecute, limit, begin);
    if !ok {
      PrefixCanBeFollowed(tables, before, plan, limit);
      RoomMeans(tables, plan, limit);
      return;
    }
    ok := MapSegments(tables, image, noExecute, before, limit, begin);
    RoomMeans(tables, plan, limit);
    if ok {
      FollowsMeans(tables, plan, limit);
      tables.ValidIsObeyed();
      if AllSound(image.segments) {
        PlanIsSeen(tables.ram[..], tables.root, image, noExecute, gigabytePages);
      }
    }
  }

  lemma PlanIs(image: Image, noExecute: bool, huge: bool)
    requires image.segments != []
    ensures Plan(image, noExecute, huge) ==
      ([IdentityRange(huge)] + DirectPlan(image, noExecute, huge)) + SegmentPlan(image.segments, noExecute, huge)
  {
  }

  /** Every segment that is linked away from where it is loaded. */
  method MapSegments(
    tables: PageTables, image: Image, noExecute: bool, ghost before: seq<Range>, ghost limit: int,
    ghost begin: seq<u64>)
    returns (ok: bool)
    requires Follows(tables, before, limit) && tables.Kept(begin)
    modifies tables`tables, tables.arena`used, tables.ram
    ensures var plan := before + SegmentPlan(image.segments, noExecute, tables.hugePages);
      (ok ==> Follows(tables, plan, limit)) && (CanFollow(tables, plan, limit) ==> ok)
    ensures tables.Valid() && tables.Kept(begin)
  {
    hide SegmentRange, CanFollow, OutsideKept, Follows, SegmentPlan;
    ghost var huge, low, high := tables.hugePages, tables.arena.base, tables.arena.base + tables.arena.capacity;
    ghost var plan := before + SegmentPlan(image.segments, noExecute, huge);
    ghost var done: seq<Range> := [];
    FollowsMeans(tables, before, limit);
    NoSegments(noExecute, huge);
    assert before + done == before;
    for i := 0 to |image.segments|
      invariant tables.Valid() && done == SegmentPlan(image.segments[..i], noExecute, huge)
      invariant Follows(tables, before + done, limit) && tables.Kept(begin)
    {
      var s := image.segments[i];
      ghost var middle, longer := tables.ram[..], SegmentPlan(image.segments[..i + 1], noExecute, huge);
      SegmentPlanStep(image.segments, noExecute, huge, i);
      SegmentPlanStarts(image.segments, noExecute, huge, i + 1);
      if s.virtualAddress != s.physicalAddress {
        assert before + done + [SegmentRange(s, noExecute, huge)] == before + longer;
        ok := MapSegment(tables, s, s.Writable(), noExecute, before + done, limit);
        KeptOn(begin, middle, tables.ram[..], low, high);
        if !ok {
          assert before + longer <= plan;
          PrefixCanBeFollowed(tables, before + longer, plan, limit);
          return;
        }
      } else {
        assert before + done == before + longer;
      }
      done := longer;
    }
    assert image.segments[..|image.segments|] == image.segments;
    return true;
  }

  /** Low memory, and the direct map. */
  method MapFirst(
    tables: PageTables, image: Image, noExecute: bool, ghost limit: int, ghost begin: seq<u64>) returns (ok: bool)
    requires Follows(tables, [], limit) && image.segments != [] && tables.Kept(begin)
    modifies tables`tables, tables.arena`used, tables.ram
    ensures var plan := [IdentityRange(tables.hugePages)] + DirectPlan(image, noExecute, tables.hugePages);
      && (ok ==> Follows(tables, plan, limit))
      && (CanFollow(tables, plan, limit) ==> ok)
    ensures tables.Valid() && tables.Kept(begin)
  {
    hide DirectPlan, CanFollow, OutsideKept, Follows;
    ghost var identity, direct := [IdentityRange(tables.hugePages)], DirectPlan(image, noExecute, tables.hugePages);
    ghost var middle := tables.ram[..];
    assert [] + identity == identity;
    ok := MapRange(tables, 0, 0, IDENTITY_MAP_BYTES, PAGE_WRITABLE, [], limit);
    StartCanBeFollowed(tables, identity, direct, limit);
    KeptOn(begin, middle, tables.ram[..], tables.arena.base, tables.arena.base + tables.arena.capacity);
    if !ok {
      return;
    }
    middle := tables.ram[..];
    ok := MapDirect(tables, image, noExecute, identity, limit);
    KeptOn(begin, middle, tables.ram[..], tables.arena.base, tables.arena.base + tables.arena.capacity);
  }

  /** The arena has pages for the root and for all the tables a plan can take. */
  ghost predicate RoomForPlan(arena: Arena, plan: seq<Range>)
    reads arena
  {
    AlignUp(arena.base + arena.used, 4096) + 4096 * (1 + TablesForPlan(plan)) <= arena.base + arena.capacity
  }

  /** The same for the tables an image can take, in numbers. */
  ghost predicate RoomForImage(arena: Arena, image: Image)
    requires image.segments != []
    reads arena
  {
    (arena.base + arena.used + 0xFFF) / 0x1000 * 0x1000 + 0x1000 * (1 + TablesForImage(image)) <=
      arena.base + arena.capacity
  }

  lemma RoomIsEnough(arena: Arena, image: Image, noExecute: bool, huge: bool)
    requires image.segments != [] && AllSound(image.segments)
    ensures Mappable(image) && RoomForImage(arena, image) ==> RoomForPlan(arena, Plan(image, noExecute, huge))
  {
    hide Mappable, TablesForImage, TablesForPlan, Plan, AllSound;
    if Mappable(image) {
      ImageTables(image, noExecute, huge);
    }
    var x := arena.base + arena.used + 0xFFF;
    assert x - x % 4096 == x / 0x1000 * 0x1000;
  }

  lemma RoomMeans(tables: PageTables, plan: seq<Range>, limit: int)
    ensures CanFollow(tables, plan, limit) <==>
      PlanFits(plan) && limit + 4096 * TablesForPlan(plan) <= tables.arena.base + tables.arena.capacity
    ensures TablesForPlan(plan) >= 0
  {
    hide PlanFits;
    PlanGrows([], plan);
    assert [] + plan == plan;
  }

  lemma NothingFollows(tables: PageTables, limit: int)
    requires tables.Valid() && tables.root != NULL && Tight(tables.ram[..], tables.root)
    requires forall w: u64 :: Walk(tables.ram[..], tables.root, LEVEL_ROOT, w) == None
    requires tables.arena.base + tables.arena.used == limit && limit % 4096 == 0
    ensures Follows(tables, [], limit)
  {
    hide Tight, Means;
    EmptyMeansNothing(tables.ram[..], tables.root);
    AlignUpIsLeast(limit, 4096, limit);
  }

  lemma FollowsMeans(tables: PageTables, plan: seq<Range>, limit: int)
    requires Follows(tables, plan, limit)
    ensures tables.Valid() && tables.root != NULL && Means(tables.ram[..], tables.root, plan) && PlanFits(plan)
  {
    hide Means, Tight, PlanFits, AlignUp;
    MeansFits(tables.ram[..], tables.root, plan);
  }

  lemma PrefixCanBeFollowed(tables: PageTables, start: seq<Range>, plan: seq<Range>, limit: int)
    requires start <= plan
    ensures CanFollow(tables, plan, limit) ==> CanFollow(tables, start, limit)
  {
    hide CanFollow;
    assert plan == start + plan[|start|..];
    StartCanBeFollowed(tables, start, plan[|start|..], limit);
  }
}
