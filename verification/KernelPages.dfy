/** The ranges the kernel is entered on, against the image: they can be mapped exactly if
    the image is mappable, and tables that mean them show the kernel what it is to find. */
module KernelPages {
  import opened Words
  import opened Processor
  import opened PageEntries
  import opened AddressMap
  import opened PageRights
  import opened PageNeeds
  import opened RangePlans
  import opened ElfImage
  import opened KernelPlans
  import opened KernelViews

  // ----- rounding -----

  lemma PageUpIs(x: u64)
    ensures x + 0xFFF < U64_LIMIT ==> PageUp(x) == 0x1000 * ((x + 0xFFF) / 0x1000)
    ensures x + 0xFFF >= U64_LIMIT ==> PageUp(x) == 0
  {
    if x + 0xFFF < U64_LIMIT {
      DivisionIs(x + 0xFFF, 0x1_0000_0000_0000_0000, 0, x + 0xFFF);
    } else {
      DivisionIs(x + 0xFFF, 0x1_0000_0000_0000_0000, 1, x + 0xFFF - U64_LIMIT);
    }
  }

  /** Rounded out to pages, a range of bytes is the pages its bytes are in, and it ends
      where its last byte's page does. */
  lemma PagesOf(v: nat, bytes: nat, w: nat)
    requires bytes > 0
    ensures var first := 0x1000 * (v / 0x1000);
      var end := first + 0x1000 * ((bytes + v % 0x1000 + 0xFFF) / 0x1000);
      && end == 0x1000 * ((v + bytes - 1) / 0x1000) + 0x1000
      && (first <= w < end <==> v / 0x1000 <= w / 0x1000 <= (v + bytes - 1) / 0x1000)
  {
    var a, o := v / 0x1000, v % 0x1000;
    var last := (bytes + o - 1) / 0x1000;
    DivisionIs(v + bytes - 1, 0x1000, a + last, (bytes + o - 1) % 0x1000);
    DivisionIs(bytes + o + 0xFFF, 0x1000, last + 1, (bytes + o - 1) % 0x1000);
  }

  // ----- each range, in those numbers -----

  predicate Good(r: Range) { Accepted(r) && OneHalf(r) }

  lemma RangeFits(r: Range)
    requires r.virtual % 4096 == 0 && r.physical % 4096 == 0 && r.bytes % 4096 == 0 && FlagsAccepted(r.flags)
    ensures Good(r) <==>
      r.bytes > 0 && InOneHalf(r.virtual, r.virtual + r.bytes) && r.physical + r.bytes <= 0xFFFF_FFFF_FFFF_F000
  {
    hide Canonical, FlagsAccepted;
    CanonicalHalves(r.virtual);
    if r.bytes > 0 && r.virtual + r.bytes < U64_LIMIT {
      CanonicalHalves(r.virtual + r.bytes - 1);
    }
    LastPageStart(r.virtual, r.bytes);
    LastPageStart(r.physical, r.bytes);
  }

  lemma LastPageStart(x: int, y: int)
    requires x % 4096 == 0 && y % 4096 == 0
    ensures x + y < U64_LIMIT <==> x + y <= 0xFFFF_FFFF_FFFF_F000
  {
  }

  /** The range of a segment ends with the page of its last byte. */
  lemma SegmentBytes(s: Segment, noExecute: bool, huge: bool)
    requires s.Sound()
    ensures var r := SegmentRange(s, noExecute, huge);
      var bytes := 0x1000 * ((s.memoryBytes + s.virtualAddress % 0x1000 + 0xFFF) / 0x1000);
      && r.virtual == 0x1000 * (s.virtualAddress / 0x1000)
      && r.physical == s.physicalAddress - s.physicalAddress % 0x1000
      && r.bytes == (if bytes < U64_LIMIT then bytes else 0)
      && r.flags == SegmentFlags(s, noExecute)
      && r.virtual % 4096 == 0 && r.physical % 4096 == 0 && r.bytes % 4096 == 0
  {
    hide SegmentFlags, PageUp;
    var needed := s.memoryBytes + s.virtualAddress % 0x1000;
    DivisionIs(needed, 0x1_0000_0000_0000_0000, 0, needed);
    PageUpIs(needed);
    MultipleModulo((needed + 0xFFF) / 0x1000, 4096);
  }

  lemma SegmentFits(s: Segment, noExecute: bool, huge: bool)
    requires s.Sound()
    ensures Good(SegmentRange(s, noExecute, huge)) <==> Fits(s)
  {
    hide SegmentRange, SegmentFlags, Good, FlagsAccepted, AsAsked;
    var r := SegmentRange(s, noExecute, huge);
    SegmentBytes(s, noExecute, huge);
    PlannedFlags(s, noExecute, huge, 0);
    RangeFits(r);
    SegmentEnds(s.virtualAddress, s.physicalAddress, s.memoryBytes);
  }

  lemma SegmentEnds(v: u64, p: u64, bytes: u64)
    requires 0 < bytes && v + bytes < U64_LIMIT
    ensures var rounded := 0x1000 * ((bytes + v % 0x1000 + 0xFFF) / 0x1000);
      var first, start := 0x1000 * (v / 0x1000), p - p % 0x1000;
      && rounded > 0
      && (InOneHalf(first, first + rounded) <==> InOneHalf(v, v + bytes))
      && (start + rounded <= 0xFFFF_FFFF_FFFF_F000 <==> start + v % 0x1000 + bytes <= 0xFFFF_FFFF_FFFF_F000)
      && (rounded >= U64_LIMIT ==> !InOneHalf(v, v + bytes))
  {
    var o, n := v % 0x1000, (bytes + v % 0x1000 + 0xFFF) / 0x1000;
    var a, b := v / 0x1000, p / 0x1000;
    RoundedBelow(a, n, bytes + o, 0x8_0000_0000);
    RoundedBelow(a, n, bytes + o, 0xF_FFFF_FFFF_FFFF);
    RoundedBelow(b, n, bytes + o, 0xF_FFFF_FFFF_FFFF);
    RoundedBelow(0, n, bytes + o, 0xF_FFFF_FFFF_FFFF);
    assert v == 0x1000 * a + o && p - p % 0x1000 == 0x1000 * b;
    assert 0xFFFF_8000_0000_0000 <= v <==> 0xFFFF_8000_0000_0000 <= 0x1000 * a;
  }

  /** A whole number of pages holds the rounded bytes exactly if it holds the bytes. */
  lemma RoundedBelow(a: int, n: int, bytes: int, pages: int)
    requires n == (bytes + 0xFFF) / 0x1000
    ensures 0x1000 * a + 0x1000 * n <= 0x1000 * pages <==> 0x1000 * a + bytes <= 0x1000 * pages
  {
  }

  lemma SegmentMeets(s: Segment, noExecute: bool, huge: bool, w: u64)
    requires s.Sound() && Fits(s)
    ensures Contains(SegmentRange(s, noExecute, huge), w) <==> Meets(s, w)
  {
    hide SegmentRange;
    SegmentBytes(s, noExecute, huge);
    SegmentEnds(s.virtualAddress, s.physicalAddress, s.memoryBytes);
    PagesOf(s.virtualAddress, s.memoryBytes, w);
  }

  /** The direct map's numbers are these. */
  lemma DirectNumbers(image: Image)
    requires image.segments != []
    ensures DirectBase(image) == Distance(image)
    ensures Distance(image) != 0 ==> DirectBytes(DirectBase(image)) == Window(Distance(image))
    ensures PageDown(image.lowest) == 0x1000 * PagesBelow(image)
    ensures PageUp(image.highest) == 0x1000 * PageAbove(image)
  {
    var base := Distance(image);
    if base > 0xFFFF_FFFF_FFFF_F000 {
      DivisionIs(U64_LIMIT - base - 0x1000, 0x1_0000_0000_0000_0000, -1, U64_LIMIT - base - 0x1000 + U64_LIMIT);
    } else if base > 0 {
      DivisionIs(U64_LIMIT - base - 0x1000, 0x1_0000_0000_0000_0000, 0, U64_LIMIT - base - 0x1000);
    }
  }

  lemma BelowFits(image: Image, noExecute: bool, huge: bool)
    requires image.segments != [] && Distance(image) != 0 && PagesBelow(image) > 0
    ensures var r, base := BelowKernel(image, noExecute, huge), Distance(image);
      && (Good(r) <==> base % 0x1000 == 0 && InOneHalf(base, base + 0x1000 * PagesBelow(image)))
      && forall w: u64 :: Contains(r, w) <==> Below(image, w)
  {
    hide DirectFlags, FlagsAccepted, Good, DirectBase, PageDown, PageUp, AsAsked, Distance;
    DirectNumbers(image);
    PlannedFlags(image.segments[0], noExecute, huge, 0);
    var r, base := BelowKernel(image, noExecute, huge), Distance(image);
    if base % 0x1000 == 0 {
      RangeFits(r);
    } else {
      NotAligned(r);
    }
    forall w: u64
      ensures Contains(r, w) <==> Below(image, w)
    {
      PagesBefore(w - base, PagesBelow(image));
    }
  }

  lemma NotAligned(r: Range)
    requires r.virtual % 0x1000 != 0
    ensures !Good(r)
  {
  }

  lemma PagesBefore(p: int, pages: int)
    ensures p < 0x1000 * pages <==> p / 0x1000 < pages
  {
  }

  lemma AboveFits(image: Image, noExecute: bool, huge: bool)
    requires image.segments != [] && Distance(image) != 0
    requires 0x1000 * PageAbove(image) < Window(Distance(image))
    ensures PageUp(image.highest) < DirectBytes(DirectBase(image))
    ensures var r, base := AboveKernel(image, noExecute, huge), Distance(image);
      && (Good(r) <==> base % 0x1000 == 0 && InOneHalf(base + 0x1000 * PageAbove(image), base + Window(base)))
      && (Good(r) ==> r.virtual == base + 0x1000 * PageAbove(image))
      && (Good(r) ==> r.bytes == Window(base) - 0x1000 * PageAbove(image))
      && (Good(r) ==> forall w: u64 :: Contains(r, w) <==> Above(image, w))
  {
    hide DirectFlags, FlagsAccepted, Good, DirectBase, PageDown, PageUp, AsAsked, Distance, DirectBytes;
    DirectNumbers(image);
    PlannedFlags(image.segments[0], noExecute, huge, 0);
    var r, base := AboveKernel(image, noExecute, huge), Distance(image);
    var above := PageAbove(image);
    WindowEnds(base, above);
    if base % 0x1000 == 0 {
      RangeFits(r);
    } else {
      NotAligned(r);
    }
    forall w: u64
      ensures base % 0x1000 == 0 ==> (Contains(r, w) <==> Above(image, w))
    {
      PagesBefore(w - base, above);
    }
  }

  lemma WindowEnds(base: u64, above: int)
    requires base != 0 && 0 <= above && 0x1000 * above < Window(base)
    ensures base % 0x1000 == 0 ==>
      && (base + 0x1000 * above) % 0x1_0000_0000_0000_0000 == base + 0x1000 * above
      && base + Window(base) <= 0xFFFF_FFFF_FFFF_F000 && Window(base) % 0x1000 == 0
      && (base + 0x1000 * above) % 0x1000 == 0
    ensures base % 0x1000 != 0 ==> (base + 0x1000 * above) % 0x1_0000_0000_0000_0000 % 0x1000 != 0
  {
    var sum := base + 0x1000 * above;
    if sum < U64_LIMIT {
      DivisionIs(sum, 0x1_0000_0000_0000_0000, 0, sum);
    } else {
      DivisionIs(sum, 0x1_0000_0000_0000_0000, 1, sum - U64_LIMIT);
    }
  }

  // ----- the whole plan -----

  ghost predicate Disjoint(a: Range, b: Range) {
    forall w: u64 :: Contains(a, w) ==> !Contains(b, w)
  }

  /** One more range fits if it is good and apart from those before. */
  lemma FitsWith(plan: seq<Range>, r: Range)
    ensures PlanFits(plan + [r]) <==>
      PlanFits(plan) && Good(r) && forall i :: 0 <= i < |plan| ==> Disjoint(plan[i], r)
  {
    hide Accepted, OneHalf, Contains, Canonical;
    var all := plan + [r];
    assert all[|plan|] == r;
    if PlanFits(all) {
      StartFits(plan, [r]);
      LastIsAccepted(plan, r);
      forall i, w: u64 | 0 <= i < |plan| && Contains(plan[i], w)
        ensures !Contains(r, w)
      {
        PlannedIsCanonical(plan[i], w);
      }
    }
    if PlanFits(plan) && Good(r) && forall i :: 0 <= i < |plan| ==> Disjoint(plan[i], r) {
      forall i | 0 <= i < |all|
        ensures Accepted(all[i]) && OneHalf(all[i])
      {
        assert i < |plan| ==> all[i] == plan[i];
      }
      forall i, j, w: u64 | 0 <= i < j < |all| && Canonical(w) && Contains(all[i], w)
        ensures !Contains(all[j], w)
      {
        assert all[i] == plan[i];
        if j < |plan| {
          assert all[j] == plan[j];
        } else {
          assert Disjoint(plan[i], r);
        }
      }
    }
  }

  lemma IdentityFits(huge: bool)
    ensures PlanFits([IdentityRange(huge)])
    ensures forall w: u64 :: Contains(IdentityRange(huge), w) <==> w < 0x1_0000_0000
  {
    RangeFits(IdentityRange(huge));
  }

  /** Low memory and the direct map. */
  lemma FirstFits(image: Image, noExecute: bool, huge: bool)
    requires image.segments != []
    ensures PlanFits([IdentityRange(huge)] + DirectPlan(image, noExecute, huge)) <==>
      && DirectFits(Distance(image), PagesBelow(image), PageAbove(image))
      && forall w: u64 :: Below(image, w) || Above(image, w) ==> w >= 0x1_0000_0000
  {
    hide PlanFits, Good, Contains, DirectBase, DirectBytes, PageDown, PageUp, Distance;
    DirectNumbers(image);
    var base, below, above := Distance(image), PagesBelow(image), PageAbove(image);
    var identity := [IdentityRange(huge)];
    IdentityFits(huge);
    if base == 0 {
      assert identity + [] == identity;
    } else {
      var first := if below > 0 then [BelowKernel(image, noExecute, huge)] else [];
      var second := if 0x1000 * above < Window(base) then [AboveKernel(image, noExecute, huge)] else [];
      assert identity + DirectPlan(image, noExecute, huge) == identity + first + second;
      assert identity + [] == identity;
      assert identity + first + [] == identity + first;
      if below > 0 {
        FitsWith(identity, first[0]);
        assert identity[0] == IdentityRange(huge);
        BelowFits(image, noExecute, huge);
      }
      if 0x1000 * above < Window(base) {
        var r := AboveKernel(image, noExecute, huge);
        FitsAfter(identity[0], first, r);
        AboveFits(image, noExecute, huge);
        if below > 0 && Good(first[0]) && Good(r) {
          AroundIsDisjoint(image, noExecute, huge);
        }
      } else {
        NoneAbove(image);
      }
    }
  }

  /** After one range, and perhaps one more. */
  lemma FitsAfter(a: Range, more: seq<Range>, r: Range)
    requires |more| <= 1
    ensures PlanFits([a] + more + [r]) <==>
      PlanFits([a] + more) && Good(r) && Disjoint(a, r) && (more != [] ==> Disjoint(more[0], r))
  {
    hide PlanFits, Good, Disjoint;
    var plan := [a] + more;
    FitsWith(plan, r);
    assert plan[0] == a && (more != [] ==> plan[1] == more[0]);
  }

  lemma NoneAbove(image: Image)
    requires image.segments != []
    requires Distance(image) == 0 || 0x1000 * PageAbove(image) >= Window(Distance(image))
    ensures forall w: u64 :: !Above(image, w)
  {
    hide Distance;
    forall w: u64
      ensures !Above(image, w)
    {
      PagesBefore(w - Distance(image), PageAbove(image));
    }
  }

  lemma AroundIsDisjoint(image: Image, noExecute: bool, huge: bool)
    requires image.segments != [] && Distance(image) != 0 && PagesBelow(image) > 0
    requires 0x1000 * PageAbove(image) < Window(Distance(image))
    requires PageUp(image.highest) < DirectBytes(DirectBase(image))
    requires Good(BelowKernel(image, noExecute, huge)) && Good(AboveKernel(image, noExecute, huge))
    ensures Disjoint(BelowKernel(image, noExecute, huge), AboveKernel(image, noExecute, huge)) <==>
      PagesBelow(image) <= PageAbove(image)
  {
    hide Contains, DirectBase, DirectBytes, PageDown, PageUp, Distance;
    BelowFits(image, noExecute, huge);
    AboveFits(image, noExecute, huge);
    DirectNumbers(image);
    var first: u64 := Distance(image) + 0x1000 * PageAbove(image);
    PagesBefore(first - Distance(image), PagesBelow(image));
    assert Above(image, first);
  }

  /** A range and a segment have no page in common. */
  ghost predicate Clear(r: Range, s: Segment) {
    forall w: u64 :: Contains(r, w) ==> !Meets(s, w)
  }

  lemma ClearIsDisjoint(r: Range, s: Segment, noExecute: bool, huge: bool)
    requires s.Sound() && Fits(s)
    ensures Clear(r, s) <==> Disjoint(r, SegmentRange(s, noExecute, huge))
  {
    hide Contains, Meets, SegmentRange, Fits;
    forall w: u64
      ensures Contains(SegmentRange(s, noExecute, huge), w) <==> Meets(s, w)
    {
      SegmentMeets(s, noExecute, huge, w);
    }
  }

  lemma OtherPagesAreClear(s: Segment, t: Segment, noExecute: bool, huge: bool)
    requires s.Sound() && Fits(s) && t.Sound()
    ensures OtherPages(s, t) <==> Clear(SegmentRange(s, noExecute, huge), t)
  {
    hide Contains, SegmentRange, Fits;
    forall w: u64
      ensures Contains(SegmentRange(s, noExecute, huge), w) <==> Meets(s, w)
    {
      SegmentMeets(s, noExecute, huge, w);
    }
    var v: u64 := if s.virtualAddress < t.virtualAddress then t.virtualAddress else s.virtualAddress;
    assert (Meets(s, v) && Meets(t, v)) || OtherPages(s, t);
  }

  /** Segments that fit, each apart from some ranges and from the other segments. */
  ghost predicate SegmentsGood(before: seq<Range>, segments: seq<Segment>) {
    && (forall s :: s in segments && Elsewhere(s) ==> Fits(s))
    && (forall i, s :: 0 <= i < |before| && s in segments && Elsewhere(s) ==> Clear(before[i], s))
    && (forall i, j :: 0 <= i < j < |segments| && Elsewhere(segments[i]) && Elsewhere(segments[j]) ==>
          OtherPages(segments[i], segments[j]))
  }

  lemma {:induction false} SegmentsFit(before: seq<Range>, segments: seq<Segment>, noExecute: bool, huge: bool)
    requires AllSound(segments)
    ensures PlanFits(before + SegmentPlan(segments, noExecute, huge)) <==>
      PlanFits(before) && SegmentsGood(before, segments)
  {
    hide PlanFits, Fits, Clear, OtherPages, SegmentRange, Good, Disjoint;
    if segments == [] {
      assert before + [] == before;
    } else {
      var rest, last := segments[..|segments| - 1], segments[|segments| - 1];
      var plan := before + SegmentPlan(rest, noExecute, huge);
      SegmentsFit(before, rest, noExecute, huge);
      GoodWithLast(before, segments);
      if Elsewhere(last) {
        var r := SegmentRange(last, noExecute, huge);
        assert before + SegmentPlan(segments, noExecute, huge) == plan + [r];
        FitsWith(plan, r);
        SegmentFits(last, noExecute, huge);
        if Good(r) && SegmentsGood(before, rest) {
          LastApart(before, rest, last, noExecute, huge);
        }
      } else {
        assert before + SegmentPlan(segments, noExecute, huge) == plan;
      }
    }
  }

  /** What the last segment adds to what must hold. */
  ghost predicate LastGood(before: seq<Range>, rest: seq<Segment>, last: Segment) {
    && (forall i :: 0 <= i < |before| ==> Clear(before[i], last))
    && (forall j :: 0 <= j < |rest| && Elsewhere(rest[j]) ==> OtherPages(rest[j], last))
  }

  lemma GoodWithLast(before: seq<Range>, segments: seq<Segment>)
    requires segments != []
    ensures var rest, last := segments[..|segments| - 1], segments[|segments| - 1];
      SegmentsGood(before, segments) <==>
        SegmentsGood(before, rest) && (Elsewhere(last) ==> Fits(last) && LastGood(before, rest, last))
  {
    hide Fits, Clear, OtherPages, Elsewhere;
    var rest, last := segments[..|segments| - 1], segments[|segments| - 1];
    assert forall s :: s in segments <==> s in rest || s == last;
    assert forall j :: 0 <= j < |rest| ==> rest[j] == segments[j];
  }

  lemma LastApart(before: seq<Range>, rest: seq<Segment>, last: Segment, noExecute: bool, huge: bool)
    requires AllSound(rest) && SegmentsGood(before, rest) && last.Sound() && Fits(last)
    ensures var plan := before + SegmentPlan(rest, noExecute, huge);
      LastGood(before, rest, last) <==>
        forall i :: 0 <= i < |plan| ==> Disjoint(plan[i], SegmentRange(last, noExecute, huge))
  {
    hide Fits, Clear, OtherPages, SegmentRange, Disjoint;
    var plan, r := before + SegmentPlan(rest, noExecute, huge), SegmentRange(last, noExecute, huge);
    forall i | 0 <= i < |plan|
      ensures LastGood(before, rest, last) ==> Disjoint(plan[i], r)
    {
      ClearIsDisjoint(plan[i], last, noExecute, huge);
      if i >= |before| {
        var j := PlannedBySegment(rest, noExecute, huge, i - |before|);
        OtherPagesAreClear(rest[j], last, noExecute, huge);
      }
    }
    forall i | 0 <= i < |before|
      ensures Disjoint(plan[i], r) ==> Clear(before[i], last)
    {
      ClearIsDisjoint(plan[i], last, noExecute, huge);
    }
    forall j | 0 <= j < |rest| && Elsewhere(rest[j])
      ensures (forall i :: 0 <= i < |plan| ==> Disjoint(plan[i], r)) ==> OtherPages(rest[j], last)
    {
      var i := SegmentPlanned(rest, noExecute, huge, j);
      assert plan[|before| + i] == SegmentRange(rest[j], noExecute, huge);
      ClearIsDisjoint(plan[|before| + i], last, noExecute, huge);
      OtherPagesAreClear(rest[j], last, noExecute, huge);
    }
  }

  /** The ranges of an image can be mapped exactly if the image is mappable. */
  lemma PlanFitsExactly(image: Image, noExecute: bool, huge: bool)
    requires image.segments != [] && AllSound(image.segments)
    ensures PlanFits(Plan(image, noExecute, huge)) <==> Mappable(image)
  {
    hide PlanFits, DirectPlan, SegmentPlan, Fits, OtherPages, Meets, Below, Above, DirectFits, Contains;
    var before := [IdentityRange(huge)] + DirectPlan(image, noExecute, huge);
    FirstFits(image, noExecute, huge);
    SegmentsFit(before, image.segments, noExecute, huge);
    if PlanFits(before) {
      forall s | s in image.segments && Elsewhere(s)
        ensures (forall i :: 0 <= i < |before| ==> Clear(before[i], s)) <==>
          forall w: u64 :: Meets(s, w) ==> w >= 0x1_0000_0000 && !Below(image, w) && !Above(image, w)
      {
        ClearOfFirst(image, noExecute, huge, s);
      }
    }
  }

  /** What low memory and the direct map contain. */
  lemma FirstContains(image: Image, noExecute: bool, huge: bool, w: u64)
    requires image.segments != []
    requires PlanFits([IdentityRange(huge)] + DirectPlan(image, noExecute, huge))
    ensures var before := [IdentityRange(huge)] + DirectPlan(image, noExecute, huge);
      (exists i :: 0 <= i < |before| && Contains(before[i], w)) <==>
        w < 0x1_0000_0000 || Below(image, w) || Above(image, w)
  {
    hide Contains, DirectBase, DirectBytes, PageDown, PageUp, Distance, NoOverlap, Accepted, OneHalf;
    DirectNumbers(image);
    var before := [IdentityRange(huge)] + DirectPlan(image, noExecute, huge);
    var base, below, above := Distance(image), PagesBelow(image), PageAbove(image);
    IdentityFits(huge);
    if base != 0 && below > 0 {
      BelowFits(image, noExecute, huge);
      assert before[1] == BelowKernel(image, noExecute, huge);
    }
    if base != 0 && 0x1000 * above < Window(base) {
      AboveFits(image, noExecute, huge);
      assert before[|before| - 1] == AboveKernel(image, noExecute, huge);
      assert Good(AboveKernel(image, noExecute, huge));
    } else {
      NoneAbove(image);
    }
    assert before[0] == IdentityRange(huge);
  }

  lemma ClearOfFirst(image: Image, noExecute: bool, huge: bool, s: Segment)
    requires image.segments != []
    requires PlanFits([IdentityRange(huge)] + DirectPlan(image, noExecute, huge))
    ensures var before := [IdentityRange(huge)] + DirectPlan(image, noExecute, huge);
      (forall i :: 0 <= i < |before| ==> Clear(before[i], s)) <==>
        forall w: u64 :: Meets(s, w) ==> w >= 0x1_0000_0000 && !Below(image, w) && !Above(image, w)
  {
    hide Contains, DirectPlan, PlanFits, Below, Above, Meets;
    var before := [IdentityRange(huge)] + DirectPlan(image, noExecute, huge);
    forall i, w: u64 | 0 <= i < |before| && Contains(before[i], w)
      ensures w < 0x1_0000_0000 || Below(image, w) || Above(image, w)
    {
      FirstContains(image, noExecute, huge, w);
    }
    if forall i :: 0 <= i < |before| ==> Clear(before[i], s) {
      forall w: u64 | Meets(s, w)
        ensures w >= 0x1_0000_0000 && !Below(image, w) && !Above(image, w)
      {
        FirstContains(image, noExecute, huge, w);
        assert forall i :: 0 <= i < |before| ==> Clear(before[i], s) && !Contains(before[i], w);
      }
    }
  }

  // ----- what the processor finds -----

  /** Tables that mean the planned ranges show the kernel just that. */
  lemma PlanIsSeen(m: seq<u64>, root: int, image: Image, noExecute: bool, huge: bool)
    requires image.segments != [] && AllSound(image.segments)
    requires Means(m, root, Plan(image, noExecute, huge)) && Obeyed(m, root, huge)
    ensures KernelSees(m, root, image, noExecute, huge)
  {
    hide Means, Plan, Obeyed, SeenAt, Reaches;
    forall w: u64
      ensures SeenAt(image, noExecute, w, Reaches(Features(noExecute, huge), m, root, w))
    {
      PlanIsSeenAt(m, root, image, noExecute, huge, w);
    }
  }

  lemma PlanIsSeenAt(m: seq<u64>, root: int, image: Image, noExecute: bool, huge: bool, w: u64)
    requires image.segments != [] && AllSound(image.segments)
    requires Means(m, root, Plan(image, noExecute, huge)) && Obeyed(m, root, huge)
    ensures SeenAt(image, noExecute, w, Reaches(Features(noExecute, huge), m, root, w))
  {
    hide Means, Obeyed, Reaches, PlanFits, Contains, Meets, SegmentAccess, Below, Above, Distance, Plan, InSegment;
    var f, plan := Features(noExecute, huge), Plan(image, noExecute, huge);
    MeansFits(m, root, plan);
    if Reaches(f, m, root, w).Some? {
      OnlyPlanned(f, m, root, plan, huge, w);
      var i :| 0 <= i < |plan| && Contains(plan[i], w);
      PlannedIsNamed(image, noExecute, huge, i, w);
    }
    if w < 0x1_0000_0000 {
      LowIsSeen(m, root, image, noExecute, huge, w);
    }
    if Below(image, w) || Above(image, w) {
      DirectIsSeen(m, root, image, noExecute, huge, w);
    }
    forall s | s in image.segments && Elsewhere(s) && Meets(s, w)
      ensures Reaches(f, m, root, w) == Some(SegmentAccess(s, w, noExecute))
    {
      SegmentIsSeen(m, root, image, noExecute, huge, s, w);
    }
    if InSegment(image, w) {
      var s := SegmentOf(image, w);
      SegmentIsSeen(m, root, image, noExecute, huge, s, w);
    }
  }

  lemma SegmentOf(image: Image, w: int) returns (s: Segment)
    requires InSegment(image, w)
    ensures s in image.segments && Elsewhere(s) && Meets(s, w)
  {
    s :| s in image.segments && Elsewhere(s) && Meets(s, w);
  }

  lemma PlannedIsGood(plan: seq<Range>, i: nat)
    requires PlanFits(plan) && i < |plan|
    ensures Good(plan[i])
  {
  }

  /** Whatever a planned range contains is low memory, memory around the image, or in a
      segment. */
  lemma PlannedIsNamed(image: Image, noExecute: bool, huge: bool, i: nat, w: u64)
    requires image.segments != [] && AllSound(image.segments) && PlanFits(Plan(image, noExecute, huge))
    requires i < |Plan(image, noExecute, huge)| && Contains(Plan(image, noExecute, huge)[i], w)
    ensures w < 0x1_0000_0000 || Below(image, w) || Above(image, w) || InSegment(image, w)
  {
    hide PlanFits, Contains, Meets, Below, Above, DirectPlan, SegmentPlan, SegmentRange, Fits, Good;
    var before := [IdentityRange(huge)] + DirectPlan(image, noExecute, huge);
    var plan := Plan(image, noExecute, huge);
    StartFits(before, SegmentPlan(image.segments, noExecute, huge));
    if i < |before| {
      assert plan[i] == before[i];
      FirstContains(image, noExecute, huge, w);
    } else {
      var j := PlannedBySegment(image.segments, noExecute, huge, i - |before|);
      var s := image.segments[j];
      assert s in image.segments && plan[i] == SegmentRange(s, noExecute, huge);
      PlannedIsGood(plan, i);
      SegmentFits(s, noExecute, huge);
      SegmentMeets(s, noExecute, huge, w);
    }
  }

  lemma AccessAt(f: Features, m: seq<u64>, root: int, plan: seq<Range>, huge: bool, i: nat, w: u64, physical: int)
    requires Means(m, root, plan) && Obeyed(m, root, huge) && (huge ==> f.gigabytePages)
    requires i < |plan| && Contains(plan[i], w) && physical == plan[i].physical + (w - plan[i].virtual)
    ensures Reaches(f, m, root, w) == AsAsked(f, physical % 0x10_0000_0000_0000, plan[i].flags)
  {
    hide Means, Obeyed, Reaches, AsAsked, Contains;
    PlannedAccess(f, m, root, plan, huge, i, w);
  }

  /** The loader's own memory stays where it is. */
  lemma LowIsSeen(m: seq<u64>, root: int, image: Image, noExecute: bool, huge: bool, w: u64)
    requires image.segments != [] && Means(m, root, Plan(image, noExecute, huge)) && Obeyed(m, root, huge)
    requires w < 0x1_0000_0000
    ensures Reaches(Features(noExecute, huge), m, root, w) == Some(Access(w, true, false, true))
  {
    hide Means, Obeyed, Reaches, AsAsked, DirectPlan, SegmentPlan, PlanFits, Contains;
    var plan := Plan(image, noExecute, huge);
    assert plan[0] == IdentityRange(huge);
    IdentityFits(huge);
    DivisionIs(w, 0x10_0000_0000_0000, 0, w);
    AccessAt(Features(noExecute, huge), m, root, plan, huge, 0, w, w);
    PlannedFlags(image.segments[0], noExecute, huge, w % 0x10_0000_0000_0000);
  }

  /** Where the two parts of the direct map are in the plan. */
  lemma BelowIsPlanned(image: Image, noExecute: bool, huge: bool)
    requires image.segments != [] && Distance(image) != 0 && PagesBelow(image) > 0
    ensures |Plan(image, noExecute, huge)| > 1 && Plan(image, noExecute, huge)[1] == BelowKernel(image, noExecute, huge)
  {
    hide SegmentPlan, AboveKernel, BelowKernel, DirectBytes;
    DirectNumbers(image);
    assert DirectPlan(image, noExecute, huge)[0] == BelowKernel(image, noExecute, huge);
  }

  lemma AboveIsPlanned(image: Image, noExecute: bool, huge: bool) returns (i: nat)
    requires image.segments != [] && Distance(image) != 0
    requires PageUp(image.highest) < DirectBytes(DirectBase(image))
    ensures i < |Plan(image, noExecute, huge)|
    ensures Plan(image, noExecute, huge)[i] == AboveKernel(image, noExecute, huge)
  {
    hide SegmentPlan, AboveKernel, BelowKernel, DirectBytes;
    DirectNumbers(image);
    i := |DirectPlan(image, noExecute, huge)|;
    assert DirectPlan(image, noExecute, huge)[i - 1] == AboveKernel(image, noExecute, huge);
  }

  /** The kernel finds physical memory, around its own image, at one distance. */
  lemma DirectIsSeen(m: seq<u64>, root: int, image: Image, noExecute: bool, huge: bool, w: u64)
    requires image.segments != [] && Means(m, root, Plan(image, noExecute, huge)) && Obeyed(m, root, huge)
    requires Below(image, w) || Above(image, w)
    ensures Reaches(Features(noExecute, huge), m, root, w) ==
      Some(Access((w - Distance(image)) % 0x10_0000_0000_0000, true, false, !noExecute))
  {
    hide Means, Obeyed, Reaches, AsAsked, Contains, PageUp, PageDown, Distance, PlanFits, Plan, DirectFlags;
    hide DirectBase, DirectBytes, Good;
    var f, plan := Features(noExecute, huge), Plan(image, noExecute, huge);
    MeansFits(m, root, plan);
    DirectNumbers(image);
    PlannedFlags(image.segments[0], noExecute, huge, (w - Distance(image)) % 0x10_0000_0000_0000);
    if Below(image, w) {
      BelowFits(image, noExecute, huge);
      BelowIsPlanned(image, noExecute, huge);
      AccessAt(f, m, root, plan, huge, 1, w, w - Distance(image));
    } else {
      WindowHolds(w - Distance(image), PageAbove(image), Window(Distance(image)));
      AboveFits(image, noExecute, huge);
      var i := AboveIsPlanned(image, noExecute, huge);
      PlannedIsGood(plan, i);
      AccessAt(f, m, root, plan, huge, i, w, w - Distance(image));
    }
  }

  lemma WindowHolds(p: int, above: int, window: int)
    requires above <= p / 0x1000 && p < window
    ensures 0x1000 * above < window
  {
  }

  lemma SegmentIsSeen(m: seq<u64>, root: int, image: Image, noExecute: bool, huge: bool, s: Segment, w: u64)
    requires image.segments != [] && Means(m, root, Plan(image, noExecute, huge)) && Obeyed(m, root, huge)
    requires s in image.segments && s.Sound() && Elsewhere(s) && Meets(s, w)
    ensures Reaches(Features(noExecute, huge), m, root, w) == Some(SegmentAccess(s, w, noExecute))
  {
    hide Means, Obeyed, Reaches, AsAsked, Contains, PlanFits, SegmentRange, DirectPlan, SegmentPlan, Good, Fits, Meets;
    hide SegmentFlags;
    var f, plan := Features(noExecute, huge), Plan(image, noExecute, huge);
    var j :| 0 <= j < |image.segments| && image.segments[j] == s;
    var at := SegmentPlanned(image.segments, noExecute, huge, j);
    var i := 1 + |DirectPlan(image, noExecute, huge)| + at;
    assert plan[i] == SegmentRange(s, noExecute, huge);
    MeansFits(m, root, plan);
    PlannedIsGood(plan, i);
    SegmentFits(s, noExecute, huge);
    SegmentMeets(s, noExecute, huge, w);
    SegmentBytes(s, noExecute, huge);
    PlannedAccess(f, m, root, plan, huge, i, w);
    PlannedFlags(s, noExecute, huge, SegmentAccess(s, w, noExecute).physical);
  }

  // ----- the tables it takes -----

  /** Blocks are counted alike by all the bits of an address and by its low 48. */
  lemma BlocksSpanned(r: Range)
    requires Good(r)
    ensures TablesFor(r) == TablesSpanned(r.virtual, r.virtual + r.bytes - 1, Agrees(r))
  {
    StartAndEnd(r);
    BlocksAre(r, 2, 0x20_0000, 0x800_0000);
    BlocksAre(r, 3, 0x4000_0000, 0x4_0000);
    BlocksAre(r, 4, 0x80_0000_0000, 0x200);
    hide Agrees, Good, Blocks;
  }

  lemma BlocksAre(r: Range, level: int, span: int, count: int)
    requires Good(r) && r.bytes > 0
    requires (level == 2 && span == 0x20_0000) || (level == 3 && span == 0x4000_0000) ||
      (level == 4 && span == 0x80_0000_0000)
    requires span * count == 0x1_0000_0000_0000
    ensures Blocks(r, level) == (r.virtual + r.bytes - 1) / span - r.virtual / span + 1
  {
    hide Good, Start;
    StartAndEnd(r);
    var lap := r.virtual / 0x1_0000_0000_0000;
    BlockOnLap(r.virtual, lap, span, count);
    BlockOnLap(r.virtual + r.bytes - 1, lap, span, count);
    BlockOfIs(Start(r), level, span);
    BlockOfIs(Start(r) + r.bytes - 1, level, span);
  }

  lemma BlockOfIs(x: nat, level: int, span: int)
    requires (level == 2 && span == 0x20_0000) || (level == 3 && span == 0x4000_0000) ||
      (level == 4 && span == 0x80_0000_0000)
    ensures BlockOf(x, level) == x / span
  {
  }

  lemma StartAndEnd(r: Range)
    requires Good(r)
    ensures r.bytes > 0 && Start(r) == r.virtual % 0x1_0000_0000_0000
    ensures (r.virtual + r.bytes - 1) % 0x1_0000_0000_0000 == Start(r) + r.bytes - 1
    ensures (r.virtual + r.bytes - 1) / 0x1_0000_0000_0000 == r.virtual / 0x1_0000_0000_0000
  {
    hide Canonical, FlagsAccepted;
    StartIsFar(r, r.bytes - 1);
    SameLap(r);
  }

  lemma SameLap(r: Range)
    requires Good(r)
    ensures (r.virtual + r.bytes - 1) / 0x1_0000_0000_0000 == r.virtual / 0x1_0000_0000_0000
  {
    hide Canonical, FlagsAccepted;
    StartIsFar(r, r.bytes - 1);
    var lap, start := r.virtual / 0x1_0000_0000_0000, Start(r);
    CanonicalHalves(r.virtual);
    CanonicalHalves(r.virtual + r.bytes - 1);
    DivisionIs(r.virtual + r.bytes - 1, 0x1_0000_0000_0000, lap, start + r.bytes - 1);
  }

  lemma BlockOnLap(x: int, lap: int, span: int, count: int)
    requires x / 0x1_0000_0000_0000 == lap && span > 0 && span * count == 0x1_0000_0000_0000
    ensures x / span == x % 0x1_0000_0000_0000 / span + count * lap
  {
    var low := x % 0x1_0000_0000_0000;
    assert 0x1_0000_0000_0000 * lap == span * (count * lap);
    assert span * (low / span) + span * (count * lap) == span * (low / span + count * lap);
    DivisionIs(x, span, low / span + count * lap, low % span);
  }

  predicate SameBlocks(x: int, y: int) {
    x / 0x20_0000 == y / 0x20_0000 && x / 0x4000_0000 == y / 0x4000_0000 && x / 0x80_0000_0000 == y / 0x80_0000_0000
  }

  /** Blocks are whole pages. */
  lemma BlocksOfPages(x: nat)
    ensures SameBlocks(0x1000 * (x / 0x1000), x) && SameBlocks(0x1000 * (x / 0x1000) + 0xFFF, x)
  {
    var page := x / 0x1000;
    BlockOfPage(x, page, 0x20_0000, 0x200);
    BlockOfPage(x, page, 0x4000_0000, 0x4_0000);
    BlockOfPage(x, page, 0x80_0000_0000, 0x800_0000);
  }

  lemma BlockOfPage(x: nat, page: nat, span: int, pages: int)
    requires page == x / 0x1000 && pages > 0 && span == 0x1000 * pages
    ensures (0x1000 * page) / span == (0x1000 * page + 0xFFF) / span == x / span
  {
    var block, at := page / pages, page % pages;
    assert page == pages * block + at;
    assert 0x1000 * (pages * block) == span * block;
    DivisionIs(0x1000 * page, span, block, 0x1000 * at);
    DivisionIs(0x1000 * page + 0xFFF, span, block, 0x1000 * at + 0xFFF);
    DivisionIs(x, span, block, 0x1000 * at + x % 0x1000);
  }

  lemma SpannedAlike(first: int, last: int, first': int, last': int, inStep: bool, inStep': bool)
    requires SameBlocks(first, first') && SameBlocks(last, last') && (inStep' ==> inStep)
    ensures TablesSpanned(first, last, inStep) <= TablesSpanned(first', last', inStep')
  {
  }

  lemma SegmentSpans(s: Segment, noExecute: bool, huge: bool)
    requires s.Sound() && Fits(s)
    ensures SegmentRange(s, noExecute, huge).bytes > 0
    ensures TablesFor(SegmentRange(s, noExecute, huge)) <=
      TablesSpanned(s.virtualAddress, s.virtualAddress + s.memoryBytes - 1,
                    s.virtualAddress % 0x20_0000 == s.physicalAddress % 0x20_0000)
  {
    hide SegmentRange, Fits, TablesSpanned, TablesFor, Agrees, SameBlocks;
    var r := SegmentRange(s, noExecute, huge);
    SegmentFits(s, noExecute, huge);
    BlocksSpanned(r);
    SegmentBlocks(s, noExecute, huge);
    StepKept(s, noExecute, huge);
    SpannedAlike(r.virtual, r.virtual + r.bytes - 1, s.virtualAddress, s.virtualAddress + s.memoryBytes - 1,
      Agrees(r), s.virtualAddress % 0x20_0000 == s.physicalAddress % 0x20_0000);
  }

  lemma SegmentBlocks(s: Segment, noExecute: bool, huge: bool)
    requires s.Sound() && Fits(s)
    ensures var r, last := SegmentRange(s, noExecute, huge), s.virtualAddress + s.memoryBytes - 1;
      r.bytes > 0 && SameBlocks(r.virtual, s.virtualAddress) && SameBlocks(r.virtual + r.bytes - 1, last)
  {
    hide SegmentRange, SameBlocks;
    var last := s.virtualAddress + s.memoryBytes - 1;
    SegmentBytes(s, noExecute, huge);
    SegmentEnds(s.virtualAddress, s.physicalAddress, s.memoryBytes);
    PagesOf(s.virtualAddress, s.memoryBytes, 0);
    BlocksOfPages(s.virtualAddress);
    BlocksOfPages(last);
  }

  lemma StepKept(s: Segment, noExecute: bool, huge: bool)
    requires s.Sound()
    ensures s.virtualAddress % 0x20_0000 == s.physicalAddress % 0x20_0000 ==>
      Agrees(SegmentRange(s, noExecute, huge))
  {
    hide SegmentFlags, PageUp;
    InBlock(s.virtualAddress);
    InBlock(s.physicalAddress);
  }

  lemma InBlock(x: int)
    ensures (x - x % 0x1000) % 0x20_0000 == x % 0x20_0000 - x % 0x20_0000 % 0x1000
  {
    var block, at := x / 0x20_0000, x % 0x20_0000;
    DivisionIs(x, 0x1000, 0x200 * block + at / 0x1000, at % 0x1000);
    DivisionIs(x - x % 0x1000, 0x20_0000, block, at - at % 0x1000);
  }

  lemma IdentitySpans(huge: bool)
    ensures TablesFor(IdentityRange(huge)) == 7
  {
  }

  lemma BelowSpans(image: Image, noExecute: bool, huge: bool)
    requires image.segments != [] && Distance(image) != 0 && PagesBelow(image) > 0
    requires Good(BelowKernel(image, noExecute, huge))
    ensures var r, base := BelowKernel(image, noExecute, huge), Distance(image);
      r.bytes > 0 &&
      TablesFor(r) == TablesSpanned(base, base + 0x1000 * PagesBelow(image) - 1, base % 0x20_0000 == 0)
  {
    hide TablesFor, TablesSpanned, Distance, PageUp, PageDown, DirectBase, Good, DirectFlags;
    DirectNumbers(image);
    BlocksSpanned(BelowKernel(image, noExecute, huge));
  }

  lemma AboveSpans(image: Image, noExecute: bool, huge: bool)
    requires image.segments != [] && Distance(image) != 0
    requires 0x1000 * PageAbove(image) < Window(Distance(image))
    requires PageUp(image.highest) < DirectBytes(DirectBase(image))
    requires Good(AboveKernel(image, noExecute, huge))
    ensures var r, base := AboveKernel(image, noExecute, huge), Distance(image);
      r.bytes > 0 &&
      TablesFor(r) == TablesSpanned(base + 0x1000 * PageAbove(image), base + Window(base) - 1, base % 0x20_0000 == 0)
  {
    hide TablesFor, TablesSpanned, Distance, PageUp, PageDown, DirectBase, DirectBytes, Good, DirectFlags;
    DirectNumbers(image);
    AboveFits(image, noExecute, huge);
    BlocksSpanned(AboveKernel(image, noExecute, huge));
    InStepBy(Distance(image), 0x1000 * PageAbove(image));
  }

  lemma InStepBy(base: int, high: int)
    ensures (base + high) % 0x20_0000 == high % 0x20_0000 <==> base % 0x20_0000 == 0
  {
  }

  /** The first part of the plan takes no more tables than that. */
  lemma FirstTables(image: Image, noExecute: bool, huge: bool)
    requires image.segments != []
    requires PlanFits([IdentityRange(huge)] + DirectPlan(image, noExecute, huge))
    ensures TablesForPlan([IdentityRange(huge)] + DirectPlan(image, noExecute, huge)) ==
      7 + DirectTables(Distance(image), PagesBelow(image), PageAbove(image))
  {
    hide TablesFor, TablesSpanned, Distance, PageUp, PageDown, DirectBase, DirectBytes, Good, PlanFits, Window;
    hide BelowKernel, AboveKernel, IdentityRange, TablesForPlan;
    DirectNumbers(image);
    var base, below, above := Distance(image), PagesBelow(image), PageAbove(image);
    var identity, plan := [IdentityRange(huge)], [IdentityRange(huge)] + DirectPlan(image, noExecute, huge);
    var first := if base != 0 && below > 0 then [BelowKernel(image, noExecute, huge)] else [];
    IdentitySpans(huge);
    IdentityIsLong(huge);
    OneRange(IdentityRange(huge));
    PlanWithRange(identity, if first == [] then IdentityRange(huge) else first[0]);
    assert identity + [] == identity && identity + first + [] == identity + first;
    if base != 0 && below > 0 {
      assert plan[1] == first[0];
      PlannedIsGood(plan, 1);
      BelowSpans(image, noExecute, huge);
    }
    if base != 0 && 0x1000 * above < Window(base) {
      var second := AboveKernel(image, noExecute, huge);
      PlanWithRange(identity + first, second);
      assert plan == identity + first + [second];
      PlannedIsGood(plan, |plan| - 1);
      AboveSpans(image, noExecute, huge);
    } else {
      assert plan == identity + first;
    }
  }

  lemma IdentityIsLong(huge: bool)
    ensures IdentityRange(huge).bytes > 0
  {
  }

  lemma OneRange(r: Range)
    requires r.bytes > 0
    ensures TablesForPlan([r]) == TablesFor(r)
  {
    hide TablesFor;
    PlanWithRange([], r);
    assert [] + [r] == [r];
  }

  lemma {:induction false} SegmentsTables(before: seq<Range>, segments: seq<Segment>, noExecute: bool, huge: bool)
    requires AllSound(segments) && forall s :: s in segments && Elsewhere(s) ==> Fits(s)
    ensures TablesForPlan(before + SegmentPlan(segments, noExecute, huge)) <=
      TablesForPlan(before) + SegmentTables(segments)
  {
    hide TablesForPlan, TablesFor, TablesSpanned, SegmentRange, Fits;
    if segments == [] {
      assert before + [] == before;
    } else {
      var rest, last := segments[..|segments| - 1], segments[|segments| - 1];
      var plan, r := before + SegmentPlan(rest, noExecute, huge), SegmentRange(last, noExecute, huge);
      SegmentsTables(before, rest, noExecute, huge);
      if Elsewhere(last) {
        assert before + SegmentPlan(segments, noExecute, huge) == plan + [r];
        PlanWithRange(plan, r);
        SegmentSpans(last, noExecute, huge);
      } else {
        assert before + SegmentPlan(segments, noExecute, huge) == plan;
      }
    }
  }

  lemma ImageTables(image: Image, noExecute: bool, huge: bool)
    requires image.segments != [] && AllSound(image.segments) && Mappable(image)
    ensures TablesForPlan(Plan(image, noExecute, huge)) <= TablesForImage(image)
  {
    hide TablesForPlan, DirectTables, SegmentTables, PlanFits, DirectPlan, SegmentPlan, Fits, Distance;
    PlanFitsExactly(image, noExecute, huge);
    StartFits([IdentityRange(huge)] + DirectPlan(image, noExecute, huge), SegmentPlan(image.segments, noExecute, huge));
    FirstTables(image, noExecute, huge);
    SegmentsTables([IdentityRange(huge)] + DirectPlan(image, noExecute, huge), image.segments, noExecute, huge);
  }
}
