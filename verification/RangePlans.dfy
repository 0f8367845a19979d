/** Page tables that mean a list of ranges: they translate the addresses of the
    ranges, each as its range asks, and nothing else. */
module RangePlans {
  import opened Words
  import opened PageEntries
  import opened PageTree
  import opened AddressMap
  import opened PageBlocks
  import opened PageNeeds
  import opened Paging

  predicate Contains(r: Range, w: int) {
    r.virtual <= w < r.virtual + r.bytes
  }

  /** The addresses of the ranges are translated as their ranges ask. */
  ghost predicate Honours(m: seq<u64>, root: int, plan: seq<Range>) {
    && (forall i :: 0 <= i < |plan| ==> Accepted(plan[i]) && OneHalf(plan[i]))
    && (forall i, w: u64 {:trigger plan[i], Translation(m, root, w)} ::
          0 <= i < |plan| && Canonical(w) && Contains(plan[i], w) ==>
          Translation(m, root, w) == Some(Expected(plan[i], w - plan[i].virtual)))
  }

  /** No other address is translated. */
  ghost predicate NothingElse(m: seq<u64>, root: int, plan: seq<Range>) {
    forall w: u64 :: Translation(m, root, w).Some? ==> exists i :: 0 <= i < |plan| && Contains(plan[i], w)
  }

  ghost predicate NoOverlap(plan: seq<Range>) {
    forall i, j, w: u64 {:trigger Contains(plan[i], w), Contains(plan[j], w)} ::
      0 <= i < j < |plan| && Canonical(w) && Contains(plan[i], w) ==> !Contains(plan[j], w)
  }

  /** The tables translate the addresses of these ranges, each as its range asks,
      and no other address at all; and the ranges do not overlap. */
  ghost predicate Means(m: seq<u64>, root: int, plan: seq<Range>) {
    Honours(m, root, plan) && NothingElse(m, root, plan) && NoOverlap(plan)
  }

  lemma EmptyMeansNothing(m: seq<u64>, root: int)
    requires forall w: u64 :: Walk(m, root, LEVEL_ROOT, w) == None
    ensures Means(m, root, [])
  {
    hide Canonical;
    forall w: u64
      ensures Translation(m, root, w) == None
    {
      assert Walk(m, root, LEVEL_ROOT, w) == None;
    }
  }

  /** What a successful mapping did to one canonical address. */
  ghost predicate Added(m: seq<u64>, m': seq<u64>, root: int, r: Range)
    requires Accepted(r)
  {
    forall w: u64 {:trigger Translation(m', root, w)} {:trigger Contains(r, w)} :: Canonical(w) ==>
      if Contains(r, w)
      then Translation(m, root, w) == None && Translation(m', root, w) == Some(Expected(r, w - r.virtual))
      else Translation(m', root, w) == Translation(m, root, w)
  }

  lemma MapAddsRange(m: seq<u64>, m': seq<u64>, root: int, plan: seq<Range>, r: Range)
    requires Means(m, root, plan) && Accepted(r) && OneHalf(r)
    requires MapsPrefix(m, m', root, r, r.bytes)
    ensures Means(m', root, plan + [r])
  {
    hide Canonical, OneHalf, FlagsAccepted, MapsPrefix, Translation, Expected, Contains;
    hide Honours, NothingElse, NoOverlap;
    forall w: u64 | Canonical(w)
      ensures if Contains(r, w)
        then Translation(m, root, w) == None && Translation(m', root, w) == Some(Expected(r, w - r.virtual))
        else Translation(m', root, w) == Translation(m, root, w)
    {
      RangeAdded(m, m', root, r, w);
    }
    AddedIsHonoured(m, m', root, plan, r);
    AddedIsAll(m, m', root, plan, r);
    AddedIsApart(m, m', root, plan, r);
  }

  lemma AddedIsHonoured(m: seq<u64>, m': seq<u64>, root: int, plan: seq<Range>, r: Range)
    requires Honours(m, root, plan) && Accepted(r) && OneHalf(r) && Added(m, m', root, r)
    ensures Honours(m', root, plan + [r])
  {
    hide Canonical, OneHalf, FlagsAccepted, Translation, Expected, Contains;
    var plan' := plan + [r];
    forall i, w: u64 | 0 <= i < |plan'| && Canonical(w) && Contains(plan'[i], w)
      ensures Translation(m', root, w) == Some(Expected(plan'[i], w - plan'[i].virtual))
    {
      if i < |plan| {
        assert plan'[i] == plan[i];
        assert Translation(m, root, w) == Some(Expected(plan[i], w - plan[i].virtual));
      }
    }
  }

  lemma AddedIsAll(m: seq<u64>, m': seq<u64>, root: int, plan: seq<Range>, r: Range)
    requires NothingElse(m, root, plan) && Accepted(r) && Added(m, m', root, r)
    ensures NothingElse(m', root, plan + [r])
  {
    hide Canonical, FlagsAccepted, Translation, Expected, Contains;
    var plan' := plan + [r];
    forall w: u64 | Translation(m', root, w).Some?
      ensures exists i :: 0 <= i < |plan'| && Contains(plan'[i], w)
    {
      TranslationIsCanonical(m', root, w);
      if Contains(r, w) {
        assert plan'[|plan|] == r;
      } else {
        var i :| 0 <= i < |plan| && Contains(plan[i], w);
        assert plan'[i] == plan[i];
      }
    }
  }

  lemma AddedIsApart(m: seq<u64>, m': seq<u64>, root: int, plan: seq<Range>, r: Range)
    requires Honours(m, root, plan) && NoOverlap(plan) && Accepted(r) && Added(m, m', root, r)
    ensures NoOverlap(plan + [r])
  {
    hide Canonical, OneHalf, FlagsAccepted, Translation, Expected, Contains;
    var plan' := plan + [r];
    forall i, j, w: u64 | 0 <= i < j < |plan'| && Canonical(w) && Contains(plan'[i], w)
      ensures !Contains(plan'[j], w)
    {
      assert plan'[i] == plan[i];
      if j < |plan| {
        assert plan'[j] == plan[j];
      } else {
        assert Translation(m, root, w).Some?;
      }
    }
  }

  lemma RangeAdded(m: seq<u64>, m': seq<u64>, root: int, r: Range, w: u64)
    requires Accepted(r) && OneHalf(r) && MapsPrefix(m, m', root, r, r.bytes)
    requires Canonical(w)
    ensures if Contains(r, w)
      then Translation(m, root, w) == None && Translation(m', root, w) == Some(Expected(r, w - r.virtual))
      else Translation(m', root, w) == Translation(m, root, w)
  {
    hide Canonical, OneHalf, FlagsAccepted, MapsPrefix, Translation, Expected;
    MappedRange(m, m', root, r, r.bytes, w);
  }

  lemma TranslationIsCanonical(m: seq<u64>, root: int, w: u64)
    requires Translation(m, root, w).Some?
    ensures Canonical(w)
  {
  }

  // ----- plans that can be followed -----

  /** Every range is accepted, and they do not overlap. */
  ghost predicate PlanFits(plan: seq<Range>) {
    (forall i :: 0 <= i < |plan| ==> Accepted(plan[i]) && OneHalf(plan[i])) && NoOverlap(plan)
  }

  lemma MeansFits(m: seq<u64>, root: int, plan: seq<Range>)
    requires Means(m, root, plan)
    ensures PlanFits(plan)
  {
    hide Canonical, FlagsAccepted, Translation, Expected, Contains, Accepted, OneHalf, NoOverlap;
  }

  lemma StartFits(plan: seq<Range>, more: seq<Range>)
    requires PlanFits(plan + more)
    ensures PlanFits(plan)
  {
    hide Accepted, OneHalf, Contains, Canonical;
    var all := plan + more;
    forall i | 0 <= i < |plan|
      ensures plan[i] == all[i]
    {
    }
    forall i, j, w: u64 | 0 <= i < j < |plan| && Canonical(w) && Contains(plan[i], w)
      ensures !Contains(plan[j], w)
    {
      assert all[i] == plan[i] && all[j] == plan[j];
    }
  }

  lemma LastIsAccepted(plan: seq<Range>, r: Range)
    requires PlanFits(plan + [r])
    ensures Accepted(r) && OneHalf(r)
    ensures forall i, w: u64 :: 0 <= i < |plan| && Canonical(w) && Contains(plan[i], w) ==> !Contains(r, w)
  {
    hide Accepted, OneHalf, Contains, Canonical;
    var all := plan + [r];
    assert all[|plan|] == r;
    forall i, w: u64 | 0 <= i < |plan| && Canonical(w) && Contains(plan[i], w)
      ensures !Contains(r, w)
    {
      assert all[i] == plan[i];
    }
  }

  /** The canonical address with the same low 48 bits. */
  function CanonicalForm(w: u64): (c: u64) {
    var linear := w % 0x1_0000_0000_0000;
    if linear < 0x8000_0000_0000 then linear else linear + 0xFFFF_0000_0000_0000
  }

  lemma CanonicalFormIs(w: u64)
    ensures Canonical(CanonicalForm(w)) && CanonicalForm(w) % 0x1_0000_0000_0000 == w % 0x1_0000_0000_0000
  {
    CanonicalHalves(CanonicalForm(w));
  }

  /** Only the low 48 bits of an address are looked at. */
  lemma {:induction false} WalkOfLowBits(m: seq<u64>, table: int, level: Level, v: u64, w: u64)
    requires v % 0x1_0000_0000_0000 == w % 0x1_0000_0000_0000
    ensures Walk(m, table, level, v) == Walk(m, table, level, w)
    decreases level
  {
    SameSlot(v, w, level);
    IndexIsSlot(v, level);
    IndexIsSlot(w, level);
    hide Slot, IndexAt, Load;
    var content := Decode(Load(m, table, IndexAt(v, level)), level);
    if content.Link? {
      WalkOfLowBits(m, content.table, level - 1, v, w);
    }
  }

  lemma SameSlot(v: u64, w: u64, level: Level)
    requires v % 0x1_0000_0000_0000 == w % 0x1_0000_0000_0000
    ensures Slot(v, level) == Slot(w, level)
  {
  }

  lemma SameOffset(virtual: int, v: int, w: int)
    requires v % 0x1_0000_0000_0000 == w % 0x1_0000_0000_0000
    ensures OffsetIn(virtual, v) == OffsetIn(virtual, w)
  {
    var lap := v / 0x1_0000_0000_0000 - w / 0x1_0000_0000_0000;
    DivisionIs(v - virtual, 0x1_0000_0000_0000, (w - virtual) / 0x1_0000_0000_0000 + lap,
      (w - virtual) % 0x1_0000_0000_0000);
  }

  /** A range apart from those that are mapped is not mapped. */
  lemma ApartIsUnmapped(m: seq<u64>, root: int, plan: seq<Range>, r: Range)
    requires Means(m, root, plan) && PlanFits(plan + [r])
    ensures Unmapped(m, root, r)
  {
    hide Canonical, FlagsAccepted, Contains, Accepted, OneHalf, NoOverlap, Walk;
    hide OffsetIn, Honours, PlanFits, PageOffset;
    LastIsAccepted(plan, r);
    forall w: u64 | OffsetIn(r.virtual, w) < r.bytes
      ensures View(m, root, w) == None
    {
      var c := CanonicalForm(w);
      CanonicalFormIs(w);
      SameOffset(r.virtual, w, c);
      RangeContains(r, c);
      assert Translation(m, root, c) == None;
      WalkOfLowBits(m, root, LEVEL_ROOT, w, c);
    }
  }

  lemma RangeContains(r: Range, c: u64)
    requires Accepted(r) && OneHalf(r) && Canonical(c)
    ensures OffsetIn(r.virtual, c) < r.bytes <==> Contains(r, c)
  {
    OffsetIsDistance(r, c, r.bytes);
  }

  /** The tables a plan can take, besides the root. */
  function TablesForPlan(plan: seq<Range>): int {
    if plan == [] then 0
    else
      var last := plan[|plan| - 1];
      TablesForPlan(plan[..|plan| - 1]) + (if last.bytes > 0 then TablesFor(last) else 0)
  }

  lemma PlanWithRange(plan: seq<Range>, r: Range)
    ensures TablesForPlan(plan + [r]) == TablesForPlan(plan) + (if r.bytes > 0 then TablesFor(r) else 0)
  {
    assert (plan + [r])[..|plan|] == plan;
  }

  lemma {:induction false} PlanGrows(plan: seq<Range>, more: seq<Range>)
    ensures TablesForPlan(plan) <= TablesForPlan(plan + more)
    decreases |more|
  {
    hide TablesFor;
    if more == [] {
      assert plan + more == plan;
    } else {
      var rest, last := more[..|more| - 1], more[|more| - 1];
      PlanGrows(plan, rest);
      assert plan + more == (plan + rest) + [last];
      PlanWithRange(plan + rest, last);
      if last.bytes > 0 {
        TablesForIsPositive(last);
      }
    }
  }

  /** A range has used up no more of the arena than the tables it can take. */
  lemma TablesReckoned(base: int, used: int, used': int, r: Range, before: set<Node>, after: set<Node>)
    requires r.bytes > 0 && r.virtual + r.bytes < U64_LIMIT
    requires Grown(base, used, used', before, after) && AddedWithin(r, before, after)
    ensures AlignUp(base + used', 4096) <= AlignUp(base + used, 4096) + 4096 * TablesFor(r)
  {
    hide AlignUp, TablesFor;
    MoreNodes(before, after);
    AlignedStays(base + used, |after| - |before|);
  }
}
