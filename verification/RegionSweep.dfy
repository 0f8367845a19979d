/** The sweep over elementary intervals, as a function of the input and its
    boundaries; it computes the canonical form. */
module RegionSweep {
  import opened Words
  import opened RegionLists

  /** Strictly ascending. */
  ghost predicate Ascending(bs: seq<int>) {
    forall i, j :: 0 <= i < j < |bs| ==> bs[i] < bs[j]
  }

  /** The boundaries are the ends of the regions, all of them and nothing else. */
  ghost predicate BoundariesOf(bs: seq<int>, rs: seq<Region>) {
    && Ascending(bs)
    && (forall i :: 0 <= i < |rs| ==> rs[i].base in bs && rs[i].End() in bs)
    && (forall b :: b in bs ==> exists i :: 0 <= i < |rs| && (b == rs[i].base || b == rs[i].End()))
  }

  /** The kind interval_kind finds for an interval, going through the regions that
      contain all of it. */
  function IntervalKind(rs: seq<Region>, start: int, end: int): Option<Kind> {
    if rs == [] then None
    else
      var last := rs[|rs| - 1];
      var kind := IntervalKind(rs[..|rs| - 1], start, end);
      if last.base > start || last.End() < end then kind
      else if kind.None? || last.kind > kind.value then Some(last.kind)
      else kind
  }

  /** One interval added to the result: merged into the last region when it
      touches one of its kind, left out when nothing covers it. */
  function Extended(c: seq<Region>, start: u64, end: u64, kind: Option<Kind>): seq<Region>
    requires start < end
  {
    if kind.None? then c
    else if
      && c != [] && c[|c| - 1].kind == kind.value && c[|c| - 1].End() == start
      && c[|c| - 1].length + (end - start) < U64_LIMIT
    then
      c[..|c| - 1] + [c[|c| - 1].(length := c[|c| - 1].length + (end - start))]
    else c + [Region(start, end - start, kind.value)]
  }

  ghost predicate InWords(bs: seq<int>) {
    forall i :: 0 <= i < |bs| ==> 0 <= bs[i] < U64_LIMIT
  }

  /** The result after the first `n` intervals. */
  ghost function Sweep(rs: seq<Region>, bs: seq<int>, n: nat): seq<Region>
    requires n < |bs| && Ascending(bs) && InWords(bs)
  {
    if n == 0 then []
    else Extended(Sweep(rs, bs, n - 1), bs[n - 1], bs[n], IntervalKind(rs, bs[n - 1], bs[n]))
  }

  // ----- an elementary interval is wholly inside a region or wholly outside -----

  lemma {:induction false} IntervalIsUniform(all: seq<Region>, rs: seq<Region>, bs: seq<int>, n: nat, x: int)
    requires BoundariesOf(bs, all) && n + 1 < |bs| && bs[n] <= x < bs[n + 1]
    requires forall r :: r in rs ==> r in all
    ensures IntervalKind(rs, bs[n], bs[n + 1]) == KindAt(rs, x)
    decreases |rs|
  {
    hide BoundariesOf;
    if rs != [] {
      var rest, last := rs[..|rs| - 1], rs[|rs| - 1];
      assert last in rs;
      IntervalIsUniform(all, rest, bs, n, x);
      BoundaryOutside(all, bs, n, last);
    }
  }

  /** Where the two ends of a region are among the boundaries. */
  lemma EndsAmong(bs: seq<int>, all: seq<Region>, r: Region) returns (i: nat, j: nat)
    requires BoundariesOf(bs, all) && r in all
    ensures i < |bs| && bs[i] == r.base
    ensures j < |bs| && bs[j] == r.End()
  {
    var k :| 0 <= k < |all| && all[k] == r;
    assert all[k].base in bs && all[k].End() in bs;
    i :| 0 <= i < |bs| && bs[i] == r.base;
    j :| 0 <= j < |bs| && bs[j] == r.End();
  }

  lemma BoundariesAscend(bs: seq<int>, all: seq<Region>)
    requires BoundariesOf(bs, all)
    ensures Ascending(bs)
  {
  }

  lemma BoundaryOutside(all: seq<Region>, bs: seq<int>, n: nat, r: Region)
    requires BoundariesOf(bs, all) && n + 1 < |bs| && r in all
    ensures r.base <= bs[n] || bs[n + 1] <= r.base
    ensures r.End() <= bs[n] || bs[n + 1] <= r.End()
  {
    hide BoundariesOf;
    BoundariesAscend(bs, all);
    var i, j := EndsAmong(bs, all, r);
  }

  // ----- what the sweep has said so far -----

  /** `c` says what `rs` says of the bytes below `end`, and nothing of the rest. */
  ghost predicate SaysUpTo(c: seq<Region>, rs: seq<Region>, end: int) {
    forall x :: KindAt(c, x) == if x < end then KindAt(rs, x) else None
  }

  ghost predicate EndsBy(c: seq<Region>, end: int) {
    forall i :: 0 <= i < |c| ==> c[i].End() <= end
  }

  predicate Merges(c: seq<Region>, start: u64, kind: Option<Kind>) {
    kind.Some? && c != [] && c[|c| - 1].kind == kind.value && c[|c| - 1].End() == start
  }

  /** The last region, reaching on to `end`. */
  function Longer(c: seq<Region>, end: u64): Region
    requires c != [] && c[|c| - 1].base <= end
  {
    c[|c| - 1].(length := end - c[|c| - 1].base)
  }

  lemma ExtendedIs(c: seq<Region>, start: u64, end: u64, kind: Option<Kind>)
    requires start < end
    ensures Merges(c, start, kind) ==> Extended(c, start, end, kind) == c[..|c| - 1] + [Longer(c, end)]
    ensures !Merges(c, start, kind) && kind.Some? ==>
      Extended(c, start, end, kind) == c + [Region(start, end - start, kind.value)]
    ensures kind.None? ==> Extended(c, start, end, kind) == c
  {
  }

  lemma KindOfAppended(c: seq<Region>, r: Region, x: int)
    requires r.Covers(x) ==> KindAt(c, x) == None
    ensures KindAt(c + [r], x) == if r.Covers(x) then Some(r.kind) else KindAt(c, x)
  {
    assert (c + [r])[..|c|] == c;
  }

  lemma ExtendedKinds(c: seq<Region>, start: u64, end: u64, kind: Option<Kind>, x: int)
    requires start < end && CanonicalList(c) && EndsBy(c, start)
    ensures KindAt(Extended(c, start, end, kind), x) ==
      if start <= x < end then kind else KindAt(c, x)
  {
    hide Extended;
    ExtendedIs(c, start, end, kind);
    if start <= x {
      NothingAbove(c, x);
    }
    if Merges(c, start, kind) {
      var rest, last := c[..|c| - 1], c[|c| - 1];
      if last.base <= x {
        NothingAbove(rest, x);
      }
      KindOfAppended(rest, last, x);
      assert rest + [last] == c;
      KindOfAppended(rest, Longer(c, end), x);
    } else if kind.Some? {
      KindOfAppended(c, Region(start, end - start, kind.value), x);
    }
  }

  /** A list stays canonical when a region is put after it that touches no region
      of its kind. */
  lemma AppendedIsCanonical(c: seq<Region>, r: Region)
    requires CanonicalList(c) && r.Sound() && EndsBy(c, r.base)
    requires c != [] && c[|c| - 1].End() == r.base ==> c[|c| - 1].kind != r.kind
    ensures CanonicalList(c + [r])
  {
    var d := c + [r];
    forall i, j | 0 <= i < j < |d|
      ensures d[i].End() <= d[j].base
      ensures d[i].End() == d[j].base ==> d[i].kind != d[j].kind
    {
      assert d[i] == c[i];
      if j < |c| {
        assert d[j] == c[j];
      } else if i < |c| - 1 {
        assert c[i].End() <= c[|c| - 1].base && c[|c| - 1].Sound();
      }
    }
  }

  lemma ExtendedIsCanonical(c: seq<Region>, start: u64, end: u64, kind: Option<Kind>)
    requires start < end && CanonicalList(c) && EndsBy(c, start)
    ensures CanonicalList(Extended(c, start, end, kind)) && EndsBy(Extended(c, start, end, kind), end)
    ensures |Extended(c, start, end, kind)| <= |c| + 1
  {
    hide Extended, CanonicalList;
    ExtendedIs(c, start, end, kind);
    if Merges(c, start, kind) {
      CanonicalPrefix(c, |c| - 1);
      LastStandsApart(c);
      AppendedIsCanonical(c[..|c| - 1], Longer(c, end));
    } else if kind.Some? {
      AppendedIsCanonical(c, Region(start, end - start, kind.value));
    }
  }

  lemma LastStandsApart(c: seq<Region>)
    requires CanonicalList(c) && c != []
    ensures EndsBy(c[..|c| - 1], c[|c| - 1].base)
    ensures |c| > 1 && c[|c| - 2].End() == c[|c| - 1].base ==> c[|c| - 2].kind != c[|c| - 1].kind
  {
  }

  lemma {:induction false} SweepSays(rs: seq<Region>, bs: seq<int>, n: nat)
    requires BoundariesOf(bs, rs) && InWords(bs) && n < |bs|
    ensures Ascending(bs)
    ensures var c := Sweep(rs, bs, n);
      CanonicalList(c) && EndsBy(c, bs[n]) && SaysUpTo(c, rs, bs[n]) && |c| <= n
  {
    hide BoundariesOf, CanonicalList, KindAt, Extended, IntervalKind, EndsBy;
    BoundariesAscend(bs, rs);
    if n == 0 {
      NothingToSay(rs, bs);
    } else {
      SweepSays(rs, bs, n - 1);
      var c := Sweep(rs, bs, n - 1);
      var kind := IntervalKind(rs, bs[n - 1], bs[n]);
      ExtendedIsCanonical(c, bs[n - 1], bs[n], kind);
      forall x
        ensures KindAt(Sweep(rs, bs, n), x) == if x < bs[n] then KindAt(rs, x) else None
      {
        ExtendedKinds(c, bs[n - 1], bs[n], kind, x);
        if bs[n - 1] <= x < bs[n] {
          IntervalIsUniform(rs, rs, bs, n - 1, x);
        }
      }
    }
  }

  lemma NothingToSay(rs: seq<Region>, bs: seq<int>)
    requires BoundariesOf(bs, rs) && bs != []
    ensures CanonicalList([]) && EndsBy([], bs[0]) && SaysUpTo([], rs, bs[0])
  {
    hide BoundariesOf;
    forall x | x < bs[0]
      ensures KindAt(rs, x) == None
    {
      NothingBelow(rs, bs, x);
    }
  }

  lemma NothingBelow(rs: seq<Region>, bs: seq<int>, x: int)
    requires BoundariesOf(bs, rs) && bs != [] && x < bs[0]
    ensures KindAt(rs, x) == None
  {
    hide BoundariesOf, KindAt;
    KindAtIsGreatest(rs, x);
    BoundariesAscend(bs, rs);
    forall r | r in rs
      ensures !r.Covers(x)
    {
      var i, j := EndsAmong(bs, rs, r);
    }
  }

  lemma NothingPast(rs: seq<Region>, bs: seq<int>, x: int)
    requires BoundariesOf(bs, rs) && bs != [] && bs[|bs| - 1] <= x
    ensures KindAt(rs, x) == None
  {
    hide BoundariesOf, KindAt;
    KindAtIsGreatest(rs, x);
    BoundariesAscend(bs, rs);
    forall r | r in rs
      ensures !r.Covers(x)
    {
      var i, j := EndsAmong(bs, rs, r);
    }
  }

  /** The whole sweep is the canonical form of the input. */
  lemma SweepIsForm(rs: seq<Region>, bs: seq<int>)
    requires BoundariesOf(bs, rs) && InWords(bs) && bs != []
    ensures Ascending(bs)
    ensures IsFormOf(Sweep(rs, bs, |bs| - 1), rs)
    ensures |Sweep(rs, bs, |bs| - 1)| < |bs|
  {
    hide BoundariesOf, CanonicalList, KindAt, Sweep;
    SweepSays(rs, bs, |bs| - 1);
    forall x
      ensures KindAt(Sweep(rs, bs, |bs| - 1), x) == KindAt(rs, x)
    {
      if bs[|bs| - 1] <= x {
        NothingPast(rs, bs, x);
      }
    }
  }

  /** Going on only changes the last region, or adds more after it. */
  lemma {:induction false} SweepKeepsPrefix(rs: seq<Region>, bs: seq<int>, m: nat, n: nat)
    requires m <= n < |bs| && Ascending(bs) && InWords(bs)
    requires Sweep(rs, bs, m) != []
    ensures var c, d := Sweep(rs, bs, m), Sweep(rs, bs, n);
      |c| <= |d| && c[..|c| - 1] == d[..|c| - 1]
    decreases n
  {
    if m < n {
      SweepKeepsPrefix(rs, bs, m, n - 1);
    }
  }

  /** No more regions come out than there are gaps between boundaries. */
  lemma FormIsShort(rs: seq<Region>, bs: seq<int>, c: seq<Region>)
    requires BoundariesOf(bs, rs) && InWords(bs) && bs != [] && IsFormOf(c, rs)
    ensures |c| < |bs|
  {
    SweepIsForm(rs, bs);
    FormDependsOnKindsOnly(rs, rs, c, Sweep(rs, bs, |bs| - 1));
  }
}
