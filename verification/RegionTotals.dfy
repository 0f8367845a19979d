/** The total of a kind is the number of bytes of that kind. */
module RegionTotals {
  import opened Words
  import opened RegionLists

  function TotalOf(c: seq<Region>, kind: Kind): (total: nat) {
    if c == [] then 0
    else
      var last := c[|c| - 1];
      TotalOf(c[..|c| - 1], kind) + (if last.kind == kind then last.length else 0)
  }

  predicate Between(low: int, x: int, high: int) { low <= x < high }

  ghost function Interval(low: int, high: int): set<int> {
    set x | low <= x < high && Between(low, x, high)
  }

  lemma {:induction false} IntervalSize(low: int, high: int)
    requires low <= high
    ensures |Interval(low, high)| == high - low
    decreases high - low
  {
    if low == high {
      assert Interval(low, high) == {};
    } else {
      IntervalSize(low, high - 1);
      assert Interval(low, high) == Interval(low, high - 1) + {high - 1};
    }
  }

  /** The bytes of memory that are of a kind. */
  ghost function BytesOf(rs: seq<Region>, kind: Kind): set<int> {
    set x | 0 <= x < U64_LIMIT && KindAt(rs, x) == Some(kind)
  }

  /** In a canonical list nothing is counted twice. */
  lemma {:induction false} TotalCountsBytes(c: seq<Region>, kind: Kind)
    requires CanonicalList(c)
    ensures TotalOf(c, kind) == |BytesOf(c, kind)|
  {
    if c == [] {
      assert BytesOf(c, kind) == {};
    } else {
      var rest, last := c[..|c| - 1], c[|c| - 1];
      assert last.Sound();
      CanonicalPrefix(c, |c| - 1);
      TotalCountsBytes(rest, kind);
      LastAddsItsBytes(c, kind);
      IntervalSize(last.base, last.End());
    }
  }

  /** So a total of a canonical list is a number of bytes there can be. */
  lemma TotalFits(c: seq<Region>, kind: Kind)
    requires CanonicalList(c)
    ensures TotalOf(c, kind) < U64_LIMIT
  {
    TotalCountsBytes(c, kind);
    forall x | x in BytesOf(c, kind)
      ensures x in Interval(0, U64_LIMIT - 1)
    {
      KindAtIsGreatest(c, x);
    }
    IntervalSize(0, U64_LIMIT - 1);
    SubsetIsSmaller(BytesOf(c, kind), Interval(0, U64_LIMIT - 1));
  }

  lemma SubsetIsSmaller(a: set<int>, b: set<int>)
    requires a <= b
    ensures |a| <= |b|
  {
    assert b == a + (b - a);
  }

  /** Overlaps are counted twice, and can make a total that no word holds. */
  lemma TotalMayWrap()
    ensures var rs := [Region(0, U64_LIMIT - 1, USABLE), Region(0, U64_LIMIT - 1, USABLE)];
      AllSound(rs) && TotalOf(rs, USABLE) >= U64_LIMIT
  {
    var rs := [Region(0, U64_LIMIT - 1, USABLE), Region(0, U64_LIMIT - 1, USABLE)];
    assert rs[..1] == [rs[0]];
    assert TotalOf(rs[..1], USABLE) == U64_LIMIT - 1;
  }

  lemma LastAddsItsBytes(c: seq<Region>, kind: Kind)
    requires CanonicalList(c) && c != []
    ensures var rest, last := c[..|c| - 1], c[|c| - 1];
      if last.kind == kind
      then BytesOf(c, kind) == BytesOf(rest, kind) + Interval(last.base, last.End())
           && BytesOf(rest, kind) !! Interval(last.base, last.End())
      else BytesOf(c, kind) == BytesOf(rest, kind)
  {
    var rest, last := c[..|c| - 1], c[|c| - 1];
    assert last.Sound();
    forall x | last.Covers(x)
      ensures KindAt(rest, x) == None
    {
      NothingAbove(rest, x);
    }
  }

  /** The sum of the totals of the kinds below `n`. */
  function TotalBelow(c: seq<Region>, n: nat): nat
    requires n <= 8
  {
    if n == 0 then 0 else TotalBelow(c, n - 1) + TotalOf(c, n - 1)
  }

  ghost function BytesBelow(rs: seq<Region>, n: nat): set<int> {
    set x | 0 <= x < U64_LIMIT && KindAt(rs, x).Some? && KindAt(rs, x).value < n
  }

  lemma {:induction false} TotalBelowCounts(c: seq<Region>, n: nat)
    requires CanonicalList(c) && n <= 8
    ensures TotalBelow(c, n) == |BytesBelow(c, n)|
  {
    if n == 0 {
      assert BytesBelow(c, n) == {};
    } else {
      TotalBelowCounts(c, n - 1);
      TotalCountsBytes(c, n - 1);
      assert BytesBelow(c, n) == BytesBelow(c, n - 1) + BytesOf(c, n - 1);
      assert BytesBelow(c, n - 1) !! BytesOf(c, n - 1);
    }
  }

  /** What any of the regions covers. */
  ghost function Union(rs: seq<Region>): set<int> {
    set x | 0 <= x < U64_LIMIT && Covered(rs, x)
  }

  ghost predicate Covered(rs: seq<Region>, x: int) {
    exists r :: r in rs && r.Covers(x)
  }

  /** Whatever the overlaps in the input, the totals of its form add up to the
      size of its union. */
  lemma TotalsAddUpToUnion(rs: seq<Region>, c: seq<Region>)
    requires IsFormOf(c, rs)
    ensures TotalBelow(c, 8) == |Union(rs)|
  {
    TotalBelowCounts(c, 8);
    forall x
      ensures Covered(rs, x) <==> KindAt(c, x).Some?
    {
      assert KindAt(c, x) == KindAt(rs, x);
      KindAtIsGreatest(rs, x);
    }
    forall x | KindAt(c, x).Some?
      ensures KindAt(c, x).value < 8
    {
    }
    assert Union(rs) == BytesBelow(c, 8);
  }
}
