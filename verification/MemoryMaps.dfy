/** The memory map and its operations (src/memory/map.c). */
module MemoryMaps {
  import opened Words
  import opened RegionLists
  import opened RegionTotals
  import opened RegionSweep

  const MAX_REGIONS := 128
  const MAX_BOUNDARIES := 256

  // ----- sorting boundaries in place -----

  ghost predicate Sorted(s: seq<int>) {
    forall i, j :: 0 <= i < j < |s| ==> s[i] <= s[j]
  }

  /** `after` is `before` with the value at `index` moved down to `position`. */
  ghost predicate MovedDown(before: seq<u64>, after: seq<u64>, position: nat, index: nat) {
    && position <= index < |before| == |after|
    && (forall k :: 0 <= k < position ==> after[k] == before[k])
    && after[position] == before[index]
    && (forall k :: position < k <= index ==> after[k] == before[k - 1])
    && (forall k :: index < k < |before| ==> after[k] == before[k])
  }

  /** One round of the insertion sort: the value at `index` goes where it belongs
      in the sorted part before it. */
  method InsertLast(a: array<u64>, index: nat)
    requires index < a.Length && Sorted(a[..index])
    modifies a
    ensures Sorted(a[..index + 1])
    ensures multiset(a[..index + 1]) == multiset(old(a[..index + 1]))
    ensures forall k :: index < k < a.Length ==> a[k] == old(a[k])
  {
    hide Sorted;
    ghost var before := a[..];
    var position := ShiftInto(a, index);
    ghost var after := a[..];
    assert before[..index] == old(a[..index]) && before[..index + 1] == old(a[..index + 1]);
    assert after[..index + 1] == a[..index + 1];
    MovedIsSorted(before, after, position, index);
    MovedIsPermutation(before, after, position, index);
  }

  /** The inner loop: greater values move up one place each. */
  method ShiftInto(a: array<u64>, index: nat) returns (position: nat)
    requires index < a.Length
    modifies a
    ensures MovedDown(old(a[..]), a[..], position, index)
    ensures position > 0 ==> old(a[position - 1]) <= old(a[index])
    ensures forall k :: position < k <= index ==> a[k] > a[position]
  {
    var value := a[index];
    position := index;
    while position > 0 && a[position - 1] > value
      invariant 0 <= position <= index
      invariant forall k :: 0 <= k < position ==> a[k] == old(a[k])
      invariant forall k :: position < k <= index ==> a[k] == old(a[k - 1]) && a[k] > value
      invariant forall k :: index < k < a.Length ==> a[k] == old(a[k])
    {
      a[position] := a[position - 1];
      position := position - 1;
    }
    a[position] := value;
  }

  lemma MovedIsSorted(before: seq<u64>, after: seq<u64>, position: nat, index: nat)
    requires MovedDown(before, after, position, index) && Sorted(before[..index])
    requires position > 0 ==> before[position - 1] <= before[index]
    requires forall k :: position < k <= index ==> after[k] > after[position]
    ensures Sorted(after[..index + 1])
  {
    var s := before[..index];
    forall i, j | 0 <= i < j < index + 1
      ensures after[i] <= after[j]
    {
      assert i < index && (i < position ==> s[i] <= s[position - 1]);
      assert i < j - 1 ==> s[i] <= s[j - 1];
      assert position < i ==> s[i - 1] <= s[j - 1];
      assert j < index ==> s[i] <= s[j];
    }
  }

  lemma MovedIsPermutation(before: seq<u64>, after: seq<u64>, position: nat, index: nat)
    requires MovedDown(before, after, position, index)
    ensures multiset(after[..index + 1]) == multiset(before[..index + 1])
  {
    var left, right, value := before[..position], before[position..index], before[index];
    SlicesMoved(before, after, position, index);
    ValueMoved(left, value, right);
  }

  lemma SlicesMoved(before: seq<u64>, after: seq<u64>, position: nat, index: nat)
    requires MovedDown(before, after, position, index)
    ensures after[..index + 1] == before[..position] + [before[index]] + before[position..index]
    ensures before[..index + 1] == before[..position] + before[position..index] + [before[index]]
  {
    assert after[position + 1..index + 1] == before[position..index];
    assert after[..index + 1] == after[..position] + [after[position]] + after[position + 1..index + 1];
  }

  lemma ValueMoved(left: seq<u64>, value: u64, right: seq<u64>)
    ensures multiset(left + [value] + right) == multiset(left + right + [value])
  {
    assert multiset(left + right) == multiset(left) + multiset(right);
  }

  lemma ShortIsSorted(s: seq<u64>)
    requires |s| <= 1
    ensures Sorted(s)
  {
  }

  method SortPrefix(a: array<u64>, count: nat)
    requires count <= a.Length && a.Length > 0
    modifies a
    ensures Sorted(a[..count])
    ensures multiset(a[..count]) == multiset(old(a[..count]))
  {
    hide Sorted;
    ShortIsSorted(a[..1]);
    ghost var before := a[..];
    var index := 1;
    while index < count
      invariant 1 <= index <= a.Length && (index <= count || index == 1)
      invariant Sorted(a[..index])
      invariant forall k :: index <= k < a.Length ==> a[k] == before[k]
      invariant multiset(a[..index]) == multiset(before[..index])
    {
      assert a[..index + 1] == a[..index] + [before[index]];
      assert before[..index + 1] == before[..index] + [before[index]];
      InsertLast(a, index);
      index := index + 1;
    }
    assert before[..count] == old(a[..count]);
    ShortIsSorted(a[..0]);
  }

  /** Repeats dropped in place: strictly ascending, and the same values. */
  method DropRepeats(a: array<u64>, count: nat) returns (unique: nat)
    requires count <= a.Length && Sorted(a[..count])
    modifies a
    ensures unique <= count && (count > 0 ==> unique > 0)
    ensures Ascending(a[..unique])
    ensures forall x :: x in a[..unique] <==> x in old(a[..count])
  {
    ghost var before := a[..];
    unique := 0;
    for index := 0 to count
      invariant unique <= index && (index > 0 ==> unique > 0)
      invariant a[index..] == before[index..]
      invariant Ascending(a[..unique])
      invariant unique > 0 ==> a[unique - 1] == before[index - 1]
      invariant forall x :: x in a[..unique] <==> x in before[..index]
    {
      assert before[..index + 1] == before[..index] + [before[index]];
      assert before[..count][index] == before[index];
      if unique == 0 || a[unique - 1] != a[index] {
        ghost var kept := a[..unique];
        assert unique > 0 ==> before[..count][index - 1] <= before[..count][index];
        a[unique] := a[index];
        unique := unique + 1;
        assert a[..unique] == kept + [before[index]];
      } else {
        assert before[index] in a[..unique];
      }
    }
  }

  lemma SameValues(s: seq<u64>, t: seq<u64>, x: int)
    requires multiset(s) == multiset(t)
    ensures x in s <==> x in t
  {
    if 0 <= x < U64_LIMIT {
      assert x in multiset(s) <==> x in multiset(t);
    }
  }

  // ----- the free run a search is for -----

  /** Every byte from `start` on, `size` of them, is usable. */
  ghost predicate UsableRun(c: seq<Region>, start: int, size: int) {
    forall x :: start <= x < start + size ==> KindAt(c, x) == Some(USABLE)
  }

  /** A usable run lies in one region: touching usable regions have been merged. */
  lemma RunIsInRegion(c: seq<Region>, start: int, size: int) returns (i: nat)
    requires CanonicalList(c) && UsableRun(c, start, size) && size > 0
    ensures i < |c| && c[i].kind == USABLE && c[i].base <= start && start + size <= c[i].End()
  {
    assert KindAt(c, start) == Some(USABLE);
    i := RegionOf(c, start);
    if c[i].End() < start + size {
      var x := c[i].End();
      assert KindAt(c, x) == Some(USABLE);
      assert c[i].Sound();
      var j := RegionOf(c, x);
    }
  }

  lemma RegionIsRun(c: seq<Region>, i: nat, start: int, size: int)
    requires CanonicalList(c) && i < |c| && c[i].kind == USABLE
    requires c[i].base <= start && start + size <= c[i].End()
    ensures UsableRun(c, start, size)
  {
    forall x | start <= x < start + size
      ensures KindAt(c, x) == Some(USABLE)
    {
      KindInRegion(c, i, x);
    }
  }

  /** A run a search may return. */
  ghost predicate FreeRun(c: seq<Region>, size: int, alignment: int, minimum: int, start: int) {
    alignment > 0 && start % alignment == 0 && minimum <= start && UsableRun(c, start, size)
  }

  predicate RunInRegion(r: Region, start: int, size: int) {
    r.kind == USABLE && r.base <= start && start + size <= r.End()
  }

  /** If a region holds a run at all it holds one at its first aligned address. */
  lemma FirstInRegion(c: seq<Region>, i: nat, size: u64, alignment: u64, minimum: u64, low: int)
    requires i < |c| && c[i].Sound() && PowerOfTwo(alignment) && alignment > 0
    requires low == if c[i].base > minimum then c[i].base else minimum
    ensures forall s :: FreeRun(c, size, alignment, minimum, s) && RunInRegion(c[i], s, size) ==>
      low + (alignment - 1) < U64_LIMIT && AlignUp(low, alignment) <= s
  {
    hide UsableRun, PowerOfTwo, AlignUp;
    forall s | FreeRun(c, size, alignment, minimum, s) && RunInRegion(c[i], s, size)
      ensures low + (alignment - 1) < U64_LIMIT && AlignUp(low, alignment) <= s
    {
      AlignUpIsLeast(low, alignment, s);
      AlignUpBounds(low, alignment);
      RoundingStays(low, alignment, s);
    }
  }

  /** An aligned address below the end of the address space leaves room to round
      anything at or below it up without wrapping. */
  lemma RoundingStays(low: int, alignment: u64, s: int)
    requires PowerOfTwo(alignment) && 0 <= low <= s < U64_LIMIT && s % alignment == 0
    ensures low + (alignment - 1) < U64_LIMIT
  {
    hide PowerOfTwo, Exp2, AlignDown, AlignUp;
    PowerIsPositive(alignment);
    WordSizeIsPower();
    PowerOfTwoDivides(alignment, 64);
    MultipleBelowMultiple(s, U64_LIMIT, alignment);
  }

  lemma MultipleBelowMultiple(s: int, t: int, a: int)
    requires a > 0 && s % a == 0 && t % a == 0 && s < t
    ensures s + a <= t
  {
    var i, j := s / a, t / a;
    assert s == a * i && t == a * j;
    if j <= i {
      ScaleMonotone(a, j, i);
    }
    ScaleStrict(a, i, j);
  }

  ghost predicate FreeRunBelow(c: seq<Region>, size: int, alignment: int, limit: int, start: int) {
    alignment > 0 && start % alignment == 0 && start + size <= limit && UsableRun(c, start, size)
  }

  /** If a region holds a run by the limit at all it holds one at its last aligned address. */
  lemma LastInRegion(c: seq<Region>, i: nat, size: u64, alignment: u64, limit: u64, end: int)
    requires i < |c| && alignment > 0
    requires end == if c[i].End() > limit then limit else c[i].End()
    ensures forall s :: FreeRunBelow(c, size, alignment, limit, s) && RunInRegion(c[i], s, size) ==>
      end >= size && s <= AlignDown(end - size, alignment)
  {
    hide UsableRun, AlignDown;
    forall s | FreeRunBelow(c, size, alignment, limit, s) && RunInRegion(c[i], s, size)
      ensures end >= size && s <= AlignDown(end - size, alignment)
    {
      AlignDownIsGreatest(end - size, alignment, s);
    }
  }

  lemma EndsByLast(c: seq<Region>, end: int)
    requires EndsBy(c, end)
    ensures c != [] ==> c[|c| - 1].End() <= end
  {
  }

  /** The body of the sweep: one covered interval goes into the result, merged or
      as a region of its own, unless there is no room for it. */
  method AddInterval(result: array<Region>, resultCount: nat, start: u64, end: u64, kind: Option<Kind>)
    returns (newCount: nat, full: bool)
    requires start < end && resultCount <= result.Length == MAX_REGIONS
    requires resultCount > 0 ==> result[resultCount - 1].End() <= start
    modifies result
    ensures newCount <= MAX_REGIONS
    ensures full <==> resultCount == MAX_REGIONS && kind.Some? && !Merges(old(result[..resultCount]), start, kind)
    ensures full ==> newCount == resultCount && result[..] == old(result[..])
    ensures !full ==> result[..newCount] == Extended(old(result[..resultCount]), start, end, kind)
  {
    hide Extended;
    newCount, full := resultCount, false;
    ghost var c := result[..resultCount];
    ExtendedIs(c, start, end, kind);
    if kind.None? {
      return;
    }
    if resultCount > 0 && result[resultCount - 1].kind == kind.value && result[resultCount - 1].End() == start {
      result[resultCount - 1] := result[resultCount - 1].(length := result[resultCount - 1].length + (end - start));
      assert result[..newCount] == c[..|c| - 1] + [Longer(c, end)];
      return;
    }
    if resultCount == MAX_REGIONS {
      full := true;
      return;
    }
    result[resultCount] := Region(start, end - start, kind.value);
    newCount := resultCount + 1;
    assert result[..newCount] == c + [Region(start, end - start, kind.value)];
  }

  class MemoryMap {
    const regions: array<Region>
    var count: nat
    var truncated: bool

    ghost predicate Valid()
      reads this, regions
    {
      && regions.Length == MAX_REGIONS && count <= MAX_REGIONS
      && AllSound(regions[..count])
    }

    ghost function List(): seq<Region>
      requires regions.Length == MAX_REGIONS && count <= MAX_REGIONS
      reads this, regions
    {
      regions[..count]
    }

    constructor ()
      ensures Valid() && count == 0 && !truncated && fresh(regions)
    {
      regions := new Region[MAX_REGIONS](_ => Region(0, 0, USABLE));
      count, truncated := 0, false;
    }

    method Clear()
      requires Valid()
      modifies this
      ensures Valid() && List() == [] && !truncated
    {
      count := 0;
      truncated := false;
    }

    method Add(base: u64, length: u64, kind: Kind) returns (ok: bool)
      requires Valid()
      modifies this, regions
      ensures Valid()
      ensures ok <==> Region(base, length, kind).Sound() && old(count) < MAX_REGIONS
      ensures ok ==> List() == old(List()) + [Region(base, length, kind)]
      ensures !ok ==> List() == old(List())
      ensures truncated <==> old(truncated) || (!ok && Region(base, length, kind).Sound())
    {
      if length == 0 || base + length >= U64_LIMIT {
        return false;
      }
      if count == MAX_REGIONS {
        truncated := true;
        return false;
      }
      regions[count] := Region(base, length, kind);
      count := count + 1;
      assert regions[..count] == old(List()) + [Region(base, length, kind)];
      return true;
    }

    /** Fills `out` with the ends of the regions, sorted and without repeats. */
    method CollectBoundaries(out: array<u64>) returns (unique: nat)
      requires Valid() && count > 0 && out.Length == MAX_BOUNDARIES
      modifies out
      ensures unique <= 2 * count && unique > 0
      ensures BoundariesOf(out[..unique], List())
    {
      var filled := 0;
      for index := 0 to count
        invariant filled == 2 * index
        invariant forall i :: 0 <= i < index ==> out[2 * i] == regions[i].base && out[2 * i + 1] == regions[i].End()
      {
        assert regions[..count][index].Sound();
        out[filled] := regions[index].base;
        out[filled + 1] := regions[index].End();
        filled := filled + 2;
      }
      ghost var ends := out[..filled];
      SortPrefix(out, filled);
      ghost var sorted := out[..filled];
      unique := DropRepeats(out, filled);
      forall x
        ensures x in out[..unique] <==> x in ends
      {
        SameValues(sorted, ends, x);
      }
      EndsAreBoundaries(ends, out[..unique], List());
    }

    /** The kind that wins an elementary interval, if anything covers it. */
    method KindOfInterval(start: u64, end: u64) returns (kind: Option<Kind>)
      requires Valid()
      ensures kind == IntervalKind(List(), start, end)
    {
      kind := None;
      for index := 0 to count
        invariant kind == IntervalKind(regions[..index], start, end)
      {
        var region := regions[index];
        assert regions[..count][index].Sound();
        assert regions[..index + 1][..index] == regions[..index];
        if !(region.base > start || region.End() < end) {
          if kind.None? || region.kind > kind.value {
            kind := Some(region.kind);
          }
        }
      }
    }

    /** The sweep, writing its regions into `result` until that is full. */
    method SweepIntervals(boundaries: array<u64>, n: nat, result: array<Region>)
      returns (resultCount: nat, dropped: bool)
      requires Valid() && result.Length == MAX_REGIONS && result != regions
      requires 0 < n <= boundaries.Length && BoundariesOf(boundaries[..n], List())
      modifies result
      ensures resultCount <= MAX_REGIONS
      ensures exists c :: SweptInto(c, List(), n, result[..resultCount], dropped)
    {
      hide BoundariesOf, CanonicalList, IsFormOf, EndsBy, Extended, SaysUpTo, AllSound, Ascending;
      ghost var rs, bs := List(), boundaries[..n];
      BoundariesAscend(bs, rs);
      SweepIsForm(rs, bs);
      ghost var form := Sweep(rs, bs, n - 1);
      resultCount, dropped := 0, false;
      var index := 0;
      while index + 1 < n
        invariant index < n && resultCount <= MAX_REGIONS
        invariant result[..resultCount] == Sweep(rs, bs, index) && !dropped && List() == rs
      {
        var start, end := boundaries[index], boundaries[index + 1];
        AscendingStep(bs, index);
        var kind := KindOfInterval(start, end);
        SweepSays(rs, bs, index);
        EndsByLast(Sweep(rs, bs, index), start);
        resultCount, dropped := AddInterval(result, resultCount, start, end, kind);
        if dropped {
          SweepOverflows(rs, bs, index, n - 1);
          assert List() == rs;
          assert SweptInto(form, rs, n, result[..resultCount], dropped);
          return;
        }
        index := index + 1;
      }
      assert SweptInto(form, rs, n, result[..resultCount], dropped);
    }

    /** The map is replaced by its canonical form. Should that have more regions
        than there is room for, the first ones stay and the map says so. */
    method Finalize()
      requires Valid()
      modifies this, regions
      ensures Valid()
      ensures exists c ::
        && Finalized(old(List()), old(truncated), c, List(), truncated)
        && (old(count) > 0 ==> |c| < 2 * old(count))
    {
      hide Finalized, SweptInto, BoundariesOf, AllSound, CanonicalList;
      ghost var before := List();
      if count == 0 {
        EmptyIsFinalized(before, truncated);
        return;
      }
      var boundaries := new u64[MAX_BOUNDARIES](_ => 0);
      var boundaryCount := CollectBoundaries(boundaries);
      var result := new Region[MAX_REGIONS](_ => Region(0, 0, USABLE));
      var resultCount, dropped := SweepIntervals(boundaries, boundaryCount, result);
      ghost var swept := result[..resultCount];
      ghost var c :| SweptInto(c, before, boundaryCount, swept, dropped);
      SweptIsFinalized(c, before, boundaryCount, swept, dropped, truncated);
      forall i | 0 <= i < resultCount {
        regions[i] := result[i];
      }
      count := resultCount;
      truncated := truncated || dropped;
      assert List() == swept;
    }

    /** The sum of the lengths of the regions of a kind, as a 64-bit word. On a
        finalized map it is the sum itself. */
    method Total(kind: Kind) returns (total: u64)
      requires Valid()
      ensures total == TotalOf(List(), kind) % U64_LIMIT
      ensures CanonicalList(List()) ==> total == TotalOf(List(), kind)
    {
      hide CanonicalList;
      total := 0;
      for index := 0 to count
        invariant total == TotalOf(regions[..index], kind) % 0x1_0000_0000_0000_0000
      {
        assert regions[..index + 1][..index] == regions[..index];
        if regions[index].kind == kind {
          SumModulo(TotalOf(regions[..index], kind), regions[index].length);
          total := (total + regions[index].length) % 0x1_0000_0000_0000_0000;
        }
      }
      if CanonicalList(List()) {
        TotalFits(List(), kind);
      }
    }

    /** The index of the first region around an address. */
    method Find(address: u64) returns (found: Option<nat>)
      requires Valid()
      ensures found.Some? ==> found.value < count && List()[found.value].Covers(address)
      ensures found.Some? ==> forall i :: 0 <= i < found.value ==> !List()[i].Covers(address)
      ensures found.None? <==> KindAt(List(), address) == None
      ensures found.Some? && CanonicalList(List()) ==> KindAt(List(), address) == Some(List()[found.value].kind)
    {
      KindAtIsGreatest(List(), address);
      for index := 0 to count
        invariant forall i :: 0 <= i < index ==> !List()[i].Covers(address)
      {
        if address >= regions[index].base && address < regions[index].End() {
          assert List()[index] in List();
          if CanonicalList(List()) {
            KindInRegion(List(), index, address);
          }
          return Some(index);
        }
      }
      return None;
    }

    /** On a finalized map: the lowest aligned run of usable bytes at or above
        `minimum`, and failure only when there is no such run. */
    method FindFree(size: u64, alignment: u64, minimum: u64) returns (found: Option<u64>)
      requires Valid() && CanonicalList(List())
      ensures found.Some? ==> size > 0 && FreeRun(List(), size, alignment, minimum, found.value)
      ensures found.Some? ==> forall s :: FreeRun(List(), size, alignment, minimum, s) ==> found.value <= s
      ensures found.None? && size > 0 && PowerOfTwo(alignment) ==>
        forall s :: !FreeRun(List(), size, alignment, minimum, s)
    {
      hide AlignUp, KindAt, PowerOfTwo;
      if size == 0 || !PowerOfTwo(alignment) {
        return None;
      }
      PowerIsPositive(alignment);
      for index := 0 to count
        invariant forall i, s :: 0 <= i < index && FreeRun(List(), size, alignment, minimum, s) ==>
          !RunInRegion(List()[i], s, size)
      {
        var region := regions[index];
        assert region == List()[index];
        var low := if region.base > minimum then region.base else minimum;
        FirstInRegion(List(), index, size, alignment, minimum, low);
        if region.kind == USABLE && low + (alignment - 1) < U64_LIMIT {
          var start := AlignUp(low, alignment);
          AlignUpBounds(low, alignment);
          if start >= region.base && start + size < U64_LIMIT && start + size <= region.End() {
            LowestRun(List(), index, size, alignment, minimum, start);
            return Some(start);
          }
        }
      }
      forall s
        ensures !FreeRun(List(), size, alignment, minimum, s)
      {
        if FreeRun(List(), size, alignment, minimum, s) {
          var i := RunIsInRegion(List(), s, size);
        }
      }
      return None;
    }

    /** On a finalized map: the highest aligned run of usable bytes that ends by
        `limit`, and failure only when there is no such run. */
    method FindFreeHigh(size: u64, alignment: u64, limit: u64) returns (found: Option<u64>)
      requires Valid() && CanonicalList(List())
      ensures found.Some? ==> size > 0 && FreeRunBelow(List(), size, alignment, limit, found.value)
      ensures found.Some? ==> forall s :: FreeRunBelow(List(), size, alignment, limit, s) ==> s <= found.value
      ensures found.None? && size > 0 && PowerOfTwo(alignment) ==>
        forall s :: !FreeRunBelow(List(), size, alignment, limit, s)
    {
      hide AlignDown, KindAt, PowerOfTwo, UsableRun;
      found := None;
      if size == 0 || !PowerOfTwo(alignment) {
        return;
      }
      PowerIsPositive(alignment);
      for index := 0 to count
        invariant found.Some? ==> FreeRunBelow(List(), size, alignment, limit, found.value)
        invariant forall i, s ::
          0 <= i < index && FreeRunBelow(List(), size, alignment, limit, s) && RunInRegion(List()[i], s, size) ==>
          found.Some? && s <= found.value
      {
        var region := regions[index];
        assert region == List()[index];
        var end := if region.End() > limit then limit else region.End();
        LastInRegion(List(), index, size, alignment, limit, end);
        if region.kind == USABLE && end >= size {
          var start := AlignDown(end - size, alignment);
          AlignDownBounds(end - size, alignment);
          if start >= region.base && start + size <= end {
            RegionIsRun(List(), index, start, size);
            if found.None? || start > found.value {
              found := Some(start);
            }
          }
        }
      }
      forall s | FreeRunBelow(List(), size, alignment, limit, s)
        ensures found.Some? && s <= found.value
      {
        var i := RunIsInRegion(List(), s, size);
      }
    }
  }

  lemma SumModulo(a: nat, b: nat)
    ensures (a % 0x1_0000_0000_0000_0000 + b) % 0x1_0000_0000_0000_0000 == (a + b) % 0x1_0000_0000_0000_0000
  {
    var word, q := 0x1_0000_0000_0000_0000, a / 0x1_0000_0000_0000_0000;
    var r := a % word + b;
    DivisionIs(a + b, word, q + r / word, r % word);
  }

  /** When a full result is to be added to, it is the start of the form. */
  lemma SweepOverflows(rs: seq<Region>, bs: seq<int>, n: nat, end: nat)
    requires n < end < |bs| && Ascending(bs) && InWords(bs)
    requires |Sweep(rs, bs, n)| == MAX_REGIONS
    requires IntervalKind(rs, bs[n], bs[n + 1]).Some?
    requires !Merges(Sweep(rs, bs, n), bs[n], IntervalKind(rs, bs[n], bs[n + 1]))
    ensures |Sweep(rs, bs, end)| > MAX_REGIONS
    ensures Sweep(rs, bs, end)[..MAX_REGIONS] == Sweep(rs, bs, n)
  {
    hide Extended;
    ExtendedIs(Sweep(rs, bs, n), bs[n], bs[n + 1], IntervalKind(rs, bs[n], bs[n + 1]));
    SweepKeepsPrefix(rs, bs, n + 1, end);
    assert Sweep(rs, bs, n + 1)[..MAX_REGIONS] == Sweep(rs, bs, n);
  }

  /** The result of the sweep: the form, or as much of it as fits. */
  ghost predicate SweptInto(c: seq<Region>, rs: seq<Region>, n: nat, result: seq<Region>, dropped: bool) {
    && IsFormOf(c, rs) && |c| < n
    && (dropped <==> |c| > MAX_REGIONS)
    && result == (if dropped then c[..MAX_REGIONS] else c)
  }

  /** What finalize leaves: the form of the input, or as much of it as there is
      room for. */
  ghost predicate Finalized(
    before: seq<Region>, wasTruncated: bool, c: seq<Region>, after: seq<Region>, truncated: bool) {
    && IsFormOf(c, before)
    && after == (if |c| > MAX_REGIONS then c[..MAX_REGIONS] else c)
    && (truncated <==> wasTruncated || |c| > MAX_REGIONS)
  }

  lemma EmptyIsFinalized(before: seq<Region>, truncated: bool)
    requires before == []
    ensures Finalized(before, truncated, [], before, truncated)
  {
  }

  lemma SweptIsFinalized(
    c: seq<Region>, before: seq<Region>, n: nat, after: seq<Region>, dropped: bool, truncated: bool)
    requires SweptInto(c, before, n, after, dropped)
    ensures Finalized(before, truncated, c, after, truncated || dropped) && AllSound(after) && |c| < n
    ensures |after| <= MAX_REGIONS
  {
    FormIsSound(c, MAX_REGIONS);
  }

  /** What finalize leaves is canonical, whether or not all of it fitted. */
  lemma FinalizedIsCanonical(
    before: seq<Region>, wasTruncated: bool, c: seq<Region>, after: seq<Region>, truncated: bool)
    requires Finalized(before, wasTruncated, c, after, truncated)
    ensures CanonicalList(after)
    ensures |c| <= MAX_REGIONS ==> SameKinds(after, before)
  {
    FormIsSound(c, MAX_REGIONS);
  }

  /** The result is decided by which kinds claim each byte: reordering, repeating
      or splitting the input gives the identical array. */
  lemma FinalizeDependsOnKindsOnly(
    rs: seq<Region>, t: bool, c: seq<Region>, after: seq<Region>, truncated: bool,
    rs': seq<Region>, t': bool, c': seq<Region>, after': seq<Region>, truncated': bool)
    requires Finalized(rs, t, c, after, truncated) && Finalized(rs', t', c', after', truncated')
    requires SameKinds(rs, rs')
    ensures after == after'
  {
    FormDependsOnKindsOnly(rs, rs', c, c');
  }

  /** Finalizing a finalized map changes nothing. */
  lemma FinalizeIsIdempotent(rs: seq<Region>, t: bool, c: seq<Region>, after: seq<Region>, truncated: bool)
    requires Finalized(rs, t, c, after, truncated)
    requires CanonicalList(rs) && |rs| <= MAX_REGIONS
    ensures after == rs && truncated == t
  {
    FormDependsOnKindsOnly(rs, rs, c, rs);
  }

  lemma FormIsSound(c: seq<Region>, n: nat)
    requires CanonicalList(c)
    ensures AllSound(c) && (n <= |c| ==> AllSound(c[..n]) && CanonicalList(c[..n]))
  {
  }

  lemma AscendingStep(bs: seq<int>, n: nat)
    requires Ascending(bs) && n + 1 < |bs|
    ensures bs[n] < bs[n + 1]
  {
  }

  /** Regions come in ascending order, so the first that has room has the lowest run. */
  lemma LowestRun(c: seq<Region>, i: nat, size: int, alignment: int, minimum: int, start: int)
    requires CanonicalList(c) && i < |c| && size > 0 && alignment > 0
    requires forall k, s :: 0 <= k < i && FreeRun(c, size, alignment, minimum, s) ==> !RunInRegion(c[k], s, size)
    requires forall s :: FreeRun(c, size, alignment, minimum, s) && RunInRegion(c[i], s, size) ==> start <= s
    requires RunInRegion(c[i], start, size) && start % alignment == 0 && minimum <= start
    ensures FreeRun(c, size, alignment, minimum, start)
    ensures forall s :: FreeRun(c, size, alignment, minimum, s) ==> start <= s
  {
    RegionIsRun(c, i, start, size);
    hide UsableRun;
    forall s | FreeRun(c, size, alignment, minimum, s)
      ensures start <= s
    {
      var j := RunIsInRegion(c, s, size);
      assert !(j < i);
      assert j > i ==> c[i].End() <= c[j].base;
    }
  }

  lemma EndsAreBoundaries(ends: seq<u64>, bs: seq<u64>, rs: seq<Region>)
    requires |ends| == 2 * |rs| && Ascending(bs)
    requires forall i :: 0 <= i < |rs| ==> ends[2 * i] == rs[i].base && ends[2 * i + 1] == rs[i].End()
    requires forall x :: x in bs <==> x in ends
    ensures BoundariesOf(bs, rs)
  {
    forall i | 0 <= i < |rs|
      ensures rs[i].base in bs && rs[i].End() in bs
    {
      assert ends[2 * i] in ends && ends[2 * i + 1] in ends;
    }
    forall b | b in bs
      ensures exists i :: 0 <= i < |rs| && (b == rs[i].base || b == rs[i].End())
    {
      var k :| 0 <= k < |ends| && ends[k] == b;
      if k % 2 == 0 {
        assert ends[2 * (k / 2)] == rs[k / 2].base;
      } else {
        assert ends[2 * (k / 2) + 1] == rs[k / 2].End();
      }
    }
  }
}
