/** Lists of memory regions and what they say about each byte of memory
    (src/memory/map.h). The canonical form of a list is unique. */
module RegionLists {
  import opened Words

  /** Declared in order of precedence: the later kind wins a byte both claim. */
  type Kind = k: int | 0 <= k < 8
  const USABLE: Kind := 0
  const BOOTLOADER_RECLAIMABLE: Kind := 1
  const ACPI_RECLAIMABLE: Kind := 2
  const ACPI_NVS: Kind := 3
  const FRAMEBUFFER: Kind := 4
  const KERNEL: Kind := 5
  const RESERVED: Kind := 6
  const BAD: Kind := 7

  datatype Region = Region(base: u64, length: u64, kind: Kind) {
    /** Kept from wrapping by what memory_map_add refuses. */
    function End(): int { base + length }

    predicate Sound() { length > 0 && End() < U64_LIMIT }

    predicate Covers(x: int) { base <= x < End() }
  }

  predicate AllSound(rs: seq<Region>) {
    forall i :: 0 <= i < |rs| ==> rs[i].Sound()
  }

  /** The greatest kind among the regions that cover a byte. */
  function KindAt(rs: seq<Region>, x: int): Option<Kind> {
    if rs == [] then None
    else
      var last := rs[|rs| - 1];
      var kind := KindAt(rs[..|rs| - 1], x);
      if !last.Covers(x) then kind
      else if kind.None? || last.kind > kind.value then Some(last.kind)
      else kind
  }

  ghost predicate SameKinds(rs: seq<Region>, rs': seq<Region>) {
    forall x :: KindAt(rs, x) == KindAt(rs', x)
  }

  /** KindAt says what it should: it is the kind of a covering region, no covering
      region has a greater one, and it is there when any region covers. */
  lemma {:induction false} KindAtIsGreatest(rs: seq<Region>, x: int)
    ensures KindAt(rs, x).Some? ==> exists r :: r in rs && r.Covers(x) && r.kind == KindAt(rs, x).value
    ensures forall r :: r in rs && r.Covers(x) ==> KindAt(rs, x).Some? && r.kind <= KindAt(rs, x).value
  {
    if rs != [] {
      var rest, last := rs[..|rs| - 1], rs[|rs| - 1];
      assert rs == rest + [last];
      KindAtIsGreatest(rest, x);
      assert last in rs;
      forall r | r in rs && r.Covers(x)
        ensures KindAt(rs, x).Some? && r.kind <= KindAt(rs, x).value
      {
        assert r in rest || r == last;
      }
    }
  }

  /** The kinds, from what is given away most freely to what is never used. */
  function Precedence(): seq<Kind> {
    [USABLE, BOOTLOADER_RECLAIMABLE, ACPI_RECLAIMABLE, ACPI_NVS, FRAMEBUFFER, KERNEL, RESERVED, BAD]
  }

  /** Of two claims on a byte the one of the more restrictive kind wins, whichever comes
      first in the list. */
  lemma MoreRestrictiveWins(a: Region, b: Region, i: nat, j: nat, x: int)
    requires i <= j < 8 && a.kind == Precedence()[i] && b.kind == Precedence()[j] && a.Covers(x) && b.Covers(x)
    ensures KindAt([a, b], x) == KindAt([b, a], x) == Some(b.kind)
  {
    KindAtIsGreatest([a, b], x);
    KindAtIsGreatest([b, a], x);
    assert [a, b][0] == a && [a, b][1] == b && [b, a][0] == b;
    assert a.kind <= b.kind;
  }

  ghost predicate Claims(rs: seq<Region>, kind: Kind, x: int) {
    exists r :: r in rs && r.Covers(x) && r.kind == kind
  }

  /** A byte's kind depends on which kinds claim it and on nothing else. */
  lemma KindOfClaims(rs: seq<Region>, rs': seq<Region>, x: int)
    requires forall kind :: Claims(rs, kind, x) <==> Claims(rs', kind, x)
    ensures KindAt(rs, x) == KindAt(rs', x)
  {
    hide KindAt;
    KindAtIsGreatest(rs, x);
    KindAtIsGreatest(rs', x);
    if KindAt(rs, x).Some? {
      assert Claims(rs, KindAt(rs, x).value, x);
    }
    if KindAt(rs', x).Some? {
      assert Claims(rs', KindAt(rs', x).value, x);
    }
  }

  /** Only which regions are in the list matters: not their order, and not how
      often each is repeated. */
  lemma OrderAndRepeatsDoNotMatter(rs: seq<Region>, rs': seq<Region>)
    requires forall r :: r in rs <==> r in rs'
    ensures SameKinds(rs, rs')
  {
    forall x
      ensures KindAt(rs, x) == KindAt(rs', x)
    {
      KindOfClaims(rs, rs', x);
    }
  }

  /** Nor does it matter that a region is given in two pieces. */
  lemma SplittingDoesNotMatter(before: seq<Region>, r: Region, cut: u64, after: seq<Region>)
    requires 0 < cut < r.length && r.base + cut < U64_LIMIT
    ensures SameKinds(before + [r] + after,
      before + [Region(r.base, cut, r.kind), Region(r.base + cut, r.length - cut, r.kind)] + after)
  {
    var left, right := Region(r.base, cut, r.kind), Region(r.base + cut, r.length - cut, r.kind);
    var whole, pieces := before + [r] + after, before + [left, right] + after;
    forall x
      ensures KindAt(whole, x) == KindAt(pieces, x)
    {
      forall kind
        ensures Claims(whole, kind, x) <==> Claims(pieces, kind, x)
      {
        ClaimsOfSum(before, [r], after, kind, x);
        ClaimsOfSum(before, [left, right], after, kind, x);
        assert [r][0] == r && [left, right][0] == left && [left, right][1] == right;
      }
      KindOfClaims(whole, pieces, x);
    }
  }

  lemma ClaimsOfSum(before: seq<Region>, middle: seq<Region>, after: seq<Region>, kind: Kind, x: int)
    ensures Claims(before + middle + after, kind, x) <==>
      Claims(before, kind, x) || Claims(middle, kind, x) || Claims(after, kind, x)
  {
  }

  // ----- canonical form -----

  /** Ascending, disjoint, and no two touching regions of one kind. */
  ghost predicate CanonicalList(c: seq<Region>) {
    && AllSound(c)
    && (forall i, j :: 0 <= i < j < |c| ==> c[i].End() <= c[j].base)
    && (forall i, j :: 0 <= i < j < |c| && c[i].End() == c[j].base ==> c[i].kind != c[j].kind)
  }

  /** The canonical list that says of every byte what `rs` says. */
  ghost predicate IsFormOf(c: seq<Region>, rs: seq<Region>) {
    CanonicalList(c) && SameKinds(c, rs)
  }

  lemma CanonicalPrefix(c: seq<Region>, n: nat)
    requires CanonicalList(c) && n <= |c|
    ensures CanonicalList(c[..n])
  {
  }

  lemma {:induction false} NothingAbove(c: seq<Region>, x: int)
    requires forall i :: 0 <= i < |c| ==> c[i].End() <= x
    ensures KindAt(c, x) == None
  {
    if c != [] {
      NothingAbove(c[..|c| - 1], x);
    }
  }

  /** In a canonical list a byte's kind is that of the one region around it. */
  lemma {:induction false} KindInRegion(c: seq<Region>, i: nat, x: int)
    requires CanonicalList(c) && i < |c| && c[i].Covers(x)
    ensures KindAt(c, x) == Some(c[i].kind)
  {
    var rest := c[..|c| - 1];
    CanonicalPrefix(c, |c| - 1);
    if i == |c| - 1 {
      NothingAbove(rest, x);
    } else {
      KindInRegion(rest, i, x);
    }
  }

  lemma RegionOf(c: seq<Region>, x: int) returns (i: nat)
    requires KindAt(c, x).Some?
    ensures i < |c| && c[i].Covers(x) && c[i].kind == KindAt(c, x).value
  {
    KindAtIsGreatest(c, x);
    var r :| r in c && r.Covers(x) && r.kind == KindAt(c, x).value;
    i :| 0 <= i < |c| && c[i] == r;
  }

  /** Lists that say the same end in the same region. */
  lemma LastRegionReaches(a: seq<Region>, b: seq<Region>)
    requires CanonicalList(a) && CanonicalList(b) && SameKinds(a, b) && a != []
    ensures b != []
    ensures var A, B := a[|a| - 1], b[|b| - 1]; A.End() <= B.End()
    ensures var A, B := a[|a| - 1], b[|b| - 1]; A.End() == B.End() ==> A.kind == B.kind && A.base >= B.base
  {
    var A := a[|a| - 1];
    assert A.Sound();
    var top := A.End() - 1;
    KindInRegion(a, |a| - 1, top);
    assert KindAt(a, top) == KindAt(b, top);
    var j := RegionOf(b, top);
    var B := b[|b| - 1];
    if A.End() == B.End() {
      assert j == |b| - 1;
      if A.base < B.base {
        var x := B.base - 1;
        KindInRegion(a, |a| - 1, x);
        assert KindAt(a, x) == KindAt(b, x);
        var i := RegionOf(b, x);
      }
    }
  }

  lemma RestIsSame(a: seq<Region>, b: seq<Region>)
    requires CanonicalList(a) && CanonicalList(b) && SameKinds(a, b)
    requires a != [] && b != [] && a[|a| - 1] == b[|b| - 1]
    ensures SameKinds(a[..|a| - 1], b[..|b| - 1])
  {
    var last, a', b' := a[|a| - 1], a[..|a| - 1], b[..|b| - 1];
    forall x
      ensures KindAt(a', x) == KindAt(b', x)
    {
      assert KindAt(a, x) == KindAt(b, x);
      if last.Covers(x) {
        NothingAbove(a', x);
        NothingAbove(b', x);
      }
    }
  }

  /** There is one canonical form: lists that say the same of every byte are the
      same list. */
  lemma {:induction false} CanonicalIsUnique(a: seq<Region>, b: seq<Region>)
    requires CanonicalList(a) && CanonicalList(b) && SameKinds(a, b)
    ensures a == b
    decreases |a| + |b|
  {
    hide KindAt, SameKinds;
    if a == [] && b == [] {
    } else if a == [] {
      SameKindsSymmetric(a, b);
      LastRegionReaches(b, a);
    } else {
      SameKindsSymmetric(a, b);
      LastRegionReaches(a, b);
      LastRegionReaches(b, a);
      var A, B := a[|a| - 1], b[|b| - 1];
      assert A == B;
      RestIsSame(a, b);
      CanonicalPrefix(a, |a| - 1);
      CanonicalPrefix(b, |b| - 1);
      CanonicalIsUnique(a[..|a| - 1], b[..|b| - 1]);
      assert a == a[..|a| - 1] + [A] && b == b[..|b| - 1] + [B];
    }
  }

  lemma SameKindsSymmetric(a: seq<Region>, b: seq<Region>)
    requires SameKinds(a, b)
    ensures SameKinds(b, a)
  {
  }

  /** So the form is a function of what the input says, and a canonical list is
      its own form. */
  lemma FormDependsOnKindsOnly(rs: seq<Region>, rs': seq<Region>, c: seq<Region>, c': seq<Region>)
    requires SameKinds(rs, rs') && IsFormOf(c, rs) && IsFormOf(c', rs')
    ensures c == c'
  {
    assert SameKinds(c, c') by {
      forall x
        ensures KindAt(c, x) == KindAt(c', x)
      {
        assert KindAt(c, x) == KindAt(rs, x) == KindAt(rs', x) == KindAt(c', x);
      }
    }
    CanonicalIsUnique(c, c');
  }
}
