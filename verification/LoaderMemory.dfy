/** What the loader tells the kernel about the memory it took itself
    (src/boot/main.c, claim_loader_memory). */
module LoaderMemory {
  import opened Words
  import opened RegionLists
  import opened MemoryMaps
  import opened ElfImage

  const LOADER_ARENA_BYTES: u64 := 0x10_0000

  function ArenaClaim(arenaBase: u64): Region {
    Region(arenaBase, LOADER_ARENA_BYTES, BOOTLOADER_RECLAIMABLE)
  }

  function KernelClaim(image: Image): Region {
    Region(image.lowest, (image.highest - image.lowest) % U64_LIMIT, RegionLists.KERNEL)
  }

  /** The claims, in numbers: a megabyte from the arena's base on, and the span of the image. */
  lemma ClaimsInNumbers(arenaBase: u64, image: Image, x: int)
    ensures ArenaClaim(arenaBase).Sound() <==> arenaBase + 0x10_0000 < 0x1_0000_0000_0000_0000
    ensures ArenaClaim(arenaBase).Covers(x) <==> arenaBase <= x < arenaBase + 0x10_0000
    ensures image.lowest <= image.highest ==>
      && (KernelClaim(image).Sound() <==> image.lowest < image.highest)
      && (KernelClaim(image).Covers(x) <==> image.lowest <= x < image.highest)
  {
    if image.lowest <= image.highest {
      DivisionIs(image.highest - image.lowest, 0x1_0000_0000_0000_0000, 0, image.highest - image.lowest);
    }
  }

  /** Whether a map with `count` regions takes one more. */
  predicate Taken(count: nat, claim: Region) { claim.Sound() && count < MAX_REGIONS }

  /** The claims a map with `count` regions still takes: neither result of
      memory_map_add is looked at. */
  function Claims(count: nat, arenaBase: u64, image: Image): seq<Region> {
    var first := if Taken(count, ArenaClaim(arenaBase)) then [ArenaClaim(arenaBase)] else [];
    first + (if Taken(count + |first|, KernelClaim(image)) then [KernelClaim(image)] else [])
  }

  /** Whether a claim is turned away for want of room. */
  predicate TurnedAway(count: nat, arenaBase: u64, image: Image) {
    || (ArenaClaim(arenaBase).Sound() && count >= MAX_REGIONS)
    || (KernelClaim(image).Sound() && count + (if Taken(count, ArenaClaim(arenaBase)) then 1 else 0) >= MAX_REGIONS)
  }

  /** What claiming leaves of a map. */
  ghost predicate ClaimedInto(
    before: seq<Region>, arenaBase: u64, image: Image, wasTruncated: bool, c: seq<Region>, after: seq<Region>,
    truncated: bool)
  {
    Finalized(before + Claims(|before|, arenaBase, image),
      wasTruncated || TurnedAway(|before|, arenaBase, image), c, after, truncated)
  }

  /** The map becomes the form of itself and the claims it took. It is marked as
      truncated if it was, if a claim was turned away, or if the form is too long. */
  method ClaimLoaderMemory(map_: MemoryMap, arenaBase: u64, image: Image)
    requires map_.Valid()
    modifies map_, map_.regions
    ensures map_.Valid()
    ensures exists c ::
      ClaimedInto(old(map_.List()), arenaBase, image, old(map_.truncated), c, map_.List(), map_.truncated)
  {
    hide Finalized;
    ghost var before := map_.List();
    ghost var claims := Claims(map_.count, arenaBase, image);
    var ignored := map_.Add(arenaBase, LOADER_ARENA_BYTES, BOOTLOADER_RECLAIMABLE);
    ignored := map_.Add(image.lowest, (image.highest - image.lowest) % U64_LIMIT, RegionLists.KERNEL);
    assert map_.List() == before + claims;
    ghost var wasTruncated := map_.truncated;
    map_.Finalize();
    ghost var c :| Finalized(before + claims, wasTruncated, c, map_.List(), map_.truncated);
    assert ClaimedInto(before, arenaBase, image, old(map_.truncated), c, map_.List(), map_.truncated);
  }

  /** A byte that a claim covers is not usable afterwards, even if the map had to
      drop regions; every other byte the map still describes is what it was. */
  lemma ClaimedIsNotUsable(
    before: seq<Region>, claims: seq<Region>, wasTruncated: bool, c: seq<Region>, after: seq<Region>, truncated: bool,
    x: int)
    requires Finalized(before + claims, wasTruncated, c, after, truncated)
    ensures forall r :: r in claims && r.Covers(x) && r.kind > USABLE ==> KindAt(after, x) != Some(USABLE)
    ensures (forall r :: r in claims ==> !r.Covers(x)) && KindAt(after, x).Some? ==>
      KindAt(after, x) == KindAt(before, x)
  {
    KeptOrDropped(c, after, x);
    assert KindAt(c, x) == KindAt(before + claims, x);
    KindAtIsGreatest(before + claims, x);
    if forall r :: r in claims ==> !r.Covers(x) {
      forall kind
        ensures RegionLists.Claims(before + claims, kind, x) <==> RegionLists.Claims(before, kind, x)
      {
      }
      KindOfClaims(before + claims, before, x);
    }
  }

  /** Dropping the last regions of a form only takes descriptions away. */
  lemma KeptOrDropped(c: seq<Region>, after: seq<Region>, x: int)
    requires CanonicalList(c) && (after == c || (|c| > MAX_REGIONS && after == c[..MAX_REGIONS]))
    ensures KindAt(after, x).Some? ==> KindAt(after, x) == KindAt(c, x)
  {
    if KindAt(after, x).Some? {
      var i := RegionOf(after, x);
      KindInRegion(c, i, x);
    }
  }

  /** What is left of a form that is too long reaches up to the first region dropped. */
  predicate Described(c: seq<Region>, x: int) {
    |c| <= MAX_REGIONS || x < c[MAX_REGIONS].base
  }

  /** Up to there it says what the form says, and beyond it nothing. */
  lemma KindIfDescribed(c: seq<Region>, after: seq<Region>, x: int)
    requires CanonicalList(c) && after == (if |c| > MAX_REGIONS then c[..MAX_REGIONS] else c)
    ensures KindAt(after, x) == if Described(c, x) then KindAt(c, x) else None
  {
    if |c| > MAX_REGIONS {
      CanonicalPrefix(c, MAX_REGIONS);
      if KindAt(c, x).Some? {
        var i := RegionOf(c, x);
        KindOfRegion(c, i, x);
        if i < MAX_REGIONS {
          KindOfRegion(after, i, x);
        } else {
          NothingAbove(after, x);
        }
      } else {
        KeptOrDropped(c, after, x);
      }
      if !Described(c, x) {
        NothingAbove(after, x);
      }
    }
  }

  lemma FormIsCanonical(
    before: seq<Region>, arenaBase: u64, image: Image, wasTruncated: bool, c: seq<Region>, after: seq<Region>,
    truncated: bool)
    requires ClaimedInto(before, arenaBase, image, wasTruncated, c, after, truncated)
    ensures CanonicalList(c) && after == (if |c| > MAX_REGIONS then c[..MAX_REGIONS] else c)
    ensures TurnedAway(|before|, arenaBase, image) ==> truncated
  {
  }

  /** A full canonical map is all described: it takes no claim, and is its own form. */
  lemma FullMapStays(
    before: seq<Region>, arenaBase: u64, image: Image, wasTruncated: bool, c: seq<Region>, after: seq<Region>,
    truncated: bool)
    requires ClaimedInto(before, arenaBase, image, wasTruncated, c, after, truncated)
    requires CanonicalList(before) && |before| == MAX_REGIONS
    ensures c == after == before
  {
    assert before + Claims(|before|, arenaBase, image) == before;
    FormDependsOnKindsOnly(before, before, c, before);
  }

  /** Which claims are taken, and when one is turned away, where both are sound. */
  lemma ClaimsAre(count: nat, arenaBase: u64, image: Image)
    requires count <= MAX_REGIONS && ArenaClaim(arenaBase).Sound() && KernelClaim(image).Sound()
    ensures Claims(count, arenaBase, image) ==
      if count + 2 <= MAX_REGIONS then [ArenaClaim(arenaBase), KernelClaim(image)]
      else if count + 1 <= MAX_REGIONS then [ArenaClaim(arenaBase)]
      else []
    ensures TurnedAway(count, arenaBase, image) <==> count + 2 > MAX_REGIONS
  {
  }

  /** Whether a usable byte of the loader's arena is claimed turns on one thing: the
      map must have had room for one more region. Without it the byte stays usable,
      and the map says that it is truncated. (A form that is too long loses its last
      regions, and with them what it says of their bytes.) */
  lemma ArenaIsClaimedIfRoom(
    before: seq<Region>, arenaBase: u64, image: Image, wasTruncated: bool, c: seq<Region>, after: seq<Region>,
    truncated: bool, x: int)
    requires ClaimedInto(before, arenaBase, image, wasTruncated, c, after, truncated)
    requires |before| <= 128 && KindAt(before, x) == Some(USABLE)
    requires arenaBase + 0x10_0000 < 0x1_0000_0000_0000_0000 && arenaBase <= x < arenaBase + 0x10_0000
    requires image.lowest <= image.highest && !(image.lowest <= x < image.highest)
    ensures KindAt(after, x) == Some(BOOTLOADER_RECLAIMABLE) <==> |before| < 128 && Described(c, x)
    ensures KindAt(after, x) == Some(USABLE) <==> |before| == 128 && Described(c, x)
    ensures CanonicalList(before) ==> (KindAt(after, x) == Some(USABLE) <==> |before| == 128)
    ensures |before| == 128 ==> truncated
  {
    hide KindAt;
    ClaimsInNumbers(arenaBase, image, x);
    var claims := Claims(|before|, arenaBase, image);
    KindIfDescribed(c, after, x);
    assert KindAt(c, x) == KindAt(before + claims, x);
    if |before| == MAX_REGIONS {
      assert before + claims == before;
      if CanonicalList(before) {
        FullMapStays(before, arenaBase, image, wasTruncated, c, after, truncated);
      }
    } else {
      assert claims[0] == ArenaClaim(arenaBase);
      KindWithClaims(before, claims, ArenaClaim(arenaBase), x);
    }
  }

  /** The kernel comes second: its usable bytes are claimed if and only if the map
      had room for two more regions. Otherwise those the arena does not cover stay
      usable, so that a full map offers the kernel's own image as free memory. */
  lemma KernelIsClaimedIfRoom(
    before: seq<Region>, arenaBase: u64, image: Image, wasTruncated: bool, c: seq<Region>, after: seq<Region>,
    truncated: bool, x: int)
    requires ClaimedInto(before, arenaBase, image, wasTruncated, c, after, truncated)
    requires |before| <= 128 && KindAt(before, x) == Some(USABLE)
    requires arenaBase + 0x10_0000 < 0x1_0000_0000_0000_0000 && image.lowest <= x < image.highest
    ensures KindAt(after, x) == Some(RegionLists.KERNEL) <==> |before| + 2 <= 128 && Described(c, x)
    ensures !(arenaBase <= x < arenaBase + 0x10_0000) ==>
      (KindAt(after, x) == Some(USABLE) <==> |before| + 2 > 128 && Described(c, x))
    ensures CanonicalList(before) && |before| == 128 ==> KindAt(after, x) == Some(USABLE)
    ensures |before| + 2 > 128 ==> truncated
  {
    ClaimsInNumbers(arenaBase, image, x);
    hide KindAt, Claims, TurnedAway, CanonicalList, Described, Region.Sound;
    ClaimsAre(|before|, arenaBase, image);
    FormIsCanonical(before, arenaBase, image, wasTruncated, c, after, truncated);
    var claims := Claims(|before|, arenaBase, image);
    KindIfDescribed(c, after, x);
    assert KindAt(c, x) == KindAt(before + claims, x);
    if |before| + 2 <= MAX_REGIONS {
      assert claims[1] == KernelClaim(image);
      KindWithClaims(before, claims, KernelClaim(image), x);
    } else if |before| == MAX_REGIONS {
      assert before + claims == before;
      if CanonicalList(before) {
        FullMapStays(before, arenaBase, image, wasTruncated, c, after, truncated);
      }
    } else if ArenaClaim(arenaBase).Covers(x) {
      assert claims[0] == ArenaClaim(arenaBase);
      KindWithClaims(before, claims, ArenaClaim(arenaBase), x);
    } else {
      NotCovered(before, ArenaClaim(arenaBase), x);
    }
  }

  /** A claim on a usable byte that no greater claim covers decides its kind. */
  lemma KindWithClaims(before: seq<Region>, claims: seq<Region>, winner: Region, x: int)
    requires KindAt(before, x) == Some(USABLE) && winner in claims && winner.Covers(x)
    requires forall r :: r in claims && r.Covers(x) ==> r.kind <= winner.kind
    ensures KindAt(before + claims, x) == Some(winner.kind)
  {
    var all := before + claims;
    KindAtIsGreatest(all, x);
    KindAtIsGreatest(before, x);
    assert winner in all;
    assert forall r :: r in all && r.Covers(x) ==> r.kind <= winner.kind;
  }

  lemma NotCovered(before: seq<Region>, claim: Region, x: int)
    requires !claim.Covers(x)
    ensures KindAt(before + [claim], x) == KindAt(before, x)
  {
    var all := before + [claim];
    assert all[..|all| - 1] == before;
  }

  // ----- maps that are too full -----

  /** So many usable regions of a megabyte, a megabyte apart. */
  function Scattered(n: nat): (rs: seq<Region>)
    requires n <= 128
    ensures |rs| == n
  {
    seq(n, i requires 0 <= i < n => Region(0x10_0000 + 0x20_0000 * i, 0x10_0000, USABLE))
  }

  /** A kernel of one megabyte in the second of them. */
  function SmallImage(): Image { Image(0x30_0000, [], 0x30_0000, 0x40_0000) }

  lemma ScatteredIsCanonical(n: nat)
    requires n <= 128
    ensures CanonicalList(Scattered(n))
  {
  }

  lemma KindOfRegion(rs: seq<Region>, i: nat, x: int)
    requires CanonicalList(rs) && i < |rs| && rs[i].Covers(x)
    ensures KindAt(rs, x) == Some(rs[i].kind)
  {
    KindInRegion(rs, i, x);
  }

  /** A full map: the arena is the first region and the kernel the second, and all of
      both is still usable afterwards. */
  lemma FullMapLosesBoth(wasTruncated: bool, x: int)
    requires 0x10_0000 <= x < 0x20_0000 || 0x30_0000 <= x < 0x40_0000
    ensures var before := Scattered(128);
      && ClaimedInto(before, 0x10_0000, SmallImage(), wasTruncated, before, before, true)
      && (ArenaClaim(0x10_0000).Covers(x) || KernelClaim(SmallImage()).Covers(x))
      && KindAt(before, x) == Some(USABLE)
  {
    var before := Scattered(128);
    ScatteredIsCanonical(128);
    assert before + [] == before;
    KindOfRegion(before, if x < 0x20_0000 then 0 else 1, x);
  }

  /** Room for one: the arena is claimed, and the kernel is still usable. */
  lemma AlmostFullMapLosesKernel(wasTruncated: bool, x: int)
    requires 0x30_0000 <= x < 0x40_0000
    ensures var before := Scattered(127);
      var after := before[0 := ArenaClaim(0x10_0000)];
      && ClaimedInto(before, 0x10_0000, SmallImage(), wasTruncated, after, after, true)
      && KernelClaim(SmallImage()).Covers(x) && KindAt(after, x) == Some(USABLE)
  {
    hide KindAt;
    var before := Scattered(127);
    var after := before[0 := ArenaClaim(0x10_0000)];
    ScatteredIsCanonical(127);
    assert Claims(127, 0x10_0000, SmallImage()) == [ArenaClaim(0x10_0000)];
    FirstChanged(before, ArenaClaim(0x10_0000));
    KindOfRegion(after, 1, x);
    forall y
      ensures KindAt(after, y) == KindAt(before + [ArenaClaim(0x10_0000)], y)
    {
      SameWithClaim(before, after, y);
    }
  }

  /** The first region of a canonical list may change its kind if nothing touches it. */
  lemma FirstChanged(c: seq<Region>, r: Region)
    requires CanonicalList(c) && c != [] && r.base == c[0].base && r.length == c[0].length
    requires forall i :: 0 < i < |c| ==> c[0].End() < c[i].base
    ensures CanonicalList(c[0 := r])
  {
  }

  /** Claiming all of a region of a canonical list is giving it another kind. */
  lemma SameWithClaim(before: seq<Region>, after: seq<Region>, y: int)
    requires CanonicalList(before) && CanonicalList(after) && before != []
    requires before[0] == Region(0x10_0000, 0x10_0000, USABLE) && after == before[0 := ArenaClaim(0x10_0000)]
    ensures KindAt(after, y) == KindAt(before + [ArenaClaim(0x10_0000)], y)
  {
    var claim := ArenaClaim(0x10_0000);
    var all := before + [claim];
    assert all[..|all| - 1] == before;
    if claim.Covers(y) {
      KindOfRegion(before, 0, y);
      KindOfRegion(after, 0, y);
    } else {
      forall kind
        ensures RegionLists.Claims(after, kind, y) <==> RegionLists.Claims(before, kind, y)
      {
        OtherClaims(before, after, kind, y);
      }
      KindOfClaims(after, before, y);
    }
  }

  lemma OtherClaims(before: seq<Region>, after: seq<Region>, kind: Kind, y: int)
    requires before != [] && after == before[0 := ArenaClaim(0x10_0000)]
    requires !before[0].Covers(y) && !ArenaClaim(0x10_0000).Covers(y)
    ensures RegionLists.Claims(after, kind, y) <==> RegionLists.Claims(before, kind, y)
  {
    forall i | 1 <= i < |before|
      ensures before[i] in after && after[i] in before
    {
      assert after[i] == before[i];
    }
  }

  // ----- a claim that is made and lost -----

  /** So many usable regions of eight megabytes, eight megabytes apart. */
  function Wide(n: nat): (rs: seq<Region>)
    requires n <= 126
    ensures |rs| == n
  {
    seq(n, i requires 0 <= i < n => Region(0x100_0000 + 0x100_0000 * i, 0x80_0000, USABLE))
  }

  /** A kernel inside the first of them, and the end of the last. */
  function InnerImage(): Image { Image(0x110_0000, [], 0x110_0000, 0x120_0000) }

  const LAST_BASE: u64 := 0x7E00_0000
  const LAST_ARENA: u64 := 0x7E70_0000

  function WideForm(): (c: seq<Region>)
    ensures |c| == 129
  {
    [Region(0x100_0000, 0x10_0000, USABLE), KernelClaim(InnerImage()), Region(0x120_0000, 0x60_0000, USABLE)]
      + Wide(126)[1..125]
      + [Region(LAST_BASE, 0x70_0000, USABLE), ArenaClaim(LAST_ARENA)]
  }

  lemma WideFormAt(i: nat)
    requires i < 129
    ensures 3 <= i < 127 ==> WideForm()[i] == Wide(126)[i - 2]
    ensures i == 127 ==> WideForm()[i] == Region(LAST_BASE, 0x70_0000, USABLE)
    ensures i == 128 ==> WideForm()[i] == ArenaClaim(LAST_ARENA)
  {
  }

  lemma WideFormIsCanonical()
    ensures CanonicalList(WideForm())
  {
    forall i, j | 0 <= i < j < 129
      ensures WideForm()[i].Sound() && WideForm()[j].Sound() && WideForm()[i].End() <= WideForm()[j].base
      ensures WideForm()[i].End() == WideForm()[j].base ==> WideForm()[i].kind != WideForm()[j].kind
    {
      WideFormAt(i);
      WideFormAt(j);
    }
  }

  /** The regions and the claims on them. */
  function WideAndClaims(): seq<Region> {
    Wide(126) + [ArenaClaim(LAST_ARENA), KernelClaim(InnerImage())]
  }

  /** The form says of every byte what the regions and the claims say. */
  lemma WideFormSays(x: int)
    ensures KindAt(WideForm(), x) == KindAt(WideAndClaims(), x)
  {
    hide KindAt, WideForm, WideAndClaims, Region.Covers;
    var c, all := WideForm(), WideAndClaims();
    WideFormIsCanonical();
    KindAtIsGreatest(c, x);
    KindAtIsGreatest(all, x);
    if KindAt(c, x).Some? {
      var i := RegionOf(c, x);
      var same := SomeAsGreat(i, x);
      forall r | r in all && r.Covers(x)
        ensures r.kind <= c[i].kind
      {
        NoneGreater(r, i, x);
      }
    } else {
      forall r | r in all
        ensures !r.Covers(x)
      {
        NoneOutside(r, x);
      }
    }
  }

  /** What the form says of a byte, a region or a claim says too. */
  lemma SomeAsGreat(i: nat, x: int) returns (r: Region)
    requires i < 129 && WideForm()[i].Covers(x)
    ensures r in WideAndClaims() && r.Covers(x) && r.kind == WideForm()[i].kind
  {
    WideFormAt(i);
    var j := if i == 1 then 127 else if i == 128 then 126 else if i < 3 then 0 else if i < 127 then i - 2 else 125;
    r := WideAndClaims()[j];
    assert j < 126 ==> r == Wide(126)[j];
  }

  /** The form says of a byte no less than any region or claim does. */
  lemma NoneGreater(r: Region, i: nat, x: int)
    requires i < 129 && WideForm()[i].Covers(x) && r.Covers(x)
    requires r in WideAndClaims()
    ensures r.kind <= WideForm()[i].kind
  {
    WideFormAt(i);
    var all := WideAndClaims();
    var j :| 0 <= j < |all| && all[j] == r;
    if j < 126 {
      assert r == Wide(126)[j];
    }
  }

  /** Every byte of a region or a claim is in the form. */
  lemma NoneOutside(r: Region, x: int)
    requires r in WideAndClaims()
    ensures r.Covers(x) ==> KindAt(WideForm(), x).Some?
  {
    hide KindAt;
    var c, all := WideForm(), WideAndClaims();
    KindAtIsGreatest(c, x);
    var j :| 0 <= j < |all| && all[j] == r;
    if r.Covers(x) {
      var i :=
        if j == 127 then 1
        else if j == 126 then 128
        else if j == 0 then (if x < 0x110_0000 then 0 else if x < 0x120_0000 then 1 else 2)
        else if j < 125 then j + 2
        else if x < LAST_ARENA then 127 else 128;
      WideFormAt(i);
      assert c[i].Covers(x) && c[i] in c;
    }
  }

  /** Room for two, and both claims made: but they cut two regions into five, the form
      has one region too many, and the one that is dropped is the arena's own. */
  lemma ClaimMadeAndLost(wasTruncated: bool, x: int)
    requires LAST_ARENA <= x < LAST_ARENA + LOADER_ARENA_BYTES
    ensures var before := Wide(126);
      && |before| + 2 <= MAX_REGIONS && CanonicalList(before) && KindAt(before, x) == Some(USABLE)
      && ClaimedInto(before, LAST_ARENA, InnerImage(), wasTruncated, WideForm(), WideForm()[..MAX_REGIONS], true)
      && ArenaClaim(LAST_ARENA).Covers(x) && KindAt(WideForm()[..MAX_REGIONS], x) == None
  {
    hide KindAt;
    var before := Wide(126);
    WideFormIsCanonical();
    assert CanonicalList(before);
    KindOfRegion(before, 125, x);
    ClaimsAre(126, LAST_ARENA, InnerImage());
    forall y
      ensures KindAt(WideForm(), y) == KindAt(before + Claims(126, LAST_ARENA, InnerImage()), y)
    {
      WideFormSays(y);
    }
    WideFormAt(128);
    KindIfDescribed(WideForm(), WideForm()[..MAX_REGIONS], x);
  }
}
