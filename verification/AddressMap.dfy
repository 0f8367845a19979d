/** What page tables mean: a partial map from virtual addresses to physical
    addresses and flags, and what mapping a range does to it. */
module AddressMap {
  import opened Words
  import opened PageEntries
  import opened PageTree

  datatype Mapping = Mapping(physical: int, flags: u64)

  function MappingOf(leaf: PageLeaf, v: int): Mapping {
    Mapping(AddressOf(leaf.entry) + PageOffset(v, leaf.level), FlagsOf(leaf.entry))
  }

  /** `virtual % span`, by the span of the level */
  function PageOffset(v: int, level: Level): (offset: nat) {
    if level == 1 then v % 0x1000
    else if level == 2 then v % 0x20_0000
    else if level == 3 then v % 0x4000_0000
    else v % 0x80_0000_0000
  }

  /** The translation of an address, canonical or not, by its low 48 bits. */
  function View(m: seq<u64>, root: int, v: u64): Option<Mapping> {
    var leaf := Walk(m, root, LEVEL_ROOT, v);
    if leaf.Some? then Some(MappingOf(leaf.value, v)) else None
  }

  /** What the processor translates: canonical addresses only. */
  function Translation(m: seq<u64>, root: int, v: u64): Option<Mapping> {
    if Canonical(v) then View(m, root, v) else None
  }

  // ----- the pages a range is mapped with -----

  /** The largest page that is aligned on both sides, fits, and is supported. */
  function PageSizeFor(huge: bool, virtual: int, physical: int, remaining: int): (size: int)
    ensures size in {0x1000, 0x20_0000, 0x4000_0000}
    ensures remaining >= 0x1000 ==> size <= remaining
  {
    if huge && remaining >= 0x4000_0000 && virtual % 0x4000_0000 == 0 && physical % 0x4000_0000 == 0 then 0x4000_0000
    else if remaining >= 0x20_0000 && virtual % 0x20_0000 == 0 && physical % 0x20_0000 == 0 then 0x20_0000
    else 0x1000
  }

  function LevelFor(size: int): (level: Level)
    ensures level <= LEVEL_POINTER
  {
    if size == 0x4000_0000 then LEVEL_POINTER
    else if size == 0x20_0000 then LEVEL_DIRECTORY
    else LEVEL_TABLE
  }

  /** The level of the page that serves offset `k` of a mapped range. */
  function LevelAt(huge: bool, virtual: int, physical: int, bytes: int, k: int): Level
    decreases bytes
  {
    var size := PageSizeFor(huge, virtual, physical, bytes);
    if k < size || bytes < 0x1000 then LevelFor(size)
    else LevelAt(huge, virtual + size, physical + size, bytes - size, k - size)
  }

  // ----- a range, from its first byte -----

  datatype Range = Range(virtual: u64, physical: u64, bytes: u64, flags: u64, huge: bool)

  /** What paging_map checks before it touches a table. */
  predicate Accepted(r: Range) {
    && r.bytes != 0
    && r.virtual % 4096 == 0 && r.physical % 4096 == 0 && r.bytes % 4096 == 0
    && r.virtual + r.bytes < U64_LIMIT && r.physical + r.bytes < U64_LIMIT
    && Canonical(r.virtual) && Canonical(r.virtual + r.bytes - 1)
    && FlagsAccepted(r.flags)
  }

  /** How far into the range an address is, by its low 48 bits. */
  function OffsetIn(virtual: int, w: int): (k: nat) {
    (w - virtual) % 0x1_0000_0000_0000
  }

  /** What offset `k` of the range is to be translated to. */
  function Expected(r: Range, k: int): Mapping
    requires FlagsAccepted(r.flags)
  {
    Mapping((r.physical + k) % 0x10_0000_0000_0000,
            LeafFlags(r.flags, LevelAt(r.huge, r.virtual, r.physical, r.bytes, k)))
  }

  /** The first `done` bytes of the range, all unmapped before, are mapped as
      asked for, and no other address is translated differently. */
  ghost predicate MapsPrefix(m: seq<u64>, m': seq<u64>, root: int, r: Range, done: int)
    requires FlagsAccepted(r.flags)
  {
    forall w: u64 {:trigger View(m', root, w)} {:trigger View(m, root, w)} ::
      if OffsetIn(r.virtual, w) < done
      then View(m, root, w) == None && View(m', root, w) == Some(Expected(r, OffsetIn(r.virtual, w)))
      else View(m', root, w) == View(m, root, w)
  }

  // ----- one page -----

  /** The addresses a page serves are those within its span of its first byte. */
  lemma PageServes(v: int, w: int, level: Level)
    requires level <= LEVEL_POINTER && PageOffset(v, level) == 0
    ensures Slot(w, level) == Slot(v, level) <==> OffsetIn(v, w) < Span(level)
    ensures OffsetIn(v, w) < Span(level) ==> PageOffset(w, level) == OffsetIn(v, w)
  {
    if level == 1 {
      PageServesAt(v, w, 0x1000, 0x10_0000_0000);
    } else if level == 2 {
      PageServesAt(v, w, 0x20_0000, 0x800_0000);
    } else {
      PageServesAt(v, w, 0x4000_0000, 0x4_0000);
    }
  }

  lemma PageServesAt(v: int, w: int, span: int, count: int)
    requires span > 0 && count > 0 && span * count == 0x1_0000_0000_0000
    requires v % span == 0
    ensures w % 0x1_0000_0000_0000 / span == v % 0x1_0000_0000_0000 / span <==>
      (w - v) % 0x1_0000_0000_0000 < span
    ensures (w - v) % 0x1_0000_0000_0000 < span ==> w % span == (w - v) % 0x1_0000_0000_0000
  {
    var p, q, o := v % 0x1_0000_0000_0000 / span, w % 0x1_0000_0000_0000 / span, w % span;
    PageParts(v, span, count);
    PageParts(w, span, count);
    PageDistance(v, w, v / 0x1_0000_0000_0000, w / 0x1_0000_0000_0000, p, q, o, span, count);
  }

  /** An address is a lap of the 48-bit space, a page of the lap and an offset. */
  lemma PageParts(x: int, span: int, count: int)
    requires span > 0 && count > 0 && span * count == 0x1_0000_0000_0000
    ensures x == 0x1_0000_0000_0000 * (x / 0x1_0000_0000_0000) + span * (x % 0x1_0000_0000_0000 / span) + x % span
    ensures 0 <= x % 0x1_0000_0000_0000 / span < count
  {
    var size := 0x1_0000_0000_0000;
    var lap, linear := x / size, x % size;
    var page, offset := linear / span, linear % span;
    assert linear == span * page + offset;
    assert size * lap == span * (count * lap);
    assert x == span * (count * lap) + span * page + offset;
    assert span * (count * lap) + span * page == span * (count * lap + page);
    DivisionIs(x, span, count * lap + page, offset);
    if page >= count {
      ScaleMonotone(span, count, page);
    }
  }

  lemma PageDistance(v: int, w: int, lv: int, lw: int, p: int, q: int, o: int, span: int, count: int)
    requires span > 0 && span * count == 0x1_0000_0000_0000
    requires 0 <= p < count && 0 <= q < count && 0 <= o < span
    requires v == 0x1_0000_0000_0000 * lv + span * p
    requires w == 0x1_0000_0000_0000 * lw + span * q + o
    ensures p == q <==> (w - v) % 0x1_0000_0000_0000 < span
    ensures p == q ==> (w - v) % 0x1_0000_0000_0000 == o
  {
    var size := 0x1_0000_0000_0000;
    var laps, pages := if q >= p then lw - lv else lw - lv - 1, if q >= p then q - p else q - p + count;
    assert span * (q - p) == span * q - span * p;
    assert span * (q - p + count) == span * (q - p) + size;
    ScaleMonotone(span, 0, pages);
    ScaleStrict(span, pages, count);
    DivisionIs(w - v, size, laps, span * pages + o);
    if p != q {
      ScaleMonotone(span, 1, pages);
    }
  }

  /** A page's physical bytes, with addresses past 2^52 folded by the entry. */
  lemma PageBytesAt(physical: u64, level: Level, offset: int)
    requires level <= LEVEL_POINTER && PageOffset(physical, level) == 0 && 0 <= offset < Span(level)
    ensures AddressOf(physical) + offset == (physical + offset) % 0x10_0000_0000_0000
  {
    if level == 1 {
      PageBytesFold(physical, offset, 0x1000, 0x100_0000_0000, 1);
    } else if level == 2 {
      PageBytesFold(physical, offset, 0x20_0000, 0x8000_0000, 0x200);
    } else {
      PageBytesFold(physical, offset, 0x4000_0000, 0x40_0000, 0x4_0000);
    }
  }

  lemma PageBytesFold(physical: u64, offset: int, span: int, count: int, pages: int)
    requires span > 0 && count > 0 && span * count == 0x10_0000_0000_0000 && span == 4096 * pages
    requires physical % span == 0 && 0 <= offset < span
    ensures AddressOf(physical) + offset == (physical + offset) % 0x10_0000_0000_0000
  {
    var high, x := physical / 0x10_0000_0000_0000, physical % 0x10_0000_0000_0000;
    var page := physical / span;
    assert physical == span * page;
    assert 0x10_0000_0000_0000 * high == span * (count * high);
    assert x == span * (page - count * high);
    ScaleStrict(span, page - count * high, count);
    assert span * page == 4096 * (pages * page);
    DivisionIs(physical, 4096, pages * page, 0);
    DivisionIs(physical + offset, 0x10_0000_0000_0000, high, x + offset);
    AddressOfAligned(physical);
  }

  /** One more page, in terms of the address map. */
  lemma PageMapped(m: seq<u64>, m': seq<u64>, root: int, v: u64, physical: u64, flags: u64, level: Level, w: u64)
    requires FlagsAccepted(flags) && level <= LEVEL_POINTER
    requires PageOffset(v, level) == 0 && PageOffset(physical, level) == 0
    requires LeafMapped(m, m', root, level, v, LeafEntry(physical, flags, level))
    ensures if OffsetIn(v, w) < Span(level)
      then && View(m, root, w) == None
           && View(m', root, w) ==
             Some(Mapping((physical + OffsetIn(v, w)) % 0x10_0000_0000_0000, LeafFlags(flags, level)))
      else View(m', root, w) == View(m, root, w)
  {
    hide Slot, Span, OffsetIn, PageOffset, AddressOf, FlagsOf, LeafEntry, LeafFlags, Walk, FlagsAccepted, Decode;
    PageServes(v, w, level);
    if OffsetIn(v, w) < Span(level) {
      LeafEntryDecodes(physical, flags, level);
      PageBytesAt(physical, level, OffsetIn(v, w));
    }
    assert Slot(w, level) == Slot(v, level) <==> OffsetIn(v, w) < Span(level);
  }

  lemma OffsetOfFirst(virtual: int)
    ensures OffsetIn(virtual, virtual) == 0
  {
  }

  lemma OffsetShift(virtual: int, done: int, w: int)
    requires 0 <= done <= 0x1_0000_0000_0000
    ensures OffsetIn(virtual + done, w) ==
      if OffsetIn(virtual, w) >= done then OffsetIn(virtual, w) - done
      else OffsetIn(virtual, w) - done + 0x1_0000_0000_0000
  {
    var size := 0x1_0000_0000_0000;
    var lap, k := (w - virtual) / size, OffsetIn(virtual, w);
    assert w - (virtual + done) == size * lap + k - done;
    if k >= done {
      DivisionIs(w - (virtual + done), size, lap, k - done);
    } else {
      DivisionIs(w - (virtual + done), size, lap - 1, k - done + size);
    }
  }

  /** The pages from `done` on are those of the rest of the range. */
  ghost predicate PagesFrom(r: Range, done: int) {
    0 <= done < r.bytes &&
    forall k :: done <= k < r.bytes ==>
      LevelAt(r.huge, r.virtual, r.physical, r.bytes, k) ==
      LevelAt(r.huge, r.virtual + done, r.physical + done, r.bytes - done, k - done)
  }

  /** No two bytes of what has been mapped share their low 48 bits: a page that
      came round to the first one would have found it occupied. */
  lemma PrefixFitsSpace(m: seq<u64>, m': seq<u64>, m'': seq<u64>, root: int, r: Range, done: int, level: Level)
    requires FlagsAccepted(r.flags) && level <= LEVEL_POINTER
    requires 0 <= done <= 0x1_0000_0000_0000 && done < r.bytes && r.virtual + r.bytes < U64_LIMIT
    requires r.physical + done < U64_LIMIT
    requires PageOffset(r.virtual + done, level) == 0 && PageOffset(r.physical + done, level) == 0
    requires MapsPrefix(m, m', root, r, done)
    requires LeafMapped(m', m'', root, level, r.virtual + done, LeafEntry(r.physical + done, r.flags, level))
    ensures done + Span(level) <= 0x1_0000_0000_0000
  {
    hide PageOffset, LeafEntry, View, Expected, FlagsAccepted, OffsetIn, LeafFlags, LeafMapped;
    OffsetShift(r.virtual, done, r.virtual);
    PageMapped(m', m'', root, r.virtual + done, r.physical + done, r.flags, level, r.virtual);
    OffsetOfFirst(r.virtual);
    assert 0 < done ==> View(m', root, r.virtual) == Some(Expected(r, 0));
  }

  /** Mapping the next page extends the prefix. */
  lemma PrefixExtends(m: seq<u64>, m': seq<u64>, m'': seq<u64>, root: int, r: Range, done: int, level: Level)
    requires FlagsAccepted(r.flags) && level <= LEVEL_POINTER
    requires 0 <= done <= 0x1_0000_0000_0000 && done < r.bytes && r.virtual + r.bytes < U64_LIMIT
    requires r.physical + done < U64_LIMIT
    requires PageOffset(r.virtual + done, level) == 0 && PageOffset(r.physical + done, level) == 0
    requires MapsPrefix(m, m', root, r, done)
    requires LeafMapped(m', m'', root, level, r.virtual + done, LeafEntry(r.physical + done, r.flags, level))
    requires forall k :: done <= k < done + Span(level) ==>
      LevelAt(r.huge, r.virtual, r.physical, r.bytes, k) == level
    ensures done + Span(level) <= 0x1_0000_0000_0000
    ensures MapsPrefix(m, m'', root, r, done + Span(level))
  {
    hide PageOffset, LeafEntry, View, FlagsAccepted, LeafFlags, OffsetIn, LeafMapped, Span, LevelAt;
    PrefixFitsSpace(m, m', m'', root, r, done, level);
    forall w: u64
      ensures if OffsetIn(r.virtual, w) < done + Span(level)
        then View(m, root, w) == None && View(m'', root, w) == Some(Expected(r, OffsetIn(r.virtual, w)))
        else View(m'', root, w) == View(m, root, w)
    {
      OffsetShift(r.virtual, done, w);
      PageMapped(m', m'', root, r.virtual + done, r.physical + done, r.flags, level, w);
      assert View(m', root, w) == View(m', root, w);
      var k := OffsetIn(r.virtual, w);
      if done <= k < done + Span(level) {
        assert LevelAt(r.huge, r.virtual, r.physical, r.bytes, k) == level;
      }
    }
  }

  lemma PageSizeAligned(huge: bool, virtual: int, physical: int, remaining: int)
    requires virtual % 4096 == 0 && physical % 4096 == 0
    ensures var size := PageSizeFor(huge, virtual, physical, remaining);
      && size == Span(LevelFor(size)) && size % 4096 == 0
      && PageOffset(virtual, LevelFor(size)) == 0 && PageOffset(physical, LevelFor(size)) == 0
      && (remaining >= 0x1000 ==> size <= remaining) && (LevelFor(size) == LEVEL_POINTER ==> huge)
  {
  }

  /** One greedy choice: it fits, it is aligned, and it serves its own bytes. */
  lemma PagesStep(r: Range, done: int, size: int)
    requires PagesFrom(r, done)
    requires r.virtual % 4096 == 0 && r.physical % 4096 == 0 && r.bytes % 4096 == 0 && done % 4096 == 0
    requires size == PageSizeFor(r.huge, r.virtual + done, r.physical + done, r.bytes - done)
    ensures size == Span(LevelFor(size)) && size % 4096 == 0 && done + size <= r.bytes
    ensures PageOffset(r.virtual + done, LevelFor(size)) == 0 && PageOffset(r.physical + done, LevelFor(size)) == 0
    ensures LevelFor(size) == LEVEL_POINTER ==> r.huge
    ensures forall k :: done <= k < done + size ==> LevelAt(r.huge, r.virtual, r.physical, r.bytes, k) == LevelFor(size)
    ensures done + size < r.bytes ==> PagesFrom(r, done + size)
  {
    hide PageSizeFor, LevelFor, PageOffset, Span, LevelAt;
    PageSizeAligned(r.huge, r.virtual + done, r.physical + done, r.bytes - done);
    assert r.bytes - done >= 0x1000;
    forall k | done <= k < r.bytes
      ensures k < done + size ==> LevelAt(r.huge, r.virtual, r.physical, r.bytes, k) == LevelFor(size)
      ensures k >= done + size ==>
        (LevelAt(r.huge, r.virtual, r.physical, r.bytes, k) ==
         LevelAt(r.huge, r.virtual + (done + size), r.physical + (done + size), r.bytes - (done + size),
           k - (done + size)))
    {
      LevelAtUnfolds(r, done, size, k);
    }
  }

  /** Before anything is mapped the prefix is empty, and the pages are all to come. */
  lemma RangeBegins(m: seq<u64>, root: int, r: Range)
    requires Accepted(r)
    ensures MapsPrefix(m, m, root, r, 0) && PagesFrom(r, 0)
  {
  }

  lemma PagesServe(r: Range, done: int)
    requires PagesFrom(r, done)
    ensures LevelAt(r.huge, r.virtual, r.physical, r.bytes, done) ==
      LevelFor(PageSizeFor(r.huge, r.virtual + done, r.physical + done, r.bytes - done))
  {
    assert LevelAt(r.huge, r.virtual + done, r.physical + done, r.bytes - done, done - done) ==
      LevelFor(PageSizeFor(r.huge, r.virtual + done, r.physical + done, r.bytes - done));
  }

  lemma LevelAtUnfolds(r: Range, done: int, size: int, k: int)
    requires 0 <= done <= k < r.bytes && r.bytes - done >= 0x1000
    requires size == PageSizeFor(r.huge, r.virtual + done, r.physical + done, r.bytes - done)
    ensures LevelAt(r.huge, r.virtual + done, r.physical + done, r.bytes - done, k - done) ==
      if k < done + size then LevelFor(size)
      else LevelAt(r.huge, r.virtual + (done + size), r.physical + (done + size), r.bytes - (done + size),
        k - (done + size))
  {
    hide PageSizeFor, LevelFor;
    var v, p, n := r.virtual + done, r.physical + done, r.bytes - done;
    assert v + size == r.virtual + (done + size) && p + size == r.physical + (done + size);
    assert n - size == r.bytes - (done + size) && k - done - size == k - (done + size);
  }

  // ----- the range as the caller sees it -----

  /** The range lies in one of the two canonical halves, and its 48-bit
      addresses do not repeat. */
  predicate OneHalf(r: Range) {
    && r.bytes <= 0x1_0000_0000_0000
    && (r.virtual < 0x8000_0000_0000 <==> r.virtual + r.bytes - 1 < 0x8000_0000_0000)
  }

  /** Only the ends of a range are checked for being canonical. One that runs from
      the low half into the high half is more than the tables can tell apart. */
  lemma CrossingIsTooLong(r: Range)
    requires Accepted(r)
    ensures OneHalf(r) <==> r.bytes <= 0x1_0000_0000_0000
  {
    hide Canonical, FlagsAccepted;
    CanonicalHalves(r.virtual);
    CanonicalHalves(r.virtual + r.bytes - 1);
  }

  /** The canonical addresses of a range that stays in one half of the address
      space are the ones between its ends. */
  lemma OffsetIsDistance(r: Range, w: u64, done: int)
    requires Accepted(r) && OneHalf(r)
    requires Canonical(w) && 0 <= done <= r.bytes
    ensures OffsetIn(r.virtual, w) < done <==> r.virtual <= w < r.virtual + done
    ensures OffsetIn(r.virtual, w) < done ==> OffsetIn(r.virtual, w) == w - r.virtual
  {
    hide Canonical, FlagsAccepted;
    CanonicalHalves(r.virtual);
    CanonicalHalves(r.virtual + r.bytes - 1);
    CanonicalHalves(w);
    var distance := Signed(w) - Signed(r.virtual);
    var laps := (if w < 0x8000_0000_0000 then 0 else 0x1_0000) - (if r.virtual < 0x8000_0000_0000 then 0 else 0x1_0000);
    if distance >= 0 {
      DivisionIs(w - r.virtual, 0x1_0000_0000_0000, laps, distance);
    } else {
      DivisionIs(w - r.virtual, 0x1_0000_0000_0000, laps - 1, distance + 0x1_0000_0000_0000);
    }
  }

  /** A canonical address as the signed 48-bit number its sign bits make it. */
  function Signed(address: u64): int {
    if address < 0x8000_0000_0000 then address else address - U64_LIMIT
  }

  lemma SameViews(m: seq<u64>, m': seq<u64>, m'': seq<u64>, root: int, r: Range, done: int)
    requires FlagsAccepted(r.flags)
    requires MapsPrefix(m, m', root, r, done) && SameWalks(m', m'', root)
    ensures MapsPrefix(m, m'', root, r, done)
  {
    hide OffsetIn, Expected, FlagsAccepted;
    forall w: u64
      ensures if OffsetIn(r.virtual, w) < done
        then View(m, root, w) == None && View(m'', root, w) == Some(Expected(r, OffsetIn(r.virtual, w)))
        else View(m'', root, w) == View(m, root, w)
    {
      assert Walk(m'', root, LEVEL_ROOT, w) == Walk(m', root, LEVEL_ROOT, w);
      assert View(m'', root, w) == View(m', root, w);
    }
  }

  /** A mapped range, address by address. Below 2^52 the physical side is what
      was asked for; beyond, an entry has no bits for it. */
  lemma MappedRange(m: seq<u64>, m': seq<u64>, root: int, r: Range, done: int, w: u64)
    requires Accepted(r) && OneHalf(r) && 0 <= done <= r.bytes
    requires MapsPrefix(m, m', root, r, done)
    requires Canonical(w)
    ensures if r.virtual <= w < r.virtual + done
      then && Translation(m, root, w) == None
           && Translation(m', root, w) == Some(Expected(r, w - r.virtual))
      else Translation(m', root, w) == Translation(m, root, w)
    ensures r.virtual <= w < r.virtual + done && r.physical + r.bytes <= PHYSICAL_LIMIT ==>
      Translation(m', root, w).value.physical == r.physical + (w - r.virtual)
  {
    hide Canonical, FlagsAccepted, OffsetIn, View, LeafFlags, LevelAt;
    OffsetIsDistance(r, w, done);
  }

  /** Whatever becomes of a mapping, a translation there was stays as it was. */
  lemma TranslationsSurvive(m: seq<u64>, m': seq<u64>, root: int, r: Range, done: int, w: u64)
    requires FlagsAccepted(r.flags) && MapsPrefix(m, m', root, r, done)
    requires Translation(m, root, w).Some?
    ensures Translation(m', root, w) == Translation(m, root, w)
  {
    hide Canonical, FlagsAccepted, OffsetIn, View, LeafFlags, LevelAt;
  }

  /** Every byte of a mapped range translates to the byte asked for exactly when
      the physical range ends by 2^52: an entry stores no higher bit, and
      paging_map does not check. */
  lemma FaithfulExactlyBelowLimit(m: seq<u64>, m': seq<u64>, root: int, r: Range)
    requires Accepted(r) && OneHalf(r) && MapsPrefix(m, m', root, r, r.bytes)
    ensures (forall w: u64 :: Canonical(w) && r.virtual <= w < r.virtual + r.bytes ==>
        Translation(m', root, w).Some? && Translation(m', root, w).value.physical == r.physical + (w - r.virtual))
      <==> r.physical + r.bytes <= PHYSICAL_LIMIT
  {
    hide FlagsAccepted, OffsetIn, View, LeafFlags, LevelAt;
    var last := r.virtual + r.bytes - 1;
    MappedRange(m, m', root, r, r.bytes, last);
    forall w: u64 | Canonical(w) && r.virtual <= w < r.virtual + r.bytes
      ensures Translation(m', root, w) == Some(Expected(r, w - r.virtual))
    {
      MappedRange(m, m', root, r, r.bytes, w);
    }
    assert Translation(m', root, last).value.physical == (r.physical + r.bytes - 1) % 0x10_0000_0000_0000;
  }
}
