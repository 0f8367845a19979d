/** The processor's walk over the tables finds what the address map says, with the
    rights its leaves grant and no fault: links take no right away, and no entry has a
    reserved bit set. */
module PageRights {
  import opened Words
  import opened Processor
  import opened PageEntries
  import opened PageTree
  import opened AddressMap

  /** A link grants everything, and a large page lies on a boundary of its own size; one
      of a gigabyte is only there where it is supported. */
  predicate Plain(entry: u64, level: Level, huge: bool) {
    match Decode(entry, level)
    case Empty => true
    case Leaf =>
      && (level == LEVEL_DIRECTORY ==> AddressOf(entry) % 0x20_0000 == 0)
      && (level == LEVEL_POINTER ==> huge && AddressOf(entry) % 0x4000_0000 == 0)
    case Link(_) =>
      !IsPage(entry) && AllowsWrites(entry) && AllowsUser(entry) && !ForbidsExecution(entry)
  }

  ghost predicate AllPlain(m: seq<u64>, tables: Tables, huge: bool) {
    forall t, i :: t in tables && 0 <= i < 512 ==> Plain(Load(m, t, i), tables[t].level, huge)
  }

  /** What the processor makes of a mapping. */
  function Granted(f: Features, mapping: Option<Mapping>): Option<Access> {
    match mapping
    case None => None
    case Some(Mapping(physical, flags)) =>
      if ForbidsExecution(flags) && !f.noExecute then None
      else Some(Access(physical, AllowsWrites(flags), AllowsUser(flags), !ForbidsExecution(flags)))
  }

  /** Every address leads where the address map says, with the rights of its leaf. */
  ghost predicate Obeyed(m: seq<u64>, root: int, huge: bool) {
    forall f: Features, v: u64 :: (huge ==> f.gigabytePages) ==>
      Reaches(f, m, root, v) == Granted(f, Translation(m, root, v))
  }

  // ----- one entry -----

  /** An entry is twelve bits, the address, and twelve bits. */
  lemma EntryParts(entry: u64) returns (high: int, page: int, low: int)
    ensures entry == 0x10_0000_0000_0000 * high + 0x1000 * page + low
    ensures 0 <= high < 0x1000 && 0 <= page < 0x100_0000_0000 && 0 <= low < 0x1000
    ensures AddressOf(entry) == 0x1000 * page && FlagsOf(entry) == 0x10_0000_0000_0000 * high + low
  {
    PageBits(entry);
    high, page := entry / 0x10_0000_0000_0000, entry % 0x10_0000_0000_0000 / 0x1000;
    low := entry % 0x10_0000_0000_0000 % 0x1000;
  }

  /** The bits the processor looks at, from those parts. */
  lemma LowBitsOf(x: u64, high: int, page: int, low: int)
    requires x == 0x10_0000_0000_0000 * high + 0x1000 * page + low
    requires 0 <= high < 0x1000 && 0 <= page < 0x100_0000_0000 && 0 <= low < 0x1000
    ensures x % 2 == low % 2 && x / 2 % 2 == low / 2 % 2 && x / 4 % 2 == low / 4 % 2 && x / 0x80 % 2 == low / 0x80 % 2
    ensures x / 0x8000_0000_0000_0000 == high / 0x800
  {
    DivisionIs(x, 2, 0x8_0000_0000_0000 * high + 0x800 * page + low / 2, low % 2);
    DivisionIs(x / 2, 2, 0x4_0000_0000_0000 * high + 0x400 * page + low / 2 / 2, low / 2 % 2);
    DivisionIs(x, 4, 0x4_0000_0000_0000 * high + 0x400 * page + low / 4, low % 4);
    DivisionIs(x / 4, 2, 0x2_0000_0000_0000 * high + 0x200 * page + low / 4 / 2, low / 4 % 2);
    DivisionIs(x, 0x80, 0x2000_0000_0000 * high + 0x20 * page + low / 0x80, low % 0x80);
    DivisionIs(x / 0x80, 2, 0x1000_0000_0000 * high + 0x10 * page + low / 0x80 / 2, low / 0x80 % 2);
    DivisionIs(x, 0x8000_0000_0000_0000, high / 0x800, 0x10_0000_0000_0000 * (high % 0x800) + 0x1000 * page + low);
  }

  /** The flags of an entry say of it what the entry says. */
  lemma FlagsSpeak(entry: u64)
    ensures IsPresent(entry) == Present(entry) && IsPage(entry) == Large(entry)
    ensures AllowsWrites(FlagsOf(entry)) == AllowsWrites(entry)
    ensures AllowsUser(FlagsOf(entry)) == AllowsUser(entry)
    ensures ForbidsExecution(FlagsOf(entry)) == ForbidsExecution(entry)
  {
    var high, page, low := EntryParts(entry);
    hide AddressOf, FlagsOf;
    LowBitsOf(entry, high, page, low);
    LowBitsOf(FlagsOf(entry), high, 0, low);
    DivisionIs(entry, 256, 0x1000_0000_0000 * high + 0x10 * page + low / 256, low % 256);
    PageBit(low);
  }

  lemma PageBit(low: int)
    requires 0 <= low < 0x1000
    ensures low / 0x80 % 2 == 1 <==> low % 256 >= 128
  {
  }

  lemma TableFrameIs(entry: u64)
    ensures TableFrame(entry) == AddressOf(entry)
  {
    var high, page, low := EntryParts(entry);
    DivisionIs(entry, 0x1000, 0x100_0000_0000 * high + page, low);
    DivisionIs(entry / 0x1000, 0x100_0000_0000, high, page);
  }

  /** Where a page starts on a boundary of its size, its frame is its address. */
  lemma PageByteIs(f: Features, entry: u64, level: Level, v: u64)
    requires level <= LEVEL_POINTER
    requires level == LEVEL_DIRECTORY ==> AddressOf(entry) % 0x20_0000 == 0
    requires level == LEVEL_POINTER ==> AddressOf(entry) % 0x4000_0000 == 0
    ensures PageByte(entry, level, v) == AddressOf(entry) + PageOffset(v, level)
    ensures level == LEVEL_DIRECTORY ==> entry / 0x2000 % 0x100 == 0
    ensures level == LEVEL_POINTER ==> entry / 0x2000 % 0x2_0000 == 0
  {
    TableFrameIs(entry);
    if level != LEVEL_TABLE {
      var high, page, low := EntryParts(entry);
      hide AddressOf, FlagsOf;
      if level == LEVEL_DIRECTORY {
        LargeFrame(entry, high, page, low, AddressOf(entry) / 0x20_0000);
      } else {
        HugeFrame(entry, high, page, low, AddressOf(entry) / 0x4000_0000);
      }
    }
  }

  lemma LargeFrame(entry: u64, high: int, page: int, low: int, frame: int)
    requires entry == 0x10_0000_0000_0000 * high + 0x1000 * page + low
    requires 0 <= high && 0 <= page < 0x100_0000_0000 && 0 <= low < 0x1000 && 0x1000 * page == 0x20_0000 * frame
    ensures entry / 0x20_0000 % 0x8000_0000 == frame && entry / 0x2000 % 0x100 == 0
  {
    DivisionIs(entry, 0x20_0000, 0x8000_0000 * high + frame, low);
    DivisionIs(entry / 0x20_0000, 0x8000_0000, high, frame);
    DivisionIs(entry, 0x2000, 0x80_0000_0000 * high + 0x100 * frame, low);
    DivisionIs(entry / 0x2000, 0x100, 0x8000_0000 * high + frame, 0);
  }

  lemma HugeFrame(entry: u64, high: int, page: int, low: int, frame: int)
    requires entry == 0x10_0000_0000_0000 * high + 0x1000 * page + low
    requires 0 <= high && 0 <= page < 0x100_0000_0000 && 0 <= low < 0x1000 && 0x1000 * page == 0x4000_0000 * frame
    ensures entry / 0x4000_0000 % 0x40_0000 == frame && entry / 0x2000 % 0x2_0000 == 0
  {
    DivisionIs(entry, 0x4000_0000, 0x40_0000 * high + frame, low);
    DivisionIs(entry / 0x4000_0000, 0x40_0000, high, frame);
    DivisionIs(entry, 0x2000, 0x80_0000_0000 * high + 0x2_0000 * frame, low);
    DivisionIs(entry / 0x2000, 0x2_0000, 0x40_0000 * high + frame, 0);
  }

  // ----- the walk -----

  lemma FetchIsLoad(m: seq<u64>, table: int, v: u64, level: Level)
    requires table % 4096 == 0
    ensures Fetch(m, table + 8 * IndexBits(v, level)) == Load(m, table, IndexAt(v, level))
  {
    var k := table / 4096;
    DivisionIs(table, 8, 512 * k, 0);
    DivisionIs(table + 8 * IndexBits(v, level), 8, 512 * k + IndexBits(v, level), 0);
  }

  /** What a plain entry means to the processor. */
  lemma PlainIsGranted(f: Features, entry: u64, level: Level, v: u64, huge: bool)
    requires Plain(entry, level, huge) && (huge ==> f.gigabytePages)
    ensures IsPresent(entry) == !Decode(entry, level).Empty?
    ensures Decode(entry, level).Leaf? ==>
      && level <= LEVEL_POINTER && (level == LEVEL_TABLE || IsPage(entry))
      && (if Reserved(f, entry, level) then None
          else Some(Access(PageByte(entry, level, v), AllowsWrites(entry), AllowsUser(entry),
                           !ForbidsExecution(entry))))
         == Granted(f, Some(MappingOf(PageLeaf(level, entry), v)))
    ensures Decode(entry, level).Link? ==>
      && level != LEVEL_TABLE && !IsPage(entry) && !Reserved(f, entry, level)
      && TableFrame(entry) == Decode(entry, level).table
      && AllowsWrites(entry) && AllowsUser(entry) && !ForbidsExecution(entry)
  {
    hide AddressOf, FlagsOf, PageOffset, PageByte, TableFrame;
    FlagsSpeak(entry);
    TableFrameIs(entry);
    if Decode(entry, level).Leaf? {
      PageByteIs(f, entry, level, v);
    }
  }

  lemma {:induction false} WalkIsGranted(
    f: Features, m: seq<u64>, root: int, tables: Tables, low: int, high: int, huge: bool, table: int, v: u64)
    requires Tree(m, root, tables, low, high) && AllPlain(m, tables, huge) && (huge ==> f.gigabytePages)
    requires table in tables
    ensures var leaf := Walk(m, table, tables[table].level, v);
      WalkFrom(f, m, table, tables[table].level, v) ==
        Granted(f, if leaf.Some? then Some(MappingOf(leaf.value, v)) else None)
    decreases tables[table].level
  {
    hide Load, Fetch, IndexAt, IndexBits, Plain, Decode, PageByte, TableFrame, MappingOf;
    hide AllowsWrites, AllowsUser, ForbidsExecution, IsPage, IsPresent, Reserved;
    var level := tables[table].level;
    var index := IndexAt(v, level);
    var entry := Load(m, table, index);
    assert LinkInTree(m, tables, table, index);
    assert Plain(entry, level, huge);
    FetchIsLoad(m, table, v, level);
    PlainIsGranted(f, entry, level, v, huge);
    if Decode(entry, level).Link? {
      WalkIsGranted(f, m, root, tables, low, high, huge, Decode(entry, level).table, v);
    }
  }

  lemma TreeIsObeyed(m: seq<u64>, root: int, tables: Tables, low: int, high: int, huge: bool)
    requires Tree(m, root, tables, low, high) && AllPlain(m, tables, huge)
    ensures Obeyed(m, root, huge)
  {
    hide AllPlain, WalkFrom, Walk, MappingOf, Granted, Canonical;
    forall f: Features, v: u64 | huge ==> f.gigabytePages
      ensures Reaches(f, m, root, v) == Granted(f, Translation(m, root, v))
    {
      CanonicalHalves(v);
      WalkIsGranted(f, m, root, tables, low, high, huge, root, v);
      assert Granted(f, None) == None by { GrantsNothing(f); }
    }
  }

  lemma GrantsNothing(f: Features)
    ensures Granted(f, None) == None
  {
  }

  // ----- what the loader writes -----

  lemma LeafIsPlain(physical: u64, flags: u64, level: Level, huge: bool)
    requires FlagsAccepted(flags) && level <= LEVEL_POINTER && PageOffset(physical, level) == 0
    requires level == LEVEL_POINTER ==> huge
    ensures Plain(LeafEntry(physical, flags, level), level, huge)
  {
    LeafEntryDecodes(physical, flags, level);
    AlignedAddress(physical);
    hide AddressOf, FlagsOf, LeafEntry, FlagsAccepted, Decode;
  }

  lemma AlignedAddress(physical: u64)
    ensures physical % 0x20_0000 == 0 ==> AddressOf(physical) % 0x20_0000 == 0
    ensures physical % 0x4000_0000 == 0 ==> AddressOf(physical) % 0x4000_0000 == 0
  {
    if physical % 0x20_0000 == 0 {
      AlignedBits(physical, 0x20_0000, physical / 0x20_0000, 0x200, 0x8000_0000);
    }
    if physical % 0x4000_0000 == 0 {
      AlignedBits(physical, 0x4000_0000, physical / 0x4000_0000, 0x4_0000, 0x40_0000);
    }
  }

  lemma AlignedBits(physical: u64, span: int, k: int, pages: int, count: int)
    requires span == 0x1000 * pages && span * count == 0x10_0000_0000_0000 && pages > 0 && physical == span * k
    ensures AddressOf(physical) % span == 0
  {
    var high := physical / 0x10_0000_0000_0000;
    assert span * k == 0x1000 * (pages * k);
    DivisionIs(physical, 0x1000, pages * k, 0);
    assert span * (count * high) == 0x10_0000_0000_0000 * high;
    assert AddressOf(physical) == span * (k - count * high);
    MultipleModulo(k - count * high, span);
  }

  lemma LinkIsPlain(table: u64, level: Level, huge: bool)
    requires table % 4096 == 0 && table < PHYSICAL_LIMIT && level > LEVEL_TABLE
    ensures Plain(LinkEntry(table), level, huge)
  {
    LinkEntryDecodes(table, level);
    AddressOfAligned(table);
    var entry := LinkEntry(table);
    LowBitsOf(entry, 0, table / 0x1000, PAGE_INTERMEDIATE_FLAGS);
    hide AddressOf, LinkEntry, Decode;
  }

  lemma EntryKeepsPlain(m: seq<u64>, m': seq<u64>, tables: Tables, table: int, index: int, huge: bool)
    requires AllPlain(m, tables, huge) && table in tables && SameBut(m, m', tables, table, index)
    requires Plain(Load(m', table, index), tables[table].level, huge)
    ensures AllPlain(m', tables, huge)
  {
    hide Plain, Load;
    forall t, i | t in tables && 0 <= i < 512
      ensures Plain(Load(m', t, i), tables[t].level, huge)
    {
      assert Plain(Load(m, t, i), tables[t].level, huge);
    }
  }

  lemma TableKeepsPlain(m: seq<u64>, tables: Tables, added: int, node: Node, huge: bool)
    requires AllPlain(m, tables, huge) && added !in tables && Zeroed(m, added)
    ensures AllPlain(m, tables[added := node], huge)
  {
    hide Load;
    EmptyIsPlain(huge);
  }

  lemma EmptyIsPlain(huge: bool)
    ensures forall level: Level :: Plain(0, level, huge)
  {
  }

  /** A leaf grants what its flags ask for. */
  lemma LeafGrants(flags: u64, level: Level)
    requires FlagsAccepted(flags)
    ensures AllowsWrites(LeafFlags(flags, level)) == AllowsWrites(flags)
    ensures AllowsUser(LeafFlags(flags, level)) == AllowsUser(flags)
    ensures ForbidsExecution(LeafFlags(flags, level)) == ForbidsExecution(flags)
  {
    FlagsShape(flags);
    FlagsFit(flags);
    var high, low := flags / PHYSICAL_LIMIT, flags % 4096;
    var change := LeafFlags(flags, level) - flags;
    LowBitsOf(flags, high, 0, low);
    assert IsPage(flags) == Large(flags) by { FlagsSpeak(flags); }
    RoomForChange(low, change);
    LowBitsOf(flags + change, high, 0, low + change);
    LowBitsStay(low, change);
  }

  lemma RoomForChange(low: int, change: int)
    requires 0 <= low < 0x1000 && low / 0x80 % 2 == 0 && (change == 0 || change == 0x80 ||
      (low % 2 == 0 && (change == 1 || change == 0x81)))
    ensures 0 <= low + change < 0x1000
  {
  }

  lemma LowBitsStay(low: int, change: int)
    requires 0 <= low < 0x1000 && low / 0x80 % 2 == 0 && (change == 0 || change == 0x80 ||
      (low % 2 == 0 && (change == 1 || change == 0x81)))
    ensures (low + change) / 2 % 2 == low / 2 % 2 && (low + change) / 4 % 2 == low / 4 % 2
  {
    if change == 0x80 || change == 0x81 {
      EighthBitStays(low);
      ParityStays(low + 0x80, change - 0x80);
    } else {
      ParityStays(low, change);
    }
  }

  lemma EighthBitStays(low: int)
    requires 0 <= low
    ensures (low + 0x80) % 2 == low % 2
    ensures (low + 0x80) / 2 % 2 == low / 2 % 2 && (low + 0x80) / 4 % 2 == low / 4 % 2
  {
    DivisionIs(low + 0x80, 2, low / 2 + 0x40, low % 2);
    DivisionIs(low / 2 + 0x40, 2, low / 2 / 2 + 0x20, low / 2 % 2);
    DivisionIs(low + 0x80, 4, low / 4 + 0x20, low % 4);
    DivisionIs(low / 4 + 0x20, 2, low / 4 / 2 + 0x10, low / 4 % 2);
  }

  lemma ParityStays(low: int, one: int)
    requires 0 <= low && (one == 0 || (one == 1 && low % 2 == 0))
    ensures (low + one) / 2 == low / 2 && (low + one) / 4 == low / 4
  {
  }

  /** What a mapping did to one canonical address, as the processor sees it: inside the
      range, which led nowhere before, the byte asked for with the rights asked for, and
      anywhere else what there was. Bits past 2^52 of the physical side are lost. */
  lemma RangeIsReached(m: seq<u64>, m': seq<u64>, root: int, r: Range, done: int, f: Features, w: u64)
    requires Accepted(r) && OneHalf(r) && 0 <= done <= r.bytes && MapsPrefix(m, m', root, r, done)
    requires Obeyed(m, root, r.huge) && Obeyed(m', root, r.huge) && (r.huge ==> f.gigabytePages)
    ensures if r.virtual <= w < r.virtual + done
      then && Reaches(f, m, root, w) == None
           && Reaches(f, m', root, w) == AsAsked(f, (r.physical + (w - r.virtual)) % 0x10_0000_0000_0000, r.flags)
      else Reaches(f, m', root, w) == Reaches(f, m, root, w)
  {
    hide Canonical, FlagsAccepted, Translation, MapsPrefix, LevelAt, LeafFlags, Reaches;
    if Canonical(w) {
      MappedRange(m, m', root, r, done, w);
      LeafGrants(r.flags, LevelAt(r.huge, r.virtual, r.physical, r.bytes, w - r.virtual));
    } else {
      NotCanonical(m, root, w);
      NotCanonical(m', root, w);
      BetweenIsCanonical(r, w);
    }
  }

  /** Every address of the first `done` bytes, which led nowhere before, leads to the byte
      asked for with the rights asked for; all other addresses lead where they did. */
  ghost predicate ReachedAsAsked(m: seq<u64>, m': seq<u64>, root: int, r: Range, done: int) {
    forall f: Features, w: u64 :: (r.huge ==> f.gigabytePages) ==>
      if r.virtual <= w < r.virtual + done
      then && Reaches(f, m, root, w) == None
           && Reaches(f, m', root, w) == AsAsked(f, (r.physical + (w - r.virtual)) % 0x10_0000_0000_0000, r.flags)
      else Reaches(f, m', root, w) == Reaches(f, m, root, w)
  }

  /** Whatever led somewhere still leads there, with the same rights. */
  ghost predicate AccessesKept(m: seq<u64>, m': seq<u64>, root: int, huge: bool) {
    forall f: Features, w: u64 :: (huge ==> f.gigabytePages) && Reaches(f, m, root, w).Some? ==>
      Reaches(f, m', root, w) == Reaches(f, m, root, w)
  }

  lemma AllAsAsked(m: seq<u64>, m': seq<u64>, root: int, r: Range, done: int)
    requires Accepted(r) && OneHalf(r) && 0 <= done <= r.bytes && MapsPrefix(m, m', root, r, done)
    requires Obeyed(m, root, r.huge) && Obeyed(m', root, r.huge)
    ensures ReachedAsAsked(m, m', root, r, done)
  {
    hide Accepted, OneHalf, MapsPrefix, Obeyed, Reaches, AsAsked;
    forall f: Features, w: u64 | r.huge ==> f.gigabytePages
      ensures if r.virtual <= w < r.virtual + done
        then && Reaches(f, m, root, w) == None
             && Reaches(f, m', root, w) == AsAsked(f, (r.physical + (w - r.virtual)) % 0x10_0000_0000_0000, r.flags)
        else Reaches(f, m', root, w) == Reaches(f, m, root, w)
    {
      RangeIsReached(m, m', root, r, done, f, w);
    }
  }

  lemma AccessesSurvive(m: seq<u64>, m': seq<u64>, root: int, r: Range, done: int)
    requires FlagsAccepted(r.flags) && MapsPrefix(m, m', root, r, done)
    requires Obeyed(m, root, r.huge) && Obeyed(m', root, r.huge)
    ensures AccessesKept(m, m', root, r.huge)
  {
    hide FlagsAccepted, MapsPrefix, Reaches, Translation;
    forall f: Features, w: u64 | (r.huge ==> f.gigabytePages) && Reaches(f, m, root, w).Some?
      ensures Reaches(f, m', root, w) == Reaches(f, m, root, w)
    {
      TranslationsSurvive(m, m', root, r, done, w);
    }
  }

  /** Access as flags ask for it, where the processor knows the no-execute bit or the
      flags do not use it: bit 1 to write, bit 2 for the user, bit 63 not to execute. */
  function AsAsked(f: Features, physical: int, flags: u64): Option<Access> {
    if flags >= 0x8000_0000_0000_0000 && !f.noExecute then None
    else Some(Access(physical, flags / 2 % 2 == 1, flags / 4 % 2 == 1, flags < 0x8000_0000_0000_0000))
  }

  lemma ObeyedAt(m: seq<u64>, root: int, huge: bool, v: u64)
    requires Obeyed(m, root, huge)
    ensures var t := Translation(m, root, v);
      forall f: Features :: (huge ==> f.gigabytePages) ==>
        Reaches(f, m, root, v) == if t.Some? then AsAsked(f, t.value.physical, t.value.flags) else None
  {
    hide Reaches, Translation;
  }

  lemma NotCanonical(m: seq<u64>, root: int, w: u64)
    requires !Canonical(w)
    ensures Translation(m, root, w) == None
  {
  }

  lemma BetweenIsCanonical(r: Range, w: u64)
    requires Accepted(r) && OneHalf(r)
    ensures r.virtual <= w < r.virtual + r.bytes ==> Canonical(w)
  {
    hide Canonical, FlagsAccepted;
    CanonicalHalves(r.virtual);
    CanonicalHalves(r.virtual + r.bytes - 1);
    CanonicalHalves(w);
  }
}
