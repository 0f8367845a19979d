/** Page-table entries and the virtual addresses that select them
    (Intel SDM volume 3A, section 4.5; src/memory/paging.h). */
module PageEntries {
  import opened Words

  const PAGE_BYTES := 0x1000
  const PAGE_TABLE_ENTRIES := 512

  const LEVEL_TABLE := 1
  const LEVEL_DIRECTORY := 2
  const LEVEL_POINTER := 3
  const LEVEL_ROOT := 4

  const PAGE_PRESENT: u64 := 1
  const PAGE_WRITABLE: u64 := 2
  const PAGE_SIZE_LARGE: u64 := 128
  const PAGE_NO_EXECUTE: u64 := 0x8000_0000_0000_0000
  const PAGE_INTERMEDIATE_FLAGS: u64 := 7

  /** Physical addresses an entry can hold are below this (bits 12 to 51). */
  const PHYSICAL_LIMIT := 0x10_0000_0000_0000
  /** What the four indices and the page offset can tell apart. */
  const LINEAR_LIMIT := 0x1_0000_0000_0000

  type Level = x: int | 1 <= x <= 4 witness 1

  // ----- entries -----

  predicate Present(entry: u64) { entry % 2 == 1 }

  /** Bit 7. */
  predicate Large(entry: u64) { entry % 256 >= 128 }

  /** `entry & PAGE_ADDRESS_MASK`: bits 12 to 51. */
  function AddressOf(entry: u64): (a: u64)
    ensures a % 4096 == 0 && a < PHYSICAL_LIMIT
  {
    PageBits(entry);
    entry % 0x10_0000_0000_0000 - entry % 4096
  }

  lemma PageBits(x: int)
    requires x >= 0
    ensures x % 0x10_0000_0000_0000 % 4096 == x % 4096
    ensures (x % 0x10_0000_0000_0000 - x % 4096) % 4096 == 0
  {
    var high, page, low := x / 0x10_0000_0000_0000, x % 0x10_0000_0000_0000 / 4096, x % 0x10_0000_0000_0000 % 4096;
    DivisionIs(x, 4096, high * 0x100_0000_0000 + page, low);
  }

  /** `entry & ~PAGE_ADDRESS_MASK` */
  function FlagsOf(entry: u64): (f: u64) {
    entry - AddressOf(entry)
  }

  /** `flags | PAGE_PRESENT` */
  function WithPresent(flags: u64): (f: u64) {
    if Present(flags) then flags else flags + PAGE_PRESENT
  }

  /** Flags paging_map accepts: no address bit, and no large-page bit. */
  predicate FlagsAccepted(flags: u64) {
    AddressOf(flags) == 0 && !Large(flags)
  }

  /** The flags a leaf ends up with: those asked for, plus present, plus the
      large-page bit on anything bigger than a page. */
  function LeafFlags(flags: u64, level: Level): (f: u64)
    requires FlagsAccepted(flags)
  {
    FlagsFit(flags);
    WithPresent(flags) + (if level == LEVEL_TABLE then 0 else PAGE_SIZE_LARGE)
  }

  /** The operands of the source's `|` share no bit, so it is written `+`. */
  function LeafEntry(physical: u64, flags: u64, level: Level): (entry: u64)
    requires FlagsAccepted(flags)
  {
    LeafFlagBits(flags, level);
    SplitWord(physical, LeafFlags(flags, level));
    AddressOf(physical) + LeafFlags(flags, level)
  }

  function LinkEntry(table: u64): (entry: u64) {
    AddressOf(table) + PAGE_INTERMEDIATE_FLAGS
  }

  datatype Content = Empty | Leaf | Link(table: u64)

  /** What the walker makes of an entry found at a level: the large bit is not
      looked at in the root, and a level-1 entry is always a page. */
  function Decode(entry: u64, level: Level): (c: Content)
    ensures level == LEVEL_TABLE ==> !c.Link?
  {
    if !Present(entry) then Empty
    else if level == LEVEL_TABLE || (level < LEVEL_ROOT && Large(entry)) then Leaf
    else Link(AddressOf(entry))
  }

  lemma LeafEntryDecodes(physical: u64, flags: u64, level: Level)
    requires FlagsAccepted(flags) && level < LEVEL_ROOT
    ensures Decode(LeafEntry(physical, flags, level), level) == Leaf
    ensures AddressOf(LeafEntry(physical, flags, level)) == AddressOf(physical)
    ensures FlagsOf(LeafEntry(physical, flags, level)) == LeafFlags(flags, level)
  {
    LeafFlagBits(flags, level);
    var f := LeafFlags(flags, level);
    hide AddressOf, LeafFlags, FlagsAccepted;
    SplitWord(physical, f);
    var entry := LeafEntry(physical, flags, level);
    assert entry % 256 == f % 256;
    SameLowByte(entry, f);
  }

  lemma LeafFlagBits(flags: u64, level: Level)
    requires FlagsAccepted(flags)
    ensures AddressOf(LeafFlags(flags, level)) == 0
    ensures Present(LeafFlags(flags, level))
    ensures Large(LeafFlags(flags, level)) <==> level != LEVEL_TABLE
  {
    FlagsShape(flags);
    var high, low := flags / PHYSICAL_LIMIT, flags % 4096;
    var f := LeafFlags(flags, level);
    var byte, change := flags % 256, f - flags;
    LowBits(flags);
    LeafByte(byte, change, level);
    DivisionIs(flags, 256, high * 0x1000_0000_0000 + low / 256, low % 256);
    LeafFlagParts(f, high, low, change);
    SameLowByte(f, byte + change);
  }

  lemma LeafByte(byte: int, change: int, level: Level)
    requires 0 <= byte < 128
    requires change == (if byte % 2 == 1 then 0 else 1) + (if level == LEVEL_TABLE then 0 else 128)
    ensures 0 <= byte + change < 256 && (byte + change) % 2 == 1
    ensures byte + change >= 128 <==> level != LEVEL_TABLE
  {
  }

  lemma LeafFlagParts(f: int, high: int, low: int, change: int)
    requires 0 <= high && 0 <= low < 4096 && 0 <= change && low % 256 + change < 256
    requires f == PHYSICAL_LIMIT * high + low + change
    ensures f % PHYSICAL_LIMIT == f % 4096 == low + change
    ensures f % 256 == low % 256 + change
  {
    DivisionIs(f, PHYSICAL_LIMIT, high, low + change);
    DivisionIs(f, 4096, high * 0x100_0000_0000, low + change);
    DivisionIs(f, 256, high * 0x1000_0000_0000 + low / 256, low % 256 + change);
  }

  lemma LowBits(low: int)
    requires 0 <= low
    ensures low % 256 % 2 == low % 2
  {
    DivisionIs(low, 2, low / 256 * 128 + low % 256 / 2, low % 256 % 2);
  }

  lemma SameLowByte(a: u64, b: u64)
    requires a % 256 == b % 256
    ensures Present(a) == Present(b)
    ensures Large(a) == Large(b)
  {
    LowBits(a);
    LowBits(b);
  }

  lemma LinkEntryDecodes(table: u64, level: Level)
    requires table % 4096 == 0 && table < PHYSICAL_LIMIT && level > LEVEL_TABLE
    ensures Decode(LinkEntry(table), level) == Link(table)
    ensures Decode(0, level) == Empty
  {
    AddressOfAligned(table);
    assert AddressOf(PAGE_INTERMEDIATE_FLAGS) == 0;
    hide AddressOf;
    SplitWord(table, PAGE_INTERMEDIATE_FLAGS);
    SameLowByte(LinkEntry(table), PAGE_INTERMEDIATE_FLAGS);
  }

  /** A page-aligned address is stored whole exactly when it fits. */
  lemma AddressOfAligned(address: u64)
    requires address % 4096 == 0
    ensures AddressOf(address) == address % PHYSICAL_LIMIT
  {
  }

  /** Without address bits a word is its top twelve and bottom twelve bits. */
  lemma FlagsShape(flags: u64)
    requires AddressOf(flags) == 0
    ensures flags == PHYSICAL_LIMIT * (flags / PHYSICAL_LIMIT) + flags % 4096
    ensures 0 <= flags / PHYSICAL_LIMIT < 4096
  {
  }

  /** So there is room above it for the bits a leaf gains. */
  lemma FlagsFit(flags: u64)
    requires AddressOf(flags) == 0
    ensures flags + 0x100 < U64_LIMIT
  {
    FlagsShape(flags);
  }

  /** Address bits and flag bits do not disturb one another. */
  lemma SplitWord(physical: u64, flags: u64)
    requires AddressOf(flags) == 0
    ensures AddressOf(physical) + flags < U64_LIMIT
    ensures AddressOf(AddressOf(physical) + flags) == AddressOf(physical)
    ensures (AddressOf(physical) + flags) % 256 == flags % 256
  {
    FlagsShape(flags);
    var a := AddressOf(physical);
    SplitParts(a, a / 4096, flags, flags / PHYSICAL_LIMIT, flags % 4096);
  }

  lemma SplitParts(a: int, page: int, flags: int, high: int, low: int)
    requires a == 4096 * page && 0 <= a <= PHYSICAL_LIMIT - 4096
    requires flags == PHYSICAL_LIMIT * high + low && 0 <= low < 4096 && 0 <= high < 4096
    ensures a + flags < U64_LIMIT
    ensures (a + flags) % PHYSICAL_LIMIT - (a + flags) % 4096 == a
    ensures (a + flags) % 256 == flags % 256
  {
    DivisionIs(a + flags, PHYSICAL_LIMIT, high, a + low);
    DivisionIs(a + flags, 4096, high * 0x100_0000_0000 + page, low);
    DivisionIs(flags, 256, high * 0x1000_0000_0000 + low / 256, low % 256);
    DivisionIs(a + flags, 256, high * 0x1000_0000_0000 + page * 16 + low / 256, low % 256);
  }

  // ----- addresses -----

  function Span(level: int): (bytes: nat)
    requires 1 <= level <= 5
  {
    if level == 1 then 0x1000
    else if level == 2 then 0x20_0000
    else if level == 3 then 0x4000_0000
    else if level == 4 then 0x80_0000_0000
    else 0x1_0000_0000_0000
  }

  /** Which of the entries at a level, counted across all its tables, an address
      goes through. Level 5 stands for the register that holds the root. */
  function Slot(v: int, level: int): (slot: nat)
    requires 1 <= level <= 5
  {
    var linear := v % 0x1_0000_0000_0000;
    if level == 1 then linear / 0x1000
    else if level == 2 then linear / 0x20_0000
    else if level == 3 then linear / 0x4000_0000
    else if level == 4 then linear / 0x80_0000_0000
    else 0
  }

  /** `(virtual >> shift) & PAGE_INDEX_MASK` */
  function IndexAt(v: u64, level: Level): (index: nat)
    ensures index < PAGE_TABLE_ENTRIES
  {
    v / Span(level) % 512
  }

  lemma IndexIsSlot(v: u64, level: Level)
    ensures IndexAt(v, level) == Slot(v, level) % 512
    ensures Slot(v, level + 1) == Slot(v, level) / 512
  {
    var linear, top := v % 0x1_0000_0000_0000, v / 0x1_0000_0000_0000;
    if level == 1 {
      IndexWithin(v, top, linear, 0x1000, 0x800_0000);
    } else if level == 2 {
      IndexWithin(v, top, linear, 0x20_0000, 0x4_0000);
    } else if level == 3 {
      IndexWithin(v, top, linear, 0x4000_0000, 0x200);
    } else {
      IndexWithin(v, top, linear, 0x80_0000_0000, 1);
    }
  }

  lemma IndexWithin(v: int, top: int, linear: int, span: int, tables: int)
    requires span > 0 && tables > 0 && 0 <= linear
    requires v == top * (512 * (span * tables)) + linear
    ensures v / span % 512 == linear / span % 512
    ensures linear / span / 512 == linear / (512 * span)
  {
    var q, r := linear / span, linear % span;
    var table, index := q / 512, q % 512;
    assert linear == span * q + r;
    assert span * q == span * (512 * table) + span * index;
    ScaleStrict(span, index, 512);
    ScaleMonotone(span, 0, index);
    assert linear == (512 * span) * table + (span * index + r);
    DivisionIs(linear, 512 * span, table, span * index + r);
    assert top * (512 * (span * tables)) == span * (512 * (tables * top));
    assert span * (512 * (tables * top)) + span * q == span * (512 * (tables * top) + q);
    DivisionIs(v, span, 512 * (tables * top) + q, r);
    DivisionIs(512 * (tables * top) + q, 512, tables * top + table, index);
  }

  /** Bits 48 to 63 repeat bit 47 (Intel SDM volume 1, section 3.3.7.1). */
  predicate Canonical(address: u64) {
    var sign := address / 0x8000_0000_0000 % 2;
    var upper := address / LINEAR_LIMIT;
    if sign == 0 then upper == 0 else upper == 0xFFFF
  }

  lemma CanonicalHalves(address: u64)
    ensures Canonical(address) <==>
      address < 0x8000_0000_0000 || address >= U64_LIMIT - 0x8000_0000_0000
  {
  }

  lemma SlotsAgreeAbove(v: u64, w: u64, level: Level)
    requires Slot(v, level) == Slot(w, level)
    ensures Slot(v, level + 1) == Slot(w, level + 1)
  {
    IndexIsSlot(v, level);
    IndexIsSlot(w, level);
  }
}
