/** What the processor makes of page tables in memory: where an address leads, and what
    may be done there (Intel SDM volume 3A, sections 4.5 and 4.6). Entries are taken
    apart by the positions of their bits in the manual, not by anything of the loader's. */
module Processor {
  import opened Words

  /** What the processor has been found to support, and has had turned on. */
  datatype Features = Features(noExecute: bool, gigabytePages: bool)

  /** The byte an address leads to, and the rights every entry on the way grants. */
  datatype Access = Access(physical: int, writable: bool, user: bool, executable: bool)

  /** The 64-bit word at a physical address. */
  function Fetch(m: seq<u64>, address: int): u64 {
    if 0 <= address / 8 < |m| then m[address / 8] else 0
  }

  /** Bit 0, P */
  predicate IsPresent(entry: u64) { entry % 2 == 1 }

  /** Bit 1, R/W */
  predicate AllowsWrites(entry: u64) { entry / 2 % 2 == 1 }

  /** Bit 2, U/S */
  predicate AllowsUser(entry: u64) { entry / 4 % 2 == 1 }

  /** Bit 7, PS */
  predicate IsPage(entry: u64) { entry / 0x80 % 2 == 1 }

  /** Bit 63, XD */
  predicate ForbidsExecution(entry: u64) { entry / 0x8000_0000_0000_0000 == 1 }

  /** A reserved bit is set, so the access faults: bit 63 where no-execute is not
      enabled, PS in the root, and in a large page the address bits below its size. */
  predicate Reserved(f: Features, entry: u64, level: int) {
    || (ForbidsExecution(entry) && !f.noExecute)
    || (IsPage(entry) &&
          (|| level == 4
           || (level == 3 && (!f.gigabytePages || entry / 0x2000 % 0x2_0000 != 0))
           || (level == 2 && entry / 0x2000 % 0x100 != 0)))
  }

  /** Nine bits of the address: 12 to 20, 21 to 29, 30 to 38, or 39 to 47. */
  function IndexBits(v: u64, level: int): (index: nat)
    requires 1 <= level <= 4
    ensures index < 512
  {
    if level == 1 then v / 0x1000 % 512
    else if level == 2 then v / 0x20_0000 % 512
    else if level == 3 then v / 0x4000_0000 % 512
    else v / 0x80_0000_0000 % 512
  }

  /** Bits 12 to 51 of the entry. */
  function TableFrame(entry: u64): int { entry / 0x1000 % 0x100_0000_0000 * 0x1000 }

  /** The page frame, from bit 12, 21 or 30 of the entry to bit 51, and the rest of the
      address below it. */
  function PageByte(entry: u64, level: int, v: u64): int {
    if level == 1 then entry / 0x1000 % 0x100_0000_0000 * 0x1000 + v % 0x1000
    else if level == 2 then entry / 0x20_0000 % 0x8000_0000 * 0x20_0000 + v % 0x20_0000
    else entry / 0x4000_0000 % 0x40_0000 * 0x4000_0000 + v % 0x4000_0000
  }

  /** The walk from a table at a level. A page may be written, and reached by a user,
      only if every entry on the way says so, and executed only if none forbids it. */
  function WalkFrom(f: Features, m: seq<u64>, table: int, level: int, v: u64): Option<Access>
    requires 1 <= level <= 4
    decreases level
  {
    var entry := Fetch(m, table + 8 * IndexBits(v, level));
    if !IsPresent(entry) || Reserved(f, entry, level) then None
    else if level == 1 || IsPage(entry) then
      Some(Access(PageByte(entry, level, v), AllowsWrites(entry), AllowsUser(entry), !ForbidsExecution(entry)))
    else
      match WalkFrom(f, m, TableFrame(entry), level - 1, v)
      case None => None
      case Some(a) =>
        Some(Access(a.physical, a.writable && AllowsWrites(entry), a.user && AllowsUser(entry),
                    a.executable && !ForbidsExecution(entry)))
  }

  /** What an address leads to; one that is not canonical leads nowhere. */
  function Reaches(f: Features, m: seq<u64>, root: int, v: u64): Option<Access> {
    if v < 0x8000_0000_0000 || v >= 0xFFFF_8000_0000_0000 then WalkFrom(f, m, root, 4, v) else None
  }
}
