/** The kernel as it finds itself: its segments are loaded, the tables are built, and
    through them each byte is where it was linked to be (src/elf/elf.c,
    src/boot/main.c). Bytes and 64-bit words are two views of one memory. */
module KernelMemory {
  import opened Words
  import opened Processor
  import opened Paging
  import opened ElfImage
  import opened ElfLoader
  import opened KernelViews

  /** A byte of a word, the lowest first. */
  function ByteIn(word: u64, index: int): u8 {
    if index == 0 then word % 0x100
    else if index == 1 then word / 0x100 % 0x100
    else if index == 2 then word / 0x1_0000 % 0x100
    else if index == 3 then word / 0x100_0000 % 0x100
    else if index == 4 then word / 0x1_0000_0000 % 0x100
    else if index == 5 then word / 0x100_0000_0000 % 0x100
    else if index == 6 then word / 0x1_0000_0000_0000 % 0x100
    else word / 0x100_0000_0000_0000
  }

  /** The byte at a physical address of a memory of words. */
  function ByteAt(m: seq<u64>, address: int): u8
    requires 0 <= address < 8 * |m|
  {
    ByteIn(m[address / 8], address % 8)
  }

  /** The same memory, by bytes and by words. */
  ghost predicate SameMemory(bytes: seq<u8>, m: seq<u64>) {
    |bytes| == 8 * |m| && forall a :: 0 <= a < |bytes| ==> bytes[a] == ByteAt(m, a)
  }

  /** A segment that misses the memory tables are made in: [low, high), whose end is at
      the end of a word. */
  predicate Misses(s: Segment, low: int, high: int) {
    high % 8 == 0 && (s.physicalAddress + s.memoryBytes <= low || high <= s.physicalAddress)
  }

  /** Building the tables leaves the bytes of such a segment alone. */
  lemma ByteIsKept(m: seq<u64>, m': seq<u64>, s: Segment, low: int, high: int, k: int)
    requires OutsideKept(m, m', low, high) && Misses(s, low, high)
    requires 0 <= k < s.memoryBytes && s.physicalAddress + s.memoryBytes <= 8 * |m|
    ensures ByteAt(m', s.physicalAddress + k) == ByteAt(m, s.physicalAddress + k)
  {
    hide ByteIn;
    var a := s.physicalAddress + k;
    assert 8 * (a / 8) <= a < 8 * (a / 8) + 8;
  }

  /** Load the image where it asks to be, build the tables, and read through them: each
      byte of a segment that is linked elsewhere, in step with where it is loaded, is
      found by the processor at its linked address, as its file has it and zero where its
      file ends. */
  lemma SegmentIsFound(
    file: seq<u8>, image: Image, before: seq<u8>, loaded: seq<u8>, m: seq<u64>, m': seq<u64>, root: int,
    low: int, high: int, noExecute: bool, huge: bool, s: Segment, k: int)
    requires Parsed(image) && LoadedFrom(loaded, before, file, image.segments, 0)
    requires SameMemory(loaded, m) && 8 * |m| <= 0x10_0000_0000_0000
    requires OutsideKept(m, m', low, high) && KernelSees(m', root, image, noExecute, huge)
    requires && s in image.segments && s.virtualAddress != s.physicalAddress
             && s.virtualAddress % 0x1000 == s.physicalAddress % 0x1000
             && s.physicalAddress + s.memoryBytes <= |loaded| && Misses(s, low, high) && 0 <= k < s.memoryBytes
    ensures var found := Reaches(Features(noExecute, huge), m', root, s.virtualAddress + k);
      && found.Some? && 0 <= found.value.physical < 8 * |m'|
      && ByteAt(m', found.value.physical) == SegmentByte(file, s, k)
  {
    hide KernelSees, Reaches, SegmentByte, ByteAt, AllApart, OutsideKept;
    SegmentIsMapped(m', root, image, noExecute, huge, s, k);
    ByteIsKept(m, m', s, low, high, k);
    SameSize(m, m', low, high);
    var a := s.physicalAddress + k;
    assert SegmentIn(loaded, file, s, 0) && Takes(s, 0, a);
  }

  lemma SameSize(m: seq<u64>, m': seq<u64>, low: int, high: int)
    requires OutsideKept(m, m', low, high)
    ensures |m'| == |m|
  {
  }
}
