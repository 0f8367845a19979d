/** Parsing an ELF file and placing its segments in memory (src/elf/elf.c; System V
    gABI chapter 5, Program Header). */
module ElfLoader {
  import opened Words
  import opened ElfImage

  const ELF_COPY_CHUNK_BYTES := 4096
  const ELF_MAX_SEGMENTS := 16
  const PROGRAM_TYPE_LOAD: u32 := 1
  const PROGRAM_TYPE_INTERPRETER: u32 := 3

  /** The file, as the read callback gives it out: any read may fail, and one that
      fails may have filled part of its buffer. */
  class FileSource {
    const bytes: seq<u8>
    const faults: nat -> bool
    var served: nat

    constructor (bytes: seq<u8>, faults: nat -> bool)
      ensures this.bytes == bytes && this.faults == faults
    {
      this.bytes, this.faults, served := bytes, faults, 0;
    }

    ghost predicate Reliable() {
      forall n :: !faults(n)
    }

    ghost predicate Has(offset: nat, length: nat) {
      offset + length <= |bytes| && offset + length < U64_LIMIT
    }

    method Read(offset: nat, length: nat, out: array<u8>, at: nat) returns (ok: bool)
      requires at + length <= out.Length
      modifies this`served, out
      ensures ok ==> Has(offset, length)
      ensures ok ==> forall k :: at <= k < at + length ==> out[k] == bytes[offset + (k - at)]
      ensures Reliable() && Has(offset, length) ==> ok
      ensures forall k :: 0 <= k < out.Length && !(at <= k < at + length) ==> out[k] == old(out[k])
    {
      served := served + 1;
      ok := offset + length <= |bytes| && offset + length < U64_LIMIT && !faults(served - 1);
      for i := 0 to length
        invariant ok ==> forall k :: at <= k < at + i ==> out[k] == bytes[offset + (k - at)]
        invariant forall k :: 0 <= k < out.Length && !(at <= k < at + length) ==> out[k] == old(out[k])
      {
        if ok {
          out[at + i] := bytes[offset + i];
        } else {
          out[at + i] := *;
        }
      }
    }
  }

  // ----- what a file says -----

  datatype FileHeader = FileHeader(entry: u64, programOffset: u64, programCount: u16)

  datatype ProgramHeader = ProgramHeader(kind: u32, segment: Segment, align: u64)

  function FileHeaderIn(raw: seq<u8>): Option<FileHeader>
    requires |raw| == 64
  {
    if raw[..4] != [0x7F, 0x45, 0x4C, 0x46] || raw[4] != 2 || raw[5] != 1 || raw[6] != 1 then None
    else if U16At(raw, 16) != 2 && U16At(raw, 16) != 3 then None
    else if U16At(raw, 18) != 62 || U32At(raw, 20) != 1 then None
    else if U16At(raw, 54) != 56 || U16At(raw, 56) == 0 || U16At(raw, 56) > 64 then None
    else Some(FileHeader(U64At(raw, 24), U64At(raw, 32), U16At(raw, 56)))
  }

  function ProgramHeaderIn(raw: seq<u8>): ProgramHeader
    requires |raw| == 56
  {
    ProgramHeader(U32At(raw, 0),
      Segment(U64At(raw, 8), U64At(raw, 16), U64At(raw, 24), U64At(raw, 32), U64At(raw, 40), U32At(raw, 4)),
      U64At(raw, 48))
  }

  /** A header that does not by itself rule the file out. */
  predicate Tolerable(h: ProgramHeader) {
    && h.kind != PROGRAM_TYPE_INTERPRETER
    && (h.kind == PROGRAM_TYPE_LOAD ==> h.segment.Sound() && (h.align == 0 || PowerOfTwo(h.align)))
  }

  function HeaderOffset(start: u64, i: nat): nat { start + 56 * i }

  /** The `i`-th program header is in the file. */
  predicate HeaderThere(bytes: seq<u8>, start: u64, i: nat) {
    HeaderOffset(start, i) + 56 <= |bytes| && HeaderOffset(start, i) + 56 < U64_LIMIT
  }

  function HeaderAt(bytes: seq<u8>, start: u64, i: nat): ProgramHeader
    requires HeaderThere(bytes, start, i)
  {
    ProgramHeaderIn(bytes[HeaderOffset(start, i)..HeaderOffset(start, i) + 56])
  }

  predicate HeadersTolerable(bytes: seq<u8>, start: u64, n: nat) {
    forall i :: 0 <= i < n ==> HeaderThere(bytes, start, i) && Tolerable(HeaderAt(bytes, start, i))
  }

  /** The loadable segments among the first `n` headers, in order. */
  function Loadable(bytes: seq<u8>, start: u64, n: nat): (segments: seq<Segment>)
    requires HeadersTolerable(bytes, start, n)
    ensures forall s <- segments :: s.Sound()
  {
    if n == 0 then []
    else
      var h := HeaderAt(bytes, start, n - 1);
      Loadable(bytes, start, n - 1) + (if h.kind == PROGRAM_TYPE_LOAD then [h.segment] else [])
  }

  predicate Apart(a: Segment, b: Segment) {
    a.physicalAddress + a.memoryBytes <= b.physicalAddress || b.physicalAddress + b.memoryBytes <= a.physicalAddress
  }

  predicate AllApart(segments: seq<Segment>) {
    forall i, j :: 0 <= i < j < |segments| ==> Apart(segments[i], segments[j])
  }

  /** A file that can be loaded. */
  predicate Acceptable(bytes: seq<u8>) {
    && |bytes| >= 64 && FileHeaderIn(bytes[..64]).Some?
    && var h := FileHeaderIn(bytes[..64]).value;
       && HeadersTolerable(bytes, h.programOffset, h.programCount)
       && 1 <= |Loadable(bytes, h.programOffset, h.programCount)| <= ELF_MAX_SEGMENTS
       && AllApart(Loadable(bytes, h.programOffset, h.programCount))
  }

  /** What parsing establishes of an image: sound segments, apart from each other,
      and the exact span of them. */
  ghost predicate Parsed(image: Image) {
    && 1 <= |image.segments| <= ELF_MAX_SEGMENTS && AllApart(image.segments)
    && (forall s <- image.segments :: s.Sound() && image.lowest <= s.physicalAddress)
    && (forall s <- image.segments :: s.physicalAddress + s.memoryBytes <= image.highest)
    && (exists s <- image.segments :: s.physicalAddress == image.lowest)
    && (exists s <- image.segments :: s.physicalAddress + s.memoryBytes == image.highest)
  }

  ghost predicate Spans(segments: seq<Segment>, lowest: u64, highest: u64) {
    && (forall s <- segments :: lowest <= s.physicalAddress && s.physicalAddress + s.memoryBytes <= highest)
    && (segments == [] ==> lowest == U64_LIMIT - 1 && highest == 0)
    && (segments != [] ==> exists s <- segments :: s.physicalAddress == lowest)
    && (segments != [] ==> exists s <- segments :: s.physicalAddress + s.memoryBytes == highest)
  }

  method ReadFileHeader(source: FileSource) returns (header: Option<FileHeader>)
    modifies source`served
    ensures header.Some? ==> |source.bytes| >= 64 && header == FileHeaderIn(source.bytes[..64])
    ensures source.Reliable() && |source.bytes| >= 64 ==> header == FileHeaderIn(source.bytes[..64])
  {
    hide FileHeaderIn;
    var raw := new u8[64](_ => 0);
    var ok := source.Read(0, 64, raw, 0);
    if !ok {
      return None;
    }
    assert raw[..] == source.bytes[..64];
    return FileHeaderIn(raw[..]);
  }

  method ReadProgramHeader(source: FileSource, start: u64, i: nat) returns (header: Option<ProgramHeader>)
    modifies source`served
    ensures header.Some? ==> HeaderThere(source.bytes, start, i) && header.value == HeaderAt(source.bytes, start, i)
    ensures source.Reliable() && HeaderThere(source.bytes, start, i) ==> header.Some?
  {
    hide ProgramHeaderIn;
    if start + 56 * i >= U64_LIMIT {
      return None;
    }
    var raw := new u8[56](_ => 0);
    var ok := source.Read(start + 56 * i, 56, raw, 0);
    if !ok {
      return None;
    }
    assert raw[..] == source.bytes[HeaderOffset(start, i)..HeaderOffset(start, i) + 56];
    return Some(ProgramHeaderIn(raw[..]));
  }

  method MeetsAny(segments: seq<Segment>, segment: Segment) returns (meets: bool)
    ensures meets <==> exists s <- segments :: !Apart(s, segment)
  {
    for other := 0 to |segments|
      invariant forall j :: 0 <= j < other ==> Apart(segments[j], segment)
    {
      if segments[other].physicalAddress < segment.physicalAddress + segment.memoryBytes
        && segment.physicalAddress < segments[other].physicalAddress + segments[other].memoryBytes {
        assert segments[other] in segments && !Apart(segments[other], segment);
        return true;
      }
    }
    return false;
  }

  /** Reads the headers one by one, and keeps the loadable segments. A file is
      accepted if it can be loaded, and only then; nothing is written. */
  method Parse(source: FileSource) returns (image: Option<Image>)
    modifies source`served
    ensures image.Some? ==> Acceptable(source.bytes) && Parsed(image.value)
    ensures image.Some? ==>
      var h := FileHeaderIn(source.bytes[..64]).value;
      image.value.segments == Loadable(source.bytes, h.programOffset, h.programCount) && image.value.entry == h.entry
    ensures source.Reliable() && Acceptable(source.bytes) ==> image.Some?
  {
    hide FileHeaderIn, HeaderAt, Segment.Sound, PowerOfTwo, Loadable, HeaderThere, Spans, Apart;
    var header := ReadFileHeader(source);
    if header.None? {
      return None;
    }
    var start, count := header.value.programOffset, header.value.programCount;
    var segments, lowest, highest := [], U64_LIMIT - 1, 0;
    NoneLoadable(source.bytes, start);
    NothingSpanned();
    for index := 0 to count
      invariant HeadersTolerable(source.bytes, start, index) && segments == Loadable(source.bytes, start, index)
      invariant |segments| <= ELF_MAX_SEGMENTS && AllApart(segments)
      invariant 0 <= lowest < U64_LIMIT && 0 <= highest < U64_LIMIT && Spans(segments, lowest, highest)
    {
      ghost var before := segments;
      var read := ReadProgramHeader(source, start, index);
      if source.Reliable() && Acceptable(source.bytes) {
        StillFits(source.bytes, start, index, count);
      }
      if read.None? || !Tolerable(read.value) {
        return None;
      }
      OneMoreHeader(source.bytes, start, index);
      if read.value.kind != PROGRAM_TYPE_LOAD {
        continue;
      }
      if |segments| == ELF_MAX_SEGMENTS {
        return None;
      }
      var segment := read.value.segment;
      var meets := MeetsAny(segments, segment);
      if meets {
        return None;
      }
      var end := EndOf(segment);
      SpanGrows(segments, lowest, highest, segment);
      if segment.physicalAddress < lowest {
        lowest := segment.physicalAddress;
      }
      if end > highest {
        highest := end;
      }
      segments := segments + [segment];
    }
    if |segments| == 0 {
      return None;
    }
    AllSound(source.bytes, start, count);
    SpanIsExact(segments, lowest, highest);
    return Some(Image(header.value.entry, segments, lowest, highest));
  }

  function EndOf(s: Segment): (end: u64)
    requires s.Sound()
    ensures end == s.physicalAddress + s.memoryBytes
  {
    s.physicalAddress + s.memoryBytes
  }

  lemma NothingSpanned()
    ensures Spans([], U64_LIMIT - 1, 0)
  {
  }

  lemma SpanIsExact(segments: seq<Segment>, lowest: u64, highest: u64)
    requires segments != [] && Spans(segments, lowest, highest)
    ensures forall s <- segments :: lowest <= s.physicalAddress && s.physicalAddress + s.memoryBytes <= highest
    ensures exists s <- segments :: s.physicalAddress == lowest
    ensures exists s <- segments :: s.physicalAddress + s.memoryBytes == highest
  {
  }

  lemma NoneLoadable(bytes: seq<u8>, start: u64)
    ensures HeadersTolerable(bytes, start, 0) && Loadable(bytes, start, 0) == []
  {
  }

  lemma AllSound(bytes: seq<u8>, start: u64, n: nat)
    requires HeadersTolerable(bytes, start, n)
    ensures forall s <- Loadable(bytes, start, n) :: s.Sound()
  {
  }

  /** One header more, if it is tolerable. */
  lemma OneMoreHeader(bytes: seq<u8>, start: u64, n: nat)
    requires HeadersTolerable(bytes, start, n) && HeaderThere(bytes, start, n) && Tolerable(HeaderAt(bytes, start, n))
    ensures HeadersTolerable(bytes, start, n + 1)
    ensures Loadable(bytes, start, n + 1) == Loadable(bytes, start, n) +
      (if HeaderAt(bytes, start, n).kind == PROGRAM_TYPE_LOAD then [HeaderAt(bytes, start, n).segment] else [])
  {
  }

  /** What is loadable so far is the start of what is loadable in all. */
  lemma {:induction false} LoadableGrows(bytes: seq<u8>, start: u64, m: nat, n: nat)
    requires m <= n && HeadersTolerable(bytes, start, n)
    ensures HeadersTolerable(bytes, start, m)
    ensures Loadable(bytes, start, m) <= Loadable(bytes, start, n)
    decreases n
  {
    hide HeaderAt, HeaderThere, Tolerable;
    if m < n {
      LoadableGrows(bytes, start, m, n - 1);
    }
  }

  /** In a file that can be loaded, no check on the way fails. */
  lemma StillFits(bytes: seq<u8>, start: u64, index: nat, count: nat)
    requires index < count && HeadersTolerable(bytes, start, count)
    requires |Loadable(bytes, start, count)| <= ELF_MAX_SEGMENTS && AllApart(Loadable(bytes, start, count))
    ensures HeaderThere(bytes, start, index) && Tolerable(HeaderAt(bytes, start, index))
    ensures HeadersTolerable(bytes, start, index)
    ensures HeaderAt(bytes, start, index).kind == PROGRAM_TYPE_LOAD ==>
      var before := Loadable(bytes, start, index);
      |before| < ELF_MAX_SEGMENTS && forall s <- before :: Apart(s, HeaderAt(bytes, start, index).segment)
  {
    hide Tolerable, HeaderAt, HeaderThere;
    LoadableGrows(bytes, start, index, count);
    LoadableGrows(bytes, start, index + 1, count);
    var before, upTo := Loadable(bytes, start, index), Loadable(bytes, start, index + 1);
    var all := Loadable(bytes, start, count);
    if HeaderAt(bytes, start, index).kind == PROGRAM_TYPE_LOAD {
      assert upTo == before + [HeaderAt(bytes, start, index).segment];
      assert all[|before|] == upTo[|before|];
      forall j | 0 <= j < |before|
        ensures Apart(before[j], HeaderAt(bytes, start, index).segment)
      {
        assert before[j] == upTo[j] == all[j];
      }
    }
  }

  lemma SpanGrows(segments: seq<Segment>, lowest: u64, highest: u64, segment: Segment)
    requires segment.Sound() && Spans(segments, lowest, highest)
    ensures var low := if segment.physicalAddress < lowest then segment.physicalAddress else lowest;
      var end := segment.physicalAddress + segment.memoryBytes;
      Spans(segments + [segment], low, if end > highest then end else highest)
  {
    var all := segments + [segment];
    assert all[|segments|] == segment;
    assert forall s <- segments :: s in all;
  }

  // ----- loading -----

  datatype Placement = Placement(bias: int, limitLow: u64, limitHigh: u64)

  /** The address a byte of the image is moved to, if there is one. */
  function Biased(address: u64, bias: int): Option<u64> {
    if 0 <= address + bias < U64_LIMIT then Some(address + bias) else None
  }

  predicate Within(s: Segment, p: Placement) {
    var start := Biased(s.physicalAddress, p.bias);
    start.Some? && start.value + s.memoryBytes < U64_LIMIT
      && p.limitLow <= start.value && start.value + s.memoryBytes <= p.limitHigh
  }

  predicate Takes(s: Segment, bias: int, address: int) {
    s.physicalAddress + bias <= address < s.physicalAddress + bias + s.memoryBytes
  }

  ghost predicate Taken(segments: seq<Segment>, bias: int, address: int) {
    exists s <- segments :: Takes(s, bias, address)
  }

  /** A byte of a segment: what the file has for it, and then zeros. */
  function SegmentByte(bytes: seq<u8>, s: Segment, k: int): u8 {
    if 0 <= k < s.fileBytes && s.fileOffset + k < |bytes| then bytes[s.fileOffset + k] else 0
  }

  ghost predicate SegmentIn(memory: seq<u8>, bytes: seq<u8>, s: Segment, bias: int) {
    forall a :: 0 <= a < |memory| && Takes(s, bias, a) ==>
      memory[a] == SegmentByte(bytes, s, a - (s.physicalAddress + bias))
  }

  /** The exact result of loading: every byte of every segment, and no other byte. */
  ghost predicate LoadedFrom(memory: seq<u8>, before: seq<u8>, bytes: seq<u8>, segments: seq<Segment>, bias: int) {
    && |memory| == |before|
    && (forall s <- segments :: SegmentIn(memory, bytes, s, bias))
    && (forall a :: 0 <= a < |memory| && !Taken(segments, bias, a) ==> memory[a] == before[a])
  }

  /** There is only one such memory, whatever order the segments come in and however
      often they are named. */
  lemma OrderDoesNotMatter(
    m: seq<u8>, m': seq<u8>, before: seq<u8>, bytes: seq<u8>, segments: seq<Segment>, segments': seq<Segment>,
    bias: int)
    requires forall s :: s in segments <==> s in segments'
    requires LoadedFrom(m, before, bytes, segments, bias) && LoadedFrom(m', before, bytes, segments', bias)
    ensures m == m'
  {
    hide SegmentByte, Takes;
    forall a | 0 <= a < |m|
      ensures m[a] == m'[a]
    {
      if Taken(segments, bias, a) {
        var s :| s in segments && Takes(s, bias, a);
        assert SegmentIn(m, bytes, s, bias) && SegmentIn(m', bytes, s, bias);
      } else {
        assert !Taken(segments', bias, a);
      }
    }
  }

  method ZeroRange(memory: array<u8>, address: nat, length: nat)
    requires address + length <= memory.Length
    modifies memory
    ensures forall a :: 0 <= a < memory.Length ==>
      memory[a] == if address <= a < address + length then 0 else old(memory[a])
  {
    var done := 0;
    while done < length
      invariant 0 <= done <= length
      invariant forall a :: 0 <= a < memory.Length ==>
        memory[a] == if address <= a < address + done then 0 else old(memory[a])
    {
      var chunk := if length - done > ELF_COPY_CHUNK_BYTES then ELF_COPY_CHUNK_BYTES else length - done;
      for i := 0 to chunk
        invariant forall a :: 0 <= a < memory.Length ==>
          memory[a] == if address <= a < address + done + i then 0 else old(memory[a])
      {
        memory[address + done + i] := 0;
      }
      done := done + chunk;
    }
  }

  /** The part of a segment the file has, in pieces. */
  method CopyFromFile(source: FileSource, s: Segment, memory: array<u8>, destination: nat) returns (ok: bool)
    requires s.Sound() && destination + s.fileBytes <= memory.Length
    modifies source`served, memory
    ensures ok ==> forall k :: 0 <= k < s.fileBytes ==> memory[destination + k] == SegmentByte(source.bytes, s, k)
    ensures ok ==> InFile(s, source.bytes)
    ensures source.Reliable() && InFile(s, source.bytes) ==> ok
    ensures forall a :: 0 <= a < memory.Length && !(destination <= a < destination + s.fileBytes) ==>
      memory[a] == old(memory[a])
  {
    var done := 0;
    while done < s.fileBytes
      invariant 0 <= done <= s.fileBytes && (done > 0 ==> s.fileOffset + done <= |source.bytes|)
      invariant forall k :: 0 <= k < done ==> memory[destination + k] == SegmentByte(source.bytes, s, k)
      invariant forall a :: 0 <= a < memory.Length && !(destination <= a < destination + s.fileBytes) ==>
        memory[a] == old(memory[a])
    {
      var chunk := if s.fileBytes - done > ELF_COPY_CHUNK_BYTES then ELF_COPY_CHUNK_BYTES else s.fileBytes - done;
      var got := source.Read(s.fileOffset + done, chunk, memory, destination + done);
      if !got {
        return false;
      }
      forall k | 0 <= k < done + chunk
        ensures memory[destination + k] == SegmentByte(source.bytes, s, k)
      {
        if k >= done {
          assert memory[destination + k] ==
            source.bytes[s.fileOffset + done + (destination + k - (destination + done))];
        }
      }
      done := done + chunk;
    }
    return true;
  }

  predicate InFile(s: Segment, bytes: seq<u8>) {
    s.fileBytes > 0 ==> s.fileOffset + s.fileBytes <= |bytes|
  }

  method CopySegment(source: FileSource, s: Segment, memory: array<u8>, bias: int) returns (ok: bool)
    requires s.Sound() && 0 <= s.physicalAddress + bias && s.physicalAddress + bias + s.memoryBytes <= memory.Length
    modifies source`served, memory
    ensures ok ==> SegmentIn(memory[..], source.bytes, s, bias) && InFile(s, source.bytes)
    ensures source.Reliable() && InFile(s, source.bytes) ==> ok
    ensures forall a :: 0 <= a < memory.Length && !Takes(s, bias, a) ==> memory[a] == old(memory[a])
  {
    var destination := s.physicalAddress + bias;
    ok := CopyFromFile(source, s, memory, destination);
    if !ok {
      return;
    }
    ghost var copied := memory[..];
    ZeroRange(memory, destination + s.fileBytes, s.memoryBytes - s.fileBytes);
    forall a | 0 <= a < memory.Length && Takes(s, bias, a)
      ensures memory[a] == SegmentByte(source.bytes, s, a - destination)
    {
      if a < destination + s.fileBytes {
        assert copied[destination + (a - destination)] == SegmentByte(source.bytes, s, a - destination);
      }
    }
  }

  /** Segments that are apart stay apart when all are moved by the same distance. */
  lemma OthersKept(m: seq<u8>, m': seq<u8>, bytes: seq<u8>, a: Segment, b: Segment, bias: int)
    requires |m| == |m'| && (Apart(a, b) || Apart(b, a)) && SegmentIn(m, bytes, a, bias)
    requires forall k :: 0 <= k < |m| && !Takes(b, bias, k) ==> m'[k] == m[k]
    ensures SegmentIn(m', bytes, a, bias)
  {
    hide SegmentByte;
  }

  /** Moved by the bias, the segment lies in the window. */
  predicate InWindow(s: Segment, p: Placement) {
    p.limitLow <= s.physicalAddress + p.bias && s.physicalAddress + p.bias + s.memoryBytes <= p.limitHigh
  }

  lemma WithinIsInWindow(s: Segment, p: Placement)
    ensures Within(s, p) <==> InWindow(s, p)
  {
  }

  predicate Placeable(image: Image, placement: Placement, bytes: seq<u8>) {
    placement.limitLow < placement.limitHigh && forall s <- image.segments :: InWindow(s, placement) && InFile(s, bytes)
  }

  /** Places the segments. Nothing is written unless all of them lie in the window;
      bytes that belong to no segment are not written in any case; and if it
      succeeds the memory is exactly what the image and the file say. */
  method Load(source: FileSource, image: Image, placement: Placement, memory: array<u8>) returns (ok: bool)
    requires Parsed(image) && placement.limitHigh <= memory.Length
    modifies source`served, memory
    ensures ok ==> LoadedFrom(memory[..], old(memory[..]), source.bytes, image.segments, placement.bias)
    ensures ok ==> Placeable(image, placement, source.bytes)
    ensures source.Reliable() && Placeable(image, placement, source.bytes) ==> ok
    ensures (exists s <- image.segments :: !InWindow(s, placement)) ==> memory[..] == old(memory[..])
    ensures forall a :: 0 <= a < memory.Length && !Taken(image.segments, placement.bias, a) ==>
      memory[a] == old(memory[a])
  {
    hide Segment.Sound, SegmentIn, Takes, InFile, Within, InWindow;
    ok := false;
    if placement.limitLow >= placement.limitHigh || |image.segments| == 0 {
      return;
    }
    forall s | s in image.segments
      ensures Within(s, placement) <==> InWindow(s, placement)
    {
      WithinIsInWindow(s, placement);
    }
    for index := 0 to |image.segments|
      invariant forall i :: 0 <= i < index ==> InWindow(image.segments[i], placement)
    {
      if !Within(image.segments[index], placement) {
        return;
      }
    }
    for index := 0 to |image.segments|
      invariant forall i :: 0 <= i < index ==> SegmentIn(memory[..], source.bytes, image.segments[i], placement.bias)
      invariant forall i :: 0 <= i < index ==> InFile(image.segments[i], source.bytes)
      invariant forall a :: 0 <= a < memory.Length && !Taken(image.segments, placement.bias, a) ==>
        memory[a] == old(memory[a])
    {
      var s := image.segments[index];
      ghost var before := memory[..];
      WithinIsThere(s, placement);
      var got := CopySegment(source, s, memory, placement.bias);
      if !got {
        return;
      }
      forall i | 0 <= i < index
        ensures SegmentIn(memory[..], source.bytes, image.segments[i], placement.bias)
      {
        OthersKept(before, memory[..], source.bytes, image.segments[i], s, placement.bias);
      }
    }
    return true;
  }

  lemma WithinIsThere(s: Segment, p: Placement)
    requires InWindow(s, p)
    ensures 0 <= s.physicalAddress + p.bias && s.physicalAddress + p.bias + s.memoryBytes <= p.limitHigh
  {
  }
}
