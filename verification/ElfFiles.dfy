/** ELF files laid out byte by byte (System V gABI, chapters 4 and 5): the loader accepts
    exactly those it can load, and finds the segments they were laid out with
    (src/elf/elf.c). */
module ElfFiles {
  import opened Words
  import opened Fields
  import opened ElfImage
  import opened ElfLoader

  // ----- headers -----

  /** The header of a 64-bit, little-endian file for x86-64: an executable or a shared
      object, with so many program headers of 56 bytes from a place in the file on. */
  predicate HeaderLaid(s: seq<u8>, entry: int, programs: int, count: int) {
    && |s| >= 64
    && s[0] == 0x7F && s[1] as int == 'E' as int && s[2] as int == 'L' as int && s[3] as int == 'F' as int
    && s[4] == 2 && s[5] == 1 && s[6] == 1
    && (HalfLaid(s, 16, 2) || HalfLaid(s, 16, 3)) && HalfLaid(s, 18, 62) && WordLaid(s, 20, 1)
    && XwordLaid(s, 24, entry) && XwordLaid(s, 32, programs)
    && HalfLaid(s, 54, 56) && HalfLaid(s, 56, count) && 1 <= count <= 64
  }

  /** A header is accepted exactly if it is laid out so, and then says what it says. */
  lemma HeaderIsRead(raw: seq<u8>, entry: u64, programs: u64, count: u16)
    requires |raw| == 64
    ensures FileHeaderIn(raw) == Some(FileHeader(entry, programs, count)) <==> HeaderLaid(raw, entry, programs, count)
  {
    hide HalfLaid, WordLaid, XwordLaid, U16At, U32At, U64At;
    HalfIs(raw, 16, 2);
    HalfIs(raw, 16, 3);
    HalfIs(raw, 18, 62);
    WordIs(raw, 20, 1);
    XwordIs(raw, 24, entry);
    XwordIs(raw, 32, programs);
    HalfIs(raw, 54, 56);
    HalfIs(raw, 56, count);
    assert raw[..4] == [raw[0], raw[1], raw[2], raw[3]];
  }

  /** What a program header describes: memory to be filled, with rights to it, or something
      else. */
  datatype Program =
    | Loaded(
        offset: int, virtual: int, physical: int, fileBytes: int, memoryBytes: int, align: int,
        execute: bool, write: bool, read: bool, others: int)
    | Other(kind: int)

  predicate ProgramLaid(s: seq<u8>, at: nat, p: Program) {
    match p
    case Loaded(offset, virtual, physical, fileBytes, memoryBytes, align, execute, write, read, others) =>
      && WordLaid(s, at, 1) && 0 <= others
      && var asked := (if execute then 1 else 0) + (if write then 2 else 0) + (if read then 4 else 0);
      && WordLaid(s, at + 4, asked + 8 * others)
      && XwordLaid(s, at + 8, offset) && XwordLaid(s, at + 16, virtual) && XwordLaid(s, at + 24, physical)
      && XwordLaid(s, at + 32, fileBytes) && XwordLaid(s, at + 40, memoryBytes) && XwordLaid(s, at + 48, align)
    case Other(kind) =>
      kind != 1 && WordLaid(s, at, kind) && at + 56 <= |s|
  }

  /** A file with these program headers. */
  ghost predicate FileLaid(s: seq<u8>, entry: int, start: int, programs: seq<Program>) {
    && |s| < 0x1_0000_0000_0000_0000 && HeaderLaid(s, entry, start, |programs|) && 0 <= start
    && forall i :: 0 <= i < |programs| ==> ProgramAt(s, start, i, programs[i])
  }

  predicate ProgramAt(s: seq<u8>, start: nat, i: nat, p: Program) {
    start + 56 * i + 56 <= |s| && ProgramLaid(s, start + 56 * i, p)
  }

  function FlagsOf(p: Program): int
    requires p.Loaded?
  {
    (if p.execute then 1 else 0) + (if p.write then 2 else 0) + (if p.read then 4 else 0) + 8 * p.others
  }

  // ----- files that can be loaded -----

  /** No interpreter is asked for; and what is to be loaded takes memory, has no more of it in
      the file, comes to an end within 64 bits, and is aligned to a power of two or not at
      all. */
  ghost predicate Loads(p: Program) {
    match p
    case Other(kind) => kind != 3
    case Loaded(offset, virtual, physical, fileBytes, memoryBytes, align, _, _, _, _) =>
      && fileBytes <= memoryBytes && memoryBytes > 0
      && offset + fileBytes < 0x1_0000_0000_0000_0000 && virtual + memoryBytes < 0x1_0000_0000_0000_0000
      && physical + memoryBytes < 0x1_0000_0000_0000_0000 && (align == 0 || IsPower(align))
  }

  predicate Elsewhere(p: Program, q: Program) {
    p.Loaded? && q.Loaded? ==> p.physical + p.memoryBytes <= q.physical || q.physical + q.memoryBytes <= p.physical
  }

  /** Those to be loaded, in order. */
  function LoadedOf(programs: seq<Program>): (loaded: seq<Program>)
    ensures forall p <- loaded :: p.Loaded?
  {
    if programs == [] then []
    else
      var rest, last := programs[..|programs| - 1], programs[|programs| - 1];
      LoadedOf(rest) + (if last.Loaded? then [last] else [])
  }

  ghost predicate CanLoad(programs: seq<Program>) {
    && (forall p <- programs :: Loads(p))
    && 1 <= |LoadedOf(programs)| <= 16
    && AllElsewhere(LoadedOf(programs))
  }

  predicate AllElsewhere(loaded: seq<Program>) {
    forall i, j :: 0 <= i < j < |loaded| ==> Elsewhere(loaded[i], loaded[j])
  }

  predicate InWords(p: Program) {
    p.Loaded? ==>
      && 0 <= p.offset < 0x1_0000_0000_0000_0000 && 0 <= p.virtual < 0x1_0000_0000_0000_0000
      && 0 <= p.physical < 0x1_0000_0000_0000_0000 && 0 <= p.fileBytes < 0x1_0000_0000_0000_0000
      && 0 <= p.memoryBytes < 0x1_0000_0000_0000_0000 && 0 <= FlagsOf(p) < 0x1_0000_0000
  }

  function SegmentOf(p: Program): Segment
    requires p.Loaded? && InWords(p)
  {
    Segment(p.offset, p.virtual, p.physical, p.fileBytes, p.memoryBytes, FlagsOf(p))
  }

  // ----- one header, read -----

  lemma ProgramIsRead(s: seq<u8>, start: u64, i: nat, p: Program)
    requires |s| < 0x1_0000_0000_0000_0000 && ProgramAt(s, start, i, p)
    ensures InWords(p) && HeaderThere(s, start, i)
    ensures var h := HeaderAt(s, start, i);
      && (h.kind == 1 <==> p.Loaded?) && (h.kind == 3 <==> p == Other(3))
      && (p.Loaded? ==> h.segment == SegmentOf(p) && h.align == p.align)
  {
    hide HalfLaid, WordLaid, XwordLaid, U16At, U32At, U64At;
    var at, raw := start + 56 * i, s[HeaderOffset(start, i)..HeaderOffset(start, i) + 56];
    if p.Loaded? {
      WordMoves(s, at, 0, 1, raw);
      WordMoves(s, at, 4, FlagsOf(p), raw);
      XwordMoves(s, at, 8, p.offset, raw);
      XwordMoves(s, at, 16, p.virtual, raw);
      XwordMoves(s, at, 24, p.physical, raw);
      XwordMoves(s, at, 32, p.fileBytes, raw);
      XwordMoves(s, at, 40, p.memoryBytes, raw);
      XwordMoves(s, at, 48, p.align, raw);
    } else {
      WordMoves(s, at, 0, p.kind, raw);
    }
  }

  lemma WordMoves(s: seq<u8>, at: nat, o: nat, value: int, raw: seq<u8>)
    requires at + 56 <= |s| && o + 4 <= 56 && raw == s[at..at + 56] && WordLaid(s, at + o, value)
    ensures U32At(raw, o) == value && 0 <= value < 0x1_0000_0000
  {
    assert raw[o] == s[at + o] && raw[o + 1] == s[at + o + 1] && raw[o + 2] == s[at + o + 2];
    assert raw[o + 3] == s[at + o + 3];
    WordIs(raw, o, value);
  }

  lemma XwordMoves(s: seq<u8>, at: nat, o: nat, value: int, raw: seq<u8>)
    requires at + 56 <= |s| && o + 8 <= 56 && raw == s[at..at + 56] && XwordLaid(s, at + o, value)
    ensures U64At(raw, o) == value && 0 <= value < 0x1_0000_0000_0000_0000
  {
    hide WordLaid, U32At;
    assert at + o + 4 == at + (o + 4);
    WordMoves(s, at, o, value % 0x1_0000_0000, raw);
    WordMoves(s, at, o + 4, value / 0x1_0000_0000, raw);
  }

  lemma ToleratedIfLoads(s: seq<u8>, start: u64, i: nat, p: Program)
    requires |s| < 0x1_0000_0000_0000_0000 && ProgramAt(s, start, i, p)
    ensures HeaderThere(s, start, i) && (Tolerable(HeaderAt(s, start, i)) <==> Loads(p))
  {
    hide HeaderAt, HeaderThere, ProgramAt, PowerOfTwo, IsPower;
    ProgramIsRead(s, start, i, p);
    if p.Loaded? {
      PowerOfTwoIs(p.align);
    }
  }

  // ----- the file, parsed -----

  function SegmentsOf(programs: seq<Program>): (segments: seq<Segment>)
    requires forall p <- programs :: InWords(p)
    ensures |segments| == |LoadedOf(programs)|
  {
    if programs == [] then []
    else
      var rest, last := programs[..|programs| - 1], programs[|programs| - 1];
      SegmentsOf(rest) + (if last.Loaded? then [SegmentOf(last)] else [])
  }

  /** Programs, and the segments they are laid out as. */
  ghost predicate Match(loaded: seq<Program>, segments: seq<Segment>) {
    |loaded| == |segments| &&
    forall i :: 0 <= i < |loaded| ==> loaded[i].Loaded? && InWords(loaded[i]) && segments[i] == SegmentOf(loaded[i])
  }

  lemma {:induction false} SegmentsMatch(programs: seq<Program>)
    requires forall p <- programs :: InWords(p)
    ensures Match(LoadedOf(programs), SegmentsOf(programs))
  {
    hide SegmentOf, InWords;
    if programs != [] {
      var rest, last := programs[..|programs| - 1], programs[|programs| - 1];
      SegmentsMatch(rest);
      assert last in programs;
    }
  }

  lemma {:induction false} LoadableIs(s: seq<u8>, start: u64, programs: seq<Program>, n: nat)
    requires |s| < 0x1_0000_0000_0000_0000 && n <= |programs|
    requires forall i :: 0 <= i < |programs| ==> ProgramAt(s, start, i, programs[i])
    requires HeadersTolerable(s, start, n)
    ensures forall p <- programs[..n] :: InWords(p)
    ensures Loadable(s, start, n) == SegmentsOf(programs[..n])
  {
    hide ProgramAt, HeaderAt, HeaderThere, Tolerable, SegmentOf, InWords;
    if n > 0 {
      LoadableIs(s, start, programs, n - 1);
      ProgramIsRead(s, start, n - 1, programs[n - 1]);
      assert programs[..n][..n - 1] == programs[..n - 1];
      assert forall p <- programs[..n] :: p in programs[..n - 1] || p == programs[n - 1];
    } else {
      assert programs[..n] == [];
    }
  }

  /** A file laid out so can be loaded exactly if its program headers say so, and its
      segments are those to be loaded. */
  lemma LaidIsAcceptable(s: seq<u8>, entry: u64, start: u64, programs: seq<Program>)
    requires FileLaid(s, entry, start, programs)
    ensures FileHeaderIn(s[..64]) == Some(FileHeader(entry, start, |programs|))
    ensures forall p <- programs :: InWords(p)
    ensures Acceptable(s) <==> CanLoad(programs)
    ensures Acceptable(s) ==> Loadable(s, start, |programs|) == SegmentsOf(programs)
  {
    hide ProgramAt, HeaderAt, HeaderThere, Tolerable, Loads, FileHeaderIn, Segment.Sound, LoadedOf, SegmentsOf, InWords;
    hide AllApart, AllElsewhere;
    HeaderStays(s, entry, start, |programs|);
    HeaderIsRead(s[..64], entry, start, |programs|);
    forall i | 0 <= i < |programs|
      ensures InWords(programs[i]) && HeaderThere(s, start, i)
      ensures Tolerable(HeaderAt(s, start, i)) <==> Loads(programs[i])
    {
      ProgramIsRead(s, start, i, programs[i]);
      ToleratedIfLoads(s, start, i, programs[i]);
    }
    if HeadersTolerable(s, start, |programs|) {
      assert forall p <- programs :: Loads(p);
      assert programs[..|programs|] == programs;
      LoadableIs(s, start, programs, |programs|);
      assert Loadable(s, start, |programs|) == SegmentsOf(programs);
      ApartIsElsewhere(programs);
      assert AllApart(SegmentsOf(programs)) <==> AllElsewhere(LoadedOf(programs));
    } else {
      var i :| 0 <= i < |programs| && !Tolerable(HeaderAt(s, start, i));
      assert programs[i] in programs && !Loads(programs[i]);
    }
  }

  lemma HeaderStays(s: seq<u8>, entry: int, start: int, count: int)
    requires HeaderLaid(s, entry, start, count)
    ensures HeaderLaid(s[..64], entry, start, count)
  {
    var raw := s[..64];
    assert forall k :: 0 <= k < 64 ==> raw[k] == s[k];
  }

  lemma ApartIsElsewhere(programs: seq<Program>)
    requires forall p <- programs :: InWords(p)
    ensures AllApart(SegmentsOf(programs)) <==> AllElsewhere(LoadedOf(programs))
  {
    SegmentsMatch(programs);
    MatchApart(LoadedOf(programs), SegmentsOf(programs));
  }

  lemma MatchApart(loaded: seq<Program>, segments: seq<Segment>)
    requires Match(loaded, segments)
    ensures AllApart(segments) <==> AllElsewhere(loaded)
  {
    hide SegmentOf, InWords, Apart, Elsewhere;
    forall i, j | 0 <= i < j < |loaded|
      ensures Apart(segments[i], segments[j]) <==> Elsewhere(loaded[i], loaded[j])
    {
      ApartIs(loaded[i], loaded[j]);
    }
  }

  lemma ApartIs(p: Program, q: Program)
    requires p.Loaded? && q.Loaded? && InWords(p) && InWords(q)
    ensures Apart(SegmentOf(p), SegmentOf(q)) <==> Elsewhere(p, q)
  {
  }

  /** Parsing such a file: it succeeds exactly if it can be loaded, and then gives its entry
      point and, in order, the segments it was laid out with. */
  method ParseLaid(source: FileSource, ghost entry: u64, ghost start: u64, ghost programs: seq<Program>)
    returns (image: Option<Image>)
    requires FileLaid(source.bytes, entry, start, programs)
    modifies source`served
    ensures image.Some? ==>
      && CanLoad(programs) && Parsed(image.value) && image.value.entry == entry
      && (forall p <- programs :: InWords(p)) && image.value.segments == SegmentsOf(programs)
    ensures source.Reliable() && CanLoad(programs) ==> image.Some?
  {
    hide FileLaid, CanLoad, Acceptable, Parsed, InWords, SegmentsOf, FileHeaderIn;
    LaidIsAcceptable(source.bytes, entry, start, programs);
    image := Parse(source);
  }
}
