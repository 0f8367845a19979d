/** Reader and writer undo each other: a volume that was written (FatImages) is
    mounted, its files are found by name, and their contents come back. */
module FatRoundTrip {
  import opened Words
  import opened BlockDevices
  import opened FatLayout
  import opened FatNames
  import opened FatVolumes
  import opened FatDirectories
  import opened FatImages

  /** A device that begins with these bytes and does not fail. */
  ghost predicate Carries(d: BlockDevice, v: seq<u8>) {
    && Usable(d) && d.disk.Reliable() && |v| == 2097152
    && (d.sectorCount != 0 ==> d.sectorCount >= 4096)
    && forall k :: 0 <= k < |v| ==> d.Byte(k) == Some(v[k])
  }

  function GeometryWritten(): Geometry {
    Geometry(1, 32, 96, 32, 2, 4000)
  }

  /** The reader accepts what was written, and the geometry it works out is the one
      the writer used. */
  lemma WrittenIsMounted(d: BlockDevice, v: seq<u8>, files: seq<FileSpec>)
    requires Carries(d, v) && Holds(v, files, |files|)
    ensures d.Readable(0, 512)
    ensures Mounted(BootFields(BootSector(d)), 512, d.sectorCount) == Some(GeometryWritten())
    ensures GeometryWritten().Sound() && Complete(d, GeometryWritten())
  {
    hide BootFields, FileLaid, EntryLaid, Placed, RestEmpty, Linked;
    assert BootSector(d) == v[..512];
    BootBytesMean(v);
    assert PowerOfTwo(1);
  }

  // ----- chains -----

  lemma LinkIsWord(d: BlockDevice, v: seq<u8>, cluster: nat, value: u32)
    requires Carries(d, v) && 2 <= cluster < 4002 && Linked(v, cluster, value)
    ensures Link(d, GeometryWritten(), cluster) == Some(Masked(value))
  {
    var at := 16384 + 4 * cluster;
    assert d.Byte(at) == Some(v[at]) && d.Byte(at + 1) == Some(v[at + 1]);
    assert d.Byte(at + 2) == Some(v[at + 2]) && d.Byte(at + 3) == Some(v[at + 3]);
  }

  /** The clusters of a file follow one another. */
  lemma {:induction false} ChainIsRun(d: BlockDevice, v: seq<u8>, first: nat, contents: seq<u8>, n: nat)
    requires Carries(d, v) && FileLaid(v, first, contents) && n < Needed(|contents|)
    ensures Nth(d, GeometryWritten(), first, n) == Some(first + n)
  {
    hide Linked, Link, DataLaid;
    if n > 0 {
      ChainIsRun(d, v, first, contents, n - 1);
      assert LinkedOn(v, first + n - 1, first + Needed(|contents|) - 1);
      LinkIsWord(d, v, first + n - 1, first + n);
    }
  }

  /** The chain of a file is its contents. */
  lemma ChainIsContents(d: BlockDevice, v: seq<u8>, first: nat, contents: seq<u8>, p: nat)
    requires Carries(d, v) && FileLaid(v, first, contents) && p < 512 * Needed(|contents|)
    ensures ChainByte(d, GeometryWritten(), first, p) == Some(ContentByte(contents, p))
  {
    hide Linked, Link, Nth;
    var n := p / 512;
    ChainIsRun(d, v, first, contents, n);
    var k := ClusterBase(first) + p;
    assert k == ClusterBase(first + n) + p % 512;
    assert d.Byte(k) == Some(v[k]);
  }

  lemma FileIsReadable(d: BlockDevice, v: seq<u8>, first: nat, contents: seq<u8>, offset: nat, length: nat)
    requires Carries(d, v) && FileLaid(v, first, contents) && length > 0 && offset + length <= |contents|
    ensures ChainReadable(d, GeometryWritten(), first, offset, length, 0)
  {
    hide Carries, Nth;
    ChainIsRun(d, v, first, contents, (offset + length - 1) / 512);
  }

  // ----- the root directory -----

  /** The root directory's bytes are those of its only cluster. */
  lemma RootIsCluster(d: BlockDevice, v: seq<u8>, p: nat)
    requires Carries(d, v) && p < 512
    ensures ChainByte(d, GeometryWritten(), 2, p) == Some(v[49152 + p])
  {
  }

  lemma RootEndsThere(d: BlockDevice, v: seq<u8>, p: nat)
    requires Carries(d, v) && Linked(v, 2, FAT_ENTRY_END) && 512 <= p < 1024
    ensures ChainByte(d, GeometryWritten(), 2, p) == None
  {
    hide Link, Linked;
    LinkIsWord(d, v, 2, FAT_ENTRY_END);
    assert Nth(d, GeometryWritten(), 2, 0) == Some(2);
  }

  lemma RootEntryIs(d: BlockDevice, v: seq<u8>, slot: nat)
    requires Carries(d, v) && slot < 16
    ensures EntryAt(d, GeometryWritten(), 2, slot) == Some(RootEntry(v, slot))
  {
    hide ChainByte;
    forall o {:trigger ChainByte(d, GeometryWritten(), 2, o)} | 32 * slot <= o < 32 * slot + 32
      ensures ChainByte(d, GeometryWritten(), 2, o) == Some(v[49152 + o])
    {
      RootIsCluster(d, v, o);
    }
    forall k | 0 <= k < 32
      ensures ChainSlice(d, GeometryWritten(), 2, 32 * slot, 32)[k] == RootEntry(v, slot)[k]
    {
      assert ChainByte(d, GeometryWritten(), 2, 32 * slot + k) == Some(v[49152 + (32 * slot + k)]);
      assert ByteOf(d, GeometryWritten(), 2, 32 * slot + k) == v[49152 + (32 * slot + k)];
    }
    assert ChainSlice(d, GeometryWritten(), 2, 32 * slot, 32) == RootEntry(v, slot);
  }

  /** A name that an entry can hold: it neither ends the directory nor marks the
      entry as deleted. */
  predicate ValidName(name: seq<u8>) {
    |name| == 11 && name[0] != 0x00 && name[0] != 0xE5
  }

  predicate ValidNames(files: seq<FileSpec>) {
    forall i :: 0 <= i < |files| ==> ValidName(files[i].name)
  }

  /** The first file from `i` on that a name asked for matches. */
  ghost function FirstMatch(files: seq<FileSpec>, asked: seq<u8>, i: nat): (found: Option<nat>)
    requires i <= |files| && ValidNames(files)
    ensures found.Some? ==> i <= found.value < |files| && ShortMatches(files[found.value].name, asked)
    ensures forall j :: i <= j < (if found.Some? then found.value else |files|) ==> !ShortMatches(files[j].name, asked)
    decreases |files| - i
  {
    if i == |files| then None
    else if ShortMatches(files[i].name, asked) then Some(i)
    else FirstMatch(files, asked, i + 1)
  }

  /** Where that file is. */
  ghost function PlaceOf(files: seq<FileSpec>, found: Option<nat>): Option<Found>
    requires found.Some? ==> found.value < |files| && |files| <= 16 && FirstFree(files, found.value) < 4000
    requires found.Some? ==> |files[found.value].contents| < U32_LIMIT
  {
    if found.None? then None
    else
      var first: u32 := FirstFree(files, found.value);
      Some(Found(first, |files[found.value].contents|, false))
  }

  lemma EntryNamesFile(v: seq<u8>, slot: nat, file: FileSpec, first: nat)
    requires |v| == 2097152 && slot < 16 && first < 4000 && EntryLaid(v, slot, file, first) && ValidName(file.name)
    ensures var e := RootEntry(v, slot);
      && e[0] != 0x00 && e[0] != 0xE5 && e[11] == 0x20
      && |file.contents| < U32_LIMIT
      && EntryTarget(e) == Found(first, |file.contents|, false)
      && forall asked :: ShortMatches(e, asked) <==> ShortMatches(file.name, asked)
  {
    hide U16At, U32At, Wanted;
    var e := RootEntry(v, slot);
    assert forall k :: 0 <= k < 11 ==> e[k] == e[..11][k] == file.name[k];
  }

  lemma PlacedBounds(v: seq<u8>, files: seq<FileSpec>, i: nat)
    requires i < |files| && Holds(v, files, |files|)
    ensures FirstFree(files, i) < 4000 && Placed(v, files, i) && |files[i].contents| < U32_LIMIT
  {
    hide RestEmpty, StartWritten, FileLaid, EntryLaid;
    FirstFreeGrows(files, i, |files|);
  }

  /** Searching the root directory finds the first file that matches, and nothing
      if none does, whatever the memory for a long name happens to hold. */
  lemma {:induction false} RootSearch(
    d: BlockDevice, v: seq<u8>, files: seq<FileSpec>, asked: seq<u8>, i: nat, p: Pending)
    requires Carries(d, v) && Holds(v, files, |files|) && ValidNames(files)
    requires i <= |files| && |p.text| == 260 && !p.valid
    ensures var found := FirstMatch(files, asked, i);
      && (found.Some? ==> FirstFree(files, found.value) < 4000 && |files[found.value].contents| < U32_LIMIT)
      && Search(d, GeometryWritten(), 2, asked, i, p) == PlaceOf(files, found)
    decreases |files| - i
  {
    hide EntryAt, ShortMatches, EntryTarget, EntryLaid, FileLaid, StartWritten, FirstFree;
    assert MaximumEntries(GeometryWritten()) == 64000;
    if i == |files| {
      RootEnds(d, v, files);
      assert FirstMatch(files, asked, i) == None;
    } else {
      PlacedBounds(v, files, i);
      RootEntryIs(d, v, i);
      EntryNamesFile(v, i, files[i], FirstFree(files, i));
      if !ShortMatches(files[i].name, asked) {
        RootSearch(d, v, files, asked, i + 1, Reset(p));
      }
    }
  }

  /** After the last file the directory ends: with an empty entry, or with its
      chain. */
  lemma RootEnds(d: BlockDevice, v: seq<u8>, files: seq<FileSpec>)
    requires Carries(d, v) && Holds(v, files, |files|)
    ensures var end := EntryAt(d, GeometryWritten(), 2, |files|);
      end.None? || end.value[0] == 0
  {
    hide ChainByte, Placed, ChainSlice;
    if |files| < 16 {
      RootEntryIs(d, v, |files|);
    } else {
      assert Linked(v, 2, FAT_ENTRY_END);
      RootEndsThere(d, v, 512);
      assert !ChainHas(d, GeometryWritten(), 2, 32 * 16, 32);
    }
  }

  // ----- names as they are asked for -----

  /** No two names are equal but for the case of letters. */
  ghost predicate Distinct(files: seq<FileSpec>)
    requires ValidNames(files)
  {
    forall i, j :: 0 <= i < j < |files| ==> !SameLetters(files[i].name, files[j].name)
  }

  lemma MatchesAreSame(a: seq<u8>, b: seq<u8>, asked: seq<u8>)
    requires ValidName(a) && ValidName(b) && ShortMatches(a, asked) && ShortMatches(b, asked)
    ensures SameLetters(a, b)
  {
    hide Wanted;
  }

  lemma DistinctMatch(files: seq<FileSpec>, asked: seq<u8>, i: nat)
    requires ValidNames(files) && Distinct(files) && i < |files| && ShortMatches(files[i].name, asked)
    ensures FirstMatch(files, asked, 0) == Some(i)
  {
    hide ShortMatches, SameLetters;
    MatchesAreSame(files[FirstMatch(files, asked, 0).value].name, files[i].name, asked);
  }

  /** An 8.3 name as it is kept: capitals or not, padded with spaces. */
  function Padded(stem: seq<u8>, extension: seq<u8>): (name: seq<u8>)
    requires |stem| <= 8 && |extension| <= 3
    ensures |name| == 11
  {
    seq<u8>(11, i requires 0 <= i < 11 =>
      if i < |stem| then stem[i] else if 8 <= i < 8 + |extension| then extension[i - 8] else 0x20)
  }

  /** And as it is written in a path. */
  function Written(stem: seq<u8>, extension: seq<u8>): seq<u8> {
    if extension == [] then stem else stem + [0x2E] + extension
  }

  /** A file answers to its name in any mixture of capitals and small letters. */
  lemma AnyCaseMatches(stem: seq<u8>, extension: seq<u8>, asked: seq<u8>)
    requires |stem| <= 8 && |extension| <= 3 && 0x2E !in stem
    requires SameLetters(asked, Written(stem, extension))
    ensures ShortMatches(Padded(stem, extension), asked)
  {
    var w := Written(stem, extension);
    assert forall i :: 0 <= i < |stem| ==> w[i] == stem[i];
    assert forall i :: 0 <= i < |stem| ==> asked[i] != DOT;
    if extension != [] {
      assert w[|stem|] == DOT && asked[|stem|] == DOT;
      assert forall i :: 0 <= i < |extension| ==> w[|stem| + 1 + i] == extension[i];
    }
    BaseLengthIs(asked, |stem|);
    forall i | 0 <= i < 11
      ensures Upper(Padded(stem, extension)[i]) == Wanted(asked).value[i]
    {
      if 8 <= i < 8 + |extension| {
        assert w[|stem| + 1 + (i - 8)] == extension[i - 8];
      }
    }
  }

  /** And to no other: between names without spaces the match is exact but for case. */
  lemma OnlyOwnNameMatches(stem: seq<u8>, extension: seq<u8>, stem': seq<u8>, extension': seq<u8>)
    requires |stem| <= 8 && |extension| <= 3 && |stem'| <= 8 && |extension'| <= 3
    requires 0x2E !in stem && 0x2E !in stem'
    requires 0x20 !in stem && 0x20 !in extension && 0x20 !in stem' && 0x20 !in extension'
    ensures ShortMatches(Padded(stem, extension), Written(stem', extension')) <==>
      SameLetters(stem, stem') && SameLetters(extension, extension')
  {
    hide ShortMatches, Written, Padded;
    if SameLetters(stem, stem') && SameLetters(extension, extension') {
      SameWritten(stem, extension, stem', extension');
      AnyCaseMatches(stem, extension, Written(stem', extension'));
    }
    AnyCaseMatches(stem', extension', Written(stem', extension'));
    if ShortMatches(Padded(stem, extension), Written(stem', extension')) {
      PaddedApart(stem, extension, stem', extension', Written(stem', extension'));
    }
  }

  lemma SameWritten(stem: seq<u8>, extension: seq<u8>, stem': seq<u8>, extension': seq<u8>)
    requires SameLetters(stem, stem') && SameLetters(extension, extension')
    ensures SameLetters(Written(stem', extension'), Written(stem, extension))
  {
  }

  /** Where the padding of a field begins. */
  ghost predicate Field(p: seq<u8>, at: nat, n: nat, max: nat)
    requires at + max <= |p|
  {
    n <= max && forall i :: at <= i < at + max ==> (p[i] == SPACE <==> i >= at + n)
  }

  lemma {:induction false} SameLengths(p: seq<u8>, q: seq<u8>, at: nat, m: nat, n: nat, max: nat)
    requires at + max <= |p| == |q| && Field(p, at, m, max) && Field(q, at, n, max)
    requires forall i :: at <= i < at + max ==> Upper(p[i]) == Upper(q[i])
    ensures m == n
    decreases max
  {
    if max > 0 {
      var last := at + max - 1;
      assert p[last] == SPACE <==> q[last] == SPACE;
      if m < max {
        SameLengths(p, q, at, m, n, max - 1);
      }
    }
  }

  /** What matches the same name is padded the same. */
  lemma PaddedApart(stem: seq<u8>, extension: seq<u8>, stem': seq<u8>, extension': seq<u8>, asked: seq<u8>)
    requires |stem| <= 8 && |extension| <= 3 && |stem'| <= 8 && |extension'| <= 3
    requires 0x20 !in stem && 0x20 !in extension && 0x20 !in stem' && 0x20 !in extension'
    requires ShortMatches(Padded(stem, extension), asked) && ShortMatches(Padded(stem', extension'), asked)
    ensures SameLetters(stem, stem') && SameLetters(extension, extension')
  {
    hide Wanted;
    var a, b := Padded(stem, extension), Padded(stem', extension');
    assert forall i :: 0 <= i < 11 ==> Upper(a[i]) == Upper(b[i]);
    SameLengths(a, b, 0, |stem|, |stem'|, 8);
    SameLengths(a, b, 8, |extension|, |extension'|, 3);
    assert forall i :: 0 <= i < |stem| ==> a[i] == stem[i] && b[i] == stem'[i];
    forall i | 0 <= i < |extension|
      ensures Upper(extension[i]) == Upper(extension'[i])
    {
      assert a[8 + i] == extension[i] && b[8 + i] == extension'[i];
    }
  }

  // ----- opening and reading -----

  /** A path with one name in it, of a length that is accepted. */
  predicate OneName(path: seq<u8>) {
    var start := SkipSeparators(path, 0);
    var end := ComponentEnd(path, start);
    start < |path| && ComponentAccepted(path, start) && SkipSeparators(path, end) == |path|
  }

  function NameIn(path: seq<u8>): seq<u8> {
    path[SkipSeparators(path, 0)..ComponentEnd(path, SkipSeparators(path, 0))]
  }

  /** Such a path must lead to the first file it matches, and can lead nowhere if
      there is none. */
  lemma PathLeads(d: BlockDevice, v: seq<u8>, files: seq<FileSpec>, path: seq<u8>)
    requires Carries(d, v) && Holds(v, files, |files|) && ValidNames(files) && OneName(path)
    ensures var g, found := GeometryWritten(), FirstMatch(files, NameIn(path), 0);
      && (found.Some? ==> FirstFree(files, found.value) < 4000 && |files[found.value].contents| < U32_LIMIT)
      && (found.Some? ==>
            MustLead(d, g, path, SkipSeparators(path, 0), RootOf(g), PlaceOf(files, found).value))
      && forall result :: MayLead(d, g, path, SkipSeparators(path, 0), RootOf(g), result) ==>
        PlaceOf(files, found) == Some(result)
  {
    hide Carries, Search, Holds, FirstFree, FirstMatch;
    var g, asked := GeometryWritten(), NameIn(path);
    RootFinds(d, v, files, asked);
    var place := PlaceOf(files, FirstMatch(files, asked, 0));
    if place.Some? {
      assert MustLead(d, g, path, |path|, place.value, place.value);
    }
  }

  lemma RootFinds(d: BlockDevice, v: seq<u8>, files: seq<FileSpec>, asked: seq<u8>)
    requires Carries(d, v) && Holds(v, files, |files|) && ValidNames(files)
    ensures var g, found := GeometryWritten(), FirstMatch(files, asked, 0);
      && d.Valid() && g.Sound() && |files| <= 16
      && (found.Some? ==> FirstFree(files, found.value) < 4000 && |files[found.value].contents| < U32_LIMIT)
      && (found.Some? ==> MustFind(d, g, 2, asked, PlaceOf(files, found).value))
      && forall result :: MayFind(d, g, 2, asked, result) ==> PlaceOf(files, found) == Some(result)
  {
    hide Search, FirstFree, FirstMatch;
    forall p | Blank(p)
      ensures var found := FirstMatch(files, asked, 0);
        && (found.Some? ==> FirstFree(files, found.value) < 4000 && |files[found.value].contents| < U32_LIMIT)
        && Search(d, GeometryWritten(), 2, asked, 0, p) == PlaceOf(files, found)
    {
      RootSearch(d, v, files, asked, 0, p);
    }
    assert Blank(Pending(seq(260, _ => 0), 0, 0, false));
  }

  /** The whole way: a written volume is mounted, a path opened, and a part of the
      file read. It works exactly when a file matches and the part is within it,
      and what is read is that part of what was written. */
  method ReadBack(
    device: BlockDevice, ghost v: seq<u8>, ghost files: seq<FileSpec>, path: seq<u8>, offset: u64, length: nat)
    returns (ok: bool, out: array<u8>)
    requires Carries(device, v) && Holds(v, files, |files|) && ValidNames(files) && OneName(path)
    modifies device.disk`served, device.disk`touched, device.bounce
    ensures var found := FirstMatch(files, NameIn(path), 0);
      && (ok <==> found.Some? && (length > 0 ==> offset + length <= |files[found.value].contents|))
      && (ok && length > 0 ==> out[..] == files[found.value].contents[offset..offset + length])
  {
    hide Holds, Mounted, BootFields, MustLead, MayLead, Complete, Geometry.Sound, FirstFree;
    out := new u8[length](_ => 0);
    var volume := new FatVolume(device);
    WrittenIsMounted(device, v, files);
    ok := volume.Mount();
    PathLeads(device, v, files, path);
    var file := Open(volume, path);
    if file == null {
      return false, out;
    }
    ghost var found := FirstMatch(files, NameIn(path), 0);
    PlacedBounds(v, files, found.value);
    ok := ReadContents(file, v, files[found.value].contents, offset, length, out);
  }

  /** Each file is found by its own name, in any mixture of capitals and small
      letters, and any part of it reads as it was written. */
  method ReadByName(
    device: BlockDevice, ghost v: seq<u8>, ghost files: seq<FileSpec>, ghost i: nat, ghost stem: seq<u8>,
    ghost extension: seq<u8>,
    asked: seq<u8>, offset: u64, length: nat)
    returns (ok: bool, out: array<u8>)
    requires Carries(device, v) && Holds(v, files, |files|) && ValidNames(files) && Distinct(files)
    requires i < |files| && |stem| <= 8 && |extension| <= 3 && 0x2E !in stem && files[i].name == Padded(stem, extension)
    requires SameLetters(asked, Written(stem, extension)) && 1 <= |asked| && 0x2F !in asked
    modifies device.disk`served, device.disk`touched, device.bounce
    ensures ok <==> length > 0 ==> offset + length <= |files[i].contents|
    ensures ok && length > 0 ==> out[..] == files[i].contents[offset..offset + length]
  {
    hide Carries, Holds, ValidNames, Distinct, FirstMatch, OneName, NameIn;
    AnyCaseMatches(stem, extension, asked);
    DistinctMatch(files, asked, i);
    OneNamePath(asked);
    ok, out := ReadBack(device, v, files, [0x2F] + asked, offset, length);
  }

  /** A path of a separator and a name is a path of one name. */
  lemma OneNamePath(asked: seq<u8>)
    requires 1 <= |asked| <= 260 && 0x2F !in asked
    ensures OneName([0x2F] + asked) && NameIn([0x2F] + asked) == asked
  {
    var path := [0x2F] + asked;
    assert forall k :: 1 <= k < |path| ==> path[k] in asked;
    assert SkipSeparators(path, 0) == SkipSeparators(path, 1) == 1;
    var end := ComponentEnd(path, 1);
    assert end == |path|;
  }

  /** Any part of a file that was written reads as it was written. */
  method ReadContents(
    file: FatFile, ghost v: seq<u8>, ghost contents: seq<u8>, offset: u64, length: nat, out: array<u8>)
    returns (ok: bool)
    requires file.Valid() && file.volume.g == GeometryWritten() && Carries(file.volume.device, v)
    requires Complete(file.volume.device, GeometryWritten())
    requires FileLaid(v, file.firstCluster, contents) && file.size == |contents| && !file.directory
    requires out.Length == length && out != file.volume.fatSector && out != file.volume.device.bounce
    modifies file, out
    modifies file.volume`fatSectorIndex, file.volume`fatSectorValid, file.volume`links, file.volume.fatSector
    modifies file.volume.device.disk`served, file.volume.device.disk`touched, file.volume.device.bounce
    ensures ok <==> length > 0 ==> offset + length <= |contents|
    ensures ok && length > 0 ==> out[..] == contents[offset..offset + length]
  {
    hide Carries, FileLaid, Complete, Geometry.Sound, ChainReadable, ChainByte;
    if length > 0 && offset + length <= |contents| {
      FileIsReadable(file.volume.device, v, file.firstCluster, contents, offset, length);
    }
    ok := file.Read(offset, length, out);
    if ok && length > 0 {
      SliceIsContents(file, v, contents, offset, length, out);
    }
  }

  lemma SliceIsContents(file: FatFile, v: seq<u8>, contents: seq<u8>, offset: u64, length: nat, out: array<u8>)
    requires file.Valid() && file.volume.g == GeometryWritten() && Carries(file.volume.device, v)
    requires FileLaid(v, file.firstCluster, contents) && offset + length <= |contents| && out.Length == length
    requires file.volume.HoldsChain(file.firstCluster, offset, length, out, 0)
    ensures out[..] == contents[offset..offset + length]
  {
    hide Carries, FileLaid, Complete, Geometry.Sound, ChainByte;
    forall k | 0 <= k < length
      ensures out[k] == contents[offset + k]
    {
      assert ChainByte(file.volume.device, GeometryWritten(), file.firstCluster, offset + (k - 0)) == Some(out[k]);
      ChainIsContents(file.volume.device, v, file.firstCluster, contents, offset + k);
    }
  }
}
