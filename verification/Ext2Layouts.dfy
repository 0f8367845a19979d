/** Any ext2 volume, laid out byte by byte: what is mounted, where the blocks of a file are,
    and what its directories say (src/fs/ext2.c). */
module Ext2Layouts {
  import opened Words
  import opened Fields
  import opened BlockDevices
  import opened Ext2Blocks
  import opened Ext2Directories

  // ----- the superblock -----

  /** The numbers of a volume; `log` is the size of a block, 1 KiB doubled so often. */
  datatype Shape = Shape(
    inodes: int, blocks: int, firstData: int, log: int, blocksPerGroup: int, inodesPerGroup: int,
    revision: int, inodeField: int, features: int)
  {
    function BlockBytes(): int {
      if log == 0 then 0x400 else if log == 1 then 0x800 else if log == 2 then 0x1000 else if log == 3 then 0x2000
      else if log == 4 then 0x4000 else if log == 5 then 0x8000 else 0x1_0000
    }

    /** The first revision had no field for it. */
    function InodeBytes(): int { if revision == 0 then 128 else inodeField }

    /** Sizes that fit together, no extents (bit 6 of the features), and room on the device,
        which is as large as its product in 64 bits says. */
    ghost predicate Sound(sectorBytes: nat, sectorCount: u64)
      requires sectorBytes > 0
    {
      && 0 <= log <= 6 && BlockBytes() % sectorBytes == 0 && features / 0x40 % 2 == 0
      && inodes > 0 && blocks > 0 && blocksPerGroup > 0 && inodesPerGroup > 0
      && 128 <= InodeBytes() <= BlockBytes() && IsPower(InodeBytes())
      && (sectorCount == 0 || blocks * BlockBytes() <= sectorCount * sectorBytes % 0x1_0000_0000_0000_0000)
    }
  }

  predicate SuperLaid(s: seq<u8>, v: Shape) {
    && |s| == 1024
    && WordLaid(s, 0, v.inodes) && WordLaid(s, 4, v.blocks) && WordLaid(s, 20, v.firstData) && WordLaid(s, 24, v.log)
    && WordLaid(s, 32, v.blocksPerGroup) && WordLaid(s, 40, v.inodesPerGroup) && HalfLaid(s, 56, 0xEF53)
    && WordLaid(s, 76, v.revision) && HalfLaid(s, 88, v.inodeField) && WordLaid(s, 96, v.features)
  }

  /** What is mounted for it: the group table is in the block after the superblock's. */
  function VolumeOf(v: Shape): Volume
    requires 0 < v.blocks < 0x1_0000_0000 && 0 <= v.firstData < 0x1_0000_0000
    requires 0 <= v.blocksPerGroup < 0x1_0000_0000 && 0 <= v.inodesPerGroup < 0x1_0000_0000
    requires 0 <= v.InodeBytes() < 0x1_0000_0000 && 0 <= v.inodes < 0x1_0000_0000
  {
    Volume(Geometry(v.BlockBytes(), v.BlockBytes() / 4, v.blocks), v.blocksPerGroup, v.inodesPerGroup, v.InodeBytes(),
      v.inodes, PositiveTimes(v.firstData + 1, v.BlockBytes()))
  }

  predicate InWords(v: Shape) {
    && 0 <= v.inodes < 0x1_0000_0000 && 0 <= v.blocks < 0x1_0000_0000 && 0 <= v.firstData < 0x1_0000_0000
    && 0 <= v.log < 0x1_0000_0000 && 0 <= v.blocksPerGroup < 0x1_0000_0000 && 0 <= v.inodesPerGroup < 0x1_0000_0000
    && 0 <= v.revision < 0x1_0000_0000 && 0 <= v.inodeField < 0x1_0000 && 0 <= v.features < 0x1_0000_0000
  }

  /** The fields of a superblock with the right magic number are those it is laid out with. */
  lemma SuperIsRead(s: seq<u8>, v: Shape)
    requires |s| == 1024
    ensures SuperLaid(s, v) <==>
      InWords(v) && SuperblockIn(s) == Superblock(v.inodes, v.blocks, v.firstData, v.log, v.blocksPerGroup,
        v.inodesPerGroup, 0xEF53, v.revision, v.inodeField, v.features)
  {
    hide WordLaid, HalfLaid, U16At, U32At;
    WordIs(s, 0, v.inodes);
    WordIs(s, 4, v.blocks);
    WordIs(s, 20, v.firstData);
    WordIs(s, 24, v.log);
    WordIs(s, 32, v.blocksPerGroup);
    WordIs(s, 40, v.inodesPerGroup);
    HalfIs(s, 56, 0xEF53);
    WordIs(s, 76, v.revision);
    HalfIs(s, 88, v.inodeField);
    WordIs(s, 96, v.features);
  }

  lemma BlockBytesAre(v: Shape)
    requires 0 <= v.log <= 6
    ensures BlockBytesOf(v.log) == v.BlockBytes()
  {
    assert Exp2(0) == 1 && Exp2(1) == 2 && Exp2(2) == 4 && Exp2(3) == 8;
    assert Exp2(4) == 16 && Exp2(5) == 32 && Exp2(6) == 64;
  }

  /** A superblock is accepted exactly if it is laid out for numbers that are sound, and
      then for what they say. */
  lemma LaidIsMounted(s: seq<u8>, v: Shape, sectorBytes: nat, sectorCount: u64)
    requires |s| == 1024 && SuperLaid(s, v) && sectorBytes > 0
    ensures InWords(v)
    ensures Mounted(SuperblockIn(s), sectorBytes, sectorCount).Some? <==> v.Sound(sectorBytes, sectorCount)
    ensures v.Sound(sectorBytes, sectorCount) ==>
      Mounted(SuperblockIn(s), sectorBytes, sectorCount) == Some(VolumeOf(v))
  {
    hide SuperLaid, SuperblockIn, BlockBytesOf, PowerOfTwo, IsPower;
    SuperIsRead(s, v);
    PowerOfTwoIs(v.InodeBytes());
    if v.log <= 6 {
      BlockBytesAre(v);
    }
  }

  /** Whatever is accepted is laid out for some numbers. */
  lemma MountedIsLaid(s: seq<u8>, sectorBytes: nat, sectorCount: u64) returns (v: Shape)
    requires |s| == 1024 && sectorBytes > 0 && Mounted(SuperblockIn(s), sectorBytes, sectorCount).Some?
    ensures SuperLaid(s, v) && v.Sound(sectorBytes, sectorCount)
  {
    hide SuperLaid, BlockBytesOf, PowerOfTwo, IsPower;
    var b := SuperblockIn(s);
    v := Shape(b.inodeCount, b.blockCount, b.firstDataBlock, b.logBlockSize, b.blocksPerGroup, b.inodesPerGroup,
      b.revision, b.inodeBytes, b.incompatible);
    SuperIsRead(s, v);
    LaidIsMounted(s, v, sectorBytes, sectorCount);
  }

  // ----- where the blocks of a file are -----

  /** A pointer of a block: a number of four bytes. What is not a block of the volume has
      none. */
  ghost function PointerIn(d: BlockDevice, g: Geometry, block: u32, k: nat): Option<u32>
    requires d.Valid()
  {
    if 0 < block < g.blockCount then Word32(d, g.blockBytes * block + 4 * k) else None
  }

  /** One level of pointers, where there is one. */
  ghost function Through(d: BlockDevice, g: Geometry, block: Option<u32>, k: nat): Option<u32>
    requires d.Valid()
  {
    match block
    case None => None
    case Some(b) => if b == 0 then Some(0) else PointerIn(d, g, b, k)
  }

  /** Twelve blocks are named in the inode; the next `p` in a block of pointers; `p` times
      `p` more through two levels of them, and as many times `p` through three. */
  ghost function BlockOfFile(d: BlockDevice, g: Geometry, blocks: Blocks, index: nat): Option<u32>
    requires d.Valid() && g.Sound()
  {
    var p := g.pointers;
    if index < 12 then Some(blocks[index])
    else if index < 12 + p then Through(d, g, Some(blocks[12]), index - 12)
    else if index < 12 + p + p * p then
      var j := index - 12 - p;
      QuotientIsNat(j, p);
      Through(d, g, Through(d, g, Some(blocks[13]), j / p), j % p)
    else if index < 12 + p + p * p + p * p * p then
      var j := index - 12 - p - p * p;
      QuotientIsNat(j, p);
      QuotientIsNat(j / p, p);
      Through(d, g, Through(d, g, Through(d, g, Some(blocks[14]), j / p / p), j / p % p), j % p)
    else None
  }

  lemma PointerIs(d: BlockDevice, g: Geometry, block: u32, k: nat)
    requires d.Valid()
    ensures Pointer(d, g, block, k) == PointerIn(d, g, block, k)
  {
  }

  lemma OneTurn(d: BlockDevice, g: Geometry, block: u32, k: nat)
    requires d.Valid()
    ensures Follow(d, g, block, [k]) == Through(d, g, Some(block), k)
  {
    hide Pointer, PointerIn;
    PointerIs(d, g, block, k);
    assert [k][1..] == [];
  }

  lemma MoreTurns(d: BlockDevice, g: Geometry, block: u32, k: nat, turns: seq<nat>)
    requires d.Valid() && turns != []
    ensures var next := Through(d, g, Some(block), k);
      Follow(d, g, block, [k] + turns) == if next.None? then None else Follow(d, g, next.value, turns)
  {
    hide Pointer, PointerIn;
    PointerIs(d, g, block, k);
    assert ([k] + turns)[1..] == turns;
  }

  /** Two quotients by `p` are one by `p * p`. */
  lemma QuotientTwice(j: nat, p: nat)
    requires p > 0
    ensures p * p > 0 && j / (p * p) == j / p / p && j % (p * p) / p == j / p % p && j % (p * p) % p == j % p
    ensures j / p >= 0 && j / p / p >= 0
  {
    QuotientIsNat(j, p);
    QuotientIsNat(j / p, p);
    ScaleMonotone(p, 1, p);
    var q, r := j / p, j % p;
    var high, middle := q / p, q % p;
    assert p * q == p * (p * high) + p * middle;
    assert p * (p * high) == (p * p) * high;
    ScaleStrict(p, middle, p);
    DivisionIs(j, p * p, high, p * middle + r);
    DivisionIs(p * middle + r, p, middle, r);
  }

  lemma OneDigit(j: nat, p: nat)
    requires p > 0
    ensures Digits(j, p, 1) == [j]
  {
    PowerZero(p);
    DivisionIs(j, 1, j, 0);
    assert Digits(j % 1, p, 0) == [];
  }

  lemma TwoDigits(j: nat, p: nat)
    requires p > 0
    ensures j / p >= 0 && Digits(j, p, 2) == [j / p] + [j % p]
  {
    PowersOf(p);
    QuotientIsNat(j, p);
    OneDigit(j % p, p);
    assert Digits(j, p, 2) == [j / Power(p, 1)] + Digits(j % Power(p, 1), p, 1);
  }

  lemma ThreeDigits(j: nat, p: nat)
    requires p > 0
    ensures j / p >= 0 && j / p / p >= 0 && Digits(j, p, 3) == [j / p / p] + ([j / p % p] + [j % p])
  {
    PowersOf(p);
    QuotientTwice(j, p);
    TwoDigits(j % (p * p), p);
    assert Digits(j, p, 3) == [j / Power(p, 2)] + Digits(j % Power(p, 2), p, 2);
  }

  lemma PowersOf(p: nat)
    requires p > 0
    ensures Power(p, 1) == p && Power(p, 2) == p * p && Power(p, 3) == p * p * p
  {
    PowerZero(p);
    PowerIs(p, 0);
    PowerIs(p, 1);
    PowerIs(p, 2);
    assert p * (p * p) == p * p * p;
  }

  lemma Bases(p: nat)
    requires p > 0
    ensures Base(p, 1) == 12 && Base(p, 2) == 12 + p && Base(p, 3) == 12 + p + p * p
    ensures Base(p, 4) == 12 + p + p * p + p * p * p
  {
    hide Base, Power;
    BaseIs(p);
    PowersOf(p);
    CapacityIs(p);
    assert Base(p, 1 + 1) == 12 + Power(p, 1) && Base(p, 2 + 1) == Base(p, 2) + Power(p, 2);
  }

  /** The lookup of the loader comes to the same, for every block. */
  lemma ResolvedIs(d: BlockDevice, g: Geometry, blocks: Blocks, index: nat)
    requires d.Valid() && g.Sound()
    ensures Resolved(d, g, blocks, index) == BlockOfFile(d, g, blocks, index)
  {
    hide Base, Digits, Power, PathFrom, Pointer, PointerIn, Through, ValidPath, IndexOf, Follow, PathOf;
    var p := g.pointers;
    Bases(p);
    if index < 12 {
      DirectIs(d, g, blocks, index);
    } else if index < 12 + p {
      LevelOf(p, index, 1);
      OneDigit(index - 12, p);
      OneTurn(d, g, blocks[12], index - 12);
    } else if index < 12 + p + p * p {
      var j := index - 12 - p;
      LevelOf(p, index, 2);
      TwoDigits(j, p);
      TwoTurns(d, g, blocks[13], j / p, j % p);
    } else if index < 12 + p + p * p + p * p * p {
      var j := index - 12 - p - p * p;
      LevelOf(p, index, 3);
      ThreeDigits(j, p);
      ThreeTurns(d, g, blocks[14], j / p / p, j / p % p, j % p);
    } else {
      TooFar(p, index);
    }
  }

  lemma DirectIs(d: BlockDevice, g: Geometry, blocks: Blocks, index: nat)
    requires d.Valid() && g.Sound() && index < 12
    ensures Resolved(d, g, blocks, index) == Some(blocks[index])
  {
  }

  lemma TwoTurns(d: BlockDevice, g: Geometry, block: u32, k: nat, l: nat)
    requires d.Valid()
    ensures Follow(d, g, block, [k] + [l]) == Through(d, g, Through(d, g, Some(block), k), l)
  {
    hide PointerIn, Follow;
    MoreTurns(d, g, block, k, [l]);
    var next := Through(d, g, Some(block), k);
    if next.Some? {
      OneTurn(d, g, next.value, l);
    }
  }

  lemma ThreeTurns(d: BlockDevice, g: Geometry, block: u32, k: nat, l: nat, n: nat)
    requires d.Valid()
    ensures Follow(d, g, block, [k] + ([l] + [n])) ==
      Through(d, g, Through(d, g, Through(d, g, Some(block), k), l), n)
  {
    hide PointerIn, Follow;
    MoreTurns(d, g, block, k, [l] + [n]);
    var next := Through(d, g, Some(block), k);
    if next.Some? {
      TwoTurns(d, g, next.value, l, n);
    }
  }

  // ----- what a file holds -----

  /** A position of a file is stored in its block; where that is a hole, the file has zero. */
  ghost predicate ByteLaid(d: BlockDevice, g: Geometry, blocks: Blocks, position: nat, byte: u8)
    requires d.Valid() && g.Sound()
  {
    QuotientIsNat(position, g.blockBytes);
    match BlockOfFile(d, g, blocks, position / g.blockBytes)
    case None => false
    case Some(block) =>
      if block == 0 then byte == 0
      else block < g.blockCount && d.Byte(g.blockBytes * block + position % g.blockBytes) == Some(byte)
  }

  ghost predicate Stored(d: BlockDevice, g: Geometry, blocks: Blocks, contents: seq<u8>)
    requires d.Valid() && g.Sound()
  {
    forall p :: 0 <= p < |contents| ==> ByteLaid(d, g, blocks, p, contents[p])
  }

  lemma ByteIsRead(d: BlockDevice, g: Geometry, blocks: Blocks, position: nat, byte: u8)
    requires d.Valid() && g.Sound() && ByteLaid(d, g, blocks, position, byte)
    ensures FileByte(d, g, blocks, position) == Some(byte)
  {
    hide Resolved, BlockOfFile;
    ResolvedIs(d, g, blocks, IndexAt(g, position));
  }

  /** Any part of a file reads as it is stored, holes as zeros. */
  method ReadStored(
    file: Ext2File, offset: u64, length: nat, out: array<u8>, ghost contents: seq<u8>) returns (ok: bool)
    requires file.device.Valid() && file.g.Sound() && Whole(file.device, file.g)
    requires Stored(file.device, file.g, file.blocks, contents) && file.size == |contents| && !file.directory
    requires out != file.device.bounce && length == out.Length
    modifies file.device.disk`served, file.device.disk`touched, file.device.bounce, out
    ensures ok <==> length > 0 ==> offset + length <= |contents|
    ensures ok && length > 0 ==> out[..] == contents[offset..offset + length]
  {
    hide Whole, FileByte, BlockDevice.Valid, ByteLaid;
    forall p | 0 <= p < |contents|
      ensures FileByte(file.device, file.g, file.blocks, p) == Some(contents[p])
    {
      ByteIsRead(file.device, file.g, file.blocks, p, contents[p]);
    }
    ok := file.Read(offset, length, out);
    if ok && length > 0 {
      forall k | 0 <= k < length
        ensures out[k] == contents[offset + k]
      {
        assert FileByte(file.device, file.g, file.blocks, offset + (k - 0)) == Some(out[k]);
      }
    }
  }

  // ----- directories -----

  /** What is not a record: it is too short for its name, or for any, or it leaves the
      directory. */
  ghost predicate Broken(contents: seq<u8>, offset: nat, length: int)
    requires offset + 8 <= |contents|
  {
    HalfLaid(contents, offset + 4, length) && (length < 8 + contents[offset + 6] as int || offset + length > |contents|)
  }

  /** Records, each an inode, how far it is to the next one, and a name, up to the end of
      the directory or to what is not a record. */
  ghost predicate RecordsLaid(contents: seq<u8>, offset: nat, entries: seq<Entry>)
    decreases |entries|
  {
    if entries == [] then |contents| < offset + 8 || exists length :: Broken(contents, offset, length)
    else
      var e := entries[0];
      && |e.name| <= 255 && 8 + |e.name| <= e.length && offset + e.length <= |contents|
      && WordLaid(contents, offset, e.inode) && HalfLaid(contents, offset + 4, e.length)
      && contents[offset + 6] == |e.name| && contents[offset + 8..offset + 8 + |e.name|] == e.name
      && RecordsLaid(contents, offset + e.length, entries[1..])
  }

  lemma {:induction false} RecordsAreListed(
    d: BlockDevice, g: Geometry, blocks: Blocks, contents: seq<u8>, offset: nat, entries: seq<Entry>)
    requires d.Valid() && g.Sound() && Stored(d, g, blocks, contents) && RecordsLaid(contents, offset, entries)
    ensures Lists(d, g, blocks, |contents|, offset, entries)
    decreases |entries|
  {
    hide FileByte, ByteLaid, WordLaid, HalfLaid;
    if entries != [] {
      var e := entries[0];
      RecordIsRead(d, g, blocks, contents, offset, e);
      RecordsAreListed(d, g, blocks, contents, offset + e.length, entries[1..]);
    } else if offset + 8 <= |contents| {
      var length :| Broken(contents, offset, length);
      BrokenIsRead(d, g, blocks, contents, offset, length);
    }
  }

  lemma BrokenIsRead(d: BlockDevice, g: Geometry, blocks: Blocks, contents: seq<u8>, offset: nat, length: int)
    requires d.Valid() && g.Sound() && Stored(d, g, blocks, contents)
    requires offset + 8 <= |contents| && Broken(contents, offset, length)
    ensures NoRecord(d, g, blocks, |contents|, offset)
  {
    hide FileByte, ByteLaid, HalfLaid, U16At, U32At;
    StoredSlice(d, g, blocks, contents, offset, 8);
    HalfIs(contents, offset + 4, length);
    SameFields(contents, offset, contents[offset..offset + 8]);
  }

  lemma RecordIsRead(d: BlockDevice, g: Geometry, blocks: Blocks, contents: seq<u8>, offset: nat, e: Entry)
    requires d.Valid() && g.Sound() && Stored(d, g, blocks, contents)
    requires |e.name| <= 255 && 8 + |e.name| <= e.length && offset + e.length <= |contents|
    requires WordLaid(contents, offset, e.inode) && HalfLaid(contents, offset + 4, e.length)
    requires contents[offset + 6] == |e.name| && contents[offset + 8..offset + 8 + |e.name|] == e.name
    ensures AllThere(d, g, blocks, offset, 8 + |e.name|) && AllThere(d, g, blocks, offset, 8)
    ensures AllThere(d, g, blocks, offset + 8, |e.name|)
    ensures RecordIn(FileSlice(d, g, blocks, offset, 8)) == Record(e.inode, e.length, |e.name|)
    ensures FileSlice(d, g, blocks, offset + 8, |e.name|) == e.name
  {
    hide FileByte, ByteLaid, WordLaid, HalfLaid, U16At, U32At;
    StoredSlice(d, g, blocks, contents, offset, 8 + |e.name|);
    StoredSlice(d, g, blocks, contents, offset, 8);
    StoredSlice(d, g, blocks, contents, offset + 8, |e.name|);
    var head := contents[offset..offset + 8];
    WordIs(contents, offset, e.inode);
    HalfIs(contents, offset + 4, e.length);
    SameFields(contents, offset, head);
  }

  lemma SameFields(contents: seq<u8>, offset: nat, head: seq<u8>)
    requires offset + 8 <= |contents| && head == contents[offset..offset + 8]
    ensures U32At(head, 0) == U32At(contents, offset) && U16At(head, 4) == U16At(contents, offset + 4)
    ensures head[6] == contents[offset + 6]
  {
  }

  lemma StoredSlice(d: BlockDevice, g: Geometry, blocks: Blocks, contents: seq<u8>, offset: nat, length: nat)
    requires d.Valid() && g.Sound() && Stored(d, g, blocks, contents) && offset + length <= |contents|
    ensures AllThere(d, g, blocks, offset, length)
    ensures FileSlice(d, g, blocks, offset, length) == contents[offset..offset + length]
  {
    hide FileByte, ByteLaid;
    forall o | offset <= o < offset + length
      ensures FileByte(d, g, blocks, o) == Some(contents[o])
    {
      ByteIsRead(d, g, blocks, o, contents[o]);
    }
  }

  /** A directory laid out as records has a name exactly if one in use has it, and then it
      is the first such that is found. */
  method FindLaid(
    d: BlockDevice, g: Geometry, blocks: Blocks, size: u64, name: seq<u8>, ghost contents: seq<u8>,
    ghost entries: seq<Entry>) returns (found: Option<u32>)
    requires d.Valid() && g.Sound() && Whole(d, g) && 1 <= |name| <= 255 && size == |contents|
    requires Stored(d, g, blocks, contents) && RecordsLaid(contents, 0, entries)
    modifies d.disk`served, d.disk`touched, d.bounce
    ensures found == FirstNamed(entries, name)
  {
    hide Whole, FileByte, BlockDevice.Valid, Stored, RecordsLaid, Search, Lists;
    RecordsAreListed(d, g, blocks, contents, 0, entries);
    SearchFindsListed(d, g, blocks, size, 0, entries, name);
    found := FindInDirectory(d, g, blocks, size, name);
  }
}
