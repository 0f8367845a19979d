/** Mounting an ext2 volume, and finding a name in one of its directories
    (src/fs/ext2.c). */
module Ext2Directories {
  import opened Words
  import opened BlockDevices
  import opened Ext2Blocks

  // ----- mounting -----

  /** The fields of a superblock that ext2_mount reads. */
  datatype Superblock = Superblock(
    inodeCount: u32, blockCount: u32, firstDataBlock: u32, logBlockSize: u32, blocksPerGroup: u32,
    inodesPerGroup: u32, magic: u16, revision: u32, inodeBytes: u16, incompatible: u32)
  {
    function InodeBytes(): u32 { if revision == 0 then 128 else inodeBytes }
  }

  function SuperblockIn(s: seq<u8>): Superblock
    requires |s| == 1024
  {
    Superblock(U32At(s, 0), U32At(s, 4), U32At(s, 20), U32At(s, 24), U32At(s, 32),
      U32At(s, 40), U16At(s, 56), U32At(s, 76), U16At(s, 88), U32At(s, 96))
  }

  function BlockBytesOf(log: u32): (bytes: nat)
    requires log <= 6
  {
    1024 * Exp2(log)
  }

  /** What a volume is taken to be. */
  datatype Volume = Volume(
    g: Geometry, blocksPerGroup: u32, inodesPerGroup: u32, inodeBytes: u32, inodeCount: u32, groupTable: nat)

  function Mounted(s: Superblock, sectorBytes: nat, sectorCount: u64): Option<Volume>
    requires sectorBytes > 0
  {
    if s.magic != 0xEF53 || s.logBlockSize > 6 then None
    else
      var blockBytes := BlockBytesOf(s.logBlockSize);
      if blockBytes % sectorBytes != 0 then None
      else if s.incompatible / 0x40 % 2 == 1 then None
      else if s.blocksPerGroup == 0 || s.inodesPerGroup == 0 || s.blockCount == 0 || s.inodeCount == 0 then None
      else if s.InodeBytes() < 128 || s.InodeBytes() > blockBytes || !PowerOfTwo(s.InodeBytes()) then None
      else if
        && sectorCount != 0
        && PositiveTimes(s.blockCount, blockBytes) > PositiveTimes(sectorCount, sectorBytes) % U64_LIMIT
      then None
      else
        Some(Volume(Geometry(blockBytes, blockBytes / 4, s.blockCount), s.blocksPerGroup, s.inodesPerGroup,
          s.InodeBytes(), s.inodeCount, PositiveTimes(s.firstDataBlock + 1, blockBytes)))
  }

  lemma BlockSizes(log: u32)
    requires log <= 6
    ensures var bytes := BlockBytesOf(log);
      bytes == Exp2(10 + log) && 1024 <= bytes <= 65536 && bytes == 4 * (bytes / 4)
  {
    assert Exp2(10) == 1024 by { assert Exp2(5) == 32; Exp2Sum(5, 5); }
    Exp2Sum(10, log);
    assert Exp2(2) == 4 && Exp2(3) == 8;
    assert Exp2(4) == 16 && Exp2(5) == 32 && Exp2(6) == 64;
  }

  /** Whatever superblock is accepted, the sizes are sound, blocks are whole sectors,
      all of the volume lies on a device that says how large it is, and an inode of the
      table never straddles two blocks. */
  lemma MountedIsSound(s: Superblock, sectorBytes: nat, sectorCount: u64, k: nat)
    requires sectorBytes > 0 && Mounted(s, sectorBytes, sectorCount).Some?
    ensures var v := Mounted(s, sectorBytes, sectorCount).value;
      && v.g.Sound() && v.g.blockBytes % sectorBytes == 0
      && (sectorCount != 0 ==> v.g.blockCount * v.g.blockBytes <= sectorCount * sectorBytes)
      && v.groupTable < U64_LIMIT
      && k * v.inodeBytes % v.g.blockBytes + v.inodeBytes <= v.g.blockBytes
  {
    hide BlockBytesOf, PowerOfTwo;
    var v := Mounted(s, sectorBytes, sectorCount).value;
    BlockSizes(s.logBlockSize);
    PowerOfTwoDivides(v.inodeBytes, 10 + s.logBlockSize);
    InodeInBlock(v.inodeBytes, v.g.blockBytes, k);
    ScaleMonotone(v.g.blockBytes, s.firstDataBlock + 1, 0x1_0000_0000);
    WrappedIsLess(PositiveTimes(sectorCount, sectorBytes));
  }

  /** A product that wraps only looks smaller. */
  lemma WrappedIsLess(x: nat)
    ensures x % U64_LIMIT <= x
  {
    if x < 0x1_0000_0000_0000_0000 {
      DivisionIs(x, 0x1_0000_0000_0000_0000, 0, x);
    }
  }

  lemma InodeInBlock(inode: nat, block: nat, k: nat)
    requires inode > 0 && block > 0 && block % inode == 0
    ensures k * inode % block + inode <= block
  {
    var per, q, r := block / inode, k * inode / block, k * inode % block;
    assert block == inode * per;
    assert k * inode == block * q + r;
    assert block * q == inode * (per * q);
    assert r == inode * (k - per * q);
    if k - per * q >= per {
      ScaleMonotone(inode, per, k - per * q);
    } else {
      ScaleStrict(inode, k - per * q, per);
    }
  }

  /** A volume is accepted if its superblock can be read and says so. */
  method Mount(d: BlockDevice) returns (volume: Option<Volume>)
    requires d.Valid()
    modifies d.disk`served, d.disk`touched, d.bounce
    ensures volume.Some? ==>
      d.Readable(1024, 1024) && volume == Mounted(SuperblockIn(SuperblockBytes(d)), d.sectorBytes, d.sectorCount)
    ensures d.disk.Reliable() && d.RangeReadable(1024, 1024) && d.Readable(1024, 1024) ==>
      volume == Mounted(SuperblockIn(SuperblockBytes(d)), d.sectorBytes, d.sectorCount)
  {
    hide SuperblockIn, Mounted, BlockDevice.RangeReadable;
    var raw := new u8[1024](_ => 0);
    var ok := d.ReadBytes(1024, 1024, raw, 0);
    if !ok {
      return None;
    }
    forall o | 1024 <= o < 2048
      ensures d.Byte(o) == Some(raw[o - 1024])
    {
      assert d.Byte(1024 + (o - 1024 - 0)) == Some(raw[o - 1024]);
    }
    assert raw[..] == SuperblockBytes(d);
    return Mounted(SuperblockIn(raw[..]), d.sectorBytes, d.sectorCount);
  }

  ghost function SuperblockBytes(d: BlockDevice): seq<u8>
    requires d.Valid() && d.Readable(1024, 1024)
  {
    seq(1024, i requires 0 <= i < 1024 => d.Byte(1024 + i).value)
  }

  // ----- directories -----

  ghost function FileSlice(d: BlockDevice, g: Geometry, blocks: Blocks, offset: nat, length: nat): (s: seq<u8>)
    requires d.Valid() && g.Sound() && AllThere(d, g, blocks, offset, length)
    ensures |s| == length
  {
    seq(length, i requires 0 <= i < length => FileByte(d, g, blocks, offset + i).value)
  }

  /** The fixed part of a directory record. */
  datatype Record = Record(inode: u32, length: u16, nameLength: u8)

  function RecordIn(s: seq<u8>): Record
    requires |s| == 8
  {
    Record(U32At(s, 0), U16At(s, 4), s[6])
  }

  /** A record that goes on, stays inside the directory, and holds its name. */
  predicate Fits(r: Record, remaining: int) {
    8 <= r.length <= remaining && 8 + r.nameLength <= r.length
  }

  /** The search from a record on. */
  ghost function Search(d: BlockDevice, g: Geometry, blocks: Blocks, size: nat, name: seq<u8>, offset: nat): Option<u32>
    requires d.Valid() && g.Sound()
    decreases size - offset
  {
    if size - offset < 8 || !AllThere(d, g, blocks, offset, 8) then None
    else
      var r := RecordIn(FileSlice(d, g, blocks, offset, 8));
      if !Fits(r, size - offset) then None
      else if r.inode == 0 || r.nameLength != |name| then Search(d, g, blocks, size, name, offset + r.length)
      else if !AllThere(d, g, blocks, offset + 8, |name|) then None
      else if FileSlice(d, g, blocks, offset + 8, |name|) == name then Some(r.inode)
      else Search(d, g, blocks, size, name, offset + r.length)
  }

  lemma SliceWasRead(d: BlockDevice, g: Geometry, blocks: Blocks, offset: nat, length: nat, out: array<u8>)
    requires d.Valid() && g.Sound() && length <= out.Length && HoldsFile(d, g, blocks, offset, length, out, 0)
    ensures AllThere(d, g, blocks, offset, length) && FileSlice(d, g, blocks, offset, length) == out[..length]
  {
    hide FileByte;
    AllHeld(d, g, blocks, offset, length, out, 0);
    forall i | 0 <= i < length
      ensures FileSlice(d, g, blocks, offset, length)[i] == out[i]
    {
      assert FileByte(d, g, blocks, offset + (i - 0)) == Some(out[i]);
    }
  }

  method NameMatches(entry: array<u8>, length: nat, name: seq<u8>) returns (matched: bool)
    requires length <= entry.Length
    ensures matched <==> entry[..length] == name
  {
    if length != |name| {
      return false;
    }
    for index := 0 to length
      invariant forall i :: 0 <= i < index ==> entry[i] == name[i]
    {
      if entry[index] != name[index] {
        assert entry[..length][index] != name[index];
        return false;
      }
    }
    return true;
  }

  method ReadSlice(
    d: BlockDevice, g: Geometry, blocks: Blocks, offset: nat, length: nat, entry: array<u8>) returns (ok: bool)
    requires d.Valid() && g.Sound() && entry != d.bounce && length <= entry.Length && offset + length < U64_LIMIT
    modifies d.disk`served, d.disk`touched, d.bounce, entry
    ensures ok ==> AllThere(d, g, blocks, offset, length) && entry[..length] == FileSlice(d, g, blocks, offset, length)
    ensures Whole(d, g) ==> (ok <==> AllThere(d, g, blocks, offset, length))
  {
    hide FileByte, Whole, AllThere, BlockDevice.Valid;
    ok := ReadBlocks(d, g, blocks, offset, length, entry, 0);
    if ok {
      SliceWasRead(d, g, blocks, offset, length, entry);
    }
  }

  /** One directory, searched for one name. What it finds is what the records say; it
      misses that only if the device fails. */
  method FindInDirectory(
    d: BlockDevice, g: Geometry, blocks: Blocks, size: u64, name: seq<u8>) returns (found: Option<u32>)
    requires d.Valid() && g.Sound() && 1 <= |name| <= 255
    modifies d.disk`served, d.disk`touched, d.bounce
    ensures found.Some? ==> found == Search(d, g, blocks, size, name, 0)
    ensures Whole(d, g) ==> found == Search(d, g, blocks, size, name, 0)
  {
    hide FileByte, Whole, AllThere, BlockDevice.Valid, FileSlice, RecordIn;
    var entry := new u8[263](_ => 0);
    var offset := 0;
    while offset < size
      invariant 0 <= offset <= size
      invariant Search(d, g, blocks, size, name, offset) == Search(d, g, blocks, size, name, 0)
      decreases size - offset
    {
      var remaining := size - offset;
      if remaining < 8 {
        return None;
      }
      var got := ReadSlice(d, g, blocks, offset, 8, entry);
      if !got {
        return None;
      }
      var record := RecordIn(entry[..8]);
      if !Fits(record, remaining) {
        return None;
      }
      if record.inode != 0 && record.nameLength == |name| {
        got := ReadSlice(d, g, blocks, offset + 8, record.nameLength, entry);
        if !got {
          return None;
        }
        var matched := NameMatches(entry, record.nameLength, name);
        if matched {
          return Some(record.inode);
        }
      }
      offset := offset + record.length;
    }
    return None;
  }

  // ----- directories as they are meant -----

  /** An entry of a directory: a name for an inode, or a record that is not in use. */
  datatype Entry = Entry(inode: u32, name: seq<u8>, length: u16)

  /** There is no record any more: no room for one, or one that does not fit. */
  ghost predicate NoRecord(d: BlockDevice, g: Geometry, blocks: Blocks, size: nat, offset: nat)
    requires d.Valid() && g.Sound()
  {
    || size < offset + 8
    || (AllThere(d, g, blocks, offset, 8) && !Fits(RecordIn(FileSlice(d, g, blocks, offset, 8)), size - offset))
  }

  /** From an offset on, a directory is exactly these records. */
  ghost predicate Lists(d: BlockDevice, g: Geometry, blocks: Blocks, size: nat, offset: nat, entries: seq<Entry>)
    requires d.Valid() && g.Sound()
    decreases |entries|
  {
    if entries == [] then NoRecord(d, g, blocks, size, offset)
    else
      var e := entries[0];
      && |e.name| <= 255 && Fits(Record(e.inode, e.length, |e.name|), size - offset)
      && AllThere(d, g, blocks, offset, 8 + |e.name|)
      && RecordIn(FileSlice(d, g, blocks, offset, 8)) == Record(e.inode, e.length, |e.name|)
      && FileSlice(d, g, blocks, offset + 8, |e.name|) == e.name
      && Lists(d, g, blocks, size, offset + e.length, entries[1..])
  }

  function FirstNamed(entries: seq<Entry>, name: seq<u8>): (inode: Option<u32>)
    ensures inode.None? <==> forall i :: 0 <= i < |entries| ==> entries[i].inode == 0 || entries[i].name != name
    ensures inode.Some? ==> exists i :: 0 <= i < |entries| && entries[i].inode == inode.value && entries[i].name == name
  {
    if entries == [] then None
    else if entries[0].inode != 0 && entries[0].name == name then
      assert entries[0].inode != 0;
      Some(entries[0].inode)
    else
      var rest := FirstNamed(entries[1..], name);
      assert forall i :: 1 <= i < |entries| ==> entries[i] == entries[1..][i - 1];
      rest
  }

  /** A name is found exactly if some record in use has it, and then the first. */
  lemma {:induction false} SearchFindsListed(
    d: BlockDevice, g: Geometry, blocks: Blocks, size: nat, offset: nat, entries: seq<Entry>, name: seq<u8>)
    requires d.Valid() && g.Sound() && 1 <= |name| <= 255 && Lists(d, g, blocks, size, offset, entries)
    ensures Search(d, g, blocks, size, name, offset) == FirstNamed(entries, name)
    decreases |entries|
  {
    hide FileByte, RecordIn, FileSlice;
    if entries != [] {
      var e := entries[0];
      assert AllThere(d, g, blocks, offset, 8) && AllThere(d, g, blocks, offset + 8, |e.name|);
      SearchFindsListed(d, g, blocks, size, offset + e.length, entries[1..], name);
    }
  }
}
