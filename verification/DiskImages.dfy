/** Whole disk images, tools/make-image.py: a boot record with one partition in its
    table, the loader behind it, and the volume in the partition. */
module DiskImages {
  import opened Words
  import opened BlockDevices
  import opened Partitions
  import opened FatVolumes
  import opened FatImages
  import opened FatRoundTrip

  const TYPE_FAT32_LBA: u8 := 0x0C

  function PartitionWritten(): Partition {
    Partition(2048, 4096, 0x0C, false)
  }

  ghost predicate TableFree(stage1: seq<u8>)
    requires |stage1| == 512
  {
    forall k :: 446 <= k < 510 ==> stage1[k] == 0
  }

  function SectorsFor(length: nat): nat { (length + 511) / 512 }

  /** The boot record with its table filled in. */
  ghost predicate RecordWritten(sector: seq<u8>, stage1: seq<u8>)
    requires |stage1| == 512 == |sector|
  {
    && sector[446..462] == [0, 0, 0, 0, 0x0C, 0, 0, 0, 0x00, 0x08, 0, 0, 0x00, 0x10, 0, 0]
    && forall k :: 0 <= k < 512 && !(446 <= k < 462) ==> sector[k] == stage1[k]
  }

  ghost predicate ImageHolds(image: seq<u8>, stage1: seq<u8>, loader: seq<u8>, files: seq<FileSpec>)
    requires |stage1| == 512
  {
    && |image| == 6144 * 512 && 512 + |loader| <= 2048 * 512
    && RecordWritten(image[..512], stage1)
    && (forall k :: 512 <= k < 1048576 ==> image[k] == if k < 512 + |loader| then loader[k - 512] else 0)
    && Holds(image[1048576..], files, |files|)
  }

  method WritePartitionEntry(record: array<u8>)
    requires record.Length == 512
    modifies record
    ensures RecordWritten(record[..], old(record[..]))
  {
    var entry := new u8[16](_ => 0);
    entry[4] := TYPE_FAT32_LBA;
    PutU32(entry, 8, 2048);
    PutU32(entry, 12, 4096);
    WritePiece(record, 446, entry[..]);
    EntryWritten(record[..], entry[..]);
  }

  lemma EntryWritten(sector: seq<u8>, entry: seq<u8>)
    requires |sector| == 512 && |entry| == 16 && forall k :: 446 <= k < 462 ==> sector[k] == entry[k - 446]
    requires U32At(entry, 8) == 2048 && U32At(entry, 12) == 4096
    requires forall k :: 0 <= k < 8 ==> entry[k] == if k == 4 then 0x0C else 0
    ensures sector[446..462] == [0, 0, 0, 0, 0x0C, 0, 0, 0, 0x00, 0x08, 0, 0, 0x00, 0x10, 0, 0]
  {
    assert sector[446..462] == entry;
  }

  lemma EntryIsRead(sector: seq<u8>, stage1: seq<u8>)
    requires |sector| == 512 == |stage1| && RecordWritten(sector, stage1)
    ensures EntryOf(sector, 0) == PartitionWritten()
  {
    var entry := sector[446..462];
    assert entry[0] == sector[446] && entry[4] == sector[450];
    assert entry[8] == sector[454] && entry[9] == sector[455] && entry[10] == sector[456] && entry[11] == sector[457];
    assert entry[12] == sector[458] && entry[13] == sector[459] && entry[14] == sector[460] && entry[15] == sector[461];
  }

  method TableIsFree(stage1: seq<u8>) returns (empty: bool)
    requires |stage1| == 512
    ensures empty <==> TableFree(stage1)
  {
    for k := 446 to 510
      invariant forall j :: 446 <= j < k ==> stage1[j] == 0
    {
      if stage1[k] != 0 {
        return false;
      }
    }
    return true;
  }

  /** The parts in their places, and zeros between them. */
  method Assemble(record: array<u8>, loader: seq<u8>, volume: array<u8>) returns (image: array<u8>)
    requires record.Length == 512 && volume.Length == 2097152 && 512 + |loader| <= 1048576
    ensures image.Length == 3145728 && image[..512] == record[..] && image[1048576..] == volume[..]
    ensures forall k :: 512 <= k < 1048576 ==> image[k] == if k < 512 + |loader| then loader[k - 512] else 0
  {
    image := new u8[3145728](_ => 0);
    WritePiece(image, 0, record[..]);
    WritePiece(image, 512, loader);
    WritePiece(image, 1048576, volume[..]);
    assert forall k :: 0 <= k < 512 ==> image[k] == record[..][k];
    assert image[..512] == record[..];
    assert image[1048576..] == volume[..];
  }

  /** The image, when the boot record is one sector with an empty table, the loader
      is no longer than what the boot record reads, and the files fit. */
  method BuildImage(stage1: seq<u8>, loader: seq<u8>, files: seq<FileSpec>) returns (ok: bool, image: array<u8>)
    requires forall i :: 0 <= i < |files| ==> |files[i].name| == 11
    ensures ok <==> |stage1| == 512 && TableFree(stage1) && SectorsFor(|loader|) <= 256 && Fits(files)
    ensures ok ==> ImageHolds(image[..], stage1, loader, files)
  {
    hide Holds, RecordWritten, TableFree, Fits;
    image := new u8[0];
    if |stage1| != 512 {
      return false, image;
    }
    var empty := TableIsFree(stage1);
    if !empty || SectorsFor(|loader|) > 256 {
      return false, image;
    }
    var record := new u8[512](k requires 0 <= k < 512 => stage1[k]);
    assert record[..] == stage1;
    WritePartitionEntry(record);
    var volume;
    ok, volume := BuildFat32(files);
    if ok {
      image := Assemble(record, loader, volume);
    }
  }

  /** A disk with such an image, and a device on it. */
  ghost predicate OnDisk(device: BlockDevice, image: seq<u8>) {
    && device.Valid() && device.parent == null && device.sectorBytes == 512
    && device.disk.content == image && device.disk.Reliable()
    && (device.sectorCount == 0 || 6144 <= device.sectorCount)
  }

  /** Its boot record names one partition. */
  lemma TableIsRead(sector: seq<u8>, stage1: seq<u8>, deviceSectors: u64)
    requires |sector| == 512 == |stage1| && RecordWritten(sector, stage1) && TableFree(stage1)
    requires deviceSectors == 0 || 6144 <= deviceSectors
    ensures KeptAmong(sector, deviceSectors, 4) == [PartitionWritten()] && !SaysGpt(sector)
    ensures U16At(sector, 510) == U16At(stage1, 510)
  {
    hide U32At, U16At;
    var p := PartitionWritten();
    EntryIsRead(sector, stage1);
    assert Kept(p, deviceSectors);
    assert EntryOf(sector, 1).kind == 0 && EntryOf(sector, 2).kind == 0 && EntryOf(sector, 3).kind == 0;
    assert KeptAmong(sector, deviceSectors, 0) == [];
    assert KeptAmong(sector, deviceSectors, 1) == [p];
    assert KeptAmong(sector, deviceSectors, 2) == [p];
    assert KeptAmong(sector, deviceSectors, 3) == [p];
    SameEnd(sector, stage1);
  }

  lemma SameEnd(a: seq<u8>, b: seq<u8>)
    requires |a| == 512 == |b| && a[510] == b[510] && a[511] == b[511]
    ensures U16At(a, 510) == U16At(b, 510)
  {
  }

  /** Through the partition the volume is all there is. */
  lemma WindowCarries(window: BlockDevice, device: BlockDevice, image: seq<u8>)
    requires OnDisk(device, image) && |image| == 3145728
    requires window.Valid() && IsWindow(window, device, PartitionWritten())
    ensures Carries(window, image[1048576..])
  {
    var v := image[1048576..];
    forall k | 0 <= k < |v|
      ensures window.Byte(k) == Some(v[k])
    {
      assert device.Byte(1048576 + k) == Some(image[1048576 + k]);
    }
  }

  /** From the disk to the bytes of a file: the table is read, the partition opened,
      the volume mounted, the file found and read. */
  method ReadFromImage(
    device: BlockDevice, ghost stage1: seq<u8>, ghost loader: seq<u8>, ghost files: seq<FileSpec>,
    path: seq<u8>, offset: u64, length: nat)
    returns (ok: bool, out: array<u8>)
    requires |stage1| == 512 && TableFree(stage1) && U16At(stage1, 510) == 0xAA55
    requires OnDisk(device, device.disk.content) && ImageHolds(device.disk.content, stage1, loader, files)
    requires ValidNames(files) && OneName(path)
    modifies device.disk`served, device.disk`touched
    ensures var found := FirstMatch(files, NameIn(path), 0);
      && (ok <==> found.Some? && (length > 0 ==> offset + length <= |files[found.value].contents|))
      && (ok && length > 0 ==> out[..] == files[found.value].contents[offset..offset + length])
  {
    hide Holds, RecordWritten, U16At, TableFree, KeptAmong, FirstMatch, OneName, NameIn, ValidNames, Carries;
    ghost var image := device.disk.content;
    var sector := new u8[512](_ => 0);
    FirstSectorIsThere(device, image);
    ok := device.Read(0, 1, sector, 0);
    assert sector[..] == image[..512] by {
      FirstSectorWas(device, image, sector);
    }
    var table := new PartitionTable();
    TableIsRead(image[..512], stage1, device.sectorCount);
    var parsed := table.ParseMbr(sector[..], device.sectorCount);
    assert table.Contents()[0] == PartitionWritten();
    var window := OpenPartition(device, table.entries[0]);
    WindowCarries(window, device, image);
    ok, out := ReadBack(window, image[1048576..], files, path, offset, length);
  }

  lemma FirstSectorIsThere(device: BlockDevice, image: seq<u8>)
    requires OnDisk(device, image) && |image| == 3145728
    ensures device.Readable(device.Span(0), device.Span(1)) && device.WithinDevice(0, 1) && device.Span(1) == 512
  {
  }

  lemma FirstSectorWas(device: BlockDevice, image: seq<u8>, sector: array<u8>)
    requires OnDisk(device, image) && |image| == 3145728 && sector.Length == 512
    requires device.HoldsAt(sector, 0, device.Span(0), device.Span(1))
    ensures sector[..] == image[..512]
  {
    forall k | 0 <= k < 512
      ensures sector[k] == image[k]
    {
      assert device.Byte(device.Span(0) + (k - 0)) == Some(sector[k]);
    }
  }
}
