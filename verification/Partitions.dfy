/** MBR partition tables, and partitions as devices (src/block/partition.c). */
module Partitions {
  import opened Words
  import opened BlockDevices

  const PARTITION_MAX := 16
  const MBR_ENTRY_COUNT := 4
  const TYPE_EMPTY: u8 := 0x00
  const TYPE_GPT_PROTECTIVE: u8 := 0xEE

  datatype Partition = Partition(startLba: u64, sectorCount: u64, kind: u8, active: bool)

  /** A partition that may be believed: not empty, and not past the end of the disk. */
  predicate Believable(p: Partition, deviceSectors: u64) {
    && p.sectorCount != 0
    && p.startLba + p.sectorCount < U64_LIMIT
    && (deviceSectors != 0 ==> p.startLba + p.sectorCount <= deviceSectors)
  }

  /** What the `i`-th entry of a boot record says. */
  function EntryOf(sector: seq<u8>, i: nat): Partition
    requires |sector| == 512 && i < 4
  {
    var at := 446 + 16 * i;
    Partition(U32At(sector, at + 8), U32At(sector, at + 12), sector[at + 4], sector[at] / 0x80 % 2 == 1)
  }

  predicate Kept(p: Partition, deviceSectors: u64) {
    p.kind != TYPE_EMPTY && Believable(p, deviceSectors)
  }

  /** The entries worth keeping among the first `n`, in order. */
  function KeptAmong(sector: seq<u8>, deviceSectors: u64, n: nat): (kept: seq<Partition>)
    requires |sector| == 512 && n <= 4
    ensures |kept| <= n
    ensures forall p :: p in kept <==> exists i :: 0 <= i < n && p == EntryOf(sector, i) && Kept(p, deviceSectors)
  {
    if n == 0 then []
    else
      var p := EntryOf(sector, n - 1);
      KeptAmong(sector, deviceSectors, n - 1) + (if Kept(p, deviceSectors) then [p] else [])
  }

  ghost predicate SaysGpt(sector: seq<u8>)
    requires |sector| == 512
  {
    exists i :: 0 <= i < 4 && EntryOf(sector, i).kind == TYPE_GPT_PROTECTIVE
  }

  class PartitionTable {
    const entries: array<Partition>
    var count: nat
    var gpt: bool

    constructor ()
      ensures Valid() && Contents() == [] && fresh(entries)
    {
      entries := new Partition[16](_ => Partition(0, 0, 0, false));
      count, gpt := 0, false;
    }

    ghost predicate Valid()
      reads this
    {
      entries.Length == PARTITION_MAX && count <= PARTITION_MAX
    }

    ghost function Contents(): seq<Partition>
      requires Valid()
      reads this, entries
    {
      entries[..count]
    }

    /** An impossible partition is skipped, and so is one there is no room for. */
    method AddEntry(p: Partition, deviceSectors: u64) returns (added: bool)
      requires Valid()
      modifies this`count, entries
      ensures Valid()
      ensures added <==> Believable(p, deviceSectors) && |old(Contents())| < PARTITION_MAX
      ensures Contents() == old(Contents()) + (if added then [p] else [])
    {
      if p.sectorCount == 0 || p.startLba + p.sectorCount >= U64_LIMIT {
        return false;
      }
      if deviceSectors != 0 && p.startLba + p.sectorCount > deviceSectors {
        return false;
      }
      if count == PARTITION_MAX {
        return false;
      }
      entries[count] := p;
      count := count + 1;
      return true;
    }

    /** The table of a boot record: every entry that can be believed, in order,
        unless one of the four says that the real table is a GPT. */
    method ParseMbr(sector: seq<u8>, deviceSectors: u64) returns (ok: bool)
      requires Valid() && |sector| == 512
      modifies this, entries
      ensures Valid()
      ensures ok <==> U16At(sector, 510) == 0xAA55
      ensures gpt <==> ok && SaysGpt(sector)
      ensures Contents() == if ok && !gpt then KeptAmong(sector, deviceSectors, 4) else []
    {
      hide EntryOf;
      count, gpt := 0, false;
      if U16At(sector, 510) != 0xAA55 {
        return false;
      }
      for index := 0 to MBR_ENTRY_COUNT
        invariant Valid() && !gpt && Contents() == KeptAmong(sector, deviceSectors, index)
        invariant forall i :: 0 <= i < index ==> EntryOf(sector, i).kind != TYPE_GPT_PROTECTIVE
      {
        var p := EntryOf(sector, index);
        if p.kind == TYPE_EMPTY {
          continue;
        }
        if p.kind == TYPE_GPT_PROTECTIVE {
          gpt, count := true, 0;
          return true;
        }
        var added := AddEntry(p, deviceSectors);
      }
      return true;
    }
  }

  ghost predicate IsWindow(window: BlockDevice, device: BlockDevice, p: Partition) {
    && window.parent == device && window.disk == device.disk && window.sectorBytes == device.sectorBytes
    && window.startLba == p.startLba && window.sectorCount == p.sectorCount
  }

  /** A device confined to one partition, if the partition lies on the device. */
  method OpenPartition(device: BlockDevice, p: Partition) returns (window: BlockDevice?)
    requires device.Valid()
    ensures window != null <==> Believable(p, device.sectorCount)
    ensures window != null ==> fresh(window) && fresh(window.bounce) && window.Valid() && IsWindow(window, device, p)
  {
    if p.sectorCount == 0 || p.startLba + p.sectorCount >= U64_LIMIT {
      return null;
    }
    if device.sectorCount != 0 && p.startLba + p.sectorCount > device.sectorCount {
      return null;
    }
    window := new BlockDevice.Window(device, p.startLba, p.sectorCount);
  }

  /** What has been read of a partition is a slice of its device, a fixed distance
      further on, and never past the end of the partition. */
  lemma PartitionReadsSlice(window: BlockDevice, out: array<u8>, at: nat, offset: nat, length: nat)
    requires window.Valid() && window.parent != null && at + length <= out.Length
    requires length > 0 && window.HoldsAt(out, at, offset, length)
    ensures offset + length <= window.Span(window.sectorCount)
    ensures window.parent.HoldsAt(out, at, window.Span(window.startLba) + offset, length)
  {
    var last := at + length - 1;
    assert window.Byte(offset + (last - at)) == Some(out[last]);
    forall k | at <= k < at + length
      ensures window.parent.Byte(window.Span(window.startLba) + offset + (k - at)) == Some(out[k])
    {
      assert window.Byte(offset + (k - at)) == Some(out[k]);
    }
  }
}
