/** Block devices: sectors from a backend, byte ranges from sectors, and windows
    onto a device (src/block/block.c, src/block/partition.c). */
module BlockDevices {
  import opened Words

  const SECTOR_BYTES_DEFAULT := 512
  const MAX_SECTORS_PER_READ := 64

  /** The hardware behind a device. Its contents do not change, and any one of its
      reads may fail; `faults` says which. */
  class Disk {
    const content: seq<u8>
    const faults: nat -> bool
    var served: nat
    /** The sectors asked for so far. */
    ghost var touched: set<int>

    constructor (content: seq<u8>, faults: nat -> bool)
      ensures this.content == content && this.faults == faults && touched == {}
    {
      this.content, this.faults := content, faults;
      served, touched := 0, {};
    }

    /** No read fails but those that leave the disk. */
    ghost predicate Reliable() {
      forall n :: !faults(n)
    }

    /** Whole sectors. A read of one sector that fails leaves the buffer alone; a
        longer one may have filled part of it. */
    method Read(lba: nat, count: nat, sectorBytes: nat, out: array<u8>, at: nat) returns (ok: bool)
      requires at + count * sectorBytes <= out.Length
      modifies this`served, this`touched, out
      ensures ok ==> (lba + count) * sectorBytes <= |content|
      ensures ok ==> forall k :: at <= k < at + count * sectorBytes ==> out[k] == content[lba * sectorBytes + (k - at)]
      ensures Reliable() && (lba + count) * sectorBytes <= |content| ==> ok
      ensures forall k :: 0 <= k < out.Length && !(at <= k < at + count * sectorBytes) ==> out[k] == old(out[k])
      ensures !ok && count == 1 ==> out[..] == old(out[..])
      ensures touched == old(touched) + SectorsFrom(lba, count)
    {
      touched := touched + SectorsFrom(lba, count);
      served := served + 1;
      var offset, length := lba * sectorBytes, count * sectorBytes;
      assert (lba + count) * sectorBytes == offset + length;
      ok := offset + length <= |content| && !faults(served - 1);
      if !ok && count == 1 {
        return;
      }
      for i := 0 to length
        invariant touched == old(touched) + SectorsFrom(lba, count)
        invariant ok ==> forall k :: at <= k < at + i ==> out[k] == content[offset + (k - at)]
        invariant forall k :: 0 <= k < out.Length && !(at <= k < at + length) ==> out[k] == old(out[k])
      {
        if ok {
          out[at + i] := content[offset + i];
        } else {
          out[at + i] := *;
        }
      }
    }
  }

  /** The sectors from `lba` on, `count` of them. */
  ghost function SectorsFrom(lba: int, count: int): set<int> {
    set s | lba <= s < lba + count && InSectors(lba, s, count)
  }

  ghost predicate InSectors(lba: int, s: int, count: int) { lba <= s < lba + count }

  lemma Distribute(a: int, b: int, c: int)
    ensures (a + b) * c == a * c + b * c
  {
  }

  lemma ScaleOrder(a: int, b: int, c: int)
    requires c > 0
    ensures a <= b <==> a * c <= b * c
  {
    if a <= b {
      ScaleMonotone(c, a, b);
    } else {
      ScaleStrict(c, b, a);
    }
    assert a * c == c * a && b * c == c * b;
  }

  /** Either a whole disk, or a window onto another device. */
  class BlockDevice {
    const disk: Disk
    const parent: BlockDevice?
    const startLba: nat
    const sectorBytes: nat
    /** Zero when the backing service will not say. */
    const sectorCount: u64
    const bounce: array<u8>
    ghost const depth: nat

    constructor Whole(disk: Disk, sectorBytes: nat, sectorCount: u64)
      requires 0 < sectorBytes <= SECTOR_BYTES_DEFAULT
      ensures Valid() && parent == null && this.disk == disk && fresh(bounce)
      ensures this.sectorBytes == sectorBytes && this.sectorCount == sectorCount
    {
      this.disk, parent, startLba := disk, null, 0;
      this.sectorBytes, this.sectorCount := sectorBytes, sectorCount;
      bounce := new u8[SECTOR_BYTES_DEFAULT](_ => 0);
      depth := 0;
    }

    /** partition_open, once it has checked its arguments. */
    constructor Window(parent: BlockDevice, startLba: u64, sectorCount: u64)
      requires parent.Valid() && sectorCount > 0 && startLba + sectorCount < U64_LIMIT
      ensures Valid() && this.parent == parent && disk == parent.disk && fresh(bounce)
      ensures this.startLba == startLba && this.sectorCount == sectorCount
      ensures sectorBytes == parent.sectorBytes
    {
      disk, this.parent, this.startLba := parent.disk, parent, startLba;
      sectorBytes, this.sectorCount := parent.sectorBytes, sectorCount;
      bounce := new u8[SECTOR_BYTES_DEFAULT](_ => 0);
      depth := parent.depth + 1;
    }

    ghost predicate Valid()
      decreases depth
    {
      && 0 < sectorBytes <= SECTOR_BYTES_DEFAULT
      && bounce.Length == SECTOR_BYTES_DEFAULT
      && (parent != null ==>
            && parent.depth < depth && parent.Valid() && parent.disk == disk
            && parent.sectorBytes == sectorBytes && sectorCount > 0
            && startLba + sectorCount < U64_LIMIT)
    }

    /** Where the device begins on its disk, in sectors. */
    ghost function Origin(): nat
      requires Valid()
      decreases depth
    {
      if parent == null then 0 else parent.Origin() + startLba
    }

    /** What is stored at an offset, if the device reaches that far. */
    ghost function Byte(offset: int): Option<u8>
      requires Valid()
      decreases depth
    {
      if parent == null then
        if 0 <= offset < |disk.content| then Some(disk.content[offset]) else None
      else
        if 0 <= offset < sectorCount * sectorBytes then parent.Byte(startLba * sectorBytes + offset) else None
    }

    ghost predicate Readable(offset: int, length: int)
      requires Valid()
    {
      forall o :: offset <= o < offset + length ==> Byte(o).Some?
    }

    /** Sectors in bytes. */
    function Span(sectors: int): int { sectors * sectorBytes }

    lemma SpanSum(a: int, b: int)
      ensures Span(a + b) == Span(a) + Span(b)
    {
      Distribute(a, b, sectorBytes);
    }

    lemma SpanOrder(a: int, b: int)
      requires Valid()
      ensures a <= b <==> Span(a) <= Span(b)
      ensures Span(0) == 0
    {
      ScaleOrder(a, b, sectorBytes);
    }

    /** A window reads as its parent does further on, and nothing past its end. */
    lemma WindowReadable(lba: nat, count: nat)
      requires Valid() && parent != null && count > 0
      ensures Readable(lba * sectorBytes, count * sectorBytes) <==>
        lba + count <= sectorCount && parent.Readable((startLba + lba) * sectorBytes, count * sectorBytes)
    {
      var sb := sectorBytes;
      Distribute(startLba, lba, sb);
      Distribute(lba, count, sb);
      ScaleOrder(lba + count, sectorCount, sb);
      ScaleOrder(0, lba, sb);
      ScaleOrder(1, count, sb);
      if lba + count > sectorCount {
        var last := (lba + count) * sb - 1;
        assert Byte(last) == None;
      } else {
        forall o | lba * sb <= o < lba * sb + count * sb
          ensures Byte(o) == parent.Byte(startLba * sb + o)
        {
        }
        if Readable(lba * sb, count * sb) {
          forall o | (startLba + lba) * sb <= o < (startLba + lba) * sb + count * sb
            ensures parent.Byte(o).Some?
          {
            assert Byte(o - startLba * sb).Some?;
          }
        }
      }
    }

    /** The backend call of a device: its own disk's, or partition_read_sectors,
        which checks the window and passes the request on. Callers must ask for 1
        to 64 sectors. */
    method ReadSectors(lba: nat, count: nat, out: array<u8>, at: nat) returns (ok: bool)
      requires Valid() && 1 <= count <= MAX_SECTORS_PER_READ && lba < U64_LIMIT
      requires at + Span(count) <= out.Length
      modifies disk`served, disk`touched, out
      ensures ok ==> forall k :: at <= k < at + Span(count) ==> Byte(Span(lba) + (k - at)) == Some(out[k])
      ensures disk.Reliable() ==> (ok <==> Readable(Span(lba), Span(count)))
      ensures forall k :: 0 <= k < out.Length && !(at <= k < at + Span(count)) ==> out[k] == old(out[k])
      ensures !ok && count == 1 ==> out[..] == old(out[..])
      ensures disk.touched <= old(disk.touched) + SectorsFrom(Origin() + lba, count)
      ensures parent != null ==> disk.touched <= old(disk.touched) + SectorsFrom(Origin(), sectorCount)
      decreases depth
    {
      if parent == null {
        ok := disk.Read(lba, count, sectorBytes, out, at);
        Distribute(lba, count, sectorBytes);
        ScaleOrder(1, count, sectorBytes);
        ScaleOrder(0, lba, sectorBytes);
        if !ok && Readable(Span(lba), Span(count)) {
          assert Byte(Span(lba) + Span(count) - 1).Some?;
        }
        return;
      }
      WindowReadable(lba, count);
      if lba + count >= U64_LIMIT || lba + count > sectorCount {
        return false;
      }
      if startLba + lba >= U64_LIMIT {
        return false;
      }
      ok := parent.ReadSectors(startLba + lba, count, out, at);
      if ok {
        forall k | at <= k < at + Span(count)
          ensures Byte(Span(lba) + (k - at)) == Some(out[k])
        {
          WindowByte(lba, count, k - at);
        }
      }
    }

    lemma WindowByte(lba: nat, count: nat, i: int)
      requires Valid() && parent != null && lba + count <= sectorCount
      requires 0 <= i < Span(count)
      ensures Byte(Span(lba) + i) == parent.Byte((startLba + lba) * sectorBytes + i)
    {
      Distribute(startLba, lba, sectorBytes);
      Distribute(lba, count, sectorBytes);
      ScaleOrder(lba + count, sectorCount, sectorBytes);
      ScaleOrder(0, lba, sectorBytes);
    }

    /** The byte of the device at an offset into a sector. */
    ghost predicate HoldsAt(out: array<u8>, at: int, offset: int, length: int)
      requires Valid() && 0 <= at && at + length <= out.Length
      reads out
    {
      forall k :: at <= k < at + length ==> Byte(offset + (k - at)) == Some(out[k])
    }

    /** What a read may do besides filling its part of the buffer. */
    twostate predicate Serves(out: array<u8>, at: int, length: int, first: int, sectors: int)
      requires Valid()
      reads disk, out
    {
      && (forall k :: 0 <= k < out.Length && !(at <= k < at + length) ==> out[k] == old(out[k]))
      && disk.touched <= old(disk.touched) + SectorsFrom(Origin() + first, sectors)
    }

    lemma PartReadable(offset: int, length: int, into: int, part: int)
      requires Valid() && Readable(offset, length) && 0 <= into && into + part <= length
      ensures Readable(offset + into, part)
    {
    }

    /** Whole sectors, in pieces the backend takes. */
    method ReadWhole(lba: nat, count: nat, out: array<u8>, at: nat) returns (ok: bool)
      requires Valid() && lba + count < U64_LIMIT && out != bounce
      requires at + Span(count) <= out.Length
      modifies disk`served, disk`touched, out
      ensures ok ==> HoldsAt(out, at, Span(lba), Span(count))
      ensures disk.Reliable() && Readable(Span(lba), Span(count)) ==> ok
      ensures Serves(out, at, Span(count), lba, count)
      ensures !ok && count == 1 ==> out[..] == old(out[..])
    {
      hide Span, Readable, Byte, Valid;
      SpanOrder(0, count);
      var done := 0;
      while done < count
        invariant 0 <= done <= count && 0 <= Span(done) <= Span(count)
        invariant HoldsAt(out, at, Span(lba), Span(done))
        invariant Serves(out, at, Span(count), lba, count)
        invariant done == 0 ==> out[..] == old(out[..])
      {
        var chunk := if count - done > MAX_SECTORS_PER_READ then MAX_SECTORS_PER_READ else count - done;
        SpanSum(lba, done);
        SpanSum(done, chunk);
        SpanOrder(done + chunk, count);
        SpanOrder(0, chunk);
        if Readable(Span(lba), Span(count)) {
          PartReadable(Span(lba), Span(count), Span(done), Span(chunk));
        }
        var got := ReadSectors(lba + done, chunk, out, at + Span(done));
        if !got {
          return false;
        }
        done := done + chunk;
      }
      return true;
    }

    /** Whether a request stays on the device, as far as the device will say. */
    predicate WithinDevice(lba: nat, count: nat) {
      lba + count < U64_LIMIT && (sectorCount == 0 || lba + count <= sectorCount)
    }

    method Read(lba: u64, count: u32, out: array<u8>, at: nat) returns (ok: bool)
      requires Valid() && out != bounce && at + Span(count) <= out.Length
      modifies disk`served, disk`touched, out
      ensures ok ==> count > 0 && WithinDevice(lba, count) && HoldsAt(out, at, Span(lba), Span(count))
      ensures disk.Reliable() && count > 0 && WithinDevice(lba, count) && Readable(Span(lba), Span(count)) ==> ok
      ensures Serves(out, at, Span(count), lba, count)
      ensures !WithinDevice(lba, count) ==> !ok && disk.touched == old(disk.touched) && out[..] == old(out[..])
      ensures !ok && count == 1 ==> out[..] == old(out[..])
    {
      hide Span, Readable, Byte, Valid;
      if count == 0 || !WithinDevice(lba, count) {
        return false;
      }
      ok := ReadWhole(lba, count, out, at);
    }

    /** Part of one sector, by way of the bounce buffer. */
    method ReadPartial(lba: nat, start: nat, length: nat, out: array<u8>, at: nat) returns (ok: bool)
      requires Valid() && out != bounce && lba < U64_LIMIT
      requires start + length <= Span(1) && at + length <= out.Length
      modifies disk`served, disk`touched, out, bounce
      ensures ok ==> HoldsAt(out, at, Span(lba) + start, length)
      ensures disk.Reliable() && Readable(Span(lba), Span(1)) ==> ok
      ensures Serves(out, at, length, lba, 1)
    {
      hide Readable, Byte;
      ok := ReadSectors(lba, 1, bounce, 0);
      if !ok {
        return;
      }
      for i := 0 to length
        invariant forall k :: at <= k < at + i ==> out[k] == bounce[start + (k - at)]
        invariant forall k :: 0 <= k < Span(1) ==> Byte(Span(lba) + (k - 0)) == Some(bounce[k])
        invariant forall k :: 0 <= k < out.Length && !(at <= k < at + length) ==> out[k] == old(out[k])
        invariant disk.touched <= old(disk.touched) + SectorsFrom(Origin() + lba, 1)
      {
        out[at + i] := bounce[start + i];
      }
      forall k | at <= k < at + length
        ensures Byte(Span(lba) + start + (k - at)) == Some(out[k])
      {
        assert Byte(Span(lba) + (start + (k - at) - 0)) == Some(bounce[start + (k - at)]);
        assert Span(lba) + (start + (k - at) - 0) == Span(lba) + start + (k - at);
      }
    }

    /** The sector an offset lies in. */
    function SectorOf(offset: int): int
      requires sectorBytes > 0
    {
      offset / sectorBytes
    }

    lemma SplitOffset(offset: nat)
      requires Valid()
      ensures var lba := SectorOf(offset);
        0 <= lba <= offset && Span(lba) <= offset < Span(lba) + Span(1) && Span(1) == sectorBytes
      ensures offset % sectorBytes == offset - Span(SectorOf(offset))
    {
      var lba := offset / sectorBytes;
      assert offset == sectorBytes * lba + offset % sectorBytes;
      if lba < 0 {
        ScaleMonotone(sectorBytes, lba, -1);
      } else if lba > 0 {
        ScaleMonotone(lba, 1, sectorBytes);
      }
    }

    /** The number of sectors a byte range touches. */
    function SectorsOf(offset: nat, length: nat): int
      requires sectorBytes > 0 && length > 0
    {
      SectorOf(offset + length - 1) - SectorOf(offset) + 1
    }

    /** A sector that begins inside a range is one of those the range touches. */
    lemma BeginsInside(offset: nat, length: nat, lba: nat)
      requires Valid() && length > 0 && Span(lba) < offset + length
      ensures lba <= SectorOf(offset + length - 1)
      ensures SectorOf(offset) <= SectorOf(offset + length - 1)
    {
      hide Span;
      var last := SectorOf(offset + length - 1);
      SplitOffset(offset + length - 1);
      SplitOffset(offset);
      SpanSum(last, 1);
      SpanOrder(last + 1, lba);
      SpanOrder(last + 1, SectorOf(offset));
    }

    /** The whole sectors at the front of what is left. */
    lemma WholeSectors(length: nat)
      requires Valid()
      ensures 0 <= length / sectorBytes && Span(length / sectorBytes) <= length < Span(length / sectorBytes) + Span(1)
    {
      SplitOffset(length);
    }

    /** Sectors that begin inside a range: they are readable if the range is, and
        they are among those it touches. */
    lemma PartSectors(offset: nat, length: nat, lba: nat, count: nat)
      requires Valid() && length > 0 && count > 0
      requires SectorOf(offset) <= lba && Span(lba + count - 1) < offset + length
      ensures Readable(Span(SectorOf(offset)), Span(SectorsOf(offset, length))) ==> Readable(Span(lba), Span(count))
      ensures SectorsFrom(Origin() + lba, count) <= SectorsFrom(Origin() + SectorOf(offset), SectorsOf(offset, length))
    {
      hide Span, Readable, SectorOf;
      var first, n := SectorOf(offset), SectorsOf(offset, length);
      BeginsInside(offset, length, lba + count - 1);
      if Readable(Span(first), Span(n)) {
        SpanSum(first, lba - first);
        SpanSum(lba - first, count);
        SpanOrder(lba - first + count, n);
        SpanOrder(0, lba - first);
        PartReadable(Span(first), Span(n), Span(lba - first), Span(count));
      }
    }

    /** From a sector boundary on: whole sectors straight to the caller, and the
        start of one more. */
    method ReadAligned(offset: nat, lba: nat, length: nat, out: array<u8>, at: nat) returns (ok: bool)
      requires Valid() && out != bounce && at + length <= out.Length
      requires length > 0 && Span(lba) + length < U64_LIMIT && offset <= Span(lba) && SectorOf(offset) <= lba
      modifies disk`served, disk`touched, out, bounce
      ensures ok ==> HoldsAt(out, at, Span(lba), length)
      ensures var sectors := SectorsOf(offset, Span(lba) + length - offset);
        disk.Reliable() && Readable(Span(SectorOf(offset)), Span(sectors)) ==> ok
      ensures Serves(out, at, length, SectorOf(offset), SectorsOf(offset, Span(lba) + length - offset))
    {
      hide Span, Readable, Byte, SectorOf, SectorsFrom, Origin, SectorsOf;
      var whole := length / sectorBytes;
      WholeSectors(length);
      SpanSum(lba, whole);
      LbaFits(lba + whole);
      var rest := length - Span(whole);
      if whole > 0 {
        SpanSum(lba + whole - 1, 1);
        SpanOrder(1, whole);
        PartSectors(offset, Span(lba) + length - offset, lba, whole);
        ok := ReadWhole(lba, whole, out, at);
        if !ok {
          return;
        }
      } else {
        SpanOrder(0, 0);
      }
      if rest > 0 {
        PartSectors(offset, Span(lba) + length - offset, lba + whole, 1);
        ok := ReadPartial(lba + whole, 0, rest, out, at + Span(whole));
        return;
      }
      return true;
    }

    lemma LbaFits(lba: nat)
      requires Valid() && Span(lba) < U64_LIMIT
      ensures lba < U64_LIMIT
    {
      if lba > 0 {
        ScaleMonotone(lba, 1, sectorBytes);
      }
    }

    method ReadPieces(offset: u64, length: nat, out: array<u8>, at: nat) returns (ok: bool)
      requires Valid() && out != bounce && at + length <= out.Length
      requires length > 0 && offset + length < U64_LIMIT
      modifies disk`served, disk`touched, out, bounce
      ensures ok ==> HoldsAt(out, at, offset, length)
      ensures disk.Reliable() && Readable(Span(SectorOf(offset)), Span(SectorsOf(offset, length))) ==> ok
      ensures Serves(out, at, length, SectorOf(offset), SectorsOf(offset, length))
    {
      hide Span, Readable, Byte, SectorOf, SectorsFrom, Origin, SectorsOf;
      SplitOffset(offset);
      var lba := SectorOf(offset);
      var into := offset % sectorBytes;
      if into == 0 {
        ok := ReadAligned(offset, lba, length, out, at);
        return;
      }
      var available := sectorBytes - into;
      var take := if available < length then available else length;
      PartSectors(offset, length, lba, 1);
      SpanSum(lba, 1);
      ok := ReadPartial(lba, into, take, out, at);
      if ok && take < length {
        ok := ReadAligned(offset, lba + 1, length - take, out, at + take);
      }
    }

    /** The last sector a range touches is on the device when the range is. */
    lemma LastSector(offset: nat, length: nat)
      requires Valid() && length > 0
      ensures SectorOf(offset + length - 1) < sectorCount <==> offset + length <= Span(sectorCount)
    {
      hide Span;
      SplitOffset(offset + length - 1);
      var last := SectorOf(offset + length - 1);
      SpanSum(last, 1);
      SpanOrder(last + 1, sectorCount);
      SpanOrder(sectorCount, last);
    }

    lemma RangeFits(offset: nat, length: nat)
      requires Valid() && length > 0 && RangeReadable(offset, length)
      ensures offset + length < U64_LIMIT
      ensures sectorCount != 0 ==> offset + length <= Span(sectorCount)
      ensures Readable(Span(SectorOf(offset)), Span(SectorsOf(offset, length)))
    {
    }

    /** Whether a byte range stays on the device, as far as the device will say. */
    predicate FitsDevice(offset: nat, length: nat) {
      offset + length < U64_LIMIT && (sectorCount == 0 || offset + length <= Span(sectorCount))
    }

    /** A range that stays on a device touches only sectors of the device. */
    lemma SectorsFit(offset: nat, length: nat)
      requires Valid() && length > 0 && FitsDevice(offset, length) && sectorCount != 0
      ensures 0 <= SectorOf(offset) && SectorOf(offset) + SectorsOf(offset, length) <= sectorCount
      ensures SectorsFrom(Origin() + SectorOf(offset), SectorsOf(offset, length)) <= SectorsFrom(Origin(), sectorCount)
    {
      hide Span, SectorOf;
      SplitOffset(offset);
      LastSector(offset, length);
    }

    /** An arbitrary byte range: the end of a sector, whole sectors, and the start
        of one. The bytes are those of the device, and only the sectors the range
        touches are asked for; none are for a range that leaves the device. */
    method ReadBytes(offset: u64, length: nat, out: array<u8>, at: nat) returns (ok: bool)
      requires Valid() && out != bounce && at + length <= out.Length
      modifies disk`served, disk`touched, out, bounce
      ensures ok ==> HoldsAt(out, at, offset, length)
      ensures ok && length > 0 ==> offset + length < U64_LIMIT
      ensures ok && length > 0 && sectorCount != 0 ==> offset + length <= Span(sectorCount)
      ensures disk.Reliable() && (length > 0 ==> RangeReadable(offset, length)) ==> ok
      ensures length == 0 ==> out[..] == old(out[..]) && disk.touched == old(disk.touched)
      ensures length > 0 ==> Serves(out, at, length, SectorOf(offset), SectorsOf(offset, length))
      ensures length > 0 && !FitsDevice(offset, length) ==>
        !ok && disk.touched == old(disk.touched) && out[..] == old(out[..])
    {
      hide Span, Readable, Byte, RangeReadable;
      if length == 0 {
        return true;
      }
      if RangeReadable(offset, length) {
        RangeFits(offset, length);
      }
      if offset + length >= U64_LIMIT {
        return false;
      }
      if sectorCount != 0 {
        var last := SectorOf(offset + length - 1);
        LastSector(offset, length);
        if last >= sectorCount {
          return false;
        }
      }
      ok := ReadPieces(offset, length, out, at);
    }

    /** What must be there for a byte range to be read: room for it, and all of
        the sectors it touches. */
    ghost predicate RangeReadable(offset: nat, length: nat)
      requires Valid() && length > 0
    {
      && offset + length < U64_LIMIT
      && (sectorCount != 0 ==> offset + length <= Span(sectorCount))
      && Readable(Span(SectorOf(offset)), Span(SectorsOf(offset, length)))
    }
  }

  /** Four bytes of a device as a number. */
  ghost function Word32(d: BlockDevice, offset: int): Option<u32>
    requires d.Valid()
  {
    if d.Byte(offset).Some? && d.Byte(offset + 1).Some? && d.Byte(offset + 2).Some? && d.Byte(offset + 3).Some? then
      Some(U32At([d.Byte(offset).value, d.Byte(offset + 1).value, d.Byte(offset + 2).value, d.Byte(offset + 3).value],
        0))
    else None
  }
}
