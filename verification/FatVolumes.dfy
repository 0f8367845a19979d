/** Reading a FAT32 volume (src/fs/fat.c): mounting, the one-sector FAT cache, and
    walks along cluster chains that may resume where the last one got to. */
module FatVolumes {
  import opened Words
  import opened BlockDevices
  import opened FatLayout

  /** Where a walk of a chain got to. */
  datatype Walk = NoWalk | Reached(offset: nat, cluster: u32)

  ghost function BootSector(d: BlockDevice): seq<u8>
    requires d.Valid() && d.Readable(0, 512)
  {
    seq(512, i requires 0 <= i < 512 => d.Byte(i).value)
  }

  /** The sectors a volume is made of: the boot sector, the FAT, and the clusters. */
  ghost function VolumeSectors(d: BlockDevice, g: Geometry): set<int>
    requires d.Valid()
  {
    SectorsFrom(d.Origin(), 1) +
    SectorsFrom(d.Origin() + g.fatStart, g.sectorsPerFat) +
    SectorsFrom(d.Origin() + g.dataStart, g.DataEnd() - g.dataStart)
  }

  /** The four bytes of a link, in the sector that holds them. */
  lemma LinkInSector(d: BlockDevice, g: Geometry, cluster: u32)
    requires Usable(d) && g.Sound() && g.InRange(cluster)
    requires 4 * cluster + 4 <= g.sectorsPerFat * 512
    ensures var absolute := g.fatStart * 512 + 4 * cluster;
      && g.fatStart <= absolute / 512 < g.fatStart + g.sectorsPerFat
      && absolute % 512 + 4 <= 512 && absolute == absolute / 512 * 512 + absolute % 512
  {
    var sector, within := 4 * cluster / 512, 4 * cluster % 512;
    DivisionIs(4 * cluster, 4, cluster, 0);
    DivisionIs(4 * cluster, 4, sector * 128 + within / 4, within % 4);
    DivisionIs(g.fatStart * 512 + 4 * cluster, 512, g.fatStart + sector, within);
  }

  lemma SectorIsReadable(d: BlockDevice, g: Geometry, sector: nat)
    requires Usable(d) && g.Sound() && Complete(d, g) && sector < g.DataEnd()
    ensures d.disk.Reliable() && d.Readable(d.Span(sector), d.Span(1)) && d.WithinDevice(sector, 1)
  {
    d.PartReadable(0, g.DataEnd() * 512, sector * 512, 512);
  }

  lemma SoundIsSmall(g: Geometry)
    requires g.Sound()
    ensures g.fatStart + g.sectorsPerFat <= g.dataStart <= g.DataEnd() < U32_LIMIT
    ensures g.clusterCount >= 1 && g.ClusterBytes() >= 512
  {
    ScaleMonotone(g.sectorsPerCluster, 0, g.clusterCount);
  }

  lemma FatSectorInVolume(d: BlockDevice, g: Geometry, sector: nat)
    requires d.Valid() && g.fatStart <= sector < g.fatStart + g.sectorsPerFat
    ensures SectorsFrom(d.Origin() + sector, 1) <= VolumeSectors(d, g)
  {
  }

  lemma SectorSpans(d: BlockDevice, sector: int)
    requires Usable(d)
    ensures d.Span(sector) == sector * 512 && d.Span(1) == 512
  {
  }

  // ----- positions in a chain -----

  function ClusterIndex(g: Geometry, position: nat): (index: int)
    requires g.Sound()
  {
    position / g.ClusterBytes()
  }

  function IntoCluster(g: Geometry, position: nat): (into: int)
    requires g.Sound()
  {
    position % g.ClusterBytes()
  }

  lemma PositionParts(g: Geometry, position: nat)
    requires g.Sound()
    ensures 0 <= ClusterIndex(g, position) && 0 <= IntoCluster(g, position) < g.ClusterBytes()
    ensures position == g.ClusterBytes() * ClusterIndex(g, position) + IntoCluster(g, position)
  {
    if ClusterIndex(g, position) < 0 {
      ScaleMonotone(g.ClusterBytes(), ClusterIndex(g, position), -1);
    }
  }

  /** Moving on inside a cluster, or to the start of the next one. */
  lemma PositionMoves(g: Geometry, position: nat, step: nat)
    requires g.Sound() && IntoCluster(g, position) + step <= g.ClusterBytes()
    ensures if IntoCluster(g, position) + step < g.ClusterBytes()
      then ClusterIndex(g, position + step) == ClusterIndex(g, position)
           && IntoCluster(g, position + step) == IntoCluster(g, position) + step
      else ClusterIndex(g, position + step) == ClusterIndex(g, position) + 1 && IntoCluster(g, position + step) == 0
  {
    var bytes, index, into := g.ClusterBytes(), ClusterIndex(g, position), IntoCluster(g, position);
    assert position == bytes * index + into;
    if into + step < bytes {
      DivisionIs(position + step, bytes, index, into + step);
    } else {
      assert bytes * (index + 1) == bytes * index + bytes;
      DivisionIs(position + step, bytes, index + 1, 0);
    }
  }

  lemma {:induction false} IndexMonotone(g: Geometry, a: nat, b: nat)
    requires g.Sound() && a <= b
    ensures ClusterIndex(g, a) <= ClusterIndex(g, b)
  {
    var bytes := g.ClusterBytes();
    if ClusterIndex(g, b) < ClusterIndex(g, a) {
      ScaleStrict(bytes, ClusterIndex(g, b), ClusterIndex(g, a));
    }
  }

  /** Bytes of one cluster: where they are, that they are there, and which sectors
      hold them. */
  lemma ClusterBytesArePlaced(d: BlockDevice, g: Geometry, cluster: int, into: nat, length: nat)
    requires Usable(d) && g.Sound() && g.InRange(cluster)
    requires length > 0 && into + length <= g.ClusterBytes()
    ensures 0 <= g.ClusterOffset(cluster) + into && g.ClusterOffset(cluster) + into + length < U64_LIMIT
    ensures Complete(d, g) ==> d.disk.Reliable() && d.RangeReadable(g.ClusterOffset(cluster) + into, length)
    ensures SectorsFrom(d.Origin() + d.SectorOf(g.ClusterOffset(cluster) + into),
      d.SectorsOf(g.ClusterOffset(cluster) + into, length))
      <= VolumeSectors(d, g)
  {
    ClustersArePlaced(g, cluster, cluster);
    SoundIsSmall(g);
    var offset := g.ClusterOffset(cluster) + into;
    var first, last := offset / 512, (offset + length - 1) / 512;
    assert g.dataStart * 512 <= offset && offset + length <= g.DataEnd() * 512;
    assert g.dataStart <= first <= last < g.DataEnd();
    assert d.SectorOf(offset) == first && d.SectorOf(offset + length - 1) == last;
    assert d.Span(first) == first * 512 && d.Span(last - first + 1) == (last - first + 1) * 512;
    if Complete(d, g) {
      d.PartReadable(0, g.DataEnd() * 512, first * 512, (last - first + 1) * 512);
      if d.sectorCount != 0 {
        assert d.Span(d.sectorCount) == d.sectorCount * 512;
      }
    }
    SectorsWithin(d.Origin(), first, last - first + 1, g.dataStart, g.DataEnd() - g.dataStart);
  }

  lemma SectorsWithin(origin: int, lba: int, count: int, first: int, n: int)
    requires first <= lba && lba + count <= first + n
    ensures SectorsFrom(origin + lba, count) <= SectorsFrom(origin + first, n)
  {
  }

  // ----- what a read of a chain comes to -----

  function ClusterIndexNat(g: Geometry, position: nat): (index: nat)
    requires g.Sound()
    ensures index == ClusterIndex(g, position)
  {
    PositionParts(g, position);
    ClusterIndex(g, position)
  }

  /** The cursor stands where following the links from the beginning would. */
  lemma StartAgrees(d: BlockDevice, g: Geometry, first: u32, walk: Walk, target: nat, cluster: u32)
    requires d.Valid() && WalkAgrees(d, g, first, walk)
    requires cluster == if walk.Reached? && walk.offset <= target then walk.cluster else first
    ensures Nth(d, g, first, StartOf(walk, target)) == Some(cluster)
    ensures Nth(d, g, cluster, target - StartOf(walk, target)) == Nth(d, g, first, target)
  {
    NthAdd(d, g, first, StartOf(walk, target), target - StartOf(walk, target));
  }

  lemma RestNeedsFirst(d: BlockDevice, g: Geometry, first: u32, offset: nat, length: nat)
    requires d.Valid() && g.Sound() && length > 0 && RestReadable(d, g, first, offset, length)
    ensures Nth(d, g, first, ClusterIndexNat(g, offset)).Some?
  {
    IndexMonotone(g, offset, offset + length - 1);
    NthBefore(d, g, first, ClusterIndexNat(g, offset), ClusterIndexNat(g, offset + length - 1));
  }

  /** As long as a read that can be done is not finished, the cluster it has come
      to is there. */
  lemma ClusterIsNeeded(d: BlockDevice, g: Geometry, first: u32, offset: nat, length: nat, walked: nat)
    requires d.Valid() && g.Sound() && length > 0 && RestReadable(d, g, first, offset, length)
    requires ClusterIndexNat(g, offset) + walked <= ClusterIndexNat(g, offset + length - 1)
    ensures Nth(d, g, first, ClusterIndexNat(g, offset) + walked).Some?
    ensures g.InRange(Nth(d, g, first, ClusterIndexNat(g, offset) + walked).value)
    ensures walked <= g.clusterCount
  {
    NthBefore(d, g, first, ClusterIndexNat(g, offset) + walked, ClusterIndexNat(g, offset + length - 1));
    NthInRange(d, g, first, ClusterIndexNat(g, offset) + walked);
  }

  /** `done` bytes into a read, in a cluster reached by `walked` links. A link may
      have led out of the volume; that is found out on using it. */
  ghost predicate AtCluster(
    d: BlockDevice, g: Geometry, first: u32, offset: nat, done: nat, walked: nat, into: int, cluster: u32)
    requires d.Valid() && g.Sound()
  {
    && into == IntoCluster(g, offset + done)
    && ClusterIndexNat(g, offset + done) == ClusterIndexNat(g, offset) + walked
    && Nth(d, g, first, ClusterIndexNat(g, offset) + walked) ==
         (if walked == 0 || g.InRange(cluster) then Some(cluster) else None)
  }

  lemma MovedOn(
    d: BlockDevice, g: Geometry, first: u32, offset: nat, done: nat, walked: nat, into: int, cluster: u32, next: u32)
    requires d.Valid() && g.Sound() && AtCluster(d, g, first, offset, done, walked, into, cluster)
    requires g.InRange(cluster) && Link(d, g, cluster) == Some(next) && !EndOfChain(next)
    ensures 0 <= into < g.ClusterBytes()
    ensures AtCluster(d, g, first, offset, done + (g.ClusterBytes() - into), walked + 1, 0, next)
  {
    hide Link, EndOfChain, ClusterIndex, IntoCluster;
    PositionParts(g, offset + done);
    PositionMoves(g, offset + done, g.ClusterBytes() - into);
    assert offset + done + (g.ClusterBytes() - into) == offset + (done + (g.ClusterBytes() - into));
  }

  lemma NeededHere(
    d: BlockDevice, g: Geometry, first: u32, offset: nat, length: nat, done: nat, walked: nat, into: int, cluster: u32)
    requires d.Valid() && g.Sound() && done < length && RestReadable(d, g, first, offset, length)
    requires AtCluster(d, g, first, offset, done, walked, into, cluster)
    ensures g.InRange(cluster) && walked <= g.clusterCount
  {
    hide Link, EndOfChain, ClusterIndex, IntoCluster, Nth;
    IndexMonotone(g, offset + done, offset + length - 1);
    ClusterIsNeeded(d, g, first, offset, length, walked);
  }

  lemma NeededNext(
    d: BlockDevice, g: Geometry, first: u32, offset: nat, length: nat, done: nat, walked: nat, into: int, cluster: u32)
    requires d.Valid() && g.Sound() && length > 0 && RestReadable(d, g, first, offset, length) && g.InRange(cluster)
    requires AtCluster(d, g, first, offset, done, walked, into, cluster)
    requires done + (g.ClusterBytes() - into) < length
    ensures Link(d, g, cluster).Some? && !EndOfChain(Link(d, g, cluster).value) && walked + 1 <= g.clusterCount
  {
    hide Link, EndOfChain, ClusterIndex, IntoCluster;
    PositionParts(g, offset + done);
    PositionMoves(g, offset + done, g.ClusterBytes() - into);
    assert offset + done + (g.ClusterBytes() - into) == offset + (done + (g.ClusterBytes() - into));
    IndexMonotone(g, offset + (done + (g.ClusterBytes() - into)), offset + length - 1);
    ClusterIsNeeded(d, g, first, offset, length, walked + 1);
  }

  /** A read that needs another link has not come to its last cluster. */
  lemma LinkIsNeeded(g: Geometry, offset: nat, length: nat, done: nat, into: int, take: nat)
    requires g.Sound() && into == IntoCluster(g, offset + done) && take == g.ClusterBytes() - into
    requires done + take < length
    ensures ClusterIndexNat(g, offset + done) + 1 <= ClusterIndexNat(g, offset + length - 1)
  {
    hide ClusterIndex, IntoCluster;
    PositionParts(g, offset + done);
    PositionMoves(g, offset + done, take);
    IndexMonotone(g, offset + done + take, offset + length - 1);
  }

  /** A read that is finished was one that could be done. */
  lemma LastCluster(
    d: BlockDevice, g: Geometry, first: u32, offset: nat, length: nat, walked: nat, take: nat, cluster: u32)
    requires d.Valid() && g.Sound() && 0 < take <= length && walked <= g.clusterCount && g.InRange(cluster)
    requires AtCluster(d, g, first, offset, length - take, walked, IntoCluster(g, offset + (length - take)), cluster)
    requires IntoCluster(g, offset + (length - take)) + take <= g.ClusterBytes()
    ensures RestReadable(d, g, first, offset, length)
  {
    hide ClusterIndex, IntoCluster, Nth;
    PositionMoves(g, offset + (length - take), take - 1);
    assert offset + (length - take) + (take - 1) == offset + length - 1;
    FirstInRange(d, g, first, ClusterIndexNat(g, offset) + walked);
  }

  lemma {:induction false} FirstInRange(d: BlockDevice, g: Geometry, first: u32, n: nat)
    requires d.Valid() && Nth(d, g, first, n).Some? && g.InRange(Nth(d, g, first, n).value)
    ensures g.InRange(first)
  {
    if n > 1 {
      NthInRange(d, g, first, n - 1);
      FirstInRange(d, g, first, n - 1);
    }
  }

  lemma PieceByte(d: BlockDevice, g: Geometry, first: u32, position: nat, cluster: u32, i: nat)
    requires d.Valid() && g.Sound() && g.InRange(cluster)
    requires IntoCluster(g, position) + i < g.ClusterBytes()
    requires Nth(d, g, first, ClusterIndexNat(g, position)) == Some(cluster)
    ensures ChainByte(d, g, first, position + i) == d.Byte(g.ClusterOffset(cluster) + IntoCluster(g, position) + i)
  {
    PositionMoves(g, position, i);
    hide Nth;
  }

  ghost predicate WalkAgrees(d: BlockDevice, g: Geometry, first: u32, walk: Walk)
    requires d.Valid()
  {
    walk.Reached? ==> Nth(d, g, first, walk.offset) == Some(walk.cluster)
  }

  /** Where a read starts following links: at the cursor, when that is not past
      the first cluster wanted, and otherwise at the beginning. */
  function StartOf(walk: Walk, target: nat): nat {
    if walk.Reached? && walk.offset <= target then walk.offset else 0
  }

  /** The clusters a read needs, once it has found the first of them. */
  ghost predicate RestReadable(d: BlockDevice, g: Geometry, first: u32, offset: nat, length: nat)
    requires d.Valid() && g.Sound() && length > 0
  {
    var from, last := ClusterIndexNat(g, offset), ClusterIndexNat(g, offset + length - 1);
    last - from <= g.clusterCount && Nth(d, g, first, last).Some? && g.InRange(first)
  }

  /** The condition, given a device that does not fail, for reading `length` bytes
      when links are followed from the `start`-th cluster on. */
  ghost predicate ChainReadable(d: BlockDevice, g: Geometry, first: u32, offset: nat, length: nat, start: nat)
    requires d.Valid() && g.Sound() && length > 0
  {
    ClusterIndexNat(g, offset) - start <= g.clusterCount && RestReadable(d, g, first, offset, length)
  }

  /** The links from the `start`-th cluster of a chain to the last one a read needs. */
  function LinksBetween(g: Geometry, start: nat, offset: nat, length: nat): int
    requires g.Sound() && length > 0
  {
    ClusterIndexNat(g, offset + length - 1) - start
  }

  /** If the read from the first cluster on would work, so does the resumed one. */
  lemma ResumingIsNoWorse(d: BlockDevice, g: Geometry, first: u32, offset: nat, length: nat, walk: Walk)
    requires d.Valid() && g.Sound() && length > 0
    requires ChainReadable(d, g, first, offset, length, 0)
    ensures ChainReadable(d, g, first, offset, length, StartOf(walk, ClusterIndexNat(g, offset)))
  {
  }

  lemma {:induction false} NthInRange(d: BlockDevice, g: Geometry, first: u32, n: nat)
    requires d.Valid() && Nth(d, g, first, n).Some? && (n == 0 ==> g.InRange(first))
    ensures g.InRange(Nth(d, g, first, n).value)
  {
  }

  class FatVolume {
    const device: BlockDevice
    var g: Geometry
    const fatSector: array<u8>
    var fatSectorIndex: nat
    var fatSectorValid: bool
    /** How many links have been followed, ever. */
    ghost var links: nat
    /** The sectors of the disk asked for before the volume was mounted. */
    ghost var baseline: set<int>

    constructor (device: BlockDevice)
      requires Usable(device)
      ensures this.device == device && fresh(fatSector) && fatSector.Length == 512
    {
      this.device := device;
      g := Geometry(0, 0, 0, 0, 0, 0);
      fatSector := new u8[512](_ => 0);
      fatSectorIndex, fatSectorValid, links, baseline := 0, false, 0, {};
    }

    /** Whatever FAT sector is cached is the one the disk has at that place. */
    ghost predicate CacheAgrees()
      requires device.Valid() && fatSector.Length == 512
      reads this, fatSector
    {
      fatSectorValid ==> forall k :: 0 <= k < 512 ==> device.Byte(fatSectorIndex * 512 + k) == Some(fatSector[k])
    }

    ghost predicate Valid()
      reads this, fatSector, device.disk
    {
      && Usable(device) && device.bounce != fatSector && fatSector.Length == 512
      && g.Sound() && CacheAgrees()
      && device.disk.touched <= baseline + VolumeSectors(device, g)
    }

    /** A volume is accepted exactly when its first sector can be read and says so. */
    method Mount() returns (ok: bool)
      requires Usable(device) && device.bounce != fatSector && fatSector.Length == 512
      modifies this, device.disk`served, device.disk`touched
      ensures ok ==> Valid() && baseline == old(device.disk.touched)
      ensures device.disk.touched <= old(device.disk.touched) + SectorsFrom(device.Origin(), 1)
      ensures ok ==>
        device.Readable(0, 512) && Mounted(BootFields(BootSector(device)), 512, device.sectorCount) == Some(g)
      ensures device.disk.Reliable() && device.Readable(0, 512) ==>
        (ok <==> Mounted(BootFields(BootSector(device)), 512, device.sectorCount).Some?)
    {
      hide BootFields, Mounted;
      baseline := device.disk.touched;
      var sector := new u8[512](_ => 0);
      var got := device.Read(0, 1, sector, 0);
      if !got {
        return false;
      }
      assert device.Span(1) == 512 && device.Span(0) == 0;
      forall o | 0 <= o < 512
        ensures device.Byte(o) == Some(sector[o])
      {
        assert device.Byte(0 + (o - 0)) == Some(sector[o]);
      }
      assert sector[..] == BootSector(device);
      var mounted := Mounted(BootFields(sector[..]), 512, device.sectorCount);
      fatSectorValid := false;
      if mounted.None? {
        return false;
      }
      MountedIsSound(BootFields(sector[..]), device.sectorCount);
      g := mounted.value;
      return true;
    }

    /** One link, by way of the cache: the number the disk holds, whatever has been
        read before. It is found whenever the FAT reaches that far and the device
        does not fail. The sector it is in stays cached, and nothing is read if it
        was already. */
    method NextCluster(cluster: u32) returns (ok: bool, next: u32)
      requires Valid()
      modifies this`fatSectorIndex, this`fatSectorValid, this`links, fatSector, device.disk`served, device.disk`touched
      ensures Valid() && links == old(links) + 1
      ensures ok ==> Link(device, g, cluster) == Some(next)
      ensures ok ==> fatSectorValid && fatSectorIndex == (g.fatStart * 512 + 4 * cluster) / 512
      ensures old(fatSectorValid && fatSectorIndex == (g.fatStart * 512 + 4 * cluster) / 512) ==>
        device.disk.served == old(device.disk.served)
      ensures Complete(device, g) && Link(device, g, cluster).Some? ==> ok
    {
      hide VolumeSectors, Complete;
      links := links + 1;
      ok, next := false, 0;
      if !g.InRange(cluster) {
        return;
      }
      if 4 * cluster + 4 > g.sectorsPerFat * 512 {
        return;
      }
      var absolute := g.fatStart * 512 + 4 * cluster;
      LinkInSector(device, g, cluster);
      var sector := absolute / 512;
      if !fatSectorValid || fatSectorIndex != sector {
        var got := ReadFatSector(sector);
        if !got {
          return;
        }
      }
      var raw := absolute % 512;
      var word := U32At(fatSector[..], raw);
      CachedWord(absolute);
      return true, Masked(word);
    }

    method ReadFatSector(sector: nat) returns (ok: bool)
      requires Valid() && g.fatStart <= sector < g.fatStart + g.sectorsPerFat
      modifies this`fatSectorIndex, this`fatSectorValid, fatSector, device.disk`served, device.disk`touched
      ensures Valid()
      ensures ok ==> fatSectorValid && fatSectorIndex == sector
      ensures Complete(device, g) ==> ok
    {
      hide SectorsFrom, VolumeSectors, Complete;
      hide BlockDevice.Span, BlockDevice.Byte, BlockDevice.Readable, BlockDevice.Origin;
      if Complete(device, g) {
        SectorIsReadable(device, g, sector);
      }
      SoundIsSmall(g);
      FatSectorInVolume(device, g, sector);
      SectorSpans(device, sector);
      ok := device.Read(sector, 1, fatSector, 0);
      if !ok {
        return;
      }
      fatSectorIndex := sector;
      fatSectorValid := true;
    }

    lemma CachedWord(absolute: nat)
      requires Valid() && fatSectorValid && fatSectorIndex == absolute / 512 && absolute % 512 + 4 <= 512
      ensures Word32(device, absolute) == Some(U32At(fatSector[..], absolute % 512))
    {
      var k := absolute % 512;
      assert absolute == fatSectorIndex * 512 + k;
      assert device.Byte(fatSectorIndex * 512 + k) == Some(fatSector[k]);
      assert device.Byte(fatSectorIndex * 512 + (k + 1)) == Some(fatSector[k + 1]);
      assert device.Byte(fatSectorIndex * 512 + (k + 2)) == Some(fatSector[k + 2]);
      assert device.Byte(fatSectorIndex * 512 + (k + 3)) == Some(fatSector[k + 3]);
    }

    /** Follows `count` links. It gives up after as many as there are clusters, so
        a chain that loops ends the walk. */
    method Advance(cluster: u32, count: nat) returns (ok: bool, reached: u32)
      requires Valid()
      modifies this`fatSectorIndex, this`fatSectorValid, this`links, fatSector, device.disk`served, device.disk`touched
      ensures Valid()
      ensures ok ==> count <= g.clusterCount && Nth(device, g, cluster, count) == Some(reached)
      ensures Complete(device, g) && count <= g.clusterCount && Nth(device, g, cluster, count).Some? ==> ok
      ensures links <= old(links) + count && links <= old(links) + g.clusterCount + 1
    {
      hide Geometry.Sound, Link, Complete, EndOfChain;
      SoundIsSmall(g);
      reached := cluster;
      var steps := 0;
      while steps < count
        invariant 0 <= steps <= count && steps <= g.clusterCount
        invariant Valid() && links == old(links) + steps
        invariant Nth(device, g, cluster, steps) == Some(reached)
      {
        if Nth(device, g, cluster, count).Some? {
          NthBefore(device, g, cluster, steps + 1, count);
        }
        var found, next := NextCluster(reached);
        if !found || EndOfChain(next) || !g.InRange(next) {
          return false, 0;
        }
        reached := next;
        steps := steps + 1;
        if steps > g.clusterCount {
          return false, 0;
        }
      }
      return true, reached;
    }

    /** The bytes of `out` from `at` on are those of the chain from `offset` on. */
    ghost predicate HoldsChain(first: u32, offset: nat, length: nat, out: array<u8>, at: nat)
      requires Valid() && at + length <= out.Length
      reads this, fatSector, device.disk, out
    {
      forall k {:trigger out[k]} :: at <= k < at + length ==>
        ChainByte(device, g, first, offset + (k - at)) == Some(out[k])
    }

    /** Bytes from a cluster chain. A walk that is at or before the first cluster
        wanted is carried on from there. Whatever the disk holds, what is read is
        what the links define; on a device that does not fail it is read exactly
        when the chain goes that far within the bounds on links. */
    method ReadChain(first: u32, offset: nat, length: nat, out: array<u8>, at: nat, walk: Walk)
      returns (ok: bool, walk': Walk)
      requires Valid() && WalkAgrees(device, g, first, walk)
      requires out != fatSector && out != device.bounce && at + length <= out.Length
      modifies this`fatSectorIndex, this`fatSectorValid, this`links, fatSector, out
      modifies device.disk`served, device.disk`touched, device.bounce
      ensures Valid() && WalkAgrees(device, g, first, walk')
      ensures ok ==> HoldsChain(first, offset, length, out, at)
      ensures Complete(device, g) && length > 0 ==>
        (ok <==> ChainReadable(device, g, first, offset, length, StartOf(walk, ClusterIndexNat(g, offset))))
      ensures forall k :: 0 <= k < out.Length && !(at <= k < at + length) ==> out[k] == old(out[k])
      ensures ok && length > 0 ==> walk'.Reached? && walk'.offset == ClusterIndexNat(g, offset)
      ensures links <= old(links) + 2 * (g.clusterCount + 1)
      ensures length > 0 ==>
        links <= old(links) + LinksBetween(g, StartOf(walk, ClusterIndexNat(g, offset)), offset, length)
    {
      hide Geometry.Sound, Link, Complete, Nth, RestReadable, VolumeSectors, ClusterIndex;
      SoundIsSmall(g);
      walk' := walk;
      if length == 0 {
        return true, walk;
      }
      IndexMonotone(g, offset, offset + length - 1);
      var target := ClusterIndexNat(g, offset);
      var start := StartOf(walk, target);
      var cluster := if walk.Reached? && walk.offset <= target then walk.cluster else first;
      StartAgrees(device, g, first, walk, target, cluster);
      if RestReadable(device, g, first, offset, length) {
        RestNeedsFirst(device, g, first, offset, length);
      }
      var reached;
      ok, reached := Advance(cluster, target - start);
      if !ok {
        return;
      }
      walk' := Reached(target, reached);
      ok := ReadFrom(first, reached, offset, length, out, at);
    }

    /** The bytes wanted from one cluster. */
    method ReadPiece(first: u32, cluster: u32, offset: nat, done: nat, into: nat, take: nat, out: array<u8>, at: nat)
      returns (ok: bool)
      requires Valid() && g.InRange(cluster) && take > 0
      requires into == IntoCluster(g, offset + done) && into + take <= g.ClusterBytes()
      requires Nth(device, g, first, ClusterIndexNat(g, offset + done)) == Some(cluster)
      requires out != fatSector && out != device.bounce && at + done + take <= out.Length
      requires HoldsChain(first, offset, done, out, at)
      modifies out, device.disk`served, device.disk`touched, device.bounce
      ensures Valid()
      ensures ok ==> HoldsChain(first, offset, done + take, out, at)
      ensures Complete(device, g) ==> ok
      ensures forall k :: 0 <= k < out.Length && !(at + done <= k < at + done + take) ==> out[k] == old(out[k])
    {
      hide Geometry.Sound, Link, Complete, Nth, VolumeSectors, ClusterIndex, IntoCluster, ChainByte, SectorsFrom;
      hide BlockDevice.RangeReadable, BlockDevice.Byte, BlockDevice.Origin;
      ClusterBytesArePlaced(device, g, cluster, into, take);
      ok := device.ReadBytes(g.ClusterOffset(cluster) + into, take, out, at + done);
      if !ok {
        return;
      }
      forall k {:trigger out[k]} | at <= k < at + (done + take)
        ensures ChainByte(device, g, first, offset + (k - at)) == Some(out[k])
      {
        if k >= at + done {
          var i := k - (at + done);
          PieceByte(device, g, first, offset + done, cluster, i);
          assert offset + done + i == offset + (k - at);
        } else {
          assert out[k] == old(out[k]);
        }
      }
    }

    /** The second part of `read_chain`: cluster by cluster from the first wanted.
        Cluster offsets stay far below 2^64, so the checked arithmetic on them
        never refuses. */
    method ReadFrom(first: u32, start: u32, offset: nat, length: nat, out: array<u8>, at: nat) returns (ok: bool)
      requires Valid() && length > 0
      requires Nth(device, g, first, ClusterIndexNat(g, offset)) == Some(start)
      requires out != fatSector && out != device.bounce && at + length <= out.Length
      modifies this`fatSectorIndex, this`fatSectorValid, this`links, fatSector, out
      modifies device.disk`served, device.disk`touched, device.bounce
      ensures Valid()
      ensures ok ==> HoldsChain(first, offset, length, out, at)
      ensures ok ==> RestReadable(device, g, first, offset, length)
      ensures Complete(device, g) && RestReadable(device, g, first, offset, length) ==> ok
      ensures forall k :: 0 <= k < out.Length && !(at <= k < at + length) ==> out[k] == old(out[k])
      ensures links <= old(links) + g.clusterCount + 1
      ensures links <= old(links) + LinksBetween(g, ClusterIndexNat(g, offset), offset, length)
    {
      hide Geometry.Sound, Link, Complete, Nth, VolumeSectors, EndOfChain;
      hide ClusterIndex, IntoCluster, ChainByte, RestReadable;
      SoundIsSmall(g);
      var cluster, done, walked := start, 0, 0;
      var into := IntoCluster(g, offset);
      while true
        invariant 0 <= done < length && 0 <= walked <= g.clusterCount
        invariant Valid() && links == old(links) + walked
        invariant AtCluster(device, g, first, offset, done, walked, into, cluster)
        invariant HoldsChain(first, offset, done, out, at)
        invariant forall k :: 0 <= k < out.Length && !(at <= k < at + length) ==> out[k] == old(out[k])
        decreases length - done
      {
        PositionParts(g, offset + done);
        IndexMonotone(g, offset + done, offset + length - 1);
        if RestReadable(device, g, first, offset, length) {
          NeededHere(device, g, first, offset, length, done, walked, into, cluster);
        }
        if !g.InRange(cluster) {
          return false;
        }
        var available := g.ClusterBytes() - into;
        var take := if available < length - done then available else length - done;
        var got := ReadPiece(first, cluster, offset, done, into, take, out, at);
        if !got {
          return false;
        }
        if done + take == length {
          LastCluster(device, g, first, offset, length, walked, take, cluster);
          return true;
        }
        LinkIsNeeded(g, offset, length, done, into, take);
        if RestReadable(device, g, first, offset, length) {
          NeededNext(device, g, first, offset, length, done, walked, into, cluster);
        }
        var found, next := NextCluster(cluster);
        if !found || EndOfChain(next) {
          return false;
        }
        MovedOn(device, g, first, offset, done, walked, into, cluster, next);
        walked := walked + 1;
        if walked > g.clusterCount {
          return false;
        }
        done, into, cluster := done + take, 0, next;
      }
    }
  }

  /** The links a read follows, starting at the cursor if it can. */
  function LinksFrom(g: Geometry, walk: Walk, offset: nat, length: nat): (links: int)
    requires g.Sound() && length > 0
    ensures links >= 0
  {
    IndexMonotone(g, offset, offset + length - 1);
    LinksBetween(g, StartOf(walk, ClusterIndexNat(g, offset)), offset, length)
  }

  /** An open file, or a directory. */
  class FatFile {
    const volume: FatVolume
    const firstCluster: u32
    const size: u32
    const directory: bool
    var walk: Walk

    constructor (volume: FatVolume, firstCluster: u32, size: u32, directory: bool)
      ensures this.volume == volume && this.firstCluster == firstCluster
      ensures this.size == size && this.directory == directory && walk == NoWalk
    {
      this.volume, this.firstCluster, this.size, this.directory := volume, firstCluster, size, directory;
      walk := NoWalk;
    }

    /** The cursor of a file stands where a walk from its first cluster would. */
    ghost predicate Valid()
      reads this, volume, volume.fatSector, volume.device.disk
    {
      volume.Valid() && WalkAgrees(volume.device, volume.g, firstCluster, walk)
    }

    /** A read from the first cluster on would work. */
    ghost predicate DirectlyReadable(offset: nat, length: nat)
      requires volume.Valid() && length > 0
      reads volume, volume.fatSector, volume.device.disk
    {
      && offset + length <= size && Complete(volume.device, volume.g)
      && ChainReadable(volume.device, volume.g, firstCluster, offset, length, 0)
    }

    /** Bytes from within the file. Reads past the end are refused. */
    method Read(offset: u64, length: nat, out: array<u8>) returns (ok: bool)
      requires Valid() && length <= out.Length
      requires out != volume.fatSector && out != volume.device.bounce
      modifies this, out
      modifies volume`fatSectorIndex, volume`fatSectorValid, volume`links, volume.fatSector
      modifies volume.device.disk`served, volume.device.disk`touched, volume.device.bounce
      ensures Valid()
      ensures ok ==> !directory && (length > 0 ==> offset + length <= size)
      ensures ok ==> volume.HoldsChain(firstCluster, offset, length, out, 0)
      ensures !directory && (length > 0 ==> DirectlyReadable(offset, length)) ==> ok
      ensures forall k :: length <= k < out.Length ==> out[k] == old(out[k])
      ensures ok && length > 0 ==> walk.Reached? && walk.offset == ClusterIndexNat(volume.g, offset)
      ensures volume.links <= old(volume.links) + 2 * (volume.g.clusterCount + 1)
      ensures length > 0 ==>
        volume.links <= old(volume.links) + LinksFrom(volume.g, old(walk), offset, length)
    {
      hide Geometry.Sound, Complete, RestReadable, ChainReadable, ChainByte;
      SoundIsSmall(volume.g);
      if directory {
        return false;
      }
      if length == 0 {
        return true;
      }
      if offset + length >= U64_LIMIT || offset + length > size {
        return false;
      }
      if ChainReadable(volume.device, volume.g, firstCluster, offset, length, 0) {
        ResumingIsNoWorse(volume.device, volume.g, firstCluster, offset, length, walk);
      }
      ok, walk := volume.ReadChain(firstCluster, offset, length, out, 0, walk);
    }
  }
}
