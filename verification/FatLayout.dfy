/** The layout of a FAT32 volume: what the boot sector says, where clusters are,
    and what the chain of a file means (src/fs/fat.c; Microsoft FAT32 File System
    Specification, "FAT Data Structure"). */
module FatLayout {
  import opened Words
  import opened BlockDevices

  const FIRST_DATA_CLUSTER := 2
  const CLUSTER_BAD: u32 := 0x0FFF_FFF7
  const CLUSTER_END: u32 := 0x0FFF_FFF8

  // ----- the boot sector -----

  datatype Geometry = Geometry(
    sectorsPerCluster: int, fatStart: int, dataStart: int,
    sectorsPerFat: int, rootCluster: u32, clusterCount: int)
  {
    function ClusterBytes(): int { sectorsPerCluster * 512 }

    predicate InRange(cluster: int) {
      FIRST_DATA_CLUSTER <= cluster < FIRST_DATA_CLUSTER + clusterCount
    }

    function ClusterSector(cluster: int): int {
      dataStart + (cluster - FIRST_DATA_CLUSTER) * sectorsPerCluster
    }

    function ClusterOffset(cluster: int): int { ClusterSector(cluster) * 512 }

    /** The sector after the last cluster. */
    function DataEnd(): int { dataStart + clusterCount * sectorsPerCluster }

    /** What mounting establishes: the FAT lies before the data, there is a cluster
        to begin with, and no count comes near its word size. */
    predicate Sound() {
      && 1 <= sectorsPerCluster < 0x100
      && 1 <= fatStart && 1 <= sectorsPerFat && fatStart + sectorsPerFat <= dataStart
      && 1 <= clusterCount && DataEnd() < U32_LIMIT
      && InRange(rootCluster)
    }
  }

  /** The fields of a boot sector that fat_mount reads. */
  datatype BootRecord = BootRecord(
    signature: u16, bytesPerSector: u16, sectorsPerCluster: u8, reservedSectors: u16, fatCount: u8,
    rootEntryCount: u16, totalSectors16: u16, sectorsPerFat16: u16,
    totalSectors32: u32, sectorsPerFat32: u32, rootCluster: u32)
  {
    function TotalSectors(): u32 {
      if totalSectors32 != 0 then totalSectors32 else totalSectors16
    }

    function DataStart(): int { reservedSectors + fatCount * sectorsPerFat32 }

    function Clusters(): int
      requires sectorsPerCluster > 0
    {
      (TotalSectors() - DataStart()) / sectorsPerCluster
    }
  }

  function BootFields(sector: seq<u8>): BootRecord
    requires |sector| == 512
  {
    BootRecord(
      U16At(sector, 510), U16At(sector, 11), sector[13], U16At(sector, 14), sector[16],
      U16At(sector, 17), U16At(sector, 19), U16At(sector, 22),
      U32At(sector, 32), U32At(sector, 36), U32At(sector, 44))
  }

  /** The checks of fat_mount, in its order, and the geometry it comes to. */
  function Mounted(b: BootRecord, deviceSectorBytes: nat, deviceSectorCount: u64): Option<Geometry> {
    if b.signature != 0xAA55 then None
    else if b.rootEntryCount != 0 || b.sectorsPerFat16 != 0 then None
    else if b.sectorsPerFat32 == 0 then None
    else if b.bytesPerSector != deviceSectorBytes then None
    else if b.sectorsPerCluster == 0 || !PowerOfTwo(b.sectorsPerCluster) then None
    else if b.reservedSectors == 0 || b.fatCount == 0 then None
    else if b.TotalSectors() == 0 then None
    else if deviceSectorCount != 0 && b.TotalSectors() > deviceSectorCount then None
    else if b.DataStart() >= b.TotalSectors() then None
    else if b.Clusters() == 0 then None
    else
      var g := Geometry(b.sectorsPerCluster, b.reservedSectors, b.DataStart(), b.sectorsPerFat32, b.rootCluster,
        b.Clusters());
      if g.InRange(b.rootCluster) then Some(g) else None
  }

  lemma ProductFits(fatCount: u8, sectorsPerFat: u32)
    requires fatCount > 0
    ensures sectorsPerFat <= fatCount * sectorsPerFat < U64_LIMIT
  {
    if sectorsPerFat > 0 {
      ScaleMonotone(sectorsPerFat, 1, fatCount);
      ScaleMonotone(sectorsPerFat, fatCount, 0x100);
    }
  }

  /** The clusters counted are all there: dividing rounds down. */
  lemma ClustersFit(total: int, start: int, perCluster: int)
    requires 0 <= start < total < U32_LIMIT && perCluster > 0
    ensures var clusters := (total - start) / perCluster;
      0 <= clusters <= total - start && start + clusters * perCluster <= total
  {
    var clusters := (total - start) / perCluster;
    assert total - start == perCluster * clusters + (total - start) % perCluster;
    if clusters < 0 {
      ScaleMonotone(perCluster, clusters, -1);
    }
    if clusters > 0 {
      ScaleMonotone(clusters, 1, perCluster);
    }
  }

  /** Any boot sector that is accepted describes a sound volume: two more than the
      number of clusters does not wrap 32 bits, and all of them lie within the
      sectors the boot sector counts and the device has. */
  lemma MountedIsSound(b: BootRecord, deviceSectorCount: u64)
    requires Mounted(b, 512, deviceSectorCount).Some?
    ensures var g := Mounted(b, 512, deviceSectorCount).value;
      && g.Sound()
      && FIRST_DATA_CLUSTER + g.clusterCount < U32_LIMIT
      && g.DataEnd() <= b.TotalSectors()
      && (deviceSectorCount != 0 ==> g.DataEnd() <= deviceSectorCount)
  {
    hide PowerOfTwo;
    ProductFits(b.fatCount, b.sectorsPerFat32);
    ClustersFit(b.TotalSectors(), b.DataStart(), b.sectorsPerCluster);
  }

  /** Every cluster lies in the data area, and no two share a sector. */
  lemma ClustersArePlaced(g: Geometry, a: int, b: int)
    requires g.Sound() && g.InRange(a) && g.InRange(b)
    ensures g.dataStart <= g.ClusterSector(a) && g.ClusterSector(a) + g.sectorsPerCluster <= g.DataEnd()
    ensures a < b ==> g.ClusterSector(a) + g.sectorsPerCluster <= g.ClusterSector(b)
  {
    var per := g.sectorsPerCluster;
    ScaleMonotone(per, 0, a - 2);
    ScaleStrict(per, a - 2, g.clusterCount);
    if a < b {
      ScaleStrict(per, a - 2, b - 2);
    }
  }

  // ----- the chain -----

  ghost predicate Usable(d: BlockDevice) {
    d.Valid() && d.sectorBytes == 512
  }

  /** `value & FAT_CLUSTER_MASK`: the top four bits are not part of a link. */
  function Masked(value: u32): u32 { value % 0x1000_0000 }

  /** What the FAT holds for a cluster, where it reaches that far. */
  ghost function Link(d: BlockDevice, g: Geometry, cluster: int): Option<u32>
    requires d.Valid()
  {
    if !g.InRange(cluster) || 4 * cluster + 4 > g.sectorsPerFat * 512 then None
    else
      var word := Word32(d, g.fatStart * 512 + 4 * cluster);
      if word.Some? then Some(Masked(word.value)) else None
  }

  predicate EndOfChain(cluster: u32) {
    cluster >= CLUSTER_END || cluster == CLUSTER_BAD
  }

  /** The cluster a link leads to, if it leads to one. */
  ghost function Next(d: BlockDevice, g: Geometry, cluster: int): Option<u32>
    requires d.Valid()
  {
    var link := Link(d, g, cluster);
    if link.Some? && !EndOfChain(link.value) && g.InRange(link.value) then link else None
  }

  /** The `n`-th cluster of a chain, counting its first as the zeroth. */
  ghost function Nth(d: BlockDevice, g: Geometry, first: u32, n: nat): Option<u32>
    requires d.Valid()
  {
    if n == 0 then Some(first)
    else
      var before := Nth(d, g, first, n - 1);
      if before.Some? then Next(d, g, before.value) else None
  }

  /** Following a chain in two goes is following it in one. */
  lemma {:induction false} NthAdd(d: BlockDevice, g: Geometry, first: u32, m: nat, n: nat)
    requires d.Valid() && Nth(d, g, first, m).Some?
    ensures Nth(d, g, first, m + n) == Nth(d, g, Nth(d, g, first, m).value, n)
  {
    hide Next;
    if n > 0 {
      NthAdd(d, g, first, m, n - 1);
    }
  }

  lemma {:induction false} NthBefore(d: BlockDevice, g: Geometry, first: u32, m: nat, n: nat)
    requires d.Valid() && m <= n && Nth(d, g, first, n).Some?
    ensures Nth(d, g, first, m).Some?
    decreases n
  {
    if m < n {
      NthBefore(d, g, first, m, n - 1);
    }
  }

  /** The byte at a position of the chain, where the chain has one. */
  ghost function ChainByte(d: BlockDevice, g: Geometry, first: u32, position: nat): Option<u8>
    requires d.Valid() && g.ClusterBytes() > 0
  {
    var cluster := Nth(d, g, first, position / g.ClusterBytes());
    if cluster.Some? && g.InRange(cluster.value)
    then d.Byte(g.ClusterOffset(cluster.value) + position % g.ClusterBytes())
    else None
  }

  /** A device that never fails and reaches to the end of the volume. */
  ghost predicate Complete(d: BlockDevice, g: Geometry)
    requires d.Valid()
  {
    && d.disk.Reliable()
    && d.Readable(0, g.DataEnd() * 512)
    && (d.sectorCount != 0 ==> g.DataEnd() <= d.sectorCount)
  }
}
