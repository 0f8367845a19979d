/** Any FAT32 volume at all, laid out byte by byte: a boot sector, chains of clusters in
    any order, and directories in one another. It is mounted with the geometry it was laid
    out with, a path of any number of names leads where the directories say, and what is
    read from a file is its contents (src/fs/fat.c; Microsoft FAT32 File System
    Specification). */
module FatTrees {
  import opened Words
  import opened Fields
  import opened BlockDevices
  import opened FatLayout
  import opened FatNames
  import opened FatVolumes
  import opened FatDirectories
  import opened FatLongNames
  import opened FatEntries

  // ----- the boot sector -----

  datatype Shape = Shape(
    sectorsPerCluster: int, reserved: int, fats: int, sectorsPerFat: int, sectors: int, root: int)
  {
    /** Where the clusters begin. */
    function Data(): int { reserved + fats * sectorsPerFat }

    predicate Sound() {
      && sectorsPerCluster in {1, 2, 4, 8, 16, 32, 64, 128}
      && 1 <= reserved < 0x1_0000 && 1 <= fats < 0x100 && 1 <= sectorsPerFat < 0x1_0000_0000
      && Data() + sectorsPerCluster <= sectors < 0x1_0000_0000
      && 2 <= root < 2 + (sectors - Data()) / sectorsPerCluster
    }

    function Geometry(): (g: Geometry)
      requires Sound()
      ensures g.Sound()
    {
      EnoughForOne(sectors, Data(), sectorsPerCluster);
      ClustersFit(sectors, Data(), sectorsPerCluster);
      ScaleMonotone(sectorsPerFat, 1, fats);
      FatLayout.Geometry.Geometry(sectorsPerCluster, reserved, Data(), sectorsPerFat, root,
        (sectors - Data()) / sectorsPerCluster)
    }
  }

  ghost predicate HalfStored(d: BlockDevice, at: int, value: int)
    requires d.Valid()
  {
    0 <= value < 0x1_0000 && d.Byte(at) == Some(value % 0x100) && d.Byte(at + 1) == Some(value / 0x100)
  }

  ghost predicate WordStored(d: BlockDevice, at: int, value: int)
    requires d.Valid()
  {
    && 0 <= value < 0x1_0000_0000
    && d.Byte(at) == Some(value % 0x100) && d.Byte(at + 1) == Some(value / 0x100 % 0x100)
    && d.Byte(at + 2) == Some(value / 0x1_0000 % 0x100) && d.Byte(at + 3) == Some(value / 0x100_0000)
  }

  /** The fields of the boot sector; the other bytes may be anything. The number of sectors
      is in the short field if the long one is zero. */
  ghost predicate BootLaid(d: BlockDevice, s: Shape)
    requires d.Valid()
  {
    && HalfStored(d, 11, 512) && d.Byte(13) == Some(s.sectorsPerCluster) && HalfStored(d, 14, s.reserved)
    && d.Byte(16) == Some(s.fats) && HalfStored(d, 17, 0) && HalfStored(d, 22, 0)
    && (WordStored(d, 32, s.sectors) || (WordStored(d, 32, 0) && HalfStored(d, 19, s.sectors)))
    && WordStored(d, 36, s.sectorsPerFat) && WordStored(d, 44, s.root)
    && d.Byte(510) == Some(0x55) && d.Byte(511) == Some(0xAA)
  }

  lemma HalfRead(d: BlockDevice, at: nat, value: int)
    requires d.Valid() && d.Readable(0, 512) && at + 2 <= 512
    ensures HalfStored(d, at, value) <==> U16At(BootSector(d), at) == value
  {
    HalfIs(BootSector(d), at, value);
  }

  lemma WordRead(d: BlockDevice, at: nat, value: int)
    requires d.Valid() && d.Readable(0, 512) && at + 4 <= 512
    ensures WordStored(d, at, value) <==> U32At(BootSector(d), at) == value
  {
    WordIs(BootSector(d), at, value);
  }

  /** Every sound shape is mounted, with its geometry, from any device it fits on. */
  lemma ShapeIsMounted(d: BlockDevice, s: Shape)
    requires d.Valid() && d.Readable(0, 512) && s.Sound() && BootLaid(d, s)
    requires d.sectorCount != 0 ==> s.sectors <= d.sectorCount
    ensures Mounted(BootFields(BootSector(d)), 512, d.sectorCount) == Some(s.Geometry())
  {
    hide BootFields, BootLaid, Mounted, Shape.Sound;
    SectorsThere(s);
    BootIsRead(d, s);
    ShapeIsAccepted(BootFields(BootSector(d)), s, d.sectorCount);
  }

  lemma SectorsThere(s: Shape)
    requires s.Sound()
    ensures s.sectors > 0
  {
    ScaleMonotone(s.sectorsPerFat, 1, s.fats);
  }

  lemma ShapeIsAccepted(b: BootRecord, s: Shape, sectorCount: u64)
    requires s.Sound() && (sectorCount != 0 ==> s.sectors <= sectorCount) && Says(b, s)
    ensures Mounted(b, 512, sectorCount) == Some(s.Geometry())
  {
    hide PowerOfTwo, BootRecord.TotalSectors;
    SmallPowers(s.sectorsPerCluster);
    EnoughForOne(s.sectors, s.Data(), s.sectorsPerCluster);
    ScaleMonotone(s.sectorsPerFat, 1, s.fats);
    assert b.DataStart() == s.Data();
  }

  /** The fields of a shape, as the boot sector says them. */
  ghost predicate Says(b: BootRecord, s: Shape) {
    && b.signature == 0xAA55 && b.bytesPerSector == 512 && b.sectorsPerCluster == s.sectorsPerCluster
    && b.reservedSectors == s.reserved && b.fatCount == s.fats && b.rootEntryCount == 0 && b.sectorsPerFat16 == 0
    && b.TotalSectors() == s.sectors && b.sectorsPerFat32 == s.sectorsPerFat && b.rootCluster == s.root
  }

  lemma BootIsRead(d: BlockDevice, s: Shape)
    requires d.Valid() && d.Readable(0, 512) && s.sectors > 0
    ensures BootLaid(d, s) <==> Says(BootFields(BootSector(d)), s)
  {
    hide U16At, U32At, WordStored, HalfStored;
    HalfRead(d, 11, 512);
    HalfRead(d, 14, s.reserved);
    HalfRead(d, 17, 0);
    HalfRead(d, 22, 0);
    WordRead(d, 36, s.sectorsPerFat);
    WordRead(d, 44, s.root);
    WordRead(d, 32, s.sectors);
    WordRead(d, 32, 0);
    HalfRead(d, 19, s.sectors);
    SignatureRead(d);
  }

  lemma SignatureRead(d: BlockDevice)
    requires d.Valid() && d.Readable(0, 512)
    ensures d.Byte(510) == Some(0x55) && d.Byte(511) == Some(0xAA) <==> U16At(BootSector(d), 510) == 0xAA55
  {
    HalfRead(d, 510, 0xAA55);
  }

  /** And nothing else is: what is mounted is a sound shape, laid out, that fits. */
  lemma MountedIsShape(d: BlockDevice) returns (s: Shape)
    requires d.Valid() && d.Readable(0, 512) && Mounted(BootFields(BootSector(d)), 512, d.sectorCount).Some?
    ensures s.Sound() && BootLaid(d, s) && (d.sectorCount != 0 ==> s.sectors <= d.sectorCount)
    ensures Mounted(BootFields(BootSector(d)), 512, d.sectorCount) == Some(s.Geometry())
  {
    hide BootFields, BootLaid;
    var b := BootFields(BootSector(d));
    s := Shape(b.sectorsPerCluster, b.reservedSectors, b.fatCount, b.sectorsPerFat32, b.TotalSectors(), b.rootCluster);
    AcceptedIsSound(b, s, d.sectorCount);
    BootIsRead(d, s);
  }

  lemma AcceptedIsSound(b: BootRecord, s: Shape, sectorCount: u64)
    requires Mounted(b, 512, sectorCount).Some?
    requires s == Shape(b.sectorsPerCluster, b.reservedSectors, b.fatCount, b.sectorsPerFat32, b.TotalSectors(),
      b.rootCluster)
    ensures s.Sound() && Says(b, s) && (sectorCount != 0 ==> s.sectors <= sectorCount)
    ensures Mounted(b, 512, sectorCount) == Some(s.Geometry())
  {
    hide PowerOfTwo;
    PowersAreSmall(b.sectorsPerCluster);
    AtLeastOne(s.sectors, s.Data(), s.sectorsPerCluster);
  }

  lemma PowersAreSmall(n: int)
    requires 0 < n < 0x100 && PowerOfTwo(n)
    ensures n in {1, 2, 4, 8, 16, 32, 64, 128}
  {
    var half := n / 2;
    if n > 1 && half > 1 && half / 2 > 1 {
      assert PowerOfTwo(half / 2);
      var eighth := half / 2 / 2;
      assert PowerOfTwo(eighth);
      assert eighth > 1 ==> PowerOfTwo(eighth / 2) && (eighth / 2 > 1 ==> PowerOfTwo(eighth / 2 / 2));
    }
  }

  lemma AtLeastOne(sectors: int, data: int, per: int)
    requires per > 0 && data < sectors && (sectors - data) / per != 0
    ensures data + per <= sectors
  {
    if sectors - data < per {
      DivisionIs(sectors - data, per, 0, sectors - data);
    }
  }

  lemma SmallPowers(n: int)
    requires n in {1, 2, 4, 8, 16, 32, 64, 128}
    ensures PowerOfTwo(n)
  {
    assert PowerOfTwo(1) && PowerOfTwo(2) && PowerOfTwo(4) && PowerOfTwo(8);
    assert PowerOfTwo(16) && PowerOfTwo(32) && PowerOfTwo(64);
  }

  lemma EnoughForOne(sectors: int, data: int, per: int)
    requires per > 0 && data + per <= sectors
    ensures (sectors - data) / per >= 1
  {
    var q := (sectors - data) / per;
    if q < 1 {
      ScaleMonotone(per, q, 0);
    }
  }

  // ----- chains -----

  /** A link of the FAT is 28 bits; the four above them may be anything. */
  ghost predicate LinkLaid(d: BlockDevice, g: Geometry, cluster: int, link: int)
    requires d.Valid()
  {
    0 <= link < 0x1000_0000 && LinkAt(d, 512 * g.fatStart + 4 * cluster, link)
  }

  ghost predicate LinkAt(d: BlockDevice, at: int, link: int)
    requires d.Valid()
  {
    exists top :: LinkWithTop(d, at, link, top)
  }

  ghost predicate LinkWithTop(d: BlockDevice, at: int, link: int, top: int)
    requires d.Valid()
  {
    0 <= top < 0x10 && WordStored(d, at, link + 0x1000_0000 * top)
  }

  /** Clusters linked one to the next, the last to one of the nine end marks. */
  ghost predicate Chained(d: BlockDevice, g: Geometry, clusters: seq<u32>)
    requires d.Valid()
  {
    && 1 <= |clusters| <= g.clusterCount
    && (forall i :: 0 <= i < |clusters| ==>
          2 <= clusters[i] < 2 + g.clusterCount && clusters[i] < 0x0FFF_FFF7
          && 4 * clusters[i] + 4 <= 512 * g.sectorsPerFat)
    && (forall i :: 0 <= i < |clusters| - 1 ==> LinkedToNext(d, g, clusters, i))
    && EndLaid(d, g, clusters[|clusters| - 1])
  }

  ghost predicate EndLaid(d: BlockDevice, g: Geometry, cluster: int)
    requires d.Valid()
  {
    exists mark :: 0x0FFF_FFF7 <= mark <= 0x0FFF_FFFF && LinkLaid(d, g, cluster, mark)
  }

  ghost predicate LinkedToNext(d: BlockDevice, g: Geometry, clusters: seq<u32>, i: nat)
    requires d.Valid() && i + 1 < |clusters|
  {
    LinkLaid(d, g, clusters[i], clusters[i + 1])
  }

  /** What is stored in the clusters of a chain, from its first byte. */
  ghost predicate Stored(d: BlockDevice, g: Geometry, clusters: seq<u32>, contents: seq<u8>)
    requires d.Valid() && g.Sound()
  {
    && |contents| <= 512 * g.sectorsPerCluster * |clusters|
    && forall p :: 0 <= p < |contents| ==> ByteLaid(d, g, clusters, p, contents[p])
  }

  ghost predicate ByteLaid(d: BlockDevice, g: Geometry, clusters: seq<u32>, p: nat, byte: u8)
    requires d.Valid() && g.Sound()
  {
    var bytes := 512 * g.sectorsPerCluster;
    && 0 <= p / bytes < |clusters|
    && d.Byte(512 * (g.dataStart + g.sectorsPerCluster * (clusters[p / bytes] as int - 2)) + p % bytes) == Some(byte)
  }

  lemma LinkIsRead(d: BlockDevice, g: Geometry, cluster: int, link: int)
    requires d.Valid() && LinkLaid(d, g, cluster, link)
    requires 2 <= cluster < 2 + g.clusterCount && 4 * cluster + 4 <= 512 * g.sectorsPerFat
    ensures Link(d, g, cluster) == Some(link)
  {
    var at := 512 * g.fatStart + 4 * cluster;
    var top :| LinkWithTop(d, at, link, top);
    var value := link + 0x1000_0000 * top;
    WordIs([d.Byte(at).value, d.Byte(at + 1).value, d.Byte(at + 2).value, d.Byte(at + 3).value], 0, value);
    assert Word32(d, g.fatStart * 512 + 4 * cluster) == Some(value);
    DivisionIs(value, 0x1000_0000, top, link);
  }

  lemma LinkIsFollowed(d: BlockDevice, g: Geometry, clusters: seq<u32>, i: nat)
    requires d.Valid() && Chained(d, g, clusters) && i < |clusters|
    ensures Next(d, g, clusters[i]) == if i + 1 < |clusters| then Some(clusters[i + 1]) else None
  {
    hide LinkLaid, Link;
    if i + 1 < |clusters| {
      assert LinkedToNext(d, g, clusters, i);
      LinkIsRead(d, g, clusters[i], clusters[i + 1]);
    } else {
      var mark :| 0x0FFF_FFF7 <= mark <= 0x0FFF_FFFF && LinkLaid(d, g, clusters[i], mark);
      LinkIsRead(d, g, clusters[i], mark);
    }
  }

  /** The chain is those clusters, and ends. */
  lemma {:induction false} ChainIsFollowed(d: BlockDevice, g: Geometry, clusters: seq<u32>, n: nat)
    requires d.Valid() && Chained(d, g, clusters)
    ensures Nth(d, g, clusters[0], n) == if n < |clusters| then Some(clusters[n]) else None
  {
    hide Next, Chained;
    ChainIsThere(d, g, clusters);
    if n > 0 {
      ChainIsFollowed(d, g, clusters, n - 1);
      if n <= |clusters| {
        LinkIsFollowed(d, g, clusters, n - 1);
      }
    }
  }

  lemma ChainIsThere(d: BlockDevice, g: Geometry, clusters: seq<u32>)
    requires d.Valid() && Chained(d, g, clusters)
    ensures 1 <= |clusters| <= g.clusterCount && forall i :: 0 <= i < |clusters| ==> g.InRange(clusters[i])
  {
  }

  /** The bytes of a chain are what is stored in it. */
  lemma ByteIsRead(d: BlockDevice, g: Geometry, clusters: seq<u32>, p: nat, byte: u8)
    requires d.Valid() && g.Sound() && Chained(d, g, clusters) && ByteLaid(d, g, clusters, p, byte)
    ensures ChainByte(d, g, clusters[0], p) == Some(byte)
  {
    hide Chained, Nth;
    ChainIsThere(d, g, clusters);
    assert g.ClusterBytes() == 512 * g.sectorsPerCluster;
    var n := p / (512 * g.sectorsPerCluster);
    ChainIsFollowed(d, g, clusters, n);
    assert g.ClusterOffset(clusters[n]) == 512 * (g.dataStart + g.sectorsPerCluster * (clusters[n] - 2));
  }

  lemma NothingBeyond(d: BlockDevice, g: Geometry, clusters: seq<u32>, p: nat)
    requires d.Valid() && g.Sound() && Chained(d, g, clusters) && p >= 512 * g.sectorsPerCluster * |clusters|
    ensures ChainByte(d, g, clusters[0], p) == None
  {
    hide Chained, Nth;
    ChainIsThere(d, g, clusters);
    var bytes := g.ClusterBytes();
    assert bytes == 512 * g.sectorsPerCluster;
    var n := p / bytes;
    if n < |clusters| {
      ScaleStrict(bytes, n, |clusters|);
    }
    ChainIsFollowed(d, g, clusters, n);
  }

  // ----- directories -----

  /** A directory: its clusters, all the entries in them, and what the first of these are
      the entries of. */
  datatype Directory = Directory(clusters: seq<u32>, entries: seq<Entry>, items: seq<Item>)
  {
    function Used(): nat { Width(items) }
  }

  function Width(items: seq<Item>): nat {
    if items == [] then 0 else items[0].Fragments() + 1 + Width(items[1..])
  }

  /** Its entries fill its clusters, those of its items first; an empty one marks the end
      of them unless there is no room for it. */
  ghost predicate DirectoryLaid(d: BlockDevice, g: Geometry, dir: Directory)
    requires d.Valid() && g.Sound()
  {
    && Chained(d, g, dir.clusters)
    && 32 * |dir.entries| == 512 * g.sectorsPerCluster * |dir.clusters|
    && (forall p :: 0 <= p < 32 * |dir.entries| ==> EntryByteLaid(d, g, dir, p))
    && dir.Used() <= |dir.entries| && Laid(dir.items, dir.entries[..dir.Used()])
    && (forall item :: item in dir.items ==> item.Sound())
    && (dir.Used() < |dir.entries| ==> dir.entries[dir.Used()][0] == 0x00)
  }

  ghost predicate EntryByteLaid(d: BlockDevice, g: Geometry, dir: Directory, p: nat)
    requires d.Valid() && g.Sound() && p < 32 * |dir.entries|
  {
    ByteLaid(d, g, dir.clusters, p, dir.entries[p / 32][p % 32])
  }

  lemma EntryIsThere(d: BlockDevice, g: Geometry, dir: Directory, i: nat)
    requires d.Valid() && g.Sound() && DirectoryLaid(d, g, dir) && i < |dir.entries|
    ensures EntryAt(d, g, dir.clusters[0], i) == Some(dir.entries[i])
  {
    hide ChainByte, Chained, ByteLaid, Laid, Item.Sound, Directory.Used;
    forall k | 0 <= k < 32
      ensures ChainByte(d, g, dir.clusters[0], 32 * i + (k - 0)) == Some(dir.entries[i][k])
    {
      var p := 32 * i + k;
      DivisionIs(p, 32, i, k);
      assert EntryByteLaid(d, g, dir, p);
      ByteIsRead(d, g, dir.clusters, p, dir.entries[i][k]);
      assert p == 32 * i + (k - 0);
    }
    EntryWasRead(d, g, dir.clusters[0], i, dir.entries[i]);
  }

  lemma DirectoryEnds(d: BlockDevice, g: Geometry, dir: Directory)
    requires d.Valid() && g.Sound() && DirectoryLaid(d, g, dir)
    ensures EndsAt(d, g, dir.clusters[0], dir.Used()) && |dir.entries| <= MaximumEntries(g)
  {
    hide ChainByte, ByteLaid, Laid, Item.Sound, Directory.Used, LinkedToNext, LinkLaid;
    EntriesFit(g, |dir.clusters|, |dir.entries|);
    if dir.Used() < |dir.entries| {
      EntryIsThere(d, g, dir, dir.Used());
    } else {
      NothingBeyond(d, g, dir.clusters, 32 * dir.Used());
      assert !ChainHas(d, g, dir.clusters[0], 32 * dir.Used(), 32);
    }
  }

  lemma EntriesFit(g: Geometry, clusters: nat, entries: nat)
    requires g.Sound() && clusters <= g.clusterCount && 32 * entries == 512 * g.sectorsPerCluster * clusters
    ensures entries <= MaximumEntries(g)
  {
    ScaleMonotone(g.ClusterBytes(), clusters, g.clusterCount);
    assert g.ClusterBytes() * clusters == 512 * g.sectorsPerCluster * clusters;
    assert g.clusterCount * g.ClusterBytes() == g.ClusterBytes() * g.clusterCount;
  }

  /** So a search, whatever memory holds before it, finds the first item that answers. */
  lemma LaidIsSearched(d: BlockDevice, g: Geometry, dir: Directory, asked: seq<u8>, p: Pending)
    requires d.Valid() && g.Sound() && DirectoryLaid(d, g, dir) && Blank(p)
    ensures Search(d, g, dir.clusters[0], asked, 0, p) == TargetOf(FirstAnswer(dir.items, asked))
  {
    hide Chained, ByteLaid, Laid, Search, EntryAt, Directory.Used, MaximumEntries, Answers, FirstAnswer, Item.Sound;
    var used := dir.entries[..dir.Used()];
    ChainIsThere(d, g, dir.clusters);
    DirectoryEnds(d, g, dir);
    forall i | 0 <= i < |used|
      ensures EntryAt(d, g, dir.clusters[0], 0 + i) == Some(used[i])
    {
      EntryIsThere(d, g, dir, i);
    }
    DirectoryIsSearched(d, g, dir.clusters[0], asked, 0, p, dir.items, used);
  }

  // ----- paths -----

  function Slashes(n: nat): seq<u8> { seq(n, _ => 0x2F) }

  /** Names with slashes before, between and after them, so many at each place. */
  function PathOf(names: seq<seq<u8>>, gaps: seq<nat>): seq<u8>
    requires |gaps| == |names| + 1
  {
    if names == [] then Slashes(gaps[0]) else Slashes(gaps[0]) + names[0] + PathOf(names[1..], gaps[1..])
  }

  /** Names the loader takes, when what is before the first ends at this place of a path:
      not empty, at most 260 characters, none a slash, one slash at least between two, and
      each beginning within the first 256 characters. */
  predicate NamesFit(names: seq<seq<u8>>, gaps: seq<nat>, at: nat)
    requires |gaps| == |names| + 1
  {
    names == [] ||
    (&& 1 <= |names[0]| <= 260 && 0x2F !in names[0] && at + gaps[0] < 256
     && (|names| > 1 ==> gaps[1] >= 1)
     && NamesFit(names[1..], gaps[1..], at + gaps[0] + |names[0]|))
  }

  /** From one directory to the next by these names, and so to the result; or to nothing,
      where a name is not there or what goes before it is not a directory. */
  ghost predicate Trail(
    d: BlockDevice, g: Geometry, current: Found, names: seq<seq<u8>>, dirs: seq<Directory>, result: Option<Found>)
    requires d.Valid() && g.Sound()
    decreases |names|
  {
    if names == [] then result == Some(current)
    else if !current.directory then result == None
    else
      && dirs != [] && DirectoryLaid(d, g, dirs[0]) && dirs[0].clusters[0] == current.firstCluster
      && var next := TargetOf(FirstAnswer(dirs[0].items, names[0]));
         if next.None? then result == None else Trail(d, g, next.value, names[1..], dirs[1..], result)
  }

  lemma {:induction false} NameEnds(path: seq<u8>, at: nat, end: nat)
    requires at <= end <= |path| && (forall k :: at <= k < end ==> path[k] != 0x2F)
    requires end < |path| ==> path[end] == 0x2F
    ensures ComponentEnd(path, at) == end
    decreases end - at
  {
    if at < end {
      NameEnds(path, at + 1, end);
    }
  }

  lemma {:induction false} SlashesEnd(path: seq<u8>, at: nat, end: nat)
    requires at <= end <= |path| && (forall k :: at <= k < end ==> path[k] == 0x2F)
    requires end < |path| ==> path[end] != 0x2F
    ensures SkipSeparators(path, at) == end
    decreases end - at
  {
    if at < end {
      SlashesEnd(path, at + 1, end);
    }
  }

  /** One name of a path: where it begins and ends. */
  lemma NextName(path: seq<u8>, at: nat, names: seq<seq<u8>>, gaps: seq<nat>)
    requires |gaps| == |names| + 1 && at <= |path| && path[at..] == PathOf(names, gaps)
    requires names != [] && NamesFit(names, gaps, at)
    ensures var start, end := at + gaps[0], at + gaps[0] + |names[0]|;
      && SkipSeparators(path, at) == start && end <= |path| && ComponentEnd(path, start) == end
      && path[start..end] == names[0] && path[end..] == PathOf(names[1..], gaps[1..])
  {
    var rest, start, end := path[at..], at + gaps[0], at + gaps[0] + |names[0]|;
    var tail := PathOf(names[1..], gaps[1..]);
    assert rest == Slashes(gaps[0]) + names[0] + tail;
    PartsOf(path, at, Slashes(gaps[0]), names[0], tail);
    assert path[start] == names[0][0] && names[0][0] in names[0];
    SlashesEnd(path, at, start);
    TailBegins(names[1..], gaps[1..]);
    forall k | start <= k < end
      ensures path[k] != 0x2F
    {
      assert path[k] == names[0][k - start];
    }
    assert end < |path| ==> path[end] == path[end..][0];
    NameEnds(path, start, end);
  }

  lemma PartsOf(path: seq<u8>, at: nat, first: seq<u8>, second: seq<u8>, third: seq<u8>)
    requires at <= |path| && path[at..] == first + second + third
    ensures var start, end := at + |first|, at + |first| + |second|;
      && end <= |path| && path[at..start] == first && path[start..end] == second && path[end..] == third
      && (forall k :: at <= k < start ==> path[k] == first[k - at])
      && forall k :: start <= k < end ==> path[k] == second[k - start]
  {
    var rest := path[at..];
    assert forall k :: 0 <= k < |rest| ==> path[at + k] == rest[k];
    forall k | at <= k < at + |first|
      ensures path[k] == first[k - at]
    {
      assert rest[k - at] == first[k - at];
    }
    var start := at + |first|;
    forall k | start <= k < start + |second|
      ensures path[k] == second[k - start]
    {
      assert rest[k - at] == second[k - start];
    }
    assert path[start + |second|..] == rest[|first| + |second|..] == third;
  }

  lemma TailBegins(names: seq<seq<u8>>, gaps: seq<nat>)
    requires |gaps| == |names| + 1 && (names != [] ==> gaps[0] >= 1)
    ensures PathOf(names, gaps) != [] ==> PathOf(names, gaps)[0] == 0x2F
  {
  }

  ghost predicate OnlyLeads(d: BlockDevice, g: Geometry, path: seq<u8>, i: nat, current: Found, result: Option<Found>)
    requires d.Valid() && g.Sound() && i <= |path| && (i < |path| ==> path[i] != SEPARATOR)
  {
    && (result.Some? ==> MustLead(d, g, path, i, current, result.value))
    && forall other :: MayLead(d, g, path, i, current, other) ==> result == Some(other)
  }

  ghost predicate OnlyFinds(d: BlockDevice, g: Geometry, directory: u32, name: seq<u8>, next: Option<Found>)
    requires d.Valid() && g.Sound()
  {
    && (next.Some? ==> MustFind(d, g, directory, name, next.value))
    && forall other :: MayFind(d, g, directory, name, other) ==> next == Some(other)
  }

  /** A path of these names must lead along the trail, and can lead nowhere else. */
  lemma {:induction false} TrailIsFollowed(
    d: BlockDevice, g: Geometry, path: seq<u8>, at: nat, current: Found, names: seq<seq<u8>>, gaps: seq<nat>,
    dirs: seq<Directory>, result: Option<Found>)
    requires d.Valid() && g.Sound() && |gaps| == |names| + 1
    requires at <= |path| && path[at..] == PathOf(names, gaps) && NamesFit(names, gaps, at)
    requires Trail(d, g, current, names, dirs, result)
    ensures OnlyLeads(d, g, path, SkipSeparators(path, at), current, result)
    decreases |names|
  {
    hide DirectoryLaid, FirstAnswer, SkipSeparators, ComponentEnd, OnlyFinds, OnlyLeads;
    if names == [] {
      assert forall k :: at <= k < |path| ==> path[k] == path[at..][k - at];
      SlashesEnd(path, at, |path|);
      AtTheEnd(d, g, path, current);
    } else {
      var start, end := at + gaps[0], at + gaps[0] + |names[0]|;
      NextName(path, at, names, gaps);
      if !current.directory {
        NoDirectory(d, g, path, start, current);
      } else {
        var next := TargetOf(FirstAnswer(dirs[0].items, names[0]));
        LaidFinds(d, g, dirs[0], names[0]);
        if next.Some? {
          TrailIsFollowed(d, g, path, end, next.value, names[1..], gaps[1..], dirs[1..], result);
        }
        NameLeads(d, g, path, start, end, current, next, result);
      }
    }
  }

  lemma AtTheEnd(d: BlockDevice, g: Geometry, path: seq<u8>, current: Found)
    requires d.Valid() && g.Sound()
    ensures SkipSeparators(path, |path|) == |path| && OnlyLeads(d, g, path, |path|, current, Some(current))
  {
  }

  lemma NoDirectory(d: BlockDevice, g: Geometry, path: seq<u8>, i: nat, current: Found)
    requires d.Valid() && g.Sound() && i < |path| && path[i] != SEPARATOR && !current.directory
    ensures OnlyLeads(d, g, path, i, current, None)
  {
  }

  /** One name that can only find one thing, or nothing. */
  lemma NameLeads(
    d: BlockDevice, g: Geometry, path: seq<u8>, i: nat, end: nat, current: Found, next: Option<Found>,
    result: Option<Found>)
    requires d.Valid() && g.Sound() && i < end <= |path| && path[i] != SEPARATOR && ComponentEnd(path, i) == end
    requires i < 256 && end - i <= 260 && current.directory
    requires OnlyFinds(d, g, current.firstCluster, path[i..end], next)
    requires if next.None? then result == None
      else OnlyLeads(d, g, path, SkipSeparators(path, end), next.value, result)
    ensures OnlyLeads(d, g, path, i, current, result)
  {
    hide MustFind, MayFind, SkipSeparators, ComponentEnd;
    var rest := SkipSeparators(path, end);
    assert ComponentAccepted(path, i);
    assert result.Some? ==> MustLead(d, g, path, rest, next.value, result.value);
    forall other | MayLead(d, g, path, i, current, other)
      ensures result == Some(other)
    {
      var found :| MayFind(d, g, current.firstCluster, path[i..end], found) && MayLead(d, g, path, rest, found, other);
    }
  }

  lemma LaidFinds(d: BlockDevice, g: Geometry, dir: Directory, name: seq<u8>)
    requires d.Valid() && g.Sound() && DirectoryLaid(d, g, dir)
    ensures OnlyFinds(d, g, dir.clusters[0], name, TargetOf(FirstAnswer(dir.items, name)))
  {
    hide Search, FirstAnswer, Laid, Chained, ByteLaid;
    ChainIsThere(d, g, dir.clusters);
    forall p | Blank(p)
      ensures Search(d, g, dir.clusters[0], name, 0, p) == TargetOf(FirstAnswer(dir.items, name))
    {
      LaidIsSearched(d, g, dir, name, p);
    }
  }

  // ----- opening and reading -----

  /** A path of any number of names, from the root directory: it is opened exactly if the
      directories lead somewhere, and then with the first cluster, the size and the kind
      that the last of them has for it. */
  method OpenAlong(
    volume: FatVolume, path: seq<u8>, ghost names: seq<seq<u8>>, ghost gaps: seq<nat>, ghost dirs: seq<Directory>,
    ghost result: Option<Found>) returns (file: FatFile?)
    requires volume.Valid() && Complete(volume.device, volume.g)
    requires |gaps| == |names| + 1 && path == PathOf(names, gaps) && NamesFit(names, gaps, 0)
    requires Trail(volume.device, volume.g, Found(volume.g.rootCluster, 0, true), names, dirs, result)
    modifies volume`fatSectorIndex, volume`fatSectorValid, volume`links, volume.fatSector
    modifies volume.device.disk`served, volume.device.disk`touched, volume.device.bounce
    ensures volume.Valid() && (file != null <==> result.Some?)
    ensures file != null ==>
      && fresh(file) && file.volume == volume && file.Valid()
      && file.firstCluster == result.value.firstCluster && file.size == result.value.size
      && file.directory == result.value.directory
  {
    hide Complete, Trail, MustLead, MayLead, Geometry.Sound, FatVolume.CacheAgrees, PathOf, NamesFit;
    TrailIsFollowed(volume.device, volume.g, path, 0, RootOf(volume.g), names, gaps, dirs, result);
    file := Open(volume, path);
  }

  /** Any part of what is stored in a chain can be read from it. */
  lemma StoredIsReadable(d: BlockDevice, g: Geometry, clusters: seq<u32>, contents: seq<u8>, offset: nat, length: nat)
    requires d.Valid() && g.Sound() && Chained(d, g, clusters) && Stored(d, g, clusters, contents)
    requires length > 0 && offset + length <= |contents|
    ensures ChainReadable(d, g, clusters[0], offset, length, 0)
  {
    hide Chained, Nth, ByteLaid, Link, EndOfChain;
    ChainIsThere(d, g, clusters);
    var bytes, last := g.ClusterBytes(), offset + length - 1;
    assert bytes == 512 * g.sectorsPerCluster;
    IndexMonotone(g, offset, last);
    assert ByteLaid(d, g, clusters, last, contents[last]);
    ChainIsFollowed(d, g, clusters, ClusterIndexNat(g, last));
    LastIsInChain(d, g, clusters, last, contents[last]);
  }

  lemma LastIsInChain(d: BlockDevice, g: Geometry, clusters: seq<u32>, p: nat, byte: u8)
    requires d.Valid() && g.Sound() && ByteLaid(d, g, clusters, p, byte)
    ensures ClusterIndexNat(g, p) < |clusters|
  {
    assert g.ClusterBytes() == 512 * g.sectorsPerCluster;
  }

  /** Any sound shape that fits on its device is mounted, with its geometry. */
  method MountShape(device: BlockDevice, ghost shape: Shape) returns (volume: FatVolume)
    requires Usable(device) && device.disk.Reliable() && device.Readable(0, 512)
    requires shape.Sound() && BootLaid(device, shape)
    requires device.sectorCount != 0 ==> shape.sectors <= device.sectorCount
    modifies device.disk`served, device.disk`touched
    ensures fresh(volume) && fresh(volume.fatSector) && volume.Valid() && volume.device == device
    ensures volume.g == shape.Geometry()
  {
    hide Geometry.Sound, FatVolume.CacheAgrees, BootLaid, Mounted, BootFields;
    ShapeIsMounted(device, shape);
    volume := new FatVolume(device);
    var ok := volume.Mount();
  }

  /** A volume of any shape, a path through its directories, and any part of the file there:
      it is read exactly if it lies within the file, and as it is stored. */
  method ReadAlong(
    device: BlockDevice, ghost shape: Shape, path: seq<u8>, ghost names: seq<seq<u8>>, ghost gaps: seq<nat>,
    ghost dirs: seq<Directory>, ghost clusters: seq<u32>, ghost contents: seq<u8>, offset: u64, length: nat)
    returns (ok: bool, out: array<u8>)
    requires Usable(device) && device.Readable(0, 512) && shape.Sound() && BootLaid(device, shape)
    requires device.sectorCount != 0 ==> shape.sectors <= device.sectorCount
    requires Complete(device, shape.Geometry())
    requires |gaps| == |names| + 1 && path == PathOf(names, gaps) && NamesFit(names, gaps, 0)
    requires |contents| < 0x1_0000_0000 && Chained(device, shape.Geometry(), clusters)
    requires Stored(device, shape.Geometry(), clusters, contents)
    requires Trail(device, shape.Geometry(), Found(shape.root, 0, true), names, dirs,
      Some(Found(clusters[0], |contents|, false)))
    modifies device.disk`served, device.disk`touched, device.bounce
    ensures ok <==> length > 0 ==> offset + length <= |contents|
    ensures ok && length > 0 ==> out[..] == contents[offset..offset + length]
  {
    hide Trail, Geometry.Sound, FatVolume.CacheAgrees, PathOf, NamesFit, Chained, Stored, BootLaid, LinkLaid;
    ChainIsThere(device, shape.Geometry(), clusters);
    out := new u8[length](_ => 0);
    var volume := MountShape(device, shape);
    ghost var target := Found(clusters[0], |contents|, false);
    var file := OpenAlong(volume, path, names, gaps, dirs, Some(target));
    ok := ReadStored(file, clusters, contents, offset, length, out);
  }

  method ReadStored(
    file: FatFile, ghost clusters: seq<u32>, ghost contents: seq<u8>, offset: u64, length: nat, out: array<u8>)
    returns (ok: bool)
    requires file.Valid() && Complete(file.volume.device, file.volume.g)
    requires Chained(file.volume.device, file.volume.g, clusters)
    requires Stored(file.volume.device, file.volume.g, clusters, contents)
    requires file.firstCluster == clusters[0] && file.size == |contents| && !file.directory
    requires out.Length == length && out != file.volume.fatSector && out != file.volume.device.bounce
    modifies file, out
    modifies file.volume`fatSectorIndex, file.volume`fatSectorValid, file.volume`links, file.volume.fatSector
    modifies file.volume.device.disk`served, file.volume.device.disk`touched, file.volume.device.bounce
    ensures ok <==> length > 0 ==> offset + length <= |contents|
    ensures ok && length > 0 ==> out[..] == contents[offset..offset + length]
  {
    hide Complete, Geometry.Sound, FatVolume.CacheAgrees, Chained, Stored, ChainReadable, ChainByte;
    if length > 0 && offset + length <= |contents| {
      StoredIsReadable(file.volume.device, file.volume.g, clusters, contents, offset, length);
    }
    ok := file.Read(offset, length, out);
    if ok && length > 0 {
      SliceIsStored(file, clusters, contents, offset, length, out);
    }
  }

  lemma SliceIsStored(
    file: FatFile, clusters: seq<u32>, contents: seq<u8>, offset: u64, length: nat, out: array<u8>)
    requires file.Valid() && Chained(file.volume.device, file.volume.g, clusters)
    requires Stored(file.volume.device, file.volume.g, clusters, contents) && file.firstCluster == clusters[0]
    requires offset + length <= |contents| && out.Length == length
    requires file.volume.HoldsChain(file.firstCluster, offset, length, out, 0)
    ensures out[..] == contents[offset..offset + length]
  {
    hide Chained, ChainByte, Geometry.Sound, FatVolume.CacheAgrees, ByteLaid;
    forall k | 0 <= k < length
      ensures out[k] == contents[offset + k]
    {
      assert ChainByte(file.volume.device, file.volume.g, file.firstCluster, offset + (k - 0)) == Some(out[k]);
      assert ByteLaid(file.volume.device, file.volume.g, clusters, offset + k, contents[offset + k]);
      ByteIsRead(file.volume.device, file.volume.g, clusters, offset + k, contents[offset + k]);
    }
  }
}
