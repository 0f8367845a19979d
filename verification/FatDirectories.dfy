/** Directories: what searching one for a name comes to, and the search itself. */
module FatDirectories {
  import opened Words
  import opened BlockDevices
  import opened FatLayout
  import opened FatNames
  import opened FatVolumes

  /** What an entry says of the file it names. */
  datatype Found = Found(firstCluster: u32, size: u32, directory: bool)

  function EntryTarget(entry: Entry): Found {
    Found(0x1_0000 * (U16At(entry, 20) as int) + U16At(entry, 26), U32At(entry, 28), entry[11] / 0x10 % 2 == 1)
  }

  datatype Step = Finished | Skip(pending: Pending) | Hit(found: Found)

  /** What the search does with one entry, given the long name collected so far. */
  ghost function Examined(p: Pending, entry: Entry, name: seq<u8>): (s: Step)
    requires |p.text| == 260
    ensures s.Skip? ==> |s.pending.text| == 260
  {
    if entry[0] == 0x00 then Finished
    else if entry[0] == 0xE5 then Skip(Reset(p))
    else if entry[11] == 0x0F then Skip(Accumulated(p, entry))
    else if entry[11] / 0x08 % 2 == 1 then Skip(Reset(p))
    else if (p.valid && p.checksum == ChecksumOf(entry, 11) && LongMatches(p, name)) || ShortMatches(entry, name) then
      Hit(EntryTarget(entry))
    else Skip(Reset(p))
  }

  /** Consecutive bytes of a chain. */
  ghost predicate ChainHas(d: BlockDevice, g: Geometry, first: u32, offset: nat, length: nat)
    requires d.Valid() && g.Sound()
  {
    forall o {:trigger ChainByte(d, g, first, o)} :: offset <= o < offset + length ==> ChainByte(d, g, first, o).Some?
  }

  ghost function ByteOf(d: BlockDevice, g: Geometry, first: u32, position: nat): u8
    requires d.Valid() && g.Sound()
  {
    if ChainByte(d, g, first, position).Some? then ChainByte(d, g, first, position).value else 0
  }

  ghost function ChainSlice(d: BlockDevice, g: Geometry, first: u32, offset: nat, length: nat): (s: seq<u8>)
    requires d.Valid() && g.Sound()
    ensures |s| == length
  {
    seq<u8>(length, i requires 0 <= i < length => ByteOf(d, g, first, offset + i))
  }

  /** An entry of a directory, where its chain has one. */
  ghost function EntryAt(d: BlockDevice, g: Geometry, directory: u32, index: nat): Option<Entry>
    requires d.Valid() && g.Sound()
  {
    if ChainHas(d, g, directory, 32 * index, 32) then Some(ChainSlice(d, g, directory, 32 * index, 32)) else None
  }

  function MaximumEntries(g: Geometry): nat
    requires g.Sound()
  {
    SoundIsSmall(g);
    ScaleMonotone(g.clusterCount, 0, g.ClusterBytes());
    g.clusterCount * g.ClusterBytes() / 32
  }

  /** The search from an entry on: the first hit before the end of the directory. */
  ghost function Search(
    d: BlockDevice, g: Geometry, directory: u32, name: seq<u8>, index: nat, p: Pending): Option<Found>
    requires d.Valid() && g.Sound() && |p.text| == 260
    decreases MaximumEntries(g) - index
  {
    if index >= MaximumEntries(g) then None
    else
      var entry := EntryAt(d, g, directory, index);
      if entry.None? then None
      else
        match Examined(p, entry.value, name)
        case Finished => None
        case Hit(found) => Some(found)
        case Skip(p') => Search(d, g, directory, name, index + 1, p')
  }

  /** Entries do not straddle clusters, and those a search may look at are within
      the bound on links, so on a device that does not fail an entry that is there
      can be read. */
  lemma EntryIsReadable(d: BlockDevice, g: Geometry, directory: u32, index: nat)
    requires d.Valid() && g.Sound() && index < MaximumEntries(g)
    requires EntryAt(d, g, directory, index).Some?
    ensures ChainReadable(d, g, directory, 32 * index, 32, 0)
  {
    hide Nth, ClusterIndex, IntoCluster, ChainByte;
    EntryInCluster(g, index);
    assert 32 * index + 32 - 1 == 32 * index + 31;
    assert ChainByte(d, g, directory, 32 * index).Some?;
    ChainByteCluster(d, g, directory, 32 * index);
  }

  lemma ChainByteCluster(d: BlockDevice, g: Geometry, first: u32, position: nat)
    requires d.Valid() && g.Sound() && ChainByte(d, g, first, position).Some?
    ensures Nth(d, g, first, ClusterIndexNat(g, position)).Some? && g.InRange(first)
  {
    FirstInRange(d, g, first, ClusterIndexNat(g, position));
  }

  lemma EntryInCluster(g: Geometry, index: nat)
    requires g.Sound() && index < MaximumEntries(g)
    ensures ClusterIndex(g, 32 * index + 31) == ClusterIndex(g, 32 * index)
    ensures IntoCluster(g, 32 * index) + 32 <= g.ClusterBytes()
    ensures 0 <= ClusterIndex(g, 32 * index) <= g.clusterCount
  {
    hide ClusterIndex, IntoCluster;
    SoundIsSmall(g);
    PositionParts(g, 32 * index);
    var bytes, n, into := g.ClusterBytes(), ClusterIndex(g, 32 * index), IntoCluster(g, 32 * index);
    EntriesFillClusters(bytes, g.sectorsPerCluster, n, into, index);
    PositionMoves(g, 32 * index, 31);
    if n > g.clusterCount {
      ScaleMonotone(bytes, g.clusterCount, n);
    }
  }

  lemma EntriesFillClusters(bytes: int, per: int, n: int, into: int, index: int)
    requires bytes == per * 512 && 32 * index == bytes * n + into && 0 <= into < bytes
    ensures into + 32 <= bytes
  {
    assert bytes * n == 32 * (16 * per * n);
    DivisionIs(into, 32, index - 16 * per * n, 0);
  }

  /** The bytes read for an entry are the entry. */
  lemma EntryWasRead(d: BlockDevice, g: Geometry, directory: u32, index: nat, bytes: seq<u8>)
    requires d.Valid() && g.Sound() && |bytes| == 32
    requires forall k :: 0 <= k < 32 ==> ChainByte(d, g, directory, 32 * index + (k - 0)) == Some(bytes[k])
    ensures EntryAt(d, g, directory, index) == Some(bytes)
  {
    hide ChainByte;
    forall o {:trigger ChainByte(d, g, directory, o)} | 32 * index <= o < 32 * index + 32
      ensures ChainByte(d, g, directory, o).Some?
    {
      assert ChainByte(d, g, directory, 32 * index + (o - 32 * index - 0)) == Some(bytes[o - 32 * index]);
    }
    forall k | 0 <= k < 32
      ensures ChainSlice(d, g, directory, 32 * index, 32)[k] == bytes[k]
    {
      assert ChainByte(d, g, directory, 32 * index + (k - 0)) == Some(bytes[k]);
      assert 32 * index + (k - 0) == 32 * index + k;
      assert ByteOf(d, g, directory, 32 * index + k) == bytes[k];
    }
    assert ChainSlice(d, g, directory, 32 * index, 32) == bytes;
  }

  // ----- paths -----

  const SEPARATOR: u8 := 0x2F

  function SkipSeparators(path: seq<u8>, i: nat): (j: nat)
    requires i <= |path|
    ensures i <= j <= |path| && (j < |path| ==> path[j] != SEPARATOR)
    decreases |path| - i
  {
    if i < |path| && path[i] == SEPARATOR then SkipSeparators(path, i + 1) else i
  }

  function ComponentEnd(path: seq<u8>, i: nat): (j: nat)
    requires i <= |path|
    ensures i <= j <= |path| && (j < |path| ==> path[j] == SEPARATOR)
    decreases |path| - i
  {
    if i < |path| && path[i] != SEPARATOR then ComponentEnd(path, i + 1) else i
  }

  /** A search starts with no long name, and with whatever the text happens to hold. */
  ghost predicate Blank(p: Pending) {
    |p.text| == 260 && p.length == 0 && !p.valid
  }

  ghost predicate MayFind(d: BlockDevice, g: Geometry, directory: u32, name: seq<u8>, found: Found)
    requires d.Valid() && g.Sound()
  {
    exists p :: Blank(p) && Search(d, g, directory, name, 0, p) == Some(found)
  }

  ghost predicate MustFind(d: BlockDevice, g: Geometry, directory: u32, name: seq<u8>, found: Found)
    requires d.Valid() && g.Sound()
  {
    forall p :: Blank(p) ==> Search(d, g, directory, name, 0, p) == Some(found)
  }

  predicate ComponentAccepted(path: seq<u8>, i: nat)
    requires i <= |path|
  {
    i < 256 && ComponentEnd(path, i) - i <= 260
  }

  /** Following a path from its `i`-th character on can lead to `result`. */
  ghost predicate MayLead(d: BlockDevice, g: Geometry, path: seq<u8>, i: nat, current: Found, result: Found)
    requires d.Valid() && g.Sound() && i <= |path| && (i < |path| ==> path[i] != SEPARATOR)
    decreases |path| - i
  {
    if i == |path| then result == current
    else
      var end := ComponentEnd(path, i);
      && ComponentAccepted(path, i) && current.directory
      && exists next :: MayFind(d, g, current.firstCluster, path[i..end], next)
           && MayLead(d, g, path, SkipSeparators(path, end), next, result)
  }

  /** It can lead nowhere else, whatever uninitialised memory holds. */
  ghost predicate MustLead(d: BlockDevice, g: Geometry, path: seq<u8>, i: nat, current: Found, result: Found)
    requires d.Valid() && g.Sound() && i <= |path| && (i < |path| ==> path[i] != SEPARATOR)
    decreases |path| - i
  {
    if i == |path| then result == current
    else
      var end := ComponentEnd(path, i);
      && ComponentAccepted(path, i) && current.directory
      && exists next :: MustFind(d, g, current.firstCluster, path[i..end], next)
           && MustLead(d, g, path, SkipSeparators(path, end), next, result)
  }

  function RootOf(g: Geometry): Found { Found(g.rootCluster, 0, true) }

  // ----- the search, as the code does it -----

  /** Whether an 8.3 entry is called `name`: the wanted characters are laid out,
      padded, and compared. */
  method NameMatches(entry: array<u8>, name: seq<u8>) returns (matched: bool)
    requires entry.Length >= 11
    ensures matched <==> ShortMatches(entry[..], name)
  {
    hide Wanted;
    var wanted := new u8[11](_ => SPACE);
    var fits := LayOut(name, wanted);
    if !fits {
      return false;
    }
    for index := 0 to 11
      invariant forall i :: 0 <= i < index ==> Upper(entry[i]) == wanted[i]
    {
      if Upper(entry[index]) != wanted[index] {
        assert Upper(entry[..][index]) != Wanted(name).value[index];
        return false;
      }
    }
    return true;
  }

  method LayOut(name: seq<u8>, wanted: array<u8>) returns (fits: bool)
    requires wanted.Length == 11 && forall i :: 0 <= i < 11 ==> wanted[i] == SPACE
    modifies wanted
    ensures fits <==> Wanted(name).Some?
    ensures fits ==> wanted[..] == Wanted(name).value
  {
    var base := 0;
    while base < |name| && name[base] != DOT
      invariant base <= |name| && forall i :: 0 <= i < base ==> name[i] != DOT
    {
      base := base + 1;
    }
    BaseLengthIs(name, base);
    if base > 8 {
      return false;
    }
    for index := 0 to base
      invariant forall i :: 0 <= i < 11 ==> wanted[i] == if i < index then Upper(name[i]) else SPACE
    {
      wanted[index] := Upper(name[index]);
    }
    if base < |name| {
      var extension := |name| - base - 1;
      if extension > 3 {
        return false;
      }
      for index := 0 to extension
        invariant forall i :: 0 <= i < base ==> wanted[i] == Upper(name[i])
        invariant forall i :: 8 <= i < 8 + index ==> wanted[i] == Upper(name[base + 1 + (i - 8)])
        invariant forall i :: base <= i < 8 || 8 + index <= i < 11 ==> wanted[i] == SPACE
      {
        wanted[8 + index] := Upper(name[base + 1 + index]);
      }
    }
    assert forall i :: 0 <= i < 11 ==> wanted[i] == WantedChar(name, base, i);
    return true;
  }

  lemma {:induction false} BaseLengthIs(name: seq<u8>, base: nat)
    requires base <= |name| && (forall i :: 0 <= i < base ==> name[i] != DOT)
    requires base < |name| ==> name[base] == DOT
    ensures BaseLength(name) == base
    decreases base
  {
    if base > 0 {
      BaseLengthIs(name[1..], base - 1);
    }
  }

  method ShortNameChecksum(name: array<u8>) returns (sum: u8)
    requires name.Length >= 11
    ensures sum == ChecksumOf(name[..], 11)
  {
    sum := 0;
    for index := 0 to 11
      invariant sum == ChecksumOf(name[..], index)
    {
      sum := (sum as int % 2 * 0x80 + sum as int / 2 + name[index] as int) % 0x100;
    }
  }

  /** The long name being collected. */
  class LongName {
    const text: array<u8>
    var length: nat
    var checksum: u8
    var valid: bool

    /** The text is left as it is found. */
    constructor ()
      ensures text.Length == 260 && length == 0 && !valid && fresh(text)
    {
      text := new u8[260];
      length, checksum, valid := 0, 0, false;
    }

    ghost function State(): (p: Pending)
      requires text.Length == 260
      reads this, text
      ensures |p.text| == 260
    {
      Pending(text[..], length, checksum, valid)
    }

    method Discard()
      requires text.Length == 260
      modifies this
      ensures State() == Reset(old(State()))
    {
      length := 0;
      valid := false;
    }

    method Accumulate(entry: array<u8>)
      requires text.Length == 260 && entry.Length == 32 && entry != text
      modifies this, text
      ensures State() == Accumulated(old(State()), entry[..])
      ensures old(length) <= 260 ==> length <= 260
    {
      hide TakeChars;
      var sequence := entry[0] as int % 0x20;
      if sequence == 0 || sequence > 20 {
        Discard();
        return;
      }
      if entry[0] / 0x40 % 2 == 1 {
        Discard();
        checksum := entry[13];
        length := sequence * 13;
        valid := true;
      }
      if !valid {
        return;
      }
      if entry[13] != checksum {
        Discard();
        return;
      }
      TakeAll(entry, (sequence - 1) * 13);
    }

    /** The loop over the characters of a fragment. A sequence number in range
        keeps every position inside the text. */
    method TakeAll(entry: array<u8>, base: nat)
      requires text.Length == 260 && entry.Length == 32 && entry != text && base + 13 <= 260
      modifies this, text
      ensures State() == TakeChars(old(State()), entry[..], base, 0)
    {
      for index := 0 to 13
        invariant TakeChars(State(), entry[..], base, index) == TakeChars(old(State()), entry[..], base, 0)
      {
        var unit := UnitAt(entry[..], index);
        var position := base + index;
        ghost var before := State();
        if unit == 0 || unit == 0xFFFF {
          if position < length {
            length := position;
          }
          assert State() == Ended(before, position);
        } else if unit > 0x7F {
          Discard();
          return;
        } else {
          var c: u8 := unit as int;
          text[position] := c;
          assert State() == before.(text := before.text[position := c]);
        }
      }
    }

    method Matches(name: seq<u8>) returns (matched: bool)
      requires text.Length == 260 && length <= 260
      ensures matched <==> LongMatches(State(), name)
    {
      if !valid || length != |name| {
        return false;
      }
      for index := 0 to |name|
        invariant forall i :: 0 <= i < index ==> Upper(text[i]) == Upper(name[i])
      {
        if Upper(text[index]) != Upper(name[index]) {
          assert Upper(State().text[index]) != Upper(name[index]);
          return false;
        }
      }
      return true;
    }
  }

  /** One entry of a directory, by a read of its chain from the beginning. */
  method ReadEntry(volume: FatVolume, directory: u32, index: nat, entry: array<u8>) returns (ok: bool)
    requires volume.Valid() && entry.Length == 32 && entry != volume.fatSector && entry != volume.device.bounce
    requires index < MaximumEntries(volume.g)
    modifies volume`fatSectorIndex, volume`fatSectorValid, volume`links, volume.fatSector, entry
    modifies volume.device.disk`served, volume.device.disk`touched, volume.device.bounce
    ensures volume.Valid()
    ensures ok ==> EntryAt(volume.device, volume.g, directory, index) == Some(entry[..])
    ensures Complete(volume.device, volume.g) && EntryAt(volume.device, volume.g, directory, index).Some? ==> ok
  {
    hide Geometry.Sound, Complete, ChainReadable, ChainByte, EntryAt;
    if EntryAt(volume.device, volume.g, directory, index).Some? {
      EntryIsReadable(volume.device, volume.g, directory, index);
    }
    var ignored;
    ok, ignored := volume.ReadChain(directory, 32 * index, 32, entry, 0, NoWalk);
    if ok {
      EntryWasRead(volume.device, volume.g, directory, index, entry[..]);
    }
  }

  /** One directory, searched for one name. What it finds is what the search comes
      to; it misses that only if the device fails. */
  method FindInDirectory(
    volume: FatVolume, directory: u32, name: seq<u8>) returns (found: Option<Found>, ghost start: Pending)
    requires volume.Valid()
    modifies volume`fatSectorIndex, volume`fatSectorValid, volume`links, volume.fatSector
    modifies volume.device.disk`served, volume.device.disk`touched, volume.device.bounce
    ensures volume.Valid() && Blank(start)
    ensures found.Some? ==> found == Search(volume.device, volume.g, directory, name, 0, start)
    ensures Complete(volume.device, volume.g) ==> found == Search(volume.device, volume.g, directory, name, 0, start)
  {
    hide Geometry.Sound, Complete, EntryAt, Accumulated, LongMatches, ShortMatches, ChecksumOf, EntryTarget;
    var entry := new u8[32](_ => 0);
    var pending := new LongName();
    start := pending.State();
    var index := 0;
    while index < MaximumEntries(volume.g)
      invariant volume.Valid() && pending.text.Length == 260 && pending.length <= 260
      invariant 0 <= index <= MaximumEntries(volume.g)
      invariant Search(volume.device, volume.g, directory, name, index, pending.State()) ==
        Search(volume.device, volume.g, directory, name, 0, start)
      decreases MaximumEntries(volume.g) - index
    {
      var got := ReadEntry(volume, directory, index, entry);
      if !got {
        return None, start;
      }
      var stop, hit := ExamineEntry(pending, entry, name);
      if stop {
        return None, start;
      }
      if hit {
        return Some(EntryTarget(entry[..])), start;
      }
      index := index + 1;
    }
    return None, start;
  }

  /** The body of the search loop. */
  method ExamineEntry(pending: LongName, entry: array<u8>, name: seq<u8>) returns (stop: bool, hit: bool)
    requires pending.text.Length == 260 && pending.length <= 260 && entry.Length == 32 && entry != pending.text
    modifies pending, pending.text
    ensures pending.length <= 260
    ensures Examined(old(pending.State()), entry[..], name) ==
      if stop then Finished else if hit then Hit(EntryTarget(entry[..])) else Skip(pending.State())
  {
    hide Accumulated, LongMatches, ShortMatches, ChecksumOf, EntryTarget;
    stop, hit := false, false;
    if entry[0] == 0x00 {
      return true, false;
    }
    if entry[0] == 0xE5 {
      pending.Discard();
      return;
    }
    if entry[11] == 0x0F {
      pending.Accumulate(entry);
      return;
    }
    var sum := ShortNameChecksum(entry);
    var longBelongs := pending.valid && pending.checksum == sum;
    var longMatched := pending.Matches(name);
    var shortMatched := NameMatches(entry, name);
    pending.Discard();
    if entry[11] / 0x08 % 2 == 1 {
      return;
    }
    hit := (longBelongs && longMatched) || shortMatched;
  }

  /** Opening a path: component by component, from the root directory. A file it
      opens is one the path can lead to; and on a device that does not fail it
      opens the one the path must lead to. */
  method Open(volume: FatVolume, path: seq<u8>) returns (file: FatFile?)
    requires volume.Valid()
    modifies volume`fatSectorIndex, volume`fatSectorValid, volume`links, volume.fatSector
    modifies volume.device.disk`served, volume.device.disk`touched, volume.device.bounce
    ensures volume.Valid()
    ensures file != null ==> fresh(file) && file.volume == volume && file.Valid()
    ensures file != null ==> MayLead(volume.device, volume.g, path, SkipSeparators(path, 0), RootOf(volume.g),
      Found(file.firstCluster, file.size, file.directory))
    ensures Complete(volume.device, volume.g) ==> forall result ::
      MustLead(volume.device, volume.g, path, SkipSeparators(path, 0), RootOf(volume.g), result) ==>
        file != null && Found(file.firstCluster, file.size, file.directory) == result
  {
    var found := OpenTarget(volume, path);
    if found.None? {
      return null;
    }
    file := new FatFile(volume, found.value.firstCluster, found.value.size, found.value.directory);
  }

  method OpenTarget(volume: FatVolume, path: seq<u8>) returns (found: Option<Found>)
    requires volume.Valid()
    modifies volume`fatSectorIndex, volume`fatSectorValid, volume`links, volume.fatSector
    modifies volume.device.disk`served, volume.device.disk`touched, volume.device.bounce
    ensures volume.Valid()
    ensures found.Some? ==>
      MayLead(volume.device, volume.g, path, SkipSeparators(path, 0), RootOf(volume.g), found.value)
    ensures Complete(volume.device, volume.g) ==> forall result ::
      MustLead(volume.device, volume.g, path, SkipSeparators(path, 0), RootOf(volume.g), result) ==>
        found == Some(result)
  {
    hide Geometry.Sound, Complete, Search, MayFind, MustFind;
    ghost var d, g := volume.device, volume.g;
    ghost var begin := SkipSeparators(path, 0);
    var current := RootOf(volume.g);
    var index := SkipSeparators(path, 0);
    while index < |path|
      invariant volume.Valid() && index <= |path| && (index < |path| ==> path[index] != SEPARATOR)
      invariant forall result :: MayLead(d, g, path, index, current, result) ==>
        MayLead(d, g, path, begin, RootOf(g), result)
      invariant Complete(d, g) ==> forall result ::
        MustLead(d, g, path, begin, RootOf(g), result) ==> MustLead(d, g, path, index, current, result)
      decreases |path| - index
    {
      if index >= 256 || !current.directory {
        return None;
      }
      var end := ComponentEnd(path, index);
      if end - index > 260 {
        return None;
      }
      assert end > index;
      var next, start := FindInDirectory(volume, current.firstCluster, path[index..end]);
      FoundOrNot(d, g, current.firstCluster, path[index..end], next, start);
      if next.None? {
        return None;
      }
      LeadsOn(d, g, path, index, current, next.value);
      current := next.value;
      index := SkipSeparators(path, end);
    }
    assert MayLead(d, g, path, index, current, current);
    return Some(current);
  }

  /** What one search says about where a path may and must go. */
  lemma FoundOrNot(d: BlockDevice, g: Geometry, directory: u32, name: seq<u8>, found: Option<Found>, start: Pending)
    requires d.Valid() && g.Sound() && Blank(start)
    requires found.Some? || Complete(d, g) ==> found == Search(d, g, directory, name, 0, start)
    ensures found.Some? ==> MayFind(d, g, directory, name, found.value)
    ensures Complete(d, g) ==> forall next :: MustFind(d, g, directory, name, next) ==> found == Some(next)
  {
    hide Search, Complete;
  }

  ghost predicate OnlyFinds(d: BlockDevice, g: Geometry, directory: u32, name: seq<u8>, next: Found)
    requires d.Valid() && g.Sound()
  {
    forall other :: MustFind(d, g, directory, name, other) ==> other == next
  }

  lemma LeadsOn(d: BlockDevice, g: Geometry, path: seq<u8>, index: nat, current: Found, next: Found)
    requires d.Valid() && g.Sound() && index < |path| && path[index] != SEPARATOR
    requires index < 256 && current.directory && ComponentEnd(path, index) - index <= 260
    requires MayFind(d, g, current.firstCluster, path[index..ComponentEnd(path, index)], next)
    ensures forall result :: MayLead(d, g, path, SkipSeparators(path, ComponentEnd(path, index)), next, result) ==>
      MayLead(d, g, path, index, current, result)
    ensures OnlyFinds(d, g, current.firstCluster, path[index..ComponentEnd(path, index)], next) ==>
      forall result :: MustLead(d, g, path, index, current, result) ==>
        MustLead(d, g, path, SkipSeparators(path, ComponentEnd(path, index)), next, result)
  {
    hide MayFind, MustFind;
  }
}
