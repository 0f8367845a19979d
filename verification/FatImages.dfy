/** The writer of FAT32 volumes, tools/make-image.py: 4096 sectors, 32 of them
    reserved, two FATs of 32 sectors each, one sector to a cluster. */
module FatImages {
  import opened Words
  import opened FatLayout
  import opened FatNames

  /** A file to be written: its 8.3 name, padded, and its contents. */
  datatype FileSpec = FileSpec(name: seq<u8>, contents: seq<u8>)

  const FAT_ENTRY_END: u32 := 0x0FFF_FFFF

  // ----- what is to be written where -----

  /** An empty file gets a cluster too. */
  function Needed(length: nat): (n: nat)
    ensures n >= 1 && length <= n * 512 && (length > 0 ==> (n - 1) * 512 < length)
  {
    var n := (length + 511) / 512;
    if n < 1 then 1 else n
  }

  /** The first free cluster once `n` files have theirs. */
  function FirstFree(files: seq<FileSpec>, n: nat): (cluster: nat)
    requires n <= |files|
    ensures cluster >= 3 + n
  {
    if n == 0 then 3 else FirstFree(files, n - 1) + Needed(|files[n - 1].contents|)
  }

  /** The lists of files the writer accepts: one cluster of directory entries, and
      clusters below the count of them. */
  predicate Fits(files: seq<FileSpec>) {
    |files| <= 16 && FirstFree(files, |files|) <= 4000
  }

  lemma {:induction false} FirstFreeGrows(files: seq<FileSpec>, m: nat, n: nat)
    requires m <= n <= |files|
    ensures FirstFree(files, m) <= FirstFree(files, n)
    ensures m < n ==> FirstFree(files, m) + Needed(|files[m].contents|) <= FirstFree(files, n)
  {
    if m < n {
      FirstFreeGrows(files, m, n - 1);
    }
  }

  lemma FirstFreeStep(files: seq<FileSpec>, n: nat)
    requires n < |files|
    ensures FirstFree(files, n + 1) == FirstFree(files, n) + Needed(|files[n].contents|)
  {
  }

  // ----- what is where in a volume -----

  function ClusterBase(cluster: int): int { 49152 + (cluster - 2) * 512 }

  function Word(v: seq<u8>, copy: nat, cluster: nat): (value: u32)
    requires |v| == 2097152 && copy < 2 && cluster < 4096
  {
    U32At(v, 16384 + copy * 16384 + 4 * cluster)
  }

  /** Both FATs say so. */
  ghost predicate Linked(v: seq<u8>, cluster: nat, value: u32)
    requires |v| == 2097152 && cluster < 4096
  {
    Word(v, 0, cluster) == value && Word(v, 1, cluster) == value
  }

  function LinkFor(last: nat, cluster: nat): u32
    requires cluster < 4096
  {
    if cluster == last then 0x0FFF_FFFF else cluster + 1
  }

  function ContentByte(contents: seq<u8>, p: int): u8 {
    if 0 <= p < |contents| then contents[p] else 0
  }

  ghost predicate LinkedOn(v: seq<u8>, cluster: nat, last: nat)
    requires |v| == 2097152 && cluster < 4096
  {
    Linked(v, cluster, LinkFor(last, cluster))
  }

  ghost predicate ChainLaid(v: seq<u8>, first: nat, end: nat, last: nat)
    requires |v| == 2097152 && end <= 4096
  {
    forall c :: first <= c < end ==> LinkedOn(v, c, last)
  }

  ghost predicate DataLaid(v: seq<u8>, first: nat, end: nat, contents: seq<u8>)
    requires |v| == 2097152 && 2 <= first && end <= 4002
  {
    forall k :: ClusterBase(first) <= k < ClusterBase(end) ==> v[k] == ContentByte(contents, k - ClusterBase(first))
  }

  /** Clusters one after another, chained, holding the contents and then zeros. */
  ghost predicate FileLaid(v: seq<u8>, first: nat, contents: seq<u8>)
    requires |v| == 2097152
  {
    var n := Needed(|contents|);
    && 3 <= first && first + n <= 4002
    && ChainLaid(v, first, first + n, first + n - 1) && DataLaid(v, first, first + n, contents)
  }

  function RootEntry(v: seq<u8>, slot: nat): Entry
    requires |v| == 2097152 && slot < 16
  {
    v[49152 + 32 * slot..49152 + 32 * slot + 32]
  }

  ghost predicate EntryLaid(v: seq<u8>, slot: nat, file: FileSpec, first: nat)
    requires |v| == 2097152 && slot < 16
  {
    var e := RootEntry(v, slot);
    && e[..11] == file.name && e[11] == 0x20
    && U16At(e, 20) == first / 0x1_0000 && U16At(e, 26) == first % 0x1_0000
    && U32At(e, 28) == |file.contents|
    && forall k :: 12 <= k < 20 || 22 <= k < 26 ==> e[k] == 0
  }

  function BootRecordWritten(): BootRecord {
    BootRecord(0xAA55, 512, 1, 32, 2, 0, 0, 0, 4096, 32, 2)
  }

  ghost predicate ZeroFrom(v: seq<u8>, start: int, end: int)
    requires 0 <= start && end <= |v|
  {
    forall k :: start <= k < end ==> v[k] == 0
  }

  /** What no file takes up is empty. */
  ghost predicate RestEmpty(v: seq<u8>, free: nat, n: nat)
    requires |v| == 2097152 && free <= 4000 && n <= 16
  {
    && ZeroFrom(v, 16384 + 4 * free, 32768) && ZeroFrom(v, 32768 + 4 * free, 49152)
    && ZeroFrom(v, 49152 + 32 * n, ClusterBase(3)) && ZeroFrom(v, ClusterBase(free), 2097152)
  }

  /** Every byte of the boot sector. */
  function BootByte(k: nat): u8 {
    if k == 12 || k == 16 || k == 44 then 2
    else if k == 13 then 1
    else if k == 14 || k == 36 then 32
    else if k == 21 then 0xF8
    else if k == 33 then 0x10
    else if k == 510 then 0x55
    else if k == 511 then 0xAA
    else 0
  }

  ghost predicate BootSectorWritten(v: seq<u8>)
    requires |v| >= 512
  {
    forall k :: 0 <= k < 512 ==> v[k] == BootByte(k)
  }

  /** The reserved sectors, and the links that are there before any file. */
  ghost predicate StartWritten(v: seq<u8>)
    requires |v| == 2097152
  {
    && BootSectorWritten(v) && ZeroFrom(v, 512, 16384)
    && Linked(v, 0, 0x0FFF_FFF8) && Linked(v, 1, 0x0FFF_FFFF) && Linked(v, 2, 0x0FFF_FFFF)
  }

  /** A file and its entry. */
  ghost predicate Placed(v: seq<u8>, files: seq<FileSpec>, i: nat)
    requires |v| == 2097152 && i < |files| && i < 16
  {
    FileLaid(v, FirstFree(files, i), files[i].contents) && EntryLaid(v, i, files[i], FirstFree(files, i))
  }

  /** The volume with the first `n` files on it, and nothing else. */
  ghost predicate Holds(v: seq<u8>, files: seq<FileSpec>, n: nat)
    requires n <= |files|
  {
    && |v| == 2097152 && n <= 16 && FirstFree(files, n) <= 4000
    && StartWritten(v) && RestEmpty(v, FirstFree(files, n), n)
    && forall i :: 0 <= i < n ==> Placed(v, files, i)
  }

  // ----- what a change leaves alone -----

  /** The bytes that belong to the file in these clusters. */
  predicate InFile(k: int, first: int, n: int) {
    || 16384 + 4 * first <= k < 16384 + 4 * (first + n)
    || 32768 + 4 * first <= k < 32768 + 4 * (first + n)
    || ClusterBase(first) <= k < ClusterBase(first + n)
  }

  predicate InSlot(k: int, slot: int) { 49152 + 32 * slot <= k < 49152 + 32 * slot + 32 }

  lemma SameWord(v: seq<u8>, w: seq<u8>, at: nat)
    requires |v| == |w| && at + 4 <= |v| && forall k :: at <= k < at + 4 ==> v[k] == w[k]
    ensures U32At(v, at) == U32At(w, at)
  {
  }

  /** The two words of a link. */
  predicate InWords(k: int, cluster: int) {
    16384 + 4 * cluster <= k < 16384 + 4 * cluster + 4 || 32768 + 4 * cluster <= k < 32768 + 4 * cluster + 4
  }

  lemma LinkStays(v: seq<u8>, w: seq<u8>, cluster: nat, value: u32)
    requires |v| == 2097152 == |w| && cluster < 4096 && Linked(v, cluster, value)
    requires forall k :: 0 <= k < |v| && InWords(k, cluster) ==> v[k] == w[k]
    ensures Linked(w, cluster, value)
  {
    hide U32At;
    WordStays(v, w, 16384 + 4 * cluster, cluster);
    WordStays(v, w, 32768 + 4 * cluster, cluster);
  }

  lemma WordStays(v: seq<u8>, w: seq<u8>, at: nat, cluster: nat)
    requires |v| == 2097152 == |w| && cluster < 4096 && (at == 16384 + 4 * cluster || at == 32768 + 4 * cluster)
    requires forall k :: 0 <= k < |v| && InWords(k, cluster) ==> v[k] == w[k]
    ensures U32At(v, at) == U32At(w, at)
  {
    assert InWords(at, cluster) && InWords(at + 1, cluster) && InWords(at + 2, cluster) && InWords(at + 3, cluster);
  }

  /** A file is where it was as long as its own bytes are. */
  lemma FileStays(v: seq<u8>, w: seq<u8>, first: nat, contents: seq<u8>)
    requires |v| == 2097152 == |w| && FileLaid(v, first, contents)
    requires forall k :: 0 <= k < |v| && InFile(k, first, Needed(|contents|)) ==> v[k] == w[k]
    ensures FileLaid(w, first, contents)
  {
    var n := Needed(|contents|);
    var last := first + n - 1;
    forall c | first <= c < first + n
      ensures LinkedOn(w, c, last)
    {
      assert LinkedOn(v, c, last);
      forall k | 0 <= k < |v| && InWords(k, c)
        ensures v[k] == w[k]
      {
        assert InFile(k, first, n);
      }
      LinkStays(v, w, c, LinkFor(last, c));
    }
    forall k | ClusterBase(first) <= k < ClusterBase(first + n)
      ensures w[k] == ContentByte(contents, k - ClusterBase(first))
    {
      assert InFile(k, first, n);
    }
  }

  lemma EntryStays(v: seq<u8>, w: seq<u8>, slot: nat, file: FileSpec, first: nat)
    requires |v| == 2097152 == |w| && slot < 16 && EntryLaid(v, slot, file, first)
    requires forall k :: 0 <= k < |v| && InSlot(k, slot) ==> v[k] == w[k]
    ensures EntryLaid(w, slot, file, first)
  {
    assert forall k :: 49152 + 32 * slot <= k < 49152 + 32 * slot + 32 ==> InSlot(k, slot) && v[k] == w[k];
    assert RootEntry(v, slot) == RootEntry(w, slot);
  }

  /** What writing one file and its entry may touch. */
  ghost predicate OnlyFileAndEntry(v: seq<u8>, w: seq<u8>, first: nat, n: nat, slot: nat) {
    |v| == |w| && forall k :: 0 <= k < |v| && !InFile(k, first, n) && !InSlot(k, slot) ==> w[k] == v[k]
  }

  lemma OthersApart(files: seq<FileSpec>, i: nat, n: nat, k: int)
    requires i < n < |files| && n < 16 && FirstFree(files, n) + Needed(|files[n].contents|) <= 4000
    ensures var first, needed := FirstFree(files, n), Needed(|files[n].contents|);
      && (InFile(k, FirstFree(files, i), Needed(|files[i].contents|)) ==> !InFile(k, first, needed) && !InSlot(k, n))
      && (InSlot(k, i) ==> !InFile(k, first, needed) && !InSlot(k, n))
  {
    FirstFreeGrows(files, i, n);
  }

  /** The files there are, and their entries, are not touched. */
  lemma OthersStay(v: seq<u8>, w: seq<u8>, files: seq<FileSpec>, n: nat, i: nat)
    requires i < n < |files| && n < 16 && Holds(v, files, n)
    requires FirstFree(files, n) + Needed(|files[n].contents|) <= 4000
    requires OnlyFileAndEntry(v, w, FirstFree(files, n), Needed(|files[n].contents|), n)
    ensures Placed(w, files, i)
  {
    hide FileLaid, EntryLaid, Needed, RestEmpty, StartWritten, InFile, InSlot, ClusterBase;
    assert Placed(v, files, i);
    forall k | 0 <= k < |v|
      ensures InFile(k, FirstFree(files, i), Needed(|files[i].contents|)) || InSlot(k, i) ==> v[k] == w[k]
    {
      OthersApart(files, i, n, k);
    }
    FileStays(v, w, FirstFree(files, i), files[i].contents);
    EntryStays(v, w, i, files[i], FirstFree(files, i));
  }

  lemma RestStays(v: seq<u8>, w: seq<u8>, free: nat, needed: nat, n: nat)
    requires |v| == 2097152 && 3 <= free && free + needed <= 4000 && n < 16
    requires RestEmpty(v, free, n) && OnlyFileAndEntry(v, w, free, needed, n)
    ensures RestEmpty(w, free + needed, n + 1)
  {
  }

  lemma StartStays(v: seq<u8>, w: seq<u8>, free: nat, needed: nat, n: nat)
    requires |v| == 2097152 && 3 <= free && free + needed <= 4000 && n < 16
    requires StartWritten(v) && OnlyFileAndEntry(v, w, free, needed, n)
    ensures StartWritten(w)
  {
    hide BootByte, Linked;
    LinkStays(v, w, 0, 0x0FFF_FFF8);
    LinkStays(v, w, 1, FAT_ENTRY_END);
    LinkStays(v, w, 2, FAT_ENTRY_END);
  }

  /** One more file keeps those there are. */
  lemma OneMore(v: seq<u8>, w: seq<u8>, files: seq<FileSpec>, n: nat)
    requires n < |files| && n < 16 && Holds(v, files, n)
    requires var first, needed := FirstFree(files, n), Needed(|files[n].contents|);
      && first + needed <= 4000 && OnlyFileAndEntry(v, w, first, needed, n)
      && FileLaid(w, first, files[n].contents) && EntryLaid(w, n, files[n], first)
    ensures Holds(w, files, n + 1)
  {
    hide FileLaid, EntryLaid, Needed, RestEmpty, StartWritten, InFile, InSlot, FirstFree;
    FirstFreeStep(files, n);
    RestStays(v, w, FirstFree(files, n), Needed(|files[n].contents|), n);
    StartStays(v, w, FirstFree(files, n), Needed(|files[n].contents|), n);
    forall i | 0 <= i < n
      ensures Placed(w, files, i)
    {
      OthersStay(v, w, files, n, i);
    }
  }

  // ----- the volume is determined -----

  lemma SameLinkBytes(v: seq<u8>, w: seq<u8>, cluster: nat, value: u32, k: int)
    requires |v| == 2097152 == |w| && cluster < 4096 && Linked(v, cluster, value) && Linked(w, cluster, value)
    requires InWords(k, cluster)
    ensures v[k] == w[k]
  {
    WordBytes(v, w, 16384 + 4 * cluster);
    WordBytes(v, w, 32768 + 4 * cluster);
  }

  /** A number has one way of being written in bytes. */
  lemma WordBytes(v: seq<u8>, w: seq<u8>, at: nat)
    requires at + 4 <= |v| && at + 4 <= |w| && U32At(v, at) == U32At(w, at)
    ensures v[at] == w[at] && v[at + 1] == w[at + 1] && v[at + 2] == w[at + 2] && v[at + 3] == w[at + 3]
  {
    var a2, b2: int := v[at + 3] as int * 0x100 + v[at + 2] as int, w[at + 3] as int * 0x100 + w[at + 2] as int;
    var a1, b1 := a2 * 0x100 + v[at + 1] as int, b2 * 0x100 + w[at + 1] as int;
    SameDigits(a1, v[at], b1, w[at]);
    SameDigits(a2, v[at + 1], b2, w[at + 1]);
    SameDigits(v[at + 3], v[at + 2], w[at + 3], w[at + 2]);
  }

  lemma SameDigits(a: int, low: u8, b: int, low': u8)
    requires a * 0x100 + low as int == b * 0x100 + low' as int
    ensures a == b && low == low'
  {
  }

  lemma SameFileBytes(v: seq<u8>, w: seq<u8>, first: nat, contents: seq<u8>, k: int)
    requires |v| == 2097152 == |w| && FileLaid(v, first, contents) && FileLaid(w, first, contents)
    requires InFile(k, first, Needed(|contents|))
    ensures v[k] == w[k]
  {
    hide Linked, Needed;
    var last := first + Needed(|contents|) - 1;
    if k < 49152 {
      var cluster := if k < 32768 then (k - 16384) / 4 else (k - 32768) / 4;
      assert LinkedOn(v, cluster, last) && LinkedOn(w, cluster, last);
      SameLinkBytes(v, w, cluster, LinkFor(last, cluster), k);
    }
  }

  lemma SameEntryBytes(v: seq<u8>, w: seq<u8>, slot: nat, file: FileSpec, first: nat, k: int)
    requires |v| == 2097152 == |w| && slot < 16 && InSlot(k, slot)
    requires EntryLaid(v, slot, file, first) && EntryLaid(w, slot, file, first)
    ensures v[k] == w[k]
  {
    var e, f := RootEntry(v, slot), RootEntry(w, slot);
    EntryBytes(e, f);
    assert e[k - (49152 + 32 * slot)] == f[k - (49152 + 32 * slot)];
  }

  lemma EntryBytes(e: Entry, f: Entry)
    requires e[..11] == f[..11] && e[11] == f[11] && U16At(e, 20) == U16At(f, 20) && U16At(e, 26) == U16At(f, 26)
    requires U32At(e, 28) == U32At(f, 28) && forall k :: 12 <= k < 20 || 22 <= k < 26 ==> e[k] == f[k]
    ensures e == f
  {
    WordBytes(e, f, 28);
    HalfBytes(e, f, 20);
    HalfBytes(e, f, 26);
    forall k | 0 <= k < 11
      ensures e[k] == f[k]
    {
      assert e[..11][k] == f[..11][k];
    }
  }

  lemma HalfBytes(e: Entry, f: Entry, at: nat)
    requires at + 2 <= 32 && U16At(e, at) == U16At(f, at)
    ensures e[at] == f[at] && e[at + 1] == f[at + 1]
  {
  }

  /** Whose bytes are whose. */
  ghost predicate Owned(files: seq<FileSpec>, n: nat, k: int)
    requires n <= |files|
  {
    exists i :: 0 <= i < n && (InFile(k, FirstFree(files, i), Needed(|files[i].contents|)) || InSlot(k, i))
  }

  /** What no file owns is at the start, or empty. */
  lemma {:induction false} OwnedOrFree(files: seq<FileSpec>, n: nat, k: int)
    requires n <= |files| && n <= 16 && FirstFree(files, n) <= 4000
    requires 16396 <= k < 16384 + 4 * FirstFree(files, n) || 32780 <= k < 32768 + 4 * FirstFree(files, n)
      || 49152 <= k < 49152 + 32 * n || ClusterBase(3) <= k < ClusterBase(FirstFree(files, n))
    ensures Owned(files, n, k)
  {
    if n > 0 {
      FirstFreeStep(files, n - 1);
      if InFile(k, FirstFree(files, n - 1), Needed(|files[n - 1].contents|)) || InSlot(k, n - 1) {
        assert Owned(files, n, k);
      } else {
        OwnedOrFree(files, n - 1, k);
        var i :| 0 <= i < n - 1 && (InFile(k, FirstFree(files, i), Needed(|files[i].contents|)) || InSlot(k, i));
      }
    }
  }

  /** There is one volume with these files: every byte of it is decided. */
  lemma VolumeIsDetermined(v: seq<u8>, w: seq<u8>, files: seq<FileSpec>)
    requires Holds(v, files, |files|) && Holds(w, files, |files|)
    ensures v == w
  {
    hide FileLaid, EntryLaid, Linked, FirstFree, Needed, StartWritten, RestEmpty, Placed, InFile, InSlot, Owned;
    forall k | 0 <= k < |v|
      ensures v[k] == w[k]
    {
      SameByte(v, w, files, k);
    }
  }

  lemma SameByte(v: seq<u8>, w: seq<u8>, files: seq<FileSpec>, k: int)
    requires Holds(v, files, |files|) && Holds(w, files, |files|) && 0 <= k < 2097152
    ensures v[k] == w[k]
  {
    hide FileLaid, EntryLaid, Linked, FirstFree, Needed, Placed, InFile, InSlot, BootByte;
    var n, free := |files|, FirstFree(files, |files|);
    if 16384 <= k < 16396 || 32768 <= k < 32780 {
      StartBytes(v, w, k);
    } else if
      || 16396 <= k < 16384 + 4 * free || 32780 <= k < 32768 + 4 * free
      || 49152 <= k < 49152 + 32 * n || ClusterBase(3) <= k < ClusterBase(free)
    {
      OwnedOrFree(files, n, k);
      var i :| 0 <= i < n && (InFile(k, FirstFree(files, i), Needed(|files[i].contents|)) || InSlot(k, i));
      OwnedBytes(v, w, files, i, k);
    }
  }

  lemma OwnedBytes(v: seq<u8>, w: seq<u8>, files: seq<FileSpec>, i: nat, k: int)
    requires |v| == 2097152 == |w| && i < |files| && i < 16 && Placed(v, files, i) && Placed(w, files, i)
    requires InFile(k, FirstFree(files, i), Needed(|files[i].contents|)) || InSlot(k, i)
    ensures 0 <= k < 2097152 && v[k] == w[k]
  {
    hide FirstFree, Needed, Linked;
    if InSlot(k, i) {
      SameEntryBytes(v, w, i, files[i], FirstFree(files, i), k);
    } else {
      SameFileBytes(v, w, FirstFree(files, i), files[i].contents, k);
    }
  }

  lemma StartBytes(v: seq<u8>, w: seq<u8>, k: int)
    requires |v| == 2097152 == |w| && StartWritten(v) && StartWritten(w)
    requires 16384 <= k < 16396 || 32768 <= k < 32780
    ensures v[k] == w[k]
  {
    hide Linked;
    if InWords(k, 0) {
      SameLinkBytes(v, w, 0, 0x0FFF_FFF8, k);
    } else if InWords(k, 1) {
      SameLinkBytes(v, w, 1, FAT_ENTRY_END, k);
    } else {
      SameLinkBytes(v, w, 2, FAT_ENTRY_END, k);
    }
  }

  // ----- the writer -----

  method PutU16(buffer: array<u8>, offset: nat, value: u16)
    requires offset + 2 <= buffer.Length
    modifies buffer
    ensures buffer[offset] == value as int % 0x100 && buffer[offset + 1] == value as int / 0x100
    ensures forall k :: 0 <= k < buffer.Length && !(offset <= k < offset + 2) ==> buffer[k] == old(buffer[k])
  {
    buffer[offset], buffer[offset + 1] := value as int % 0x100, value as int / 0x100;
  }

  method PutU32(buffer: array<u8>, offset: nat, value: u32)
    requires offset + 4 <= buffer.Length
    modifies buffer
    ensures U32At(buffer[..], offset) == value
    ensures value < 0x1_0000 ==> buffer[offset] == value as int % 0x100 && buffer[offset + 1] == value as int / 0x100
    ensures value < 0x1_0000 ==> buffer[offset + 2] == 0 == buffer[offset + 3]
    ensures forall k :: 0 <= k < buffer.Length && !(offset <= k < offset + 4) ==> buffer[k] == old(buffer[k])
  {
    var rest: int := value;
    buffer[offset], rest := rest % 0x100, rest / 0x100;
    buffer[offset + 1], rest := rest % 0x100, rest / 0x100;
    buffer[offset + 2], buffer[offset + 3] := rest % 0x100, rest / 0x100;
  }

  method SetFat(volume: array<u8>, cluster: nat, value: u32)
    requires volume.Length == 2097152 && cluster < 4096
    modifies volume
    ensures Linked(volume[..], cluster, value)
    ensures forall k :: 0 <= k < volume.Length && !InWords(k, cluster) ==> volume[k] == old(volume[k])
  {
    hide U32At;
    for index := 0 to 2
      invariant index > 0 ==> Word(volume[..], 0, cluster) == value
      invariant index > 1 ==> Word(volume[..], 1, cluster) == value
      invariant forall k :: 0 <= k < volume.Length && !InWords(k, cluster) ==> volume[k] == old(volume[k])
    {
      var base := (32 + index * 32) * 512;
      ghost var before := volume[..];
      PutU32(volume, base + cluster * 4, value);
      if index == 1 {
        SameWord(before, volume[..], 16384 + 4 * cluster);
      }
    }
  }

  /** What the reader makes of the boot sector. */
  lemma BootBytesMean(v: seq<u8>)
    requires |v| >= 512 && BootSectorWritten(v)
    ensures BootFields(v[..512]) == BootRecordWritten()
  {
    var s := v[..512];
    assert forall k :: 0 <= k < 512 ==> s[k] == BootByte(k);
  }

  /** The boot sector. */
  method WriteBootRecord(volume: array<u8>)
    requires volume.Length == 2097152 && forall k :: 0 <= k < volume.Length ==> volume[k] == 0
    modifies volume
    ensures BootSectorWritten(volume[..])
    ensures forall k :: 512 <= k < volume.Length ==> volume[k] == 0
  {
    WriteSizes(volume);
    WriteCounts(volume);
  }

  method WriteSizes(volume: array<u8>)
    requires volume.Length == 2097152
    modifies volume
    requires forall k :: 0 <= k < 24 ==> volume[k] == 0
    ensures forall k :: 0 <= k < 24 ==> volume[k] == BootByte(k)
    ensures forall k :: 24 <= k < volume.Length ==> volume[k] == old(volume[k])
  {
    PutU16(volume, 11, 512);
    volume[13] := 1;
    PutU16(volume, 14, 32);
    volume[16] := 2;
    PutU16(volume, 17, 0);
    PutU16(volume, 19, 0);
    volume[21] := 0xF8;
    PutU16(volume, 22, 0);
  }

  method WriteCounts(volume: array<u8>)
    requires volume.Length == 2097152
    modifies volume
    requires forall k :: 24 <= k < 512 ==> volume[k] == 0
    ensures forall k :: 24 <= k < 512 ==> volume[k] == BootByte(k)
    ensures forall k :: 0 <= k < 24 || 512 <= k < volume.Length ==> volume[k] == old(volume[k])
  {
    hide U32At;
    PutU32(volume, 32, 4096);
    PutU32(volume, 36, 32);
    PutU32(volume, 44, 2);
    PutU16(volume, 510, 0xAA55);
  }

  /** The part of the contents for one cluster. */
  function Piece(contents: seq<u8>, index: nat): (piece: seq<u8>)
    ensures |piece| <= 512
  {
    var start, end := 512 * index, if 512 * index + 512 < |contents| then 512 * index + 512 else |contents|;
    if start <= end then contents[start..end] else []
  }

  /** The clusters of one file. */
  method WriteFile(volume: array<u8>, first: nat, contents: seq<u8>)
    requires volume.Length == 2097152 && 3 <= first && first + Needed(|contents|) <= 4002
    requires ZeroFrom(volume[..], ClusterBase(first), ClusterBase(first + Needed(|contents|)))
    modifies volume
    ensures FileLaid(volume[..], first, contents)
    ensures forall k :: 0 <= k < volume.Length && !InFile(k, first, Needed(|contents|)) ==> volume[k] == old(volume[k])
  {
    hide Word, Linked, Needed, ContentByte, Piece;
    var needed := Needed(|contents|);
    var last := first + needed - 1;
    for index := 0 to needed
      invariant ChainLaid(volume[..], first, first + index, last)
      invariant DataLaid(volume[..], first, first + index, contents)
      invariant forall k :: 0 <= k < volume.Length && !InFile(k, first, index) ==> volume[k] == old(volume[k])
    {
      var cluster := first + index;
      ghost var before := volume[..];
      SetFat(volume, cluster, if index == needed - 1 then FAT_ENTRY_END else cluster + 1);
      ghost var between := volume[..];
      WritePiece(volume, ClusterBase(cluster), Piece(contents, index));
      ChainGrows(before, between, volume[..], first, cluster, last);
      DataGrows(before, volume[..], first, index, contents);
    }
  }

  lemma DataGrows(v: seq<u8>, w: seq<u8>, first: nat, index: nat, contents: seq<u8>)
    requires |v| == |w| == 2097152 && 3 <= first && first + index < 4002 && DataLaid(v, first, first + index, contents)
    requires var at, piece := ClusterBase(first + index), Piece(contents, index);
      && (forall k :: at <= k < at + |piece| ==> w[k] == piece[k - at])
      && (forall k :: at + |piece| <= k < at + 512 ==> w[k] == 0)
      && (forall k :: ClusterBase(first) <= k < at ==> w[k] == v[k])
    ensures DataLaid(w, first, first + index + 1, contents)
  {
  }

  /** A link is set, and then data written behind the FATs. */
  lemma ChainGrows(v: seq<u8>, between: seq<u8>, w: seq<u8>, first: nat, cluster: nat, last: nat)
    requires |v| == |between| == |w| == 2097152 && 2 <= first <= cluster < 4002
    requires ChainLaid(v, first, cluster, last) && LinkedOn(between, cluster, last)
    requires forall k :: 0 <= k < |v| && !InWords(k, cluster) ==> between[k] == v[k]
    requires forall k :: 0 <= k < 49152 ==> w[k] == between[k]
    ensures ChainLaid(w, first, cluster + 1, last)
  {
    hide Linked;
    forall c | first <= c <= cluster
      ensures LinkedOn(w, c, last)
    {
      if c < cluster {
        assert LinkedOn(v, c, last);
        LinkStays(v, w, c, LinkFor(last, c));
      } else {
        LinkStays(between, w, c, LinkFor(last, c));
      }
    }
  }

  method WritePiece(volume: array<u8>, at: nat, piece: seq<u8>)
    requires at + |piece| <= volume.Length
    modifies volume
    ensures forall k :: at <= k < at + |piece| ==> volume[k] == piece[k - at]
    ensures forall k :: 0 <= k < volume.Length && !(at <= k < at + |piece|) ==> volume[k] == old(volume[k])
  {
    for j := 0 to |piece|
      invariant forall k :: at <= k < at + j ==> volume[k] == piece[k - at]
      invariant forall k :: 0 <= k < volume.Length && !(at <= k < at + j) ==> volume[k] == old(volume[k])
    {
      volume[at + j] := piece[j];
    }
  }

  method WriteEntry(volume: array<u8>, slot: nat, file: FileSpec, first: nat)
    requires volume.Length == 2097152 && slot < 16 && |file.name| == 11 && first < 4096
    requires |file.contents| < U32_LIMIT
    modifies volume
    ensures EntryLaid(volume[..], slot, file, first)
    ensures forall k :: 0 <= k < volume.Length && !InSlot(k, slot) ==> volume[k] == old(volume[k])
  {
    var entry := new u8[32](_ => 0);
    WritePiece(entry, 0, file.name);
    entry[11] := 0x20;
    PutU16(entry, 20, first / 0x1_0000);
    PutU16(entry, 26, first % 0x1_0000);
    PutU32(entry, 28, |file.contents|);
    assert entry[..11] == file.name;
    WritePiece(volume, 49152 + 32 * slot, entry[..]);
    assert RootEntry(volume[..], slot) == entry[..];
  }

  /** build_fat32: a volume with exactly these files, whenever they fit. */
  method BuildFat32(files: seq<FileSpec>) returns (ok: bool, volume: array<u8>)
    requires forall i :: 0 <= i < |files| ==> |files[i].name| == 11
    ensures ok <==> Fits(files)
    ensures ok ==> Holds(volume[..], files, |files|)
    ensures fresh(volume) && volume.Length == 2097152
  {
    hide FileLaid, EntryLaid, BootByte, Linked;
    volume := new u8[2097152](_ => 0);
    WriteBootRecord(volume);
    WriteFirstLinks(volume);
    var next := 3;
    assert Holds(volume[..], files, 0);
    for slot := 0 to |files|
      invariant Holds(volume[..], files, slot) && next == FirstFree(files, slot)
    {
      FirstFreeGrows(files, slot + 1, |files|);
      if (slot + 1) * 32 > 512 {
        return false, volume;
      }
      var needed := Needed(|files[slot].contents|);
      if next + needed > 4000 {
        return false, volume;
      }
      ghost var before := volume[..];
      WriteFile(volume, next, files[slot].contents);
      ghost var between := volume[..];
      WriteEntry(volume, slot, files[slot], next);
      FileStays(between, volume[..], next, files[slot].contents);
      OneMore(before, volume[..], files, slot);
      next := next + needed;
    }
    return true, volume;
  }

  /** The first two entries of a FAT are not links, and the root directory has
      one cluster. */
  method WriteFirstLinks(volume: array<u8>)
    requires volume.Length == 2097152 && forall k :: 512 <= k < volume.Length ==> volume[k] == 0
    modifies volume
    ensures Linked(volume[..], 0, 0x0FFF_FFF8) && Linked(volume[..], 1, FAT_ENTRY_END)
    ensures Linked(volume[..], 2, FAT_ENTRY_END)
    ensures forall k :: 0 <= k < 512 ==> volume[k] == old(volume[k])
    ensures forall k :: 512 <= k < volume.Length && !(16384 <= k < 16396) && !(32768 <= k < 32780) ==> volume[k] == 0
  {
    hide Linked;
    SetFat(volume, 0, 0x0FFF_FFF8);
    ghost var v0 := volume[..];
    SetFat(volume, 1, FAT_ENTRY_END);
    ghost var v1 := volume[..];
    LinkStays(v0, v1, 0, 0x0FFF_FFF8);
    SetFat(volume, 2, FAT_ENTRY_END);
    LinkStays(v1, volume[..], 0, 0x0FFF_FFF8);
    LinkStays(v1, volume[..], 1, FAT_ENTRY_END);
  }
}
