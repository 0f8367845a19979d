/** Long names through a directory: fragments written one after another before
    their 8.3 entry are found again (tests/unit/test_fat.c lays them out, and
    src/fs/fat.c reads them). */
module FatLongNames {
  import opened Words
  import opened BlockDevices
  import opened FatLayout
  import opened FatNames
  import opened FatVolumes
  import opened FatDirectories

  /** Consecutive entries of a directory. */
  ghost predicate EntriesAt(d: BlockDevice, g: Geometry, directory: u32, index: nat, entries: seq<Entry>)
    requires d.Valid() && g.Sound()
  {
    && index + |entries| <= MaximumEntries(g)
    && forall i :: 0 <= i < |entries| ==> EntryAt(d, g, directory, index + i) == Some(entries[i])
  }

  ghost predicate AllFragments(entries: seq<Entry>) {
    forall i :: 0 <= i < |entries| ==> entries[i][0] != 0x00 && entries[i][0] != 0xE5 && entries[i][11] == 0x0F
  }

  /** A search goes over fragments, collecting them. */
  lemma {:induction false} SearchOverFragments(
    d: BlockDevice, g: Geometry, directory: u32, name: seq<u8>, index: nat, p: Pending, entries: seq<Entry>)
    requires d.Valid() && g.Sound() && |p.text| == 260
    requires EntriesAt(d, g, directory, index, entries) && AllFragments(entries)
    ensures Search(d, g, directory, name, index, p) ==
      Search(d, g, directory, name, index + |entries|, AccumulatedAll(p, entries))
    decreases |entries|
  {
    hide Geometry.Sound, EntryAt, MaximumEntries, Accumulated;
    if entries != [] {
      var rest := entries[1..];
      assert EntryAt(d, g, directory, index + 0) == Some(entries[0]);
      forall i | 0 <= i < |rest|
        ensures EntryAt(d, g, directory, index + 1 + i) == Some(rest[i])
      {
        assert index + 1 + i == index + (i + 1);
      }
      SearchOverFragments(d, g, directory, name, index + 1, Accumulated(p, entries[0]), rest);
    }
  }

  lemma FragmentsAreSkipped(entries: seq<Entry>, name: seq<u8>)
    requires PlainName(name) && IsRun(entries, name)
    ensures AllFragments(entries)
  {
    hide UnitAt;
    forall i | 0 <= i < |entries|
      ensures entries[i][0] != 0x00 && entries[i][0] != 0xE5 && entries[i][11] == 0x0F
    {
      assert IsFragment(entries[i], name, |entries| - i, entries[i][13]);
    }
  }

  /** An entry for a file or a directory, in use. */
  ghost predicate NamesAFile(entry: Entry) {
    entry[0] != 0x00 && entry[0] != 0xE5 && entry[11] != 0x0F && entry[11] / 0x08 % 2 == 0
  }

  /** All the fragments of a name, and one entry more that is none. */
  ghost predicate LongRun(entries: seq<Entry>, name: seq<u8>) {
    && PlainName(name) && |entries| == FragmentCount(name) + 1 && IsRun(entries[..|entries| - 1], name)
    && var last := entries[|entries| - 1]; last[0] != 0x00 && (last[0] == 0xE5 || last[11] != 0x0F)
  }

  /** The fragments carry the checksum of the entry after them. */
  ghost predicate Owned(entries: seq<Entry>)
    requires entries != []
  {
    forall i :: 0 <= i < |entries| - 1 ==> entries[i][13] == ChecksumOf(entries[|entries| - 1], 11)
  }

  /** All the fragments of a name, then the 8.3 entry they belong to. */
  ghost predicate LongNamed(entries: seq<Entry>, name: seq<u8>) {
    LongRun(entries, name) && NamesAFile(entries[|entries| - 1]) && Owned(entries)
  }

  /** A search that comes to the fragments of a name, whatever it has collected by then,
      stops at the entry after them exactly if that names a file, and the search is for
      its 8.3 name or, if all of them belong to it, for the long one, in capitals or
      small letters; otherwise it goes on with nothing collected. */
  lemma LongNameIsFound(
    d: BlockDevice, g: Geometry, directory: u32, index: nat, p: Pending,
    name: seq<u8>, entries: seq<Entry>, asked: seq<u8>)
    requires d.Valid() && g.Sound() && |p.text| == 260
    requires LongRun(entries, name) && EntriesAt(d, g, directory, index, entries)
    ensures var last := entries[|entries| - 1];
      Search(d, g, directory, asked, index, p) ==
        if NamesAFile(last) && ((Owned(entries) && SameLetters(name, asked)) || ShortMatches(last, asked))
        then Some(EntryTarget(last))
        else Search(d, g, directory, asked, index + |entries|, Reset(AccumulatedAll(p, entries[..|entries| - 1])))
  {
    hide Geometry.Sound, EntryAt, MaximumEntries, ShortMatches, LongMatches, SameLetters, IsFragment, EntryTarget;
    hide ChecksumOf, Accumulated;
    var fragments, last := entries[..|entries| - 1], entries[|entries| - 1];
    FragmentsAreSkipped(fragments, name);
    forall i | 0 <= i < |fragments|
      ensures EntryAt(d, g, directory, index + i) == Some(fragments[i])
    {
      assert entries[i] == fragments[i];
    }
    SearchOverFragments(d, g, directory, asked, index, p, fragments);
    RunComesBack(p, fragments, name, ChecksumOf(last, 11), asked);
    assert Owned(entries) <==> forall i :: 0 <= i < |fragments| ==> fragments[i][13] == ChecksumOf(last, 11);
    assert EntryAt(d, g, directory, index + |fragments|) == Some(entries[|fragments|]);
  }

  // ----- writing fragments -----

  method PutUnit(entry: array<u8>, at: nat, unit: u16)
    requires at + 2 <= entry.Length
    modifies entry
    ensures U16At(entry[..], at) == unit
    ensures forall k :: 0 <= k < entry.Length && k != at && k != at + 1 ==> entry[k] == old(entry[k])
  {
    entry[at], entry[at + 1] := unit as int % 0x100, unit as int / 0x100;
  }

  /** Units of a fragment do not overlap, nor do they cover its other fields. */
  lemma CharsApart(i: nat, j: nat)
    requires i < 13 && j < 13
    ensures i != j ==> CharOffset(i) + 2 <= CharOffset(j) || CharOffset(j) + 2 <= CharOffset(i)
    ensures 1 <= CharOffset(i) && (CharOffset(i) + 2 <= 11 || CharOffset(i) >= 14)
  {
  }

  /** One fragment of a name, as the reader expects it. */
  method WriteFragment(entry: array<u8>, name: seq<u8>, f: nat, checksum: u8)
    requires entry.Length == 32 && PlainName(name) && 1 <= f <= FragmentCount(name)
    modifies entry
    ensures IsFragment(entry[..], name, f, checksum)
  {
    hide CharOffset, U16At;
    entry[0] := if f == FragmentCount(name) then f + 0x40 else f;
    entry[11] := 0x0F;
    entry[13] := checksum;
    for index := 0 to 13
      invariant entry[0] == if f == FragmentCount(name) then f + 0x40 else f
      invariant entry[11] == 0x0F && entry[13] == checksum
      invariant forall i :: 0 <= i < index ==> UnitAt(entry[..], i) == UnitFor(name, (f - 1) * 13 + i)
    {
      CharsApart(index, index);
      ghost var before := entry[..];
      PutUnit(entry, CharOffset(index), UnitFor(name, (f - 1) * 13 + index));
      forall i | 0 <= i < index
        ensures UnitAt(entry[..], i) == UnitAt(before, i)
      {
        CharsApart(i, index);
        SameUnit(before, entry[..], CharOffset(i));
      }
    }
  }

  lemma SameUnit(a: seq<u8>, b: seq<u8>, at: nat)
    requires |a| == |b| && at + 2 <= |a| && a[at] == b[at] && a[at + 1] == b[at + 1]
    ensures U16At(a, at) == U16At(b, at)
  {
  }

  lemma FragmentHasChecksum(entry: Entry, name: seq<u8>, f: nat, checksum: u8)
    requires IsFragment(entry, name, f, checksum)
    ensures entry[13] == checksum
  {
  }

  /** The entries of a long name, last fragment first, and then the 8.3 entry: what
      LongNameIsFound is about. */
  method WriteLongName(name: seq<u8>, entry: Entry) returns (entries: seq<Entry>)
    requires PlainName(name) && NamesAFile(entry)
    ensures LongNamed(entries, name) && entries[|entries| - 1] == entry
  {
    hide IsFragment;
    ghost var checksum := ChecksumOf(entry, 11);
    var sum := 0;
    for index := 0 to 11
      invariant 0 <= sum < 0x100 && sum == ChecksumOf(entry, index)
    {
      sum := (sum % 2 * 0x80 + sum / 2 + entry[index] as int) % 0x100;
    }
    entries := [];
    var count := FragmentCount(name);
    var f := count;
    while f >= 1
      invariant 0 <= f <= count && |entries| == count - f
      invariant forall i :: 0 <= i < |entries| ==> IsFragment(entries[i], name, count - i, checksum)
    {
      var fragment := new u8[32](_ => 0);
      WriteFragment(fragment, name, f, sum);
      entries := entries + [fragment[..]];
      f := f - 1;
    }
    ghost var fragments := entries;
    forall i | 0 <= i < |fragments|
      ensures IsFragment(fragments[i], name, |fragments| - i, fragments[i][13]) && fragments[i][13] == checksum
    {
      FragmentHasChecksum(fragments[i], name, count - i, checksum);
    }
    entries := entries + [entry];
    assert entries[..|entries| - 1] == fragments;
  }
}
