/** Directories as they lie on a disk: files under short and long names, deleted entries
    and volume labels, each laid out byte by byte (Microsoft FAT32 File System
    Specification, "FAT Directory Structure" and "FAT Long Directory Entries"); and that
    searching one finds the first item that answers to the name, with just the fields it
    was laid out with. */
module FatEntries {
  import opened Words
  import opened Fields
  import opened BlockDevices
  import opened FatLayout
  import opened FatNames
  import opened FatVolumes
  import opened FatDirectories
  import opened FatLongNames

  // ----- names -----

  /** The same character, or the small and the capital form of one letter. */
  predicate SameCharacter(a: u8, b: u8) {
    || a == b
    || ('a' as int <= a <= 'z' as int && b as int - 'A' as int == a as int - 'a' as int)
    || ('a' as int <= b <= 'z' as int && a as int - 'A' as int == b as int - 'a' as int)
  }

  ghost predicate SameName(a: seq<u8>, b: seq<u8>) {
    |a| == |b| && forall i :: 0 <= i < |a| ==> SameCharacter(a[i], b[i])
  }

  /** Folding takes no two characters together but the two forms of a letter. */
  lemma SameLettersExactly(a: seq<u8>, b: seq<u8>)
    ensures SameLetters(a, b) <==> SameName(a, b)
  {
    forall c: u8, d: u8
      ensures Upper(c) == Upper(d) <==> SameCharacter(c, d)
    {
    }
  }

  /** A stem and an extension, each padded with spaces. */
  function Padded(stem: seq<u8>, extension: seq<u8>): (name: seq<u8>)
    requires |stem| <= 8 && |extension| <= 3
    ensures |name| == 11
  {
    seq<u8>(11, i requires 0 <= i < 11 =>
      if i < |stem| then stem[i] else if 8 <= i < 8 + |extension| then extension[i - 8] else 0x20)
  }

  /** A name as it is written: a stem without a dot, and perhaps a dot and an extension. */
  predicate WrittenAs(asked: seq<u8>, stem: seq<u8>, extension: seq<u8>) {
    && |stem| <= 8 && |extension| <= 3 && 0x2E !in stem
    && ((asked == stem && extension == []) || asked == stem + [0x2E] + extension)
  }

  /** What is asked for is this short name, in any mixture of capitals and small letters. */
  ghost predicate IsShort(short: seq<u8>, asked: seq<u8>) {
    exists stem, extension :: WrittenAs(asked, stem, extension) && SameName(short, Padded(stem, extension))
  }

  /** The comparison of the reader decides just that. */
  lemma ShortMatchesExactly(entry: Entry, asked: seq<u8>)
    ensures ShortMatches(entry, asked) <==> IsShort(entry[..11], asked)
  {
    hide Wanted, Padded, SameName, Upper;
    var n := BaseLength(asked);
    var stem, extension := asked[..n], if n < |asked| then asked[n + 1..] else [];
    if Wanted(asked).Some? {
      WantedIsWritten(asked, stem, extension);
      PaddedIsWanted(entry, asked, stem, extension);
    }
    forall stem', extension' | WrittenAs(asked, stem', extension')
      ensures stem' == stem && extension' == extension && Wanted(asked).Some?
    {
      WrittenOneWay(asked, stem', extension');
    }
  }

  lemma WrittenOneWay(asked: seq<u8>, stem: seq<u8>, extension: seq<u8>)
    requires WrittenAs(asked, stem, extension)
    ensures BaseLength(asked) == |stem| && asked[..|stem|] == stem && Wanted(asked).Some?
    ensures if |stem| < |asked| then asked[|stem| + 1..] == extension else extension == []
  {
    assert forall i :: 0 <= i < |stem| ==> asked[i] == stem[i];
    BaseLengthIs(asked, |stem|);
  }

  lemma WantedIsWritten(asked: seq<u8>, stem: seq<u8>, extension: seq<u8>)
    requires Wanted(asked).Some? && stem == asked[..BaseLength(asked)]
    requires extension == if BaseLength(asked) < |asked| then asked[BaseLength(asked) + 1..] else []
    ensures WrittenAs(asked, stem, extension)
  {
    hide Wanted, BaseLength;
    WantedFits(asked);
    if BaseLength(asked) < |asked| {
      SplitAt(asked, BaseLength(asked));
    }
  }

  lemma WantedFits(asked: seq<u8>)
    requires Wanted(asked).Some?
    ensures BaseLength(asked) <= 8 && |asked| <= BaseLength(asked) + 4
  {
  }

  lemma SplitAt(s: seq<u8>, n: nat)
    requires n < |s|
    ensures s == s[..n] + [s[n]] + s[n + 1..]
  {
  }

  lemma PaddedIsWanted(entry: Entry, asked: seq<u8>, stem: seq<u8>, extension: seq<u8>)
    requires WrittenAs(asked, stem, extension)
    ensures ShortMatches(entry, asked) <==> SameName(entry[..11], Padded(stem, extension))
  {
    WrittenOneWay(asked, stem, extension);
    var name, padded := entry[..11], Padded(stem, extension);
    forall i | 0 <= i < 11
      ensures Wanted(asked).value[i] == Upper(padded[i]) && name[i] == entry[i]
    {
      if 8 <= i < 8 + |extension| {
        assert extension[i - 8] == asked[|stem| + 1 + (i - 8)];
      }
    }
    hide Wanted, Padded, Upper;
    SameLettersExactly(name, padded);
  }

  // ----- the checksum of a short name -----

  /** The bits of a byte, each moved one place down and the lowest to the top. */
  predicate RotatedTo(sum: u8, r: u8) {
    && r % 2 == sum / 2 % 2 && r / 2 % 2 == sum / 4 % 2 && r / 4 % 2 == sum / 8 % 2 && r / 8 % 2 == sum / 0x10 % 2
    && r / 0x10 % 2 == sum / 0x20 % 2 && r / 0x20 % 2 == sum / 0x40 % 2 && r / 0x40 % 2 == sum / 0x80
    && r / 0x80 == sum % 2
  }

  /** Eleven times the sum is rotated and the next character added, in a byte. */
  ghost predicate SumsOver(short: seq<u8>, sums: seq<u8>) {
    && |sums| == |short| + 1 && sums[0] == 0
    && forall i :: 0 <= i < |short| ==> AddsUp(sums[i], short[i], sums[i + 1])
  }

  ghost predicate AddsUp(sum: u8, c: u8, sum': u8) {
    exists r: u8 :: RotatedTo(sum, r) && sum' as int == (r as int + c as int) % 0x100
  }

  ghost predicate IsChecksum(short: seq<u8>, sum: u8) {
    exists sums :: SumsOver(short, sums) && sums[|short|] == sum
  }

  lemma RotatedIs(sum: u8, r: u8)
    requires RotatedTo(sum, r)
    ensures r as int == sum as int % 2 * 0x80 + sum as int / 2
  {
    BitsMakeByte(r);
    BitsMakeByte(sum);
  }

  lemma BitsMakeByte(x: u8)
    ensures x == x % 2 + 2 * (x / 2)
    ensures x / 2 == x / 2 % 2 + 2 * (x / 4 % 2) + 4 * (x / 8 % 2) + 8 * (x / 0x10 % 2)
      + 0x10 * (x / 0x20 % 2) + 0x20 * (x / 0x40 % 2) + 0x40 * (x / 0x80)
  {
    var two := x / 2;
    var four := two / 2;
    var eight := four / 2;
    var sixteen := eight / 2;
    var thirtyTwo := sixteen / 2;
    var sixtyFour := thirtyTwo / 2;
    DivisionIs(x, 4, four, x - 4 * four);
    DivisionIs(x, 8, eight, x - 8 * eight);
    DivisionIs(x, 0x10, sixteen, x - 0x10 * sixteen);
    DivisionIs(x, 0x20, thirtyTwo, x - 0x20 * thirtyTwo);
    DivisionIs(x, 0x40, sixtyFour, x - 0x40 * sixtyFour);
    DivisionIs(x, 0x80, sixtyFour / 2, x - 0x80 * (sixtyFour / 2));
  }

  lemma {:induction false} SumsAre(short: seq<u8>, sums: seq<u8>, n: nat)
    requires SumsOver(short, sums) && n <= |short|
    ensures sums[n] == ChecksumOf(short, n)
  {
    hide RotatedTo;
    if n > 0 {
      SumsAre(short, sums, n - 1);
      assert AddsUp(sums[n - 1], short[n - 1], sums[n - 1 + 1]);
      var r: u8 :| RotatedTo(sums[n - 1], r) && sums[n] as int == (r as int + short[n - 1] as int) % 0x100;
      RotatedIs(sums[n - 1], r);
    }
  }

  /** The reader computes that sum. */
  lemma ChecksumIs(short: seq<u8>, sum: u8)
    requires IsChecksum(short, sum)
    ensures ChecksumOf(short, |short|) == sum
  {
    var sums :| SumsOver(short, sums) && sums[|short|] == sum;
    SumsAre(short, sums, |short|);
  }

  // ----- what a directory holds -----

  datatype Attributes = Attributes(readOnly: bool, hidden: bool, system: bool, archive: bool)

  /** A file or directory goes by its short name, of eleven characters, and by a long
      one if it has one. In front of any entry there may also be a long name that is
      not its own: of a file that was deleted or renamed by something that knows of
      short names only. */
  datatype Item =
    | Deleted(long: seq<u8>)
    | Label(long: seq<u8>, attributes: Attributes)
    | Named(
        long: seq<u8>, owned: bool, short: seq<u8>, first: u32, size: u32, directory: bool, attributes: Attributes)
  {
    predicate Sound() {
      && |long| <= 255 && (forall i :: 0 <= i < |long| ==> 0x01 <= long[i] <= 0x7F)
      && (Named? ==> |short| == 11 && short[0] != 0x00 && short[0] != 0xE5 && first < 0x1000_0000)
    }

    /** How many entries its long name takes. */
    function Fragments(): nat { (|long| + 12) / 13 }
  }

  function AttributeByte(a: Attributes, ofVolume: bool, directory: bool): u8 {
    (if a.readOnly then 0x01 else 0) + (if a.hidden then 0x02 else 0) + (if a.system then 0x04 else 0)
    + (if ofVolume then 0x08 else 0) + (if directory then 0x10 else 0) + (if a.archive then 0x20 else 0)
  }

  /** The entry of a file or directory: its name, its kind, the two halves of its first
      cluster and its size. The other bytes may be anything. */
  predicate EntryLaid(e: Entry, item: Item)
    requires item.Named?
  {
    && e[..11] == item.short && e[11] == AttributeByte(item.attributes, false, item.directory)
    && e[26] as int == item.first % 0x100 && e[27] as int == item.first / 0x100 % 0x100
    && e[20] as int == item.first / 0x1_0000 % 0x100 && e[21] as int == item.first / 0x100_0000
    && e[28] as int == item.size % 0x100 && e[29] as int == item.size / 0x100 % 0x100
    && e[30] as int == item.size / 0x1_0000 % 0x100 && e[31] as int == item.size / 0x100_0000
  }

  const CHARACTERS_AT: seq<nat> := [1, 3, 5, 7, 9, 14, 16, 18, 20, 22, 24, 28, 30]

  /** Two bytes for a character: the name, then zeros, then ones. */
  predicate CharacterLaid(low: u8, high: u8, long: seq<u8>, position: nat) {
    if position < |long| then low == long[position] && high == 0
    else if position == |long| then low == 0 && high == 0
    else low == 0xFF && high == 0xFF
  }

  /** The `f`-th of `count` entries with the characters of a long name. */
  ghost predicate FragmentLaid(e: Entry, long: seq<u8>, f: nat, count: nat) {
    && 1 <= f && e[0] as int == (if f == count then 0x40 + f else f) && e[11] == 0x0F
    && forall i :: 0 <= i < 13 ==>
         CharacterLaid(e[CHARACTERS_AT[i]], e[CHARACTERS_AT[i] + 1], long, 13 * (f - 1) + i)
  }

  /** A long name is a file's own if every part of it carries the sum of the short one. */
  ghost predicate CarriesSum(item: Item, parts: seq<Entry>)
    requires item.Named?
  {
    exists sum :: IsChecksum(item.short, sum) &&
      (item.owned <==> forall i :: 0 <= i < |parts| ==> parts[i][13] == sum)
  }

  /** An item, in as many entries as it takes; those of a long name run backwards. */
  ghost predicate ItemLaid(item: Item, entries: seq<Entry>) {
    && |entries| == item.Fragments() + 1
    && (forall i :: 0 <= i < |entries| - 1 ==>
          FragmentLaid(entries[i], item.long, |entries| - 1 - i, |entries| - 1))
    && var last := entries[|entries| - 1];
       match item
       case Deleted(_) => last[0] == 0xE5
       case Label(_, attributes) =>
         && last[0] != 0x00 && last[0] != 0xE5 && last[11] != 0x0F
         && exists directory :: last[11] == AttributeByte(attributes, true, directory)
       case Named(_, _, _, _, _, _, _) =>
         EntryLaid(last, item) && CarriesSum(item, entries[..|entries| - 1])
  }

  /** Items one after another. */
  ghost predicate Laid(items: seq<Item>, entries: seq<Entry>)
    decreases |items|
  {
    if items == [] then entries == []
    else
      var n := items[0].Fragments() + 1;
      n <= |entries| && ItemLaid(items[0], entries[..n]) && Laid(items[1..], entries[n..])
  }

  /** Either of its names reaches a file. */
  ghost predicate Answers(item: Item, asked: seq<u8>) {
    item.Named? && (IsShort(item.short, asked) || (item.long != [] && item.owned && SameName(item.long, asked)))
  }

  /** The first item that answers. */
  ghost function FirstAnswer(items: seq<Item>, asked: seq<u8>): (found: Option<Item>)
    ensures found.Some? ==> found.value in items && Answers(found.value, asked)
  {
    if items == [] then None
    else if Answers(items[0], asked) then Some(items[0])
    else FirstAnswer(items[1..], asked)
  }

  // ----- one entry, read -----

  lemma AttributeBits(a: Attributes, ofVolume: bool, directory: bool)
    ensures var byte := AttributeByte(a, ofVolume, directory);
      (byte / 0x10 % 2 == 1 <==> directory) && (byte / 0x08 % 2 == 1 <==> ofVolume) && (!ofVolume ==> byte != 0x0F)
  {
  }

  /** The entry is read as what was laid out. */
  lemma EntryIsRead(e: Entry, item: Item)
    requires item.Named? && item.Sound() && EntryLaid(e, item)
    ensures EntryTarget(e) == Found(item.first, item.size, item.directory)
    ensures NamesAFile(e) && e[..11] == item.short
  {
    AttributeBits(item.attributes, false, item.directory);
    assert e[0] == e[..11][0];
    BytesMakeWord(item.first);
    BytesMakeWord(item.size);
  }

  lemma FragmentIsRead(e: Entry, long: seq<u8>, f: nat)
    requires 1 <= f <= FragmentCount(long) && FragmentLaid(e, long, f, FragmentCount(long))
    ensures IsFragment(e, long, f, e[13])
  {
    forall i | 0 <= i < 13
      ensures UnitAt(e, i) == UnitFor(long, (f - 1) * 13 + i)
    {
      assert CharOffset(i) == CHARACTERS_AT[i];
    }
  }

  /** Items with a long name are such entries as a search goes over. */
  lemma LongItemIsRead(item: Item, entries: seq<Entry>)
    requires item.Sound() && item.long != [] && ItemLaid(item, entries)
    ensures LongRun(entries, item.long)
    ensures var last := entries[|entries| - 1];
      (NamesAFile(last) <==> item.Named?) && (item.Named? ==> (Owned(entries) <==> item.owned))
  {
    hide FragmentLaid, IsFragment, EntryLaid, ChecksumOf, IsChecksum, AttributeByte;
    var parts, last := entries[..|entries| - 1], entries[|entries| - 1];
    forall i | 0 <= i < |parts|
      ensures IsFragment(parts[i], item.long, |parts| - i, parts[i][13])
    {
      FragmentIsRead(entries[i], item.long, |entries| - 1 - i);
    }
    match item
    case Deleted(_) =>
    case Label(_, attributes) =>
      LabelIsRead(last, attributes);
    case Named(_, _, _, _, _, _, _) =>
      EntryIsRead(last, item);
      var sum :| IsChecksum(item.short, sum) && (item.owned <==> forall i :: 0 <= i < |parts| ==> parts[i][13] == sum);
      ChecksumIs(item.short, sum);
      SameChecksum(item.short, last, 11);
      assert forall i :: 0 <= i < |parts| ==> parts[i] == entries[i];
  }

  lemma LabelIsRead(e: Entry, attributes: Attributes)
    requires exists directory :: e[11] == AttributeByte(attributes, true, directory)
    ensures e[11] / 0x08 % 2 == 1
  {
    var directory :| e[11] == AttributeByte(attributes, true, directory);
    AttributeBits(attributes, true, directory);
  }

  lemma {:induction false} SameChecksum(a: seq<u8>, b: seq<u8>, n: nat)
    requires n <= |a| && n <= |b| && a[..n] == b[..n]
    ensures ChecksumOf(a, n) == ChecksumOf(b, n)
  {
    if n > 0 {
      assert a[..n - 1] == a[..n][..n - 1] == b[..n][..n - 1] == b[..n - 1];
      assert a[n - 1] == a[..n][n - 1] == b[..n][n - 1] == b[n - 1];
      SameChecksum(a, b, n - 1);
    }
  }

  // ----- searching -----

  /** A directory ends with an empty entry, with its chain, or where no search goes on. */
  ghost predicate EndsAt(d: BlockDevice, g: Geometry, directory: u32, index: nat)
    requires d.Valid() && g.Sound()
  {
    || index >= MaximumEntries(g)
    || EntryAt(d, g, directory, index).None?
    || EntryAt(d, g, directory, index).value[0] == 0x00
  }

  function TargetOf(item: Option<Item>): Option<Found> {
    match item
    case Some(Named(_, _, _, first, size, directory, _)) => Some(Found(first, size, directory))
    case _ => None
  }

  /** One item of a directory: the search stops there if it answers, and otherwise goes
      on with nothing collected. */
  lemma ItemIsSearched(
    d: BlockDevice, g: Geometry, directory: u32, asked: seq<u8>, index: nat, p: Pending, item: Item,
    entries: seq<Entry>) returns (p': Pending)
    requires d.Valid() && g.Sound() && |p.text| == 260 && !p.valid
    requires item.Sound() && ItemLaid(item, entries) && EntriesAt(d, g, directory, index, entries)
    ensures |p'.text| == 260 && !p'.valid
    ensures Search(d, g, directory, asked, index, p) ==
      if Answers(item, asked) then TargetOf(Some(item))
      else Search(d, g, directory, asked, index + |entries|, p')
  {
    hide Geometry.Sound, EntryAt, MaximumEntries, ShortMatches, LongMatches, EntryTarget, EntryLaid, FragmentLaid;
    hide IsShort, SameLetters, SameName, ChecksumOf, NamesAFile, Accumulated, AttributeByte, IsChecksum, CarriesSum;
    hide Owned, LongRun;
    var last := entries[|entries| - 1];
    assert EntryAt(d, g, directory, index + (|entries| - 1)) == Some(last);
    p' := Reset(if item.long == [] then p else AccumulatedAll(p, entries[..|entries| - 1]));
    if item.Named? {
      EntryIsRead(last, item);
      ShortMatchesExactly(last, asked);
    }
    if item.long != [] {
      LongItemIsRead(item, entries);
      SameLettersExactly(item.long, asked);
      LongNameIsFound(d, g, directory, index, p, item.long, entries, asked);
    } else if item.Named? {
      UsedEntry(last);
    } else if item.Label? {
      LabelIsRead(last, item.attributes);
    }
  }

  lemma UsedEntry(e: Entry)
    requires NamesAFile(e)
    ensures e[0] != 0x00 && e[0] != 0xE5 && e[11] != 0x0F && e[11] / 0x08 % 2 == 0
  {
  }

  lemma EntriesInTwo(d: BlockDevice, g: Geometry, directory: u32, index: nat, entries: seq<Entry>, n: nat)
    requires d.Valid() && g.Sound() && n <= |entries| && EntriesAt(d, g, directory, index, entries)
    ensures EntriesAt(d, g, directory, index, entries[..n]) && EntriesAt(d, g, directory, index + n, entries[n..])
  {
    hide Geometry.Sound, EntryAt, MaximumEntries;
    forall i | 0 <= i < |entries| - n
      ensures EntryAt(d, g, directory, index + n + i) == Some(entries[n..][i])
    {
      assert EntryAt(d, g, directory, index + (n + i)) == Some(entries[n + i]);
      assert index + n + i == index + (n + i);
    }
  }

  /** A search of a directory finds the first item that answers to the name, with the
      first cluster, the size and the kind it was laid out with; and nothing if none does. */
  lemma {:induction false} DirectoryIsSearched(
    d: BlockDevice, g: Geometry, directory: u32, asked: seq<u8>, index: nat, p: Pending, items: seq<Item>,
    entries: seq<Entry>)
    requires d.Valid() && g.Sound() && |p.text| == 260 && !p.valid
    requires forall item :: item in items ==> item.Sound()
    requires Laid(items, entries) && EntriesAt(d, g, directory, index, entries)
    requires EndsAt(d, g, directory, index + |entries|)
    ensures Search(d, g, directory, asked, index, p) == TargetOf(FirstAnswer(items, asked))
    decreases |items|
  {
    hide Geometry.Sound, EntryAt, MaximumEntries, ItemLaid, Answers, Item.Sound, EntriesAt;
    if items != [] {
      var n := items[0].Fragments() + 1;
      EntriesInTwo(d, g, directory, index, entries, n);
      var p' := ItemIsSearched(d, g, directory, asked, index, p, items[0], entries[..n]);
      if !Answers(items[0], asked) {
        assert index + n + |entries[n..]| == index + |entries|;
        DirectoryIsSearched(d, g, directory, asked, index + n, p', items[1..], entries[n..]);
      }
    }
  }
}
