/** Names in FAT directories: 8.3 names, and long names kept in fragments before
    the entry they belong to (src/fs/fat.c; Microsoft FAT32 File System
    Specification, "FAT Long Directory Entries"). */
module FatNames {
  import opened Words


  const DOT: u8 := 0x2E
  const SPACE: u8 := 0x20

  type Entry = e: seq<u8> | |e| == 32 witness seq(32, _ => 0)

  function Upper(value: u8): (r: u8) {
    if 0x61 <= value <= 0x7A then value - 0x20 else value
  }

  /** Equal but for the case of letters. */
  ghost predicate SameLetters(a: seq<u8>, b: seq<u8>) {
    |a| == |b| && forall i :: 0 <= i < |a| ==> Upper(a[i]) == Upper(b[i])
  }

  // ----- 8.3 names -----

  /** Where the first dot is, or the length. */
  function BaseLength(name: seq<u8>): (n: nat)
    ensures n <= |name| && (n < |name| ==> name[n] == DOT)
    ensures forall i :: 0 <= i < n ==> name[i] != DOT
  {
    if name == [] || name[0] == DOT then 0 else 1 + BaseLength(name[1..])
  }

  /** The eleven padded characters an entry must hold for `name` to be its name. */
  function Wanted(name: seq<u8>): (w: Option<seq<u8>>)
    ensures w.Some? ==> |w.value| == 11
  {
    var n := BaseLength(name);
    if n > 8 || (n < |name| && |name| - n - 1 > 3) then None
    else Some(seq(11, i requires 0 <= i < 11 => WantedChar(name, n, i)))
  }

  function WantedChar(name: seq<u8>, base: nat, i: nat): u8
    requires base <= |name|
  {
    if i < base then Upper(name[i])
    else if i >= 8 && base + 1 + (i - 8) < |name| then Upper(name[base + 1 + (i - 8)])
    else SPACE
  }

  ghost predicate ShortMatches(entryName: seq<u8>, name: seq<u8>)
    requires |entryName| >= 11
  {
    Wanted(name).Some? && forall i :: 0 <= i < 11 ==> Upper(entryName[i]) == Wanted(name).value[i]
  }

  /** Rotate right and add, over the eleven characters. */
  function ChecksumOf(name: seq<u8>, n: nat): (sum: u8)
    requires n <= |name|
  {
    if n == 0 then 0
    else
      var sum: int := ChecksumOf(name, n - 1);
      (sum % 2 * 0x80 + sum / 2 + name[n - 1] as int) % 0x100
  }

  // ----- long names -----

  /** Where the thirteen characters of a fragment sit inside its entry. */
  function CharOffset(index: nat): (at: nat)
    requires index < 13
    ensures at <= 30
  {
    if index < 5 then 1 + 2 * index
    else if index < 11 then 14 + 2 * (index - 5)
    else 28 + 2 * (index - 11)
  }

  function UnitAt(entry: Entry, index: nat): u16
    requires index < 13
  {
    U16At(entry, CharOffset(index))
  }

  /** The long name collected so far. */
  datatype Pending = Pending(text: seq<u8>, length: nat, checksum: u8, valid: bool)

  function Reset(p: Pending): Pending {
    p.(length := 0, valid := false)
  }

  /** A terminator or padding ends the name, at the latest here. */
  function Ended(p: Pending, position: nat): Pending {
    if position < p.length then p.(length := position) else p
  }

  /** The characters of a fragment from `index` on; one that is not ASCII discards
      the name. */
  function TakeChars(p: Pending, entry: Entry, base: nat, index: nat): (r: Pending)
    requires |p.text| == 260 && index <= 13 && base + 13 <= 260
    ensures |r.text| == 260 && r.length <= p.length
    ensures r.checksum == p.checksum && (r.valid ==> p.valid)
    decreases 13 - index
  {
    if index == 13 then p
    else
      var unit := UnitAt(entry, index);
      if unit == 0 || unit == 0xFFFF then TakeChars(Ended(p, base + index), entry, base, index + 1)
      else if unit > 0x7F then Reset(p)
      else
        var c: u8 := unit as int;
        TakeChars(p.(text := p.text[base + index := c]), entry, base, index + 1)
  }

  /** What one fragment does to the name being collected. */
  function Accumulated(p: Pending, entry: Entry): (r: Pending)
    requires |p.text| == 260
    ensures |r.text| == 260 && (p.length <= 260 ==> r.length <= 260)
  {
    var sequence: int := entry[0] as int % 0x20;
    if sequence == 0 || sequence > 20 then Reset(p)
    else
      var p' := if entry[0] / 0x40 % 2 == 1
        then p.(length := sequence * 13, checksum := entry[13], valid := true) else p;
      if !p'.valid then p'
      else if entry[13] != p'.checksum then Reset(p')
      else TakeChars(p', entry, (sequence - 1) * 13, 0)
  }

  ghost predicate LongMatches(p: Pending, name: seq<u8>)
    requires |p.text| == 260
  {
    p.valid && p.length == |name| && forall i :: 0 <= i < |name| && i < 260 ==> Upper(p.text[i]) == Upper(name[i])
  }

  // ----- long names come back -----

  /** The names a fragment can carry. */
  predicate PlainName(name: seq<u8>) {
    1 <= |name| <= 255 && forall i :: 0 <= i < |name| ==> 1 <= name[i] <= 0x7F
  }

  function FragmentCount(name: seq<u8>): (n: nat) {
    (|name| + 12) / 13
  }

  /** The character for a position: the name, then one zero, then padding. */
  function UnitFor(name: seq<u8>, position: nat): u16 {
    if position < |name| then name[position] else if position == |name| then 0 else 0xFFFF
  }

  /** An entry that carries the `f`-th fragment of a name, counting from one; the
      last fragment comes first in the directory and is marked. */
  ghost predicate IsFragment(entry: Entry, name: seq<u8>, f: nat, checksum: u8) {
    && 1 <= f <= FragmentCount(name)
    && entry[0] == (if f == FragmentCount(name) then f + 0x40 else f)
    && entry[11] == 0x0F && entry[13] == checksum
    && forall i :: 0 <= i < 13 ==> UnitAt(entry, i) == UnitFor(name, (f - 1) * 13 + i)
  }

  /** Everything from the `f`-th fragment to the end of the name has been collected. */
  ghost predicate CollectedFrom(p: Pending, name: seq<u8>, f: nat, checksum: u8) {
    && |p.text| == 260 && p.valid && p.checksum == checksum && p.length == |name| <= 260
    && forall i :: (f - 1) * 13 <= i < |name| ==> 0 <= i && p.text[i] == name[i]
  }

  /** Taking the characters of a fragment puts them in their places; if the name
      ends in it, the end is found. */
  lemma {:induction false} CharsTaken(p: Pending, entry: Entry, name: seq<u8>, base: nat, index: nat)
    requires |p.text| == 260 && PlainName(name) && index <= 13 && base + 13 <= 260 && base < |name|
    requires forall i :: 0 <= i < 13 ==> UnitAt(entry, i) == UnitFor(name, base + i)
    requires p.length == if base + index <= |name| <= base + 13 then base + 13 else |name|
    ensures var r := TakeChars(p, entry, base, index);
      && r.valid == p.valid && r.checksum == p.checksum && r.length == |name|
      && (forall i :: 0 <= i < 260 && !(base + index <= i < base + 13 && i < |name|) ==> r.text[i] == p.text[i])
      && (forall i :: base + index <= i < base + 13 && i < |name| ==> r.text[i] == name[i])
    decreases 13 - index
  {
    if index < 13 {
      var position := base + index;
      assert UnitAt(entry, index) == UnitFor(name, position);
      if position < |name| {
        CharsTaken(p.(text := p.text[position := name[position]]), entry, name, base, index + 1);
      } else {
        CharsTaken(Ended(p, position), entry, name, base, index + 1);
      }
    }
  }

  /** One fragment more, going down. The last one, which comes first, needs nothing
      before it and discards whatever there was. */
  lemma FragmentAccumulates(p: Pending, entry: Entry, name: seq<u8>, f: nat, checksum: u8)
    requires |p.text| == 260 && PlainName(name) && IsFragment(entry, name, f, checksum)
    requires f < FragmentCount(name) ==> CollectedFrom(p, name, f + 1, checksum)
    ensures CollectedFrom(Accumulated(p, entry), name, f, checksum)
  {
    hide TakeChars, UnitAt;
    var total, base := FragmentCount(name), (f - 1) * 13;
    FragmentBits(f, f == total);
    assert entry[0] % 0x20 == f && (entry[0] / 0x40 % 2 == 1 <==> f == total);
    assert base < |name| <= total * 13 < |name| + 13;
    var p' := if f == total then p.(length := f * 13, checksum := checksum, valid := true) else p;
    assert f < total ==> base + 13 < |name|;
    CharsTaken(p', entry, name, base, 0);
  }

  lemma FragmentBits(f: nat, last: bool)
    requires 1 <= f <= 20
    ensures var byte := if last then f + 0x40 else f;
      byte % 0x20 == f && (byte / 0x40 % 2 == 1 <==> last)
  {
  }

  /** The fragments of a name from the `f`-th down to the first. */
  ghost predicate AreFragments(entries: seq<Entry>, name: seq<u8>, checksum: u8)
  {
    |entries| <= FragmentCount(name) &&
    forall i :: 0 <= i < |entries| ==> IsFragment(entries[i], name, |entries| - i, checksum)
  }

  function AccumulatedAll(p: Pending, entries: seq<Entry>): (r: Pending)
    requires |p.text| == 260
    ensures |r.text| == 260
    decreases |entries|
  {
    if entries == [] then p else AccumulatedAll(Accumulated(p, entries[0]), entries[1..])
  }

  lemma {:induction false} FragmentsAccumulate(p: Pending, entries: seq<Entry>, name: seq<u8>, checksum: u8)
    requires |p.text| == 260 && PlainName(name) && AreFragments(entries, name, checksum)
    requires |entries| < FragmentCount(name) ==> CollectedFrom(p, name, |entries| + 1, checksum)
    requires entries != []
    ensures CollectedFrom(AccumulatedAll(p, entries), name, 1, checksum)
    decreases |entries|
  {
    hide Accumulated, IsFragment, CollectedFrom;
    FragmentAccumulates(p, entries[0], name, |entries|, checksum);
    if |entries| > 1 {
      FragmentsAccumulate(Accumulated(p, entries[0]), entries[1..], name, checksum);
    } else {
      assert entries[1..] == [];
    }
  }

  /** The whole of a long name, whatever was pending before it, is matched by any
      way of writing it in capitals and small letters, and by nothing else. */
  lemma LongNameComesBack(p: Pending, entries: seq<Entry>, name: seq<u8>, checksum: u8, asked: seq<u8>)
    requires |p.text| == 260 && PlainName(name)
    requires |entries| == FragmentCount(name) && AreFragments(entries, name, checksum)
    ensures var r := AccumulatedAll(p, entries);
      && r.valid && r.checksum == checksum && r.length == |name| && r.text[..|name|] == name
      && (LongMatches(r, asked) <==> SameLetters(name, asked))
  {
    FragmentsAccumulate(p, entries, name, checksum);
  }

  // ----- fragments that do not belong together -----

  /** A fragment that does not start a name adds nothing to what is not pending, and
      ends what is pending when its checksum is another one. */
  lemma LaterFragment(p: Pending, entry: Entry)
    requires |p.text| == 260 && entry[0] / 0x40 % 2 == 0
    ensures var r := Accumulated(p, entry);
      && (r.valid ==> p.valid && entry[13] == p.checksum && r.checksum == p.checksum)
  {
    hide TakeChars;
  }

  lemma {:induction false} TornIsDropped(p: Pending, entries: seq<Entry>, checksum: u8)
    requires |p.text| == 260 && (p.valid ==> p.checksum == checksum)
    requires forall i :: 0 <= i < |entries| ==> entries[i][0] / 0x40 % 2 == 0
    ensures var r := AccumulatedAll(p, entries);
      r.valid ==> p.valid && forall i :: 0 <= i < |entries| ==> entries[i][13] == checksum
    decreases |entries|
  {
    hide Accumulated;
    if entries != [] {
      LaterFragment(p, entries[0]);
      TornIsDropped(Accumulated(p, entries[0]), entries[1..], checksum);
      assert forall i :: 1 <= i < |entries| ==> entries[i] == entries[1..][i - 1];
    }
  }

  /** The fragments of a name from the last to the first, whatever their checksums. */
  ghost predicate IsRun(entries: seq<Entry>, name: seq<u8>) {
    |entries| == FragmentCount(name) &&
    forall i :: 0 <= i < |entries| ==> IsFragment(entries[i], name, |entries| - i, entries[i][13])
  }

  /** After them the name is pending for an entry with a checksum if and only if that
      is the checksum of all of them. */
  lemma RunComesBack(p: Pending, entries: seq<Entry>, name: seq<u8>, checksum: u8, asked: seq<u8>)
    requires |p.text| == 260 && PlainName(name) && IsRun(entries, name)
    ensures var r := AccumulatedAll(p, entries);
      && (r.valid && r.checksum == checksum && LongMatches(r, asked) <==>
          SameLetters(name, asked) && forall i :: 0 <= i < |entries| ==> entries[i][13] == checksum)
  {
    hide LongMatches, SameLetters, Accumulated, IsFragment;
    var first := entries[0][13];
    if forall i :: 0 <= i < |entries| ==> entries[i][13] == first {
      assert entries[0][13] == first;
      LongNameComesBack(p, entries, name, first, asked);
    } else {
      var p' := Accumulated(p, entries[0]);
      FirstFragment(p, entries[0], name);
      forall i | 0 <= i < |entries[1..]|
        ensures entries[1..][i][0] / 0x40 % 2 == 0
      {
        FragmentIsNotLast(entries[i + 1], name, |entries| - (i + 1));
      }
      TornIsDropped(p', entries[1..], first);
      assert forall i :: 1 <= i < |entries| ==> entries[i] == entries[1..][i - 1];
    }
  }

  lemma FragmentIsNotLast(entry: Entry, name: seq<u8>, f: nat)
    requires IsFragment(entry, name, f, entry[13]) && f < FragmentCount(name) && |name| <= 255
    ensures entry[0] / 0x40 % 2 == 0
  {
    FragmentBits(f, false);
  }

  lemma FirstFragment(p: Pending, entry: Entry, name: seq<u8>)
    requires |p.text| == 260 && PlainName(name) && IsFragment(entry, name, FragmentCount(name), entry[13])
    ensures Accumulated(p, entry).checksum == entry[13]
  {
    FragmentAccumulates(p, entry, name, FragmentCount(name), entry[13]);
  }
}
