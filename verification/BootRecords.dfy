/** Boot records with four entries, laid out byte by byte, and the partitions that are
    found in them (src/block/partition.c, parse_mbr). */
module BootRecords {
  import opened Words
  import opened Fields
  import opened Partitions

  datatype Slot = Free | Held(kind: u8, active: bool, first: int, sectors: int)

  const SLOTS_AT: seq<nat> := [446, 462, 478, 494]

  /** An entry of sixteen bytes; those with cylinders and heads may be anything. */
  predicate SlotLaid(sector: seq<u8>, at: nat, slot: Slot) {
    && at + 16 <= |sector|
    && match slot
       case Free => sector[at + 4] == 0x00
       case Held(kind, active, first, sectors) =>
         && (if active then sector[at] >= 0x80 else sector[at] < 0x80)
         && kind != 0x00 && sector[at + 4] == kind
         && WordLaid(sector, at + 8, first) && WordLaid(sector, at + 12, sectors)
  }

  predicate RecordLaid(sector: seq<u8>, slots: seq<Slot>) {
    && |sector| == 512 && |slots| == 4 && sector[510] == 0x55 && sector[511] == 0xAA
    && forall i :: 0 <= i < 4 ==> SlotLaid(sector, SLOTS_AT[i], slots[i])
  }

  /** Not empty, and not past the end of a device that says how large it is. */
  predicate Believed(slot: Slot, deviceSectors: u64) {
    slot.Held? && slot.sectors > 0 && (deviceSectors == 0 || slot.first + slot.sectors <= deviceSectors)
  }

  predicate InWords(slot: Slot) {
    slot.Held? ==> 0 <= slot.first < 0x1_0000_0000 && 0 <= slot.sectors < 0x1_0000_0000
  }

  function PartitionIn(slot: Slot): Partition
    requires slot.Held? && InWords(slot)
  {
    Partition(slot.first, slot.sectors, slot.kind, slot.active)
  }

  /** The partitions to be believed, in order. */
  function PartitionsIn(slots: seq<Slot>, deviceSectors: u64): seq<Partition>
    requires forall slot <- slots :: InWords(slot)
  {
    if slots == [] then []
    else
      var rest, last := slots[..|slots| - 1], slots[|slots| - 1];
      PartitionsIn(rest, deviceSectors) + (if Believed(last, deviceSectors) then [PartitionIn(last)] else [])
  }

  lemma SlotIsRead(sector: seq<u8>, i: nat, slot: Slot, deviceSectors: u64)
    requires |sector| == 512 && i < 4 && SlotLaid(sector, SLOTS_AT[i], slot)
    ensures InWords(slot)
    ensures EntryOf(sector, i).kind == (if slot.Held? then slot.kind else 0)
    ensures slot.Held? ==> EntryOf(sector, i) == PartitionIn(slot)
    ensures Kept(EntryOf(sector, i), deviceSectors) <==> Believed(slot, deviceSectors)
  {
    hide WordLaid, U32At;
    assert SLOTS_AT[i] == 446 + 16 * i;
    if slot.Held? {
      WordIs(sector, SLOTS_AT[i] + 8, slot.first);
      WordIs(sector, SLOTS_AT[i] + 12, slot.sectors);
      TopBit(sector[SLOTS_AT[i]]);
    }
  }

  lemma TopBit(x: u8)
    ensures x / 0x80 % 2 == 1 <==> x >= 0x80
  {
  }

  lemma {:induction false} KeptIs(sector: seq<u8>, slots: seq<Slot>, deviceSectors: u64, n: nat)
    requires RecordLaid(sector, slots) && n <= 4
    ensures forall slot <- slots :: InWords(slot)
    ensures KeptAmong(sector, deviceSectors, n) == PartitionsIn(slots[..n], deviceSectors)
  {
    hide SlotLaid, EntryOf, Kept, Believed, PartitionIn, InWords;
    forall i | 0 <= i < 4
      ensures InWords(slots[i])
    {
      SlotIsRead(sector, i, slots[i], deviceSectors);
    }
    if n > 0 {
      KeptIs(sector, slots, deviceSectors, n - 1);
      SlotIsRead(sector, n - 1, slots[n - 1], deviceSectors);
      assert slots[..n][..n - 1] == slots[..n - 1];
      NeedsHeld(slots[n - 1], deviceSectors);
    } else {
      assert slots[..n] == [];
    }
  }

  lemma NeedsHeld(slot: Slot, deviceSectors: u64)
    ensures Believed(slot, deviceSectors) ==> slot.Held?
  {
  }

  /** A record laid out so is read as the partitions it was laid out with; or as the sign of
      another kind of table, if one of them is of the kind that says so. */
  method ParseLaid(table: PartitionTable, sector: seq<u8>, deviceSectors: u64, ghost slots: seq<Slot>)
    returns (ok: bool)
    requires table.Valid() && RecordLaid(sector, slots)
    modifies table, table.entries
    ensures table.Valid() && ok && forall slot <- slots :: InWords(slot)
    ensures table.gpt <==> exists slot <- slots :: slot.Held? && slot.kind == 0xEE
    ensures table.Contents() == if table.gpt then [] else PartitionsIn(slots, deviceSectors)
  {
    hide SlotLaid, EntryOf, Kept, Believed, PartitionIn, InWords, PartitionsIn, KeptAmong;
    KeptIs(sector, slots, deviceSectors, 4);
    assert slots[..4] == slots;
    GptIs(sector, slots);
    ok := table.ParseMbr(sector, deviceSectors);
  }

  lemma GptIs(sector: seq<u8>, slots: seq<Slot>)
    requires RecordLaid(sector, slots)
    ensures SaysGpt(sector) <==> exists slot <- slots :: slot.Held? && slot.kind == 0xEE
    ensures U16At(sector, 510) == 0xAA55
  {
    hide SlotLaid, EntryOf;
    forall i | 0 <= i < 4
      ensures EntryOf(sector, i).kind == (if slots[i].Held? then slots[i].kind else 0)
    {
      SlotIsRead(sector, i, slots[i], 0);
    }
    if exists slot <- slots :: slot.Held? && slot.kind == 0xEE {
      var i :| 0 <= i < 4 && slots[i].Held? && slots[i].kind == 0xEE;
      assert EntryOf(sector, i).kind == 0xEE;
    }
  }
}
