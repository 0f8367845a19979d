/** Enumerating PCI devices (src/pci/pci.c): the buses are walked from bus 0 through
    bridges, with an array of buses pending and one of buses seen. */
module PciBuses {
  import opened Words

  const PCI_MAX_DEVICES := 64
  const VENDOR_NONE := 0xFFFF
  const VENDOR_OFFSET: u8 := 0x00
  const CLASS_OFFSET: u8 := 0x08
  const HEADER_TYPE_OFFSET: u8 := 0x0C
  const SECONDARY_BUS_OFFSET: u8 := 0x18

  /** What every configuration word reads as: bus, device, function, offset. */
  type ConfigSpace = (u8, u8, u8, u8) -> u32

  datatype PciDevice = PciDevice(
    bus: u8, device: u8, number: u8, vendor: u16, identifier: u16, classCode: u8, subclass: u8, interface: u8)

  // ----- what is there -----

  predicate Present(space: ConfigSpace, b: u8, d: u8, f: u8) {
    space(b, d, f, VENDOR_OFFSET) % 0x1_0000 != VENDOR_NONE
  }

  function Header(space: ConfigSpace, b: u8, d: u8, f: u8): u8 {
    space(b, d, f, HEADER_TYPE_OFFSET) / 0x1_0000 % 0x100
  }

  predicate Multifunction(space: ConfigSpace, b: u8, d: u8) {
    Header(space, b, d, 0) / 0x80 == 1
  }

  /** A function to be found: the first of a device that is there, or another of a
      device that says it has several. */
  predicate Visible(space: ConfigSpace, b: u8, d: u8, f: u8) {
    && d < 32 && f < 8 && Present(space, b, d, 0)
    && (f != 0 ==> Multifunction(space, b, d) && Present(space, b, d, f))
  }

  predicate IsBridge(space: ConfigSpace, b: u8, d: u8, f: u8) {
    Visible(space, b, d, f) && Header(space, b, d, f) % 0x80 == 1
  }

  function Secondary(space: ConfigSpace, b: u8, d: u8, f: u8): u8 {
    space(b, d, f, SECONDARY_BUS_OFFSET) / 0x100 % 0x100
  }

  function Decoded(b: u8, d: u8, f: u8, identity: u32, kind: u32): PciDevice {
    PciDevice(b, d, f, identity % 0x1_0000, identity / 0x1_0000,
      kind / 0x100_0000, kind / 0x1_0000 % 0x100, kind / 0x100 % 0x100)
  }

  function Described(space: ConfigSpace, b: u8, d: u8, f: u8): PciDevice {
    Decoded(b, d, f, space(b, d, f, VENDOR_OFFSET), space(b, d, f, CLASS_OFFSET))
  }

  ghost predicate Bridged(space: ConfigSpace, a: u8, c: u8) {
    exists d: u8, f: u8 :: IsBridge(space, a, d, f) && Secondary(space, a, d, f) == c
  }

  /** Reached from bus 0 through `n` bridges. */
  ghost predicate ReachedIn(space: ConfigSpace, b: u8, n: nat)
    decreases n
  {
    if n == 0 then b == 0 else exists a: u8 :: ReachedIn(space, a, n - 1) && Bridged(space, a, b)
  }

  ghost predicate Reachable(space: ConfigSpace, b: u8) {
    exists n: nat :: ReachedIn(space, b, n)
  }

  lemma ReachableOn(space: ConfigSpace, a: u8, c: u8)
    requires Reachable(space, a) && Bridged(space, a, c)
    ensures Reachable(space, c)
  {
    hide Bridged;
    var n: nat :| ReachedIn(space, a, n);
    assert ReachedIn(space, c, n + 1);
  }

  ghost predicate Closed(space: ConfigSpace, buses: seq<bool>) {
    |buses| == 256 && buses[0] && forall a: u8, c: u8 :: buses[a] && Bridged(space, a, c) ==> buses[c]
  }

  /** The reachable buses are among any buses that include bus 0 and whatever is
      behind their bridges. */
  lemma {:induction false} ReachableIsLeast(space: ConfigSpace, buses: seq<bool>, b: u8, n: nat)
    requires Closed(space, buses) && ReachedIn(space, b, n)
    ensures buses[b]
    decreases n
  {
    hide Bridged;
    if n > 0 {
      var a: u8 :| ReachedIn(space, a, n - 1) && Bridged(space, a, b);
      ReachableIsLeast(space, buses, a, n - 1);
    }
  }

  // ----- how far the walk has got -----

  function Slot(d: u8, f: u8): int { 8 * d + f }

  /** Everything up to slot `at` of bus `current` has been looked at, and all of the
      buses seen before it. */
  datatype Progress = Progress(
    found: seq<PciDevice>, truncated: bool, pending: seq<bool>, seen: seq<bool>,
    current: int, at: int, missed: (u8, u8, u8), order: seq<u8>)
  {
    predicate Covered(b: u8, d: u8, f: u8)
      requires |seen| == 256
    {
      seen[b] && (b == current ==> Slot(d, f) < at)
    }

    predicate Known(b: u8)
      requires |seen| == 256 == |pending|
    {
      seen[b] || pending[b]
    }
  }

  ghost predicate Listed(found: seq<PciDevice>, b: u8, d: u8, f: u8) {
    exists i :: 0 <= i < |found| && IsAt(found[i], b, d, f)
  }

  predicate IsAt(p: PciDevice, b: u8, d: u8, f: u8) {
    p.bus == b && p.device == d && p.number == f
  }

  ghost predicate NoneTwice(found: seq<PciDevice>) {
    forall i, j :: 0 <= i < j < |found| ==> !IsAt(found[j], found[i].bus, found[i].device, found[i].number)
  }

  /** A record of something that is there and has been come to. */
  ghost predicate Right(space: ConfigSpace, p: Progress, e: PciDevice)
    requires |p.seen| == 256
  {
    && Visible(space, e.bus, e.device, e.number) && e == Described(space, e.bus, e.device, e.number)
    && p.Covered(e.bus, e.device, e.number) && Reachable(space, e.bus)
  }

  ghost predicate Shaped(p: Progress) {
    && |p.seen| == 256 == |p.pending| && |p.found| <= PCI_MAX_DEVICES
    && (p.current == -1 || (0 <= p.current < 256 && p.seen[p.current])) && 0 <= p.at <= 256
    && (forall b: u8 :: !(p.seen[b] && p.pending[b]))
    && (forall b: u8 :: p.seen[b] <==> b in p.order)
    && (forall i, j :: 0 <= i < j < |p.order| ==> p.order[i] != p.order[j])
  }

  ghost predicate Sound(space: ConfigSpace, p: Progress)
    requires Shaped(p)
  {
    && NoneTwice(p.found)
    && (forall i :: 0 <= i < |p.found| ==> Right(space, p, p.found[i]))
    && p.Known(0) && forall b: u8 :: p.Known(b) ==> Reachable(space, b)
  }

  ghost predicate Thorough(space: ConfigSpace, p: Progress)
    requires Shaped(p)
  {
    forall b: u8, d: u8, f: u8 :: p.Covered(b, d, f) && Visible(space, b, d, f) ==>
      Listed(p.found, b, d, f) && (IsBridge(space, b, d, f) ==> p.Known(Secondary(space, b, d, f)))
  }

  ghost predicate Missed(space: ConfigSpace, found: seq<PciDevice>, b: u8, d: u8, f: u8) {
    Visible(space, b, d, f) && Reachable(space, b) && !Listed(found, b, d, f)
  }

  ghost predicate Inv(space: ConfigSpace, p: Progress) {
    && Shaped(p) && Sound(space, p)
    && (!p.truncated ==> Thorough(space, p))
    && (p.truncated ==> |p.found| == PCI_MAX_DEVICES && Missed(space, p.found, p.missed.0, p.missed.1, p.missed.2))
  }

  /** Slots with nothing to be found are passed over. */
  lemma PassOver(space: ConfigSpace, p: Progress, to': int)
    requires Inv(space, p) && 0 <= p.current && p.at <= to' <= 256
    requires forall d: u8, f: u8 :: d < 32 && f < 8 && p.at <= Slot(d, f) < to' ==> !Visible(space, p.current, d, f)
    ensures Inv(space, p.(at := to'))
  {
    hide Visible, IsBridge, Described, Reachable;
    var q := p.(at := to');
    forall i | 0 <= i < |q.found|
      ensures Right(space, q, q.found[i])
    {
      assert Right(space, p, p.found[i]);
    }
    if !p.truncated {
      forall b: u8, d: u8, f: u8 | q.Covered(b, d, f) && Visible(space, b, d, f)
        ensures Listed(q.found, b, d, f) && (IsBridge(space, b, d, f) ==> q.Known(Secondary(space, b, d, f)))
      {
        assert d < 32 && f < 8 by { VisibleIsInRange(space, b, d, f); }
        assert p.Covered(b, d, f);
      }
    }
  }

  lemma VisibleIsInRange(space: ConfigSpace, b: u8, d: u8, f: u8)
    requires Visible(space, b, d, f)
    ensures d < 32 && f < 8
  {
  }

  lemma UnlistedHere(space: ConfigSpace, p: Progress, d: u8, f: u8)
    requires Inv(space, p) && 0 <= p.current && d < 32 && f < 8 && p.at == Slot(d, f)
    ensures !Listed(p.found, p.current, d, f)
  {
    hide Visible, Described, Reachable;
    forall i | 0 <= i < |p.found|
      ensures !IsAt(p.found[i], p.current, d, f)
    {
      assert Right(space, p, p.found[i]);
    }
  }

  /** Where the walk is once a function has been recorded: a bridge puts the bus
      behind it on the list, unless that has been seen. */
  function Recorded(space: ConfigSpace, p: Progress, d: u8, f: u8): Progress
    requires |p.seen| == 256 == |p.pending| && 0 <= p.current < 256
  {
    var secondary := Secondary(space, p.current, d, f);
    p.(found := p.found + [Described(space, p.current, d, f)], at := p.at + 1,
       pending :=
         if IsBridge(space, p.current, d, f) && !p.seen[secondary] then p.pending[secondary := true] else p.pending)
  }

  lemma RecordKeeps(space: ConfigSpace, p: Progress, d: u8, f: u8)
    requires Inv(space, p) && 0 <= p.current && p.at == Slot(d, f) && Visible(space, p.current, d, f)
    requires |p.found| < PCI_MAX_DEVICES
    ensures Inv(space, Recorded(space, p, d, f))
  {
    hide Visible, IsBridge, Reachable, Secondary;
    var q, e := Recorded(space, p, d, f), Described(space, p.current, d, f);
    VisibleIsInRange(space, p.current, d, f);
    UnlistedHere(space, p, d, f);
    forall i | 0 <= i < |q.found|
      ensures Right(space, q, q.found[i])
    {
      if i < |p.found| {
        assert Right(space, p, p.found[i]);
      } else {
        assert p.Known(p.current);
      }
    }
    forall i, j | 0 <= i < j < |q.found|
      ensures !IsAt(q.found[j], q.found[i].bus, q.found[i].device, q.found[i].number)
    {
      if j == |p.found| {
        assert q.found[j] == e && q.found[i] == p.found[i];
        assert !IsAt(p.found[i], e.bus, e.device, e.number);
      }
    }
    if IsBridge(space, p.current, d, f) {
      NewBusIsReachable(space, p.current, d, f);
    }
    RecordIsThorough(space, p, d, f);
  }

  lemma NewBusIsReachable(space: ConfigSpace, b: u8, d: u8, f: u8)
    requires Reachable(space, b) && IsBridge(space, b, d, f)
    ensures Reachable(space, Secondary(space, b, d, f))
  {
    assert Bridged(space, b, Secondary(space, b, d, f));
    ReachableOn(space, b, Secondary(space, b, d, f));
  }

  lemma RecordIsThorough(space: ConfigSpace, p: Progress, d: u8, f: u8)
    requires Shaped(p) && Thorough(space, p) && 0 <= p.current && p.at == Slot(d, f) && d < 32 && f < 8
    ensures var q := Recorded(space, p, d, f);
      forall b: u8, d': u8, f': u8 :: q.Covered(b, d', f') && Visible(space, b, d', f') ==>
        Listed(q.found, b, d', f') && (IsBridge(space, b, d', f') ==> q.Known(Secondary(space, b, d', f')))
  {
    hide Visible, IsBridge, Secondary;
    var q := Recorded(space, p, d, f);
    forall b: u8, d': u8, f': u8 | q.Covered(b, d', f') && Visible(space, b, d', f')
      ensures Listed(q.found, b, d', f') && (IsBridge(space, b, d', f') ==> q.Known(Secondary(space, b, d', f')))
    {
      VisibleIsInRange(space, b, d', f');
      if p.Covered(b, d', f') {
        var i :| 0 <= i < |p.found| && IsAt(p.found[i], b, d', f');
        assert q.found[i] == p.found[i];
      } else {
        assert q.found[|p.found|] == Described(space, p.current, d, f);
        assert b == p.current && d' == d && f' == f;
      }
    }
  }

  lemma TruncateKeeps(space: ConfigSpace, p: Progress, d: u8, f: u8)
    requires Inv(space, p) && 0 <= p.current && p.at == Slot(d, f) && Visible(space, p.current, d, f)
    requires |p.found| == PCI_MAX_DEVICES
    ensures Inv(space, p.(truncated := true, missed := (p.current, d, f), at := p.at + 1))
  {
    hide Visible, IsBridge, Reachable, Secondary, Described;
    VisibleIsInRange(space, p.current, d, f);
    UnlistedHere(space, p, d, f);
    assert p.Known(p.current);
    var q := p.(truncated := true, missed := (p.current, d, f), at := p.at + 1);
    forall i | 0 <= i < |q.found|
      ensures Right(space, q, q.found[i])
    {
      assert Right(space, p, p.found[i]);
    }
  }

  function Entered(p: Progress, bus: u8): Progress
    requires |p.seen| == 256 == |p.pending|
  {
    p.(pending := p.pending[bus := false], seen := p.seen[bus := true], current := bus, at := 0,
       order := p.order + [bus])
  }

  /** A pending bus was not seen before: it is entered once. */
  lemma EnterKeeps(space: ConfigSpace, p: Progress, bus: u8)
    requires Inv(space, p) && p.pending[bus] && (p.current == -1 || p.at == 256)
    ensures bus !in p.order && Inv(space, Entered(p, bus))
  {
    hide Visible, IsBridge, Reachable, Secondary, Described;
    var q := Entered(p, bus);
    forall b: u8
      ensures q.seen[b] <==> b in q.order
      ensures q.Known(b) == p.Known(b)
    {
    }
    forall i | 0 <= i < |q.found|
      ensures Right(space, q, q.found[i])
    {
      assert Right(space, p, p.found[i]);
    }
    if !p.truncated {
      forall b: u8, d: u8, f: u8 | q.Covered(b, d, f) && Visible(space, b, d, f)
        ensures Listed(q.found, b, d, f) && (IsBridge(space, b, d, f) ==> q.Known(Secondary(space, b, d, f)))
      {
        VisibleIsInRange(space, b, d, f);
        assert p.Covered(b, d, f);
      }
    }
  }

  /** With nothing pending, and the last bus finished, everything that can be reached
      has been come to. */
  lemma AllCovered(space: ConfigSpace, p: Progress, b: u8, d: u8, f: u8)
    requires Inv(space, p) && !p.truncated && (p.current == -1 || p.at == 256)
    requires forall c: u8 :: !p.pending[c]
    requires Reachable(space, b) && Visible(space, b, d, f)
    ensures Listed(p.found, b, d, f)
  {
    hide Visible, Described, Secondary;
    assert p.Known(0);
    forall a: u8, c: u8 | p.seen[a] && Bridged(space, a, c)
      ensures p.seen[c]
    {
      var d': u8, f': u8 :| IsBridge(space, a, d', f') && Secondary(space, a, d', f') == c;
      VisibleIsInRange(space, a, d', f');
      assert p.Covered(a, d', f');
    }
    var n: nat :| ReachedIn(space, b, n);
    ReachableIsLeast(space, p.seen, b, n);
    VisibleIsInRange(space, b, d, f);
    assert p.Covered(b, d, f);
  }

  // ----- the walk -----

  class BusWalk {
    const space: ConfigSpace
    const entries: array<PciDevice>
    var count: nat
    var truncated: bool
    const pending: array<bool>
    const seen: array<bool>
    ghost var current: int
    ghost var at: int
    ghost var missed: (u8, u8, u8)
    ghost var order: seq<u8>

    constructor (space: ConfigSpace)
      ensures this.space == space && Valid() && fresh(entries) && fresh(pending) && fresh(seen)
      ensures State() == Progress([], false, seq(256, b => b == 0), seq(256, b => false), -1, 0, (0, 0, 0), [])
    {
      this.space := space;
      entries := new PciDevice[64](_ => PciDevice(0, 0, 0, 0, 0, 0, 0, 0));
      pending := new bool[256](b => b == 0);
      seen := new bool[256](_ => false);
      count, truncated := 0, false;
      current, at, missed, order := -1, 0, (0, 0, 0), [];
      new;
      assert pending[..] == seq(256, b => b == 0);
      assert seen[..] == seq(256, b => false);
    }

    ghost predicate Valid()
      reads this
    {
      entries.Length == 64 && pending.Length == 256 == seen.Length && pending != seen && count <= 64
    }

    ghost function State(): Progress
      requires Valid()
      reads this, entries, pending, seen
    {
      Progress(entries[..count], truncated, pending[..], seen[..], current, at, missed, order)
    }

    method Record(b: u8, d: u8, f: u8, identity: u32, kind: u32) returns (ok: bool)
      requires Valid()
      modifies this`count, this`truncated, entries
      ensures Valid() && ok == (old(count) < 64)
      ensures ok ==> entries[..count] == old(entries[..count]) + [Decoded(b, d, f, identity, kind)]
      ensures ok ==> truncated == old(truncated)
      ensures !ok ==> truncated && entries[..count] == old(entries[..count])
    {
      if count == 64 {
        truncated := true;
        return false;
      }
      entries[count] := Decoded(b, d, f, identity, kind);
      count := count + 1;
      return true;
    }

    method VisitFunction(b: u8, d: u8, f: u8)
      requires Valid() && Inv(space, State()) && current == b && at == Slot(d, f) && d < 32 && f < 8
      requires Visible(space, b, d, f) <==> Present(space, b, d, f)
      modifies this`count, this`truncated, this`at, this`missed, entries, pending
      ensures Valid() && Inv(space, State()) && at == Slot(d, f) + 1
    {
      hide Inv, Visible, Decoded;
      ghost var before := State();
      var identity := space(b, d, f, VENDOR_OFFSET);
      if identity % 0x1_0000 == VENDOR_NONE {
        at := at + 1;
        PassOver(space, before, at);
        return;
      }
      var kind := space(b, d, f, CLASS_OFFSET);
      var ok := Record(b, d, f, identity, kind);
      at := at + 1;
      if !ok {
        missed := (b, d, f);
        TruncateKeeps(space, before, d, f);
        return;
      }
      RecordKeeps(space, before, d, f);
      var header := space(b, d, f, HEADER_TYPE_OFFSET) / 0x1_0000 % 0x100;
      if header % 0x80 != 0x01 {
        assert State() == Recorded(space, before, d, f);
        return;
      }
      var secondary := space(b, d, f, SECONDARY_BUS_OFFSET) / 0x100 % 0x100;
      if !seen[secondary] {
        pending[secondary] := true;
      }
      assert State() == Recorded(space, before, d, f);
    }

    method VisitDevice(b: u8, d: u8)
      requires Valid() && Inv(space, State()) && current == b && at == Slot(d, 0) && d < 32
      modifies this`count, this`truncated, this`at, this`missed, entries, pending
      ensures Valid() && Inv(space, State()) && at == Slot(d, 0) + 8
    {
      hide Inv;
      ghost var before := State();
      var identity := space(b, d, 0, VENDOR_OFFSET);
      if identity % 0x1_0000 == VENDOR_NONE {
        at := at + 8;
        PassOver(space, before, at);
        return;
      }
      VisitFunction(b, d, 0);
      var header := space(b, d, 0, HEADER_TYPE_OFFSET) / 0x1_0000 % 0x100;
      if header / 0x80 == 0 {
        ghost var middle := State();
        at := at + 7;
        PassOver(space, middle, at);
        return;
      }
      var f := 1;
      while f < 8
        invariant 1 <= f <= 8 && Valid() && Inv(space, State()) && at == Slot(d, 0) + f
      {
        VisitFunction(b, d, f);
        f := f + 1;
      }
    }

    /** The lowest bus that is pending, if there is one. */
    method NextPending() returns (bus: nat)
      requires Valid()
      ensures bus <= 256 && (bus < 256 ==> pending[bus])
      ensures forall b :: 0 <= b < bus ==> !pending[b]
    {
      for index := 0 to 256
        invariant forall b :: 0 <= b < index ==> !pending[b]
      {
        if pending[index] {
          return index;
        }
      }
      return 256;
    }

    method VisitBus(bus: u8)
      requires Valid() && Inv(space, State()) && pending[bus] && (current == -1 || at == 256)
      modifies this`count, this`truncated, this`at, this`missed, this`current, this`order, entries, pending, seen
      ensures Valid() && Inv(space, State()) && current == bus && at == 256
      ensures bus !in old(order) && order == old(order) + [bus]
    {
      hide Inv;
      ghost var before := State();
      EnterKeeps(space, before, bus);
      pending[bus] := false;
      seen[bus] := true;
      current, at, order := bus, 0, order + [bus];
      assert State() == Entered(before, bus);
      var d := 0;
      while d < 32
        invariant 0 <= d <= 32 && Valid() && Inv(space, State()) && current == bus && at == 8 * d
        invariant order == old(order) + [bus]
      {
        VisitDevice(bus, d);
        d := d + 1;
      }
    }

    /** The whole enumeration. Whatever the configuration space holds it ends; no bus
        is walked twice and nothing is recorded twice; only what is there and can be
        reached is recorded, as it describes itself; and all of that is, unless
        there is no more room, which is said exactly when something is missing. */
    method Enumerate()
      requires Valid()
      requires State() == Progress([], false, seq(256, b => b == 0), seq(256, b => false), -1, 0, (0, 0, 0), [])
      modifies this, entries, pending, seen
      ensures Valid() && NoneTwice(entries[..count])
      ensures forall i :: 0 <= i < count ==> Genuine(space, entries[i])
      ensures forall b: u8, d: u8, f: u8 :: Listed(entries[..count], b, d, f) ==>
        Reachable(space, b) && Visible(space, b, d, f)
      ensures !truncated ==>
        forall b: u8, d: u8, f: u8 ::
          Reachable(space, b) && Visible(space, b, d, f) ==> Listed(entries[..count], b, d, f)
      ensures truncated ==> count == 64 && exists b: u8, d: u8, f: u8 :: Missed(space, entries[..count], b, d, f)
      ensures forall i, j :: 0 <= i < j < |order| ==> order[i] != order[j]
      ensures forall b :: b in order ==> Reachable(space, b)
    {
      hide Visible, Described, Reachable, Thorough, Missed, Right;
      StartIsRight(space);
      ghost var left := set b: u8 | b !in order;
      while true
        invariant Valid() && Inv(space, State()) && (current == -1 || at == 256)
        invariant left == set b: u8 | b !in order
        decreases |left|
      {
        var bus := NextPending();
        if bus == 256 {
          break;
        }
        VisitBus(bus);
        assert bus in left;
        left := left - {bus};
      }
      Finished(space, State());
    }
  }

  ghost predicate Genuine(space: ConfigSpace, e: PciDevice) {
    && Visible(space, e.bus, e.device, e.number) && Reachable(space, e.bus)
    && e == Described(space, e.bus, e.device, e.number)
  }

  lemma StartIsRight(space: ConfigSpace)
    ensures Inv(space, Progress([], false, seq(256, b => b == 0), seq(256, b => false), -1, 0, (0, 0, 0), []))
  {
    assert ReachedIn(space, 0, 0);
  }

  lemma Finished(space: ConfigSpace, p: Progress)
    requires Inv(space, p) && (p.current == -1 || p.at == 256) && forall c: u8 :: !p.pending[c]
    ensures NoneTwice(p.found) && forall i :: 0 <= i < |p.found| ==> Genuine(space, p.found[i])
    ensures forall b: u8, d: u8, f: u8 :: Listed(p.found, b, d, f) ==> Reachable(space, b) && Visible(space, b, d, f)
    ensures !p.truncated ==>
      forall b: u8, d: u8, f: u8 :: Reachable(space, b) && Visible(space, b, d, f) ==> Listed(p.found, b, d, f)
    ensures p.truncated ==> exists b: u8, d: u8, f: u8 :: Missed(space, p.found, b, d, f)
    ensures forall b :: b in p.order ==> Reachable(space, b)
  {
    hide Visible, Described, Reachable, Missed;
    forall i | 0 <= i < |p.found|
      ensures Genuine(space, p.found[i])
    {
      assert Right(space, p, p.found[i]);
    }
    if !p.truncated {
      forall b: u8, d: u8, f: u8 | Reachable(space, b) && Visible(space, b, d, f)
        ensures Listed(p.found, b, d, f)
      {
        AllCovered(space, p, b, d, f);
      }
    }
    forall b | b in p.order
      ensures Reachable(space, b)
    {
      assert p.Known(b);
    }
  }
}
