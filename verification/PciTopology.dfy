/** Machines: functions with what they say of themselves, and bridges to further buses.
    Laid out as the bytes of configuration space (PCI Local Bus Specification 3.0,
    chapter 6; PCI-to-PCI Bridge Architecture Specification 1.2, section 3.2), they are
    enumerated (src/pci/pci.c) as what they are. */
module PciTopology {
  import opened Words
  import opened PciBuses

  /** Bus, device, function. */
  type Location = (u8, u8, u8)

  datatype Kind = Endpoint(layout: u8) | Bridge(primary: u8, secondary: u8, subordinate: u8)

  /** A function; `several` is what it says of the number of its device's functions. */
  datatype Function = Function(
    vendor: u16, identifier: u16, classCode: u8, subclass: u8, interface: u8, several: bool, kind: Kind)

  type Machine = map<Location, Function>

  /** The bytes of configuration space, 256 of them for each function. */
  type ConfigBytes = (u8, u8, u8, u8) -> u8

  /** What a function lays out there. Bytes that are not named may be anything. */
  predicate FunctionLaid(bytes: ConfigBytes, b: u8, d: u8, f: u8, fn: Function) {
    && fn.vendor != 0xFFFF
    && bytes(b, d, f, 0x00) == fn.vendor % 0x100 && bytes(b, d, f, 0x01) == fn.vendor / 0x100
    && bytes(b, d, f, 0x02) == fn.identifier % 0x100 && bytes(b, d, f, 0x03) == fn.identifier / 0x100
    && bytes(b, d, f, 0x09) == fn.interface && bytes(b, d, f, 0x0A) == fn.subclass
    && bytes(b, d, f, 0x0B) == fn.classCode
    && match fn.kind
       case Endpoint(layout) =>
         && layout < 0x80 && layout != 1
         && bytes(b, d, f, 0x0E) as int == (if fn.several then 0x80 else 0) + layout as int
       case Bridge(primary, secondary, subordinate) =>
         && bytes(b, d, f, 0x0E) == (if fn.several then 0x81 else 0x01)
         && bytes(b, d, f, 0x18) == primary && bytes(b, d, f, 0x19) == secondary
         && bytes(b, d, f, 0x1A) == subordinate
  }

  /** Every function is laid out in its place, and where there is none nothing answers. */
  ghost predicate MachineLaid(bytes: ConfigBytes, m: Machine) {
    forall b: u8, d: u8, f: u8 :: d < 32 && f < 8 ==>
      if (b, d, f) in m then FunctionLaid(bytes, b, d, f, m[(b, d, f)])
      else bytes(b, d, f, 0x00) == 0xFF && bytes(b, d, f, 0x01) == 0xFF
  }

  /** Words are read the lowest byte first. */
  ghost predicate ReadsAs(space: ConfigSpace, bytes: ConfigBytes) {
    forall b: u8, d: u8, f: u8, o: u8 :: o % 4 == 0 ==> WordReads(space, bytes, b, d, f, o)
  }

  predicate WordReads(space: ConfigSpace, bytes: ConfigBytes, b: u8, d: u8, f: u8, o: u8)
    requires o % 4 == 0
  {
    space(b, d, f, o) as int == bytes(b, d, f, o) as int + 0x100 * (bytes(b, d, f, o + 1) as int)
      + 0x1_0000 * (bytes(b, d, f, o + 2) as int) + 0x100_0000 * (bytes(b, d, f, o + 3) as int)
  }

  // ----- what is to be found -----

  /** A function that is there, and whose device owns up to it: a device has a first
      function, and others only if that says so. */
  predicate Shown(m: Machine, at: Location) {
    && at.1 < 32 && at.2 < 8 && at in m && (at.0, at.1, 0) in m
    && (at.2 != 0 ==> m[(at.0, at.1, 0)].several)
  }

  /** A bridge on one bus leads to the other. */
  ghost predicate Leads(m: Machine, from: u8, to: u8) {
    exists at :: Shown(m, at) && at.0 == from && m[at].kind.Bridge? && m[at].kind.secondary == to
  }

  ghost predicate BusIn(m: Machine, b: u8, n: nat)
    decreases n
  {
    if n == 0 then b == 0 else exists a: u8 :: BusIn(m, a, n - 1) && Leads(m, a, b)
  }

  ghost predicate OnBus(m: Machine, b: u8) {
    exists n: nat :: BusIn(m, b, n)
  }

  /** What can be reached from bus 0 through bridges. */
  ghost function Reached(m: Machine): set<Location> {
    set at | at in m.Keys && Shown(m, at) && OnBus(m, at.0)
  }

  /** What is to be recorded of a function. */
  function Record(at: Location, fn: Function): PciDevice {
    PciDevice(at.0, at.1, at.2, fn.vendor, fn.identifier, fn.classCode, fn.subclass, fn.interface)
  }

  // ----- one function, read -----

  lemma BytesOfWord(a: u8, b: u8, c: u8, d: u8)
    ensures var w := a as int + 0x100 * (b as int) + 0x1_0000 * (c as int) + 0x100_0000 * (d as int);
      && w % 0x1_0000 == a as int + 0x100 * (b as int) && w / 0x1_0000 == c as int + 0x100 * (d as int)
      && w / 0x100 % 0x100 == b && w / 0x1_0000 % 0x100 == c && w / 0x100_0000 == d
  {
    var w := a as int + 0x100 * (b as int) + 0x1_0000 * (c as int) + 0x100_0000 * (d as int);
    DivisionIs(w, 0x1_0000, c as int + 0x100 * (d as int), a as int + 0x100 * (b as int));
    DivisionIs(w, 0x100, b as int + 0x100 * (c as int) + 0x1_0000 * (d as int), a);
    DivisionIs(w, 0x100_0000, d, a as int + 0x100 * (b as int) + 0x1_0000 * (c as int));
  }

  lemma WordIs(space: ConfigSpace, bytes: ConfigBytes, b: u8, d: u8, f: u8, o: u8)
    requires ReadsAs(space, bytes) && o % 4 == 0
    ensures var w := space(b, d, f, o) as int;
      && w % 0x1_0000 == bytes(b, d, f, o) as int + 0x100 * (bytes(b, d, f, o + 1) as int)
      && w / 0x1_0000 == bytes(b, d, f, o + 2) as int + 0x100 * (bytes(b, d, f, o + 3) as int)
      && w / 0x100 % 0x100 == bytes(b, d, f, o + 1) && w / 0x1_0000 % 0x100 == bytes(b, d, f, o + 2)
      && w / 0x100_0000 == bytes(b, d, f, o + 3)
  {
    assert WordReads(space, bytes, b, d, f, o);
    BytesOfWord(bytes(b, d, f, o), bytes(b, d, f, o + 1), bytes(b, d, f, o + 2), bytes(b, d, f, o + 3));
  }

  lemma FunctionIsRead(space: ConfigSpace, bytes: ConfigBytes, b: u8, d: u8, f: u8, fn: Function)
    requires ReadsAs(space, bytes) && FunctionLaid(bytes, b, d, f, fn)
    ensures Present(space, b, d, f) && Described(space, b, d, f) == Record((b, d, f), fn)
    ensures Header(space, b, d, f) % 0x80 == 1 <==> fn.kind.Bridge?
    ensures Header(space, b, d, f) / 0x80 == 1 <==> fn.several
    ensures fn.kind.Bridge? ==> Secondary(space, b, d, f) == fn.kind.secondary
  {
    WordIs(space, bytes, b, d, f, 0x00);
    WordIs(space, bytes, b, d, f, 0x08);
    WordIs(space, bytes, b, d, f, 0x0C);
    WordIs(space, bytes, b, d, f, 0x18);
  }

  lemma NothingIsRead(space: ConfigSpace, bytes: ConfigBytes, b: u8, d: u8, f: u8)
    requires ReadsAs(space, bytes) && bytes(b, d, f, 0x00) == 0xFF && bytes(b, d, f, 0x01) == 0xFF
    ensures !Present(space, b, d, f)
  {
    WordIs(space, bytes, b, d, f, 0x00);
  }

  /** What the walk can see is what is shown, and it describes itself as it is. */
  lemma ShownIsVisible(space: ConfigSpace, bytes: ConfigBytes, m: Machine, b: u8, d: u8, f: u8)
    requires ReadsAs(space, bytes) && MachineLaid(bytes, m)
    ensures Visible(space, b, d, f) <==> Shown(m, (b, d, f))
    ensures Shown(m, (b, d, f)) ==> Described(space, b, d, f) == Record((b, d, f), m[(b, d, f)])
    ensures IsBridge(space, b, d, f) <==> Shown(m, (b, d, f)) && m[(b, d, f)].kind.Bridge?
    ensures IsBridge(space, b, d, f) ==> Secondary(space, b, d, f) == m[(b, d, f)].kind.secondary
  {
    hide Present, Described, Header, Secondary, FunctionLaid, ReadsAs, Record;
    if d < 32 && f < 8 {
      SlotIsRead(space, bytes, m, b, d, 0);
      SlotIsRead(space, bytes, m, b, d, f);
    }
  }

  lemma SlotIsRead(space: ConfigSpace, bytes: ConfigBytes, m: Machine, b: u8, d: u8, f: u8)
    requires ReadsAs(space, bytes) && MachineLaid(bytes, m) && d < 32 && f < 8
    ensures Present(space, b, d, f) <==> (b, d, f) in m
    ensures (b, d, f) in m ==>
      var fn := m[(b, d, f)];
      && Described(space, b, d, f) == Record((b, d, f), fn)
      && (Header(space, b, d, f) % 0x80 == 1 <==> fn.kind.Bridge?)
      && (Header(space, b, d, f) / 0x80 == 1 <==> fn.several)
      && (fn.kind.Bridge? ==> Secondary(space, b, d, f) == fn.kind.secondary)
  {
    hide Present, Described, Header, Secondary, FunctionLaid, ReadsAs, Record;
    if (b, d, f) in m {
      FunctionIsRead(space, bytes, b, d, f, m[(b, d, f)]);
    } else {
      NothingIsRead(space, bytes, b, d, f);
    }
  }

  // ----- the machine, enumerated -----

  lemma LeadsIsBridged(space: ConfigSpace, bytes: ConfigBytes, m: Machine, a: u8, c: u8)
    requires ReadsAs(space, bytes) && MachineLaid(bytes, m)
    ensures Bridged(space, a, c) <==> Leads(m, a, c)
  {
    hide ReadsAs, MachineLaid, IsBridge, Secondary, Shown;
    forall d: u8, f: u8
      ensures IsBridge(space, a, d, f) <==> Shown(m, (a, d, f)) && (a, d, f) in m && m[(a, d, f)].kind.Bridge?
      ensures IsBridge(space, a, d, f) ==> Secondary(space, a, d, f) == m[(a, d, f)].kind.secondary
    {
      ShownIsVisible(space, bytes, m, a, d, f);
      ShownIsThere(m, (a, d, f));
    }
    if Leads(m, a, c) {
      forall at
        ensures Shown(m, at) ==> at in m
      {
        ShownIsThere(m, at);
      }
      var at :| Shown(m, at) && at.0 == a && at in m && m[at].kind.Bridge? && m[at].kind.secondary == c;
      assert at == (a, at.1, at.2);
      assert IsBridge(space, a, at.1, at.2);
    }
  }

  lemma ShownIsThere(m: Machine, at: Location)
    ensures Shown(m, at) ==> at in m
  {
  }

  lemma {:induction false} BusesAgree(space: ConfigSpace, bytes: ConfigBytes, m: Machine, b: u8, n: nat)
    requires ReadsAs(space, bytes) && MachineLaid(bytes, m)
    ensures ReachedIn(space, b, n) <==> BusIn(m, b, n)
    decreases n
  {
    hide ReadsAs, MachineLaid, Bridged, Leads;
    if n > 0 {
      forall a: u8
        ensures ReachedIn(space, a, n - 1) <==> BusIn(m, a, n - 1)
        ensures Bridged(space, a, b) <==> Leads(m, a, b)
      {
        BusesAgree(space, bytes, m, a, n - 1);
        LeadsIsBridged(space, bytes, m, a, b);
      }
    }
  }

  lemma ReachableIsOnBus(space: ConfigSpace, bytes: ConfigBytes, m: Machine, b: u8)
    requires ReadsAs(space, bytes) && MachineLaid(bytes, m)
    ensures Reachable(space, b) <==> OnBus(m, b)
  {
    hide ReadsAs, MachineLaid, ReachedIn, BusIn;
    forall n: nat
      ensures ReachedIn(space, b, n) <==> BusIn(m, b, n)
    {
      BusesAgree(space, bytes, m, b, n);
    }
  }

  function LocationOf(e: PciDevice): Location { (e.bus, e.device, e.number) }

  ghost function Locations(found: seq<PciDevice>): set<Location> {
    set e | e in found :: LocationOf(e)
  }

  lemma LocationsGrow(rest: seq<PciDevice>, last: PciDevice)
    ensures Locations(rest + [last]) == Locations(rest) + {LocationOf(last)}
  {
    hide LocationOf;
    var found := rest + [last];
    assert found[|rest|] == last;
    assert forall e :: e in found <==> e in rest || e == last;
  }

  lemma LastIsElsewhere(found: seq<PciDevice>)
    requires NoneTwice(found) && found != []
    ensures var rest, last := found[..|found| - 1], found[|found| - 1];
      NoneTwice(rest) && LocationOf(last) !in Locations(rest)
  {
    var rest, last := found[..|found| - 1], found[|found| - 1];
    forall e | e in rest
      ensures LocationOf(e) != LocationOf(last)
    {
      var i :| 0 <= i < |rest| && rest[i] == e;
      assert found[i] == e && !IsAt(found[|found| - 1], e.bus, e.device, e.number);
    }
  }

  /** Records of different places are so many places. */
  lemma {:induction false} PlacesCounted(found: seq<PciDevice>)
    requires NoneTwice(found)
    ensures |Locations(found)| == |found|
  {
    hide NoneTwice, LocationOf;
    if found == [] {
      assert Locations(found) == {};
    } else {
      var rest, last := found[..|found| - 1], found[|found| - 1];
      assert found == rest + [last];
      LastIsElsewhere(found);
      LocationsGrow(rest, last);
      PlacesCounted(rest);
    }
  }

  /** A list of what a machine is: every function that can be reached, once, with its
      fields, and nothing else. */
  ghost predicate ListsMachine(found: seq<PciDevice>, m: Machine) {
    && |found| == |Reached(m)| && Locations(found) == Reached(m)
    && forall e :: e in found ==> LocationOf(e) in m && e == Record(LocationOf(e), m[LocationOf(e)])
  }

  lemma GenuineIsReached(space: ConfigSpace, bytes: ConfigBytes, m: Machine, e: PciDevice)
    requires ReadsAs(space, bytes) && MachineLaid(bytes, m) && Genuine(space, e)
    ensures LocationOf(e) in Reached(m) && LocationOf(e) in m && e == Record(LocationOf(e), m[LocationOf(e)])
  {
    hide ReadsAs, MachineLaid, Visible, Reachable, Shown, OnBus, Described, Record;
    ShownIsVisible(space, bytes, m, e.bus, e.device, e.number);
    ReachableIsOnBus(space, bytes, m, e.bus);
    ShownIsThere(m, LocationOf(e));
  }

  /** What an enumeration comes to, for a machine of any shape. */
  lemma MachineIsListed(
    space: ConfigSpace, bytes: ConfigBytes, m: Machine, found: seq<PciDevice>, truncated: bool)
    requires ReadsAs(space, bytes) && MachineLaid(bytes, m) && NoneTwice(found) && |found| <= 64
    requires forall i :: 0 <= i < |found| ==> Genuine(space, found[i])
    requires !truncated ==> forall b: u8, d: u8, f: u8 ::
      Reachable(space, b) && Visible(space, b, d, f) ==> Listed(found, b, d, f)
    requires truncated ==> |found| == 64 && exists b: u8, d: u8, f: u8 :: Missed(space, found, b, d, f)
    ensures truncated <==> |Reached(m)| > 64
    ensures !truncated ==> ListsMachine(found, m)
    ensures truncated ==> |found| == 64 && Locations(found) < Reached(m)
  {
    hide ReadsAs, MachineLaid, Visible, Reachable, Shown, OnBus, Described, Record, Genuine, NoneTwice;
    PlacesCounted(found);
    forall e | e in found
      ensures LocationOf(e) in Reached(m) && LocationOf(e) in m && e == Record(LocationOf(e), m[LocationOf(e)])
    {
      var i :| 0 <= i < |found| && found[i] == e;
      GenuineIsReached(space, bytes, m, e);
    }
    if truncated {
      var b: u8, d: u8, f: u8 :| Missed(space, found, b, d, f);
      MissedIsReached(space, bytes, m, found, b, d, f);
      Smaller(Locations(found), Reached(m), (b, d, f));
    } else {
      forall at | at in Reached(m)
        ensures at in Locations(found)
      {
        ShownIsVisible(space, bytes, m, at.0, at.1, at.2);
        ReachableIsOnBus(space, bytes, m, at.0);
        var i :| 0 <= i < |found| && IsAt(found[i], at.0, at.1, at.2);
        assert LocationOf(found[i]) == at;
      }
      assert Locations(found) == Reached(m);
    }
  }

  lemma MissedIsReached(
    space: ConfigSpace, bytes: ConfigBytes, m: Machine, found: seq<PciDevice>, b: u8, d: u8, f: u8)
    requires ReadsAs(space, bytes) && MachineLaid(bytes, m) && Missed(space, found, b, d, f)
    ensures (b, d, f) in Reached(m) && (b, d, f) !in Locations(found)
  {
    hide ReadsAs, MachineLaid, Visible, Reachable, Shown, OnBus;
    ShownIsVisible(space, bytes, m, b, d, f);
    ReachableIsOnBus(space, bytes, m, b);
    ShownIsThere(m, (b, d, f));
    forall e | e in found
      ensures LocationOf(e) != (b, d, f)
    {
      var i :| 0 <= i < |found| && found[i] == e;
      assert !IsAt(found[i], b, d, f);
    }
  }

  lemma Smaller(a: set<Location>, b: set<Location>, x: Location)
    requires a <= b && x in b && x !in a
    ensures |a| < |b|
  {
    assert b == (b - a) + a;
    assert x in b - a;
  }

  /** Every machine of at most 64 functions that can be reached is enumerated as it is; of a
      larger one as many are, and it is said that some are missing. */
  method EnumerateMachine(space: ConfigSpace, ghost bytes: ConfigBytes, ghost m: Machine)
    returns (found: seq<PciDevice>, truncated: bool)
    requires ReadsAs(space, bytes) && MachineLaid(bytes, m)
    ensures truncated <==> |Reached(m)| > 64
    ensures !truncated ==> ListsMachine(found, m)
    ensures truncated ==> |found| == 64 && Locations(found) < Reached(m)
  {
    hide ReadsAs, MachineLaid, Visible, Reachable, Genuine, NoneTwice, Listed, Missed, Reached, ListsMachine;
    var walk := new BusWalk(space);
    walk.Enumerate();
    found, truncated := walk.entries[..walk.count], walk.truncated;
    MachineIsListed(space, bytes, m, found, truncated);
  }
}
