/** The ATA driver (src/block/ata.c), against any drive at all and against drives that
    behave as the standard says (ATA/ATAPI-6, section 6.20, 48-bit Address feature
    set; the drive of tests/unit/test_ata.c is one of them). */
module AtaChannels {
  import opened Words

  const COMMAND_READ_SECTORS: u8 := 0x20
  const COMMAND_READ_SECTORS_EXT: u8 := 0x24

  // ----- what goes over the ports -----

  datatype Event = Wrote(port: u16, value: u8) | GotByte(port: u16, value: u8) | GotWord(port: u16, word: u16)

  /** The ports. What a drive answers may depend on everything that went before. */
  class Bus {
    const byteAnswer: (seq<Event>, u16) -> u8
    const wordAnswer: (seq<Event>, u16) -> u16
    var trace: seq<Event>

    constructor (byteAnswer: (seq<Event>, u16) -> u8, wordAnswer: (seq<Event>, u16) -> u16)
      ensures this.byteAnswer == byteAnswer && this.wordAnswer == wordAnswer && trace == []
    {
      this.byteAnswer, this.wordAnswer, trace := byteAnswer, wordAnswer, [];
    }

    method ReadPortU8(port: u16) returns (value: u8)
      modifies this
      ensures value == byteAnswer(old(trace), port) && trace == old(trace) + [GotByte(port, value)]
    {
      value := byteAnswer(trace, port);
      trace := trace + [GotByte(port, value)];
    }

    method ReadPortU16(port: u16) returns (value: u16)
      modifies this
      ensures value == wordAnswer(old(trace), port) && trace == old(trace) + [GotWord(port, value)]
    {
      value := wordAnswer(trace, port);
      trace := trace + [GotWord(port, value)];
    }

    method WritePortU8(port: u16, value: u8)
      modifies this
      ensures trace == old(trace) + [Wrote(port, value)]
    {
      trace := trace + [Wrote(port, value)];
    }
  }

  predicate Busy(status: u8) { status / 0x80 == 1 }

  /** Not busy, no error, no fault, and data to be had. */
  predicate Good(status: u8) {
    !Busy(status) && status % 2 == 0 && status / 0x20 % 2 == 0 && status / 0x08 % 2 == 1
  }

  /** The two ports a channel has. */
  datatype Ports = Ports(io: u16, control: u16)
  {
    predicate Sound() {
      io + 7 < 0x1_0000 && (control < io || io + 7 < control)
    }

    function Register(offset: nat): (port: u16)
      requires Sound() && offset <= 7
    {
      io + offset
    }
  }

  // ----- being careful -----

  /** How many words of data may be read next: a sector's worth after a good status,
      with nothing in between. */
  function Allowed(p: Ports, t: seq<Event>): (n: nat)
    requires p.Sound()
    ensures n <= 256
  {
    if t == [] then 0
    else
      match t[|t| - 1]
      case GotByte(port, status) => if port == p.Register(7) && Good(status) then 256 else 0
      case GotWord(_, _) =>
        var before := Allowed(p, t[..|t| - 1]);
        if before > 0 then before - 1 else 0
      case Wrote(_, _) => 0
  }

  /** Since the `start`-th event, no word was read that was not allowed. */
  ghost predicate Careful(p: Ports, t: seq<Event>, start: nat)
    requires p.Sound()
  {
    forall i :: start <= i < |t| && t[i].GotWord? ==> Allowed(p, t[..i]) > 0
  }

  /** How often the status has been asked for. */
  function Polls(p: Ports, t: seq<Event>): nat
    requires p.Sound()
  {
    if t == [] then 0
    else Polls(p, t[..|t| - 1]) + (if t[|t| - 1].GotByte? && t[|t| - 1].port == p.Register(7) then 1 else 0)
  }

  /** A stretch of events that begins at `start`: careful, with so many polls. */
  ghost predicate Stretch(p: Ports, before: seq<Event>, t: seq<Event>, polls: int)
    requires p.Sound()
  {
    && before <= t && Careful(p, t, |before|)
    && Polls(p, t) <= Polls(p, before) + polls
  }

  lemma NoStretch(p: Ports, t: seq<Event>)
    requires p.Sound()
    ensures Stretch(p, t, t, 0)
  {
  }

  lemma StretchGrows(p: Ports, before: seq<Event>, t: seq<Event>, polls: int, e: Event)
    requires p.Sound() && Stretch(p, before, t, polls)
    requires e.GotWord? ==> Allowed(p, t) > 0
    ensures Stretch(p, before, t + [e], if e.GotByte? && e.port == p.Register(7) then polls + 1 else polls)
  {
    var u := t + [e];
    assert u[..|t|] == t;
    forall i | |before| <= i < |u| && u[i].GotWord?
      ensures Allowed(p, u[..i]) > 0
    {
      if i < |t| {
        assert u[..i] == t[..i];
      }
    }
  }

  lemma StretchJoins(p: Ports, a: seq<Event>, b: seq<Event>, c: seq<Event>, m: int, n: int)
    requires p.Sound() && Stretch(p, a, b, m) && Stretch(p, b, c, n)
    ensures Stretch(p, a, c, m + n)
  {
    forall i | |a| <= i < |c| && c[i].GotWord?
      ensures Allowed(p, c[..i]) > 0
    {
      if i < |b| {
        assert c[..i] == b[..i];
      }
    }
  }

  // ----- drives -----

  /** The `n`-th last value written to a port: the registers are two deep. */
  function Written(t: seq<Event>, port: u16, n: nat): u8
    decreases |t|
  {
    if t == [] then 0
    else
      var rest := t[..|t| - 1];
      match t[|t| - 1]
      case Wrote(q, value) =>
        if q != port then Written(rest, port, n) else if n == 0 then value else Written(rest, port, n - 1)
      case _ => Written(rest, port, n)
  }

  datatype Phase = Idle | Serving(lba: nat, count: nat, words: nat)

  function Lba28(p: Ports, t: seq<Event>): nat
    requires p.Sound()
  {
    Written(t, p.Register(3), 0) as int + 0x100 * (Written(t, p.Register(4), 0) as int)
      + 0x1_0000 * (Written(t, p.Register(5), 0) as int) + 0x100_0000 * (Written(t, p.Register(6), 0) as int % 0x10)
  }

  function Lba48(p: Ports, t: seq<Event>): nat
    requires p.Sound()
  {
    Written(t, p.Register(3), 0) as int + 0x100 * (Written(t, p.Register(4), 0) as int)
      + 0x1_0000 * (Written(t, p.Register(5), 0) as int) + 0x100_0000 * (Written(t, p.Register(3), 1) as int)
      + 0x1_0000_0000 * (Written(t, p.Register(4), 1) as int) + 0x100_0000_0000 * (Written(t, p.Register(5), 1) as int)
  }

  /** A count of zero means as many as the command can do. */
  function Count28(p: Ports, t: seq<Event>): nat
    requires p.Sound()
  {
    var low: int := Written(t, p.Register(2), 0);
    if low == 0 then 256 else low
  }

  function Count48(p: Ports, t: seq<Event>): nat
    requires p.Sound()
  {
    var count := Written(t, p.Register(2), 0) as int + 0x100 * (Written(t, p.Register(2), 1) as int);
    if count == 0 then 65536 else count
  }

  /** A command is for the drive that bit 4 of its register names, and bit 6 says that the
      registers hold a logical address; without it they would be a cylinder, a head and a
      sector, which this drive does not serve. */
  predicate Selected(drive: u8, slave: bool) {
    (drive / 0x10 % 2 == 1) == slave && drive / 0x40 % 2 == 1
  }

  /** What the selected drive is doing: since its last command, and how many words of
      data have been taken since. */
  function PhaseOf(p: Ports, slave: bool, t: seq<Event>): Phase
    requires p.Sound()
  {
    if t == [] then Idle
    else
      var rest := t[..|t| - 1];
      match t[|t| - 1]
      case Wrote(port, value) =>
        if port != p.Register(7) then PhaseOf(p, slave, rest)
        else if !Selected(Written(rest, p.Register(6), 0), slave) then Idle
        else if value == 0x20 then Serving(Lba28(p, rest), Count28(p, rest), 0)
        else if value == 0x24 then Serving(Lba48(p, rest), Count48(p, rest), 0)
        else Idle
      case GotWord(_, _) =>
        var before := PhaseOf(p, slave, rest);
        if before.Serving? then before.(words := before.words + 1) else Idle
      case GotByte(_, _) => PhaseOf(p, slave, rest)
  }

  /** How often in a row the last thing that happened was a busy status. */
  function BusyRun(p: Ports, t: seq<Event>): nat
    requires p.Sound()
  {
    if t == [] then 0
    else
      match t[|t| - 1]
      case GotByte(port, status) => if port == p.Register(7) && Busy(status) then 1 + BusyRun(p, t[..|t| - 1]) else 0
      case _ => 0
  }

  /** The drive has these contents, and serves what it is asked for if it has it: each
      sector when it is ready, which it is before the poll budget is spent. What its
      data port gives when a word may not be taken does not matter. */
  ghost predicate Conforms(bus: Bus, p: Ports, slave: bool, storage: seq<u8>)
    requires p.Sound()
  {
    forall t {:trigger PhaseOf(p, slave, t)} ::
      Wanted(PhaseOf(p, slave, t), storage) ==> Serves(bus, p, t, PhaseOf(p, slave, t), storage)
  }

  /** There are words still to be taken. */
  ghost predicate Wanted(phase: Phase, storage: seq<u8>) {
    phase.Serving? && (phase.lba + phase.count) * 512 <= |storage| && phase.words < 256 * phase.count
  }

  ghost predicate SectorWanted(phase: Phase, storage: seq<u8>) {
    Wanted(phase, storage) && phase.words + 256 <= 256 * phase.count
  }

  ghost predicate Serves(bus: Bus, p: Ports, t: seq<Event>, phase: Phase, storage: seq<u8>)
    requires p.Sound() && Wanted(phase, storage)
  {
    var status, at := bus.byteAnswer(t, p.Register(7)), 512 * phase.lba + 2 * phase.words;
    && status != 0xFF && (Busy(status) || Good(status))
    && (BusyRun(p, t) >= 999_999 ==> !Busy(status))
    && (Allowed(p, t) > 0 ==> bus.wordAnswer(t, p.Register(0)) == storage[at] as int + 0x100 * (storage[at + 1] as int))
  }

  // ----- a drive -----

  /** The registers of a drive, by their offsets: what each holds, and what it held before. */
  datatype Registers = Registers(now: seq<u8>, before: seq<u8>)

  /** A drive as the tests simulate it: it keeps what is written to its eight ports. */
  function Latched(io: u16, t: seq<Event>): (r: Registers)
    ensures |r.now| == |r.before| == 8
  {
    if t == [] then Registers([0, 0, 0, 0, 0, 0, 0, 0], [0, 0, 0, 0, 0, 0, 0, 0])
    else
      var r, e := Latched(io, t[..|t| - 1]), t[|t| - 1];
      if e.Wrote? && io <= e.port <= io + 7 then
        var at := e.port - io;
        Registers(r.now[at := e.value], r.before[at := r.now[at]])
      else r
  }

  /** It works out what is asked for when a command lands: from seven registers, or from
      those and what four of them held before. */
  function Asked(r: Registers, slave: bool, command: u8): Phase
    requires |r.now| == |r.before| == 8
  {
    var drive: int := r.now[6];
    if (drive / 0x10 % 2 == 1) != slave || drive / 0x40 % 2 == 0 then Idle
    else if command == 0x20 then
      var count: int := r.now[2];
      Serving(r.now[3] as int + 0x100 * (r.now[4] as int) + 0x1_0000 * (r.now[5] as int)
                + 0x100_0000 * (drive % 0x10),
              if count == 0 then 256 else count, 0)
    else if command == 0x24 then
      var count := r.now[2] as int + 0x100 * (r.before[2] as int);
      Serving(r.now[3] as int + 0x100 * (r.now[4] as int) + 0x1_0000 * (r.now[5] as int)
                + 0x100_0000 * (r.before[3] as int) + 0x1_0000_0000 * (r.before[4] as int)
                + 0x100_0000_0000 * (r.before[5] as int),
              if count == 0 then 65536 else count, 0)
    else Idle
  }

  function SimulatedPhase(io: u16, slave: bool, t: seq<Event>): Phase {
    if t == [] then Idle
    else
      var rest := t[..|t| - 1];
      match t[|t| - 1]
      case Wrote(port, value) =>
        if port == io + 7 then Asked(Latched(io, rest), slave, value) else SimulatedPhase(io, slave, rest)
      case GotWord(_, _) =>
        var before := SimulatedPhase(io, slave, rest);
        if before.Serving? then before.(words := before.words + 1) else Idle
      case GotByte(_, _) => SimulatedPhase(io, slave, rest)
  }

  /** What it holds is what was last written, and what was written before that. */
  lemma {:induction false} LatchedIs(p: Ports, t: seq<Event>, offset: nat)
    requires p.Sound() && offset <= 7
    ensures Latched(p.io, t).now[offset] == Written(t, p.Register(offset), 0)
    ensures Latched(p.io, t).before[offset] == Written(t, p.Register(offset), 1)
    decreases |t|
  {
    if t != [] {
      LatchedIs(p, t[..|t| - 1], offset);
    }
  }

  /** So what it serves is what the driver is held to have asked for. */
  lemma {:induction false} SimulatedIs(p: Ports, slave: bool, t: seq<Event>)
    requires p.Sound()
    ensures SimulatedPhase(p.io, slave, t) == PhaseOf(p, slave, t)
    decreases |t|
  {
    hide Latched, Written;
    if t != [] {
      var rest := t[..|t| - 1];
      SimulatedIs(p, slave, rest);
      forall offset: nat | offset <= 7
        ensures Latched(p.io, rest).now[offset] == Written(rest, p.Register(offset), 0)
        ensures Latched(p.io, rest).before[offset] == Written(rest, p.Register(offset), 1)
      {
        LatchedIs(p, rest, offset);
      }
    }
  }

  /** It is busy for a while before each answer, and then streams its storage. */
  function SimulatedStatus(p: Ports, delay: nat, t: seq<Event>, port: u16): u8
    requires p.Sound()
  {
    if port == p.Register(7) && BusyRun(p, t) < delay then 0x80 else 0x48
  }

  function SimulatedWord(io: u16, slave: bool, storage: seq<u8>, t: seq<Event>): u16 {
    var phase := SimulatedPhase(io, slave, t);
    if phase.Idle? then 0
    else
      var at := 512 * phase.lba + 2 * phase.words;
      if at + 1 >= |storage| then 0 else storage[at] as int + 0x100 * (storage[at + 1] as int)
  }

  /** Such a drive behaves as it should, as long as it is not busy for too long. */
  lemma SimulatedConforms(bus: Bus, p: Ports, slave: bool, storage: seq<u8>, delay: nat)
    requires p.Sound() && delay < 1_000_000
    requires forall t, port :: bus.byteAnswer(t, port) == SimulatedStatus(p, delay, t, port)
    requires forall t ::
      Allowed(p, t) > 0 ==> bus.wordAnswer(t, p.Register(0)) == SimulatedWord(p.io, slave, storage, t)
    ensures Conforms(bus, p, slave, storage)
  {
    hide PhaseOf, BusyRun, SimulatedPhase;
    forall t
      ensures SimulatedPhase(p.io, slave, t) == PhaseOf(p, slave, t)
    {
      SimulatedIs(p, slave, t);
    }
  }

  /** A status byte, bit by bit from the top: of those between the named ones nothing is
      made. */
  function StatusByte(busy: bool, ready: bool, fault: bool, seek: bool, data: bool, low: nat, error: bool): u8
    requires low < 4
  {
    (if busy then 0x80 else 0) + (if ready then 0x40 else 0) + (if fault then 0x20 else 0)
    + (if seek then 0x10 else 0) + (if data then 0x08 else 0) + 2 * low + (if error then 0x01 else 0)
  }

  /** Data is to be had when the drive is not busy, announces it, and has met no error. */
  lemma GoodIs(busy: bool, ready: bool, fault: bool, seek: bool, data: bool, low: nat, error: bool)
    requires low < 4
    ensures var status := StatusByte(busy, ready, fault, seek, data, low, error);
      (Busy(status) <==> busy) && (Good(status) <==> !busy && data && !fault && !error)
  {
  }

  // ----- numbers in bytes -----

  /** The bytes of a number put together again: three of them, and those above. */
  lemma LowBytes(lba: nat)
    ensures lba == lba % 0x100 + 0x100 * (lba / 0x100 % 0x100) + 0x1_0000 * (lba / 0x1_0000 % 0x100)
      + 0x100_0000 * (lba / 0x100_0000)
    ensures lba / 0x1_0000 == lba / 0x100 / 0x100 && lba / 0x100_0000 == lba / 0x1_0000 / 0x100
  {
    var q1 := lba / 0x100;
    var q2 := q1 / 0x100;
    DivisionIs(lba, 0x1_0000, q2, 0x100 * (q1 % 0x100) + lba % 0x100);
    DivisionIs(lba, 0x100_0000, q2 / 0x100, 0x1_0000 * (q2 % 0x100) + 0x100 * (q1 % 0x100) + lba % 0x100);
  }

  lemma HighBytes(lba: nat)
    ensures lba / 0x1_0000_0000 == lba / 0x100_0000 / 0x100 && lba / 0x100_0000_0000 == lba / 0x100_0000 / 0x1_0000
  {
    var q := lba / 0x100_0000;
    DivisionIs(lba, 0x1_0000_0000, q / 0x100, 0x100_0000 * (q % 0x100) + lba % 0x100_0000);
    DivisionIs(lba, 0x100_0000_0000, q / 0x1_0000, 0x100_0000 * (q % 0x1_0000) + lba % 0x100_0000);
  }

  lemma BytesOfLba(lba: nat)
    ensures lba < 0x1000_0000 ==>
      lba == lba % 0x100 + 0x100 * (lba / 0x100 % 0x100) + 0x1_0000 * (lba / 0x1_0000 % 0x100)
        + 0x100_0000 * (lba / 0x100_0000 % 0x10)
    ensures lba < 0x1_0000_0000_0000 ==>
      lba == lba % 0x100 + 0x100 * (lba / 0x100 % 0x100) + 0x1_0000 * (lba / 0x1_0000 % 0x100)
        + 0x100_0000 * (lba / 0x100_0000 % 0x100) + 0x1_0000_0000 * (lba / 0x1_0000_0000 % 0x100)
        + 0x100_0000_0000 * (lba / 0x100_0000_0000 % 0x100)
  {
    LowBytes(lba);
    HighBytes(lba);
    ThreeBytes(lba / 0x100_0000);
  }

  lemma ThreeBytes(high: nat)
    ensures high < 0x10 ==> high % 0x10 == high
    ensures high < 0x100_0000 ==>
      high == high % 0x100 + 0x100 * (high / 0x100 % 0x100) + 0x1_0000 * (high / 0x1_0000 % 0x100)
  {
    LowBytes(high);
  }

  /** What the driver writes is what the drive makes of it. */
  lemma Decoded28(p: Ports, t: seq<Event>, lba: nat, count: nat)
    requires p.Sound() && 1 <= count <= 256 && lba < 0x1000_0000
    requires Written(t, p.Register(2), 0) == (if count == 256 then 0 else count)
    requires Written(t, p.Register(3), 0) == lba % 0x100 && Written(t, p.Register(4), 0) == lba / 0x100 % 0x100
    requires Written(t, p.Register(5), 0) == lba / 0x1_0000 % 0x100
    requires Written(t, p.Register(6), 0) % 0x10 == lba / 0x100_0000 % 0x10
    ensures Lba28(p, t) == lba && Count28(p, t) == count
  {
    hide Written;
    BytesOfLba(lba);
  }

  lemma Decoded48(p: Ports, t: seq<Event>, lba: nat, count: nat)
    requires p.Sound() && 1 <= count <= 65536
    requires Written(t, p.Register(2), 0) == count % 0x100 && Written(t, p.Register(2), 1) == count / 0x100 % 0x100
    requires Written(t, p.Register(3), 0) == lba % 0x100 && Written(t, p.Register(4), 0) == lba / 0x100 % 0x100
    requires Written(t, p.Register(5), 0) == lba / 0x1_0000 % 0x100
    requires Written(t, p.Register(3), 1) == lba / 0x100_0000 % 0x100
    requires Written(t, p.Register(4), 1) == lba / 0x1_0000_0000 % 0x100
    requires Written(t, p.Register(5), 1) == lba / 0x100_0000_0000 % 0x100
    ensures Count48(p, t) == count && (lba < 0x1_0000_0000_0000 ==> Lba48(p, t) == lba)
  {
    hide Written;
    BytesOfLba(lba);
  }

  // ----- the driver -----

  class AtaChannel {
    const bus: Bus
    const ports: Ports
    const slave: bool
    const lba48: bool

    constructor (bus: Bus, ports: Ports, slave: bool, lba48: bool)
      ensures this.bus == bus && this.ports == ports && this.slave == slave && this.lba48 == lba48
    {
      this.bus, this.ports, this.slave, this.lba48 := bus, ports, slave, lba48;
    }

    ghost function Now(): Phase
      requires ports.Sound()
      reads bus
    {
      PhaseOf(ports, slave, bus.trace)
    }

    ghost function Reg(offset: nat, n: nat): u8
      requires ports.Sound() && offset <= 7
      reads bus
    {
      Written(bus.trace, ports.Register(offset), n)
    }

    /** Writes one register: it is two deep. */
    method WriteRegister(offset: nat, value: u8)
      requires ports.Sound() && offset <= 6
      modifies bus
      ensures Stretch(ports, old(bus.trace), bus.trace, 0)
      ensures Reg(offset, 0) == value && Reg(offset, 1) == old(Reg(offset, 0))
      ensures forall o: nat, n: nat :: o <= 7 && o != offset ==> Reg(o, n) == old(Reg(o, n))
    {
      NoStretch(ports, bus.trace);
      bus.WritePortU8(ports.Register(offset), value);
      assert bus.trace[..|bus.trace| - 1] == old(bus.trace);
      StretchGrows(ports, old(bus.trace), old(bus.trace), 0, Wrote(ports.Register(offset), value));
    }

    /** Reading the alternate status four times only spends time. */
    method Settle()
      requires ports.Sound()
      modifies bus
      ensures Stretch(ports, old(bus.trace), bus.trace, 0)
      ensures forall o: nat, n: nat :: o <= 7 ==> Reg(o, n) == old(Reg(o, n))
      ensures Now() == old(Now()) && BusyRun(ports, bus.trace) == 0
      ensures |bus.trace| == old(|bus.trace|) + 4
    {
      hide Stretch;
      NoStretch(ports, bus.trace);
      for index := 0 to 4
        invariant Stretch(ports, old(bus.trace), bus.trace, 0)
        invariant forall o: nat, n: nat :: o <= 7 ==> Reg(o, n) == old(Reg(o, n))
        invariant Now() == old(Now()) && (index > 0 ==> BusyRun(ports, bus.trace) == 0)
        invariant |bus.trace| == old(|bus.trace|) + index
      {
        ghost var before := bus.trace;
        var ignored := bus.ReadPortU8(ports.control);
        assert bus.trace[..|bus.trace| - 1] == before;
        StretchGrows(ports, old(bus.trace), before, 0, GotByte(ports.control, ignored));
      }
    }

    method SelectDrive(extra: u8)
      requires ports.Sound() && extra / 0x10 % 2 == 0
      modifies bus
      ensures Stretch(ports, old(bus.trace), bus.trace, 0)
      ensures Reg(6, 0) == extra as int + (if slave then 0x10 else 0)
      ensures forall o: nat, n: nat :: o <= 7 && o != 6 ==> Reg(o, n) == old(Reg(o, n))
    {
      hide Stretch;
      WriteRegister(6, extra as int + (if slave then 0x10 else 0));
      ghost var between := bus.trace;
      Settle();
      StretchJoins(ports, old(bus.trace), between, bus.trace, 0, 0);
    }

    /** The command register starts the drive, with what is in the others. */
    method Command(value: u8)
      requires ports.Sound()
      modifies bus
      ensures Stretch(ports, old(bus.trace), bus.trace, 0)
      ensures Selected(old(Reg(6, 0)), slave) && value == 0x20 ==>
        Now() == Serving(Lba28(ports, old(bus.trace)), Count28(ports, old(bus.trace)), 0)
      ensures Selected(old(Reg(6, 0)), slave) && value == 0x24 ==>
        Now() == Serving(Lba48(ports, old(bus.trace)), Count48(ports, old(bus.trace)), 0)
    {
      hide Lba28, Count28, Lba48, Count48, Written;
      NoStretch(ports, bus.trace);
      bus.WritePortU8(ports.Register(7), value);
      assert bus.trace[..|bus.trace| - 1] == old(bus.trace);
      StretchGrows(ports, old(bus.trace), old(bus.trace), 0, Wrote(ports.Register(7), value));
    }

    /** What SelectDrive leaves in the drive register says which drive is meant, and that
        it is addressed by sector numbers. */
    lemma DriveBits(extra: u8)
      requires extra / 0x10 % 2 == 0 && extra / 0x40 % 2 == 1
      ensures extra as int + 0x10 < 0x100
      ensures Selected(extra as int + (if slave then 0x10 else 0), slave)
      ensures (extra as int + (if slave then 0x10 else 0)) % 0x10 == extra as int % 0x10
    {
    }

    /** The count and the address, or one half of them. */
    method WriteAddress(count: u8, low: u8, mid: u8, high: u8)
      requires ports.Sound()
      modifies bus
      ensures Stretch(ports, old(bus.trace), bus.trace, 0)
      ensures Reg(2, 0) == count && Reg(3, 0) == low && Reg(4, 0) == mid && Reg(5, 0) == high
      ensures forall o: nat :: 2 <= o <= 5 ==> Reg(o, 1) == old(Reg(o, 0))
      ensures Reg(6, 0) == old(Reg(6, 0))
    {
      hide Stretch, Written;
      WriteRegister(2, count);
      ghost var t1 := bus.trace;
      WriteRegister(3, low);
      ghost var t2 := bus.trace;
      StretchJoins(ports, old(bus.trace), t1, t2, 0, 0);
      WriteRegister(4, mid);
      ghost var t3 := bus.trace;
      StretchJoins(ports, old(bus.trace), t2, t3, 0, 0);
      WriteRegister(5, high);
      StretchJoins(ports, old(bus.trace), t3, bus.trace, 0, 0);
    }

    method IssueLba28(lba: nat, count: nat)
      requires ports.Sound() && 1 <= count <= 256 && lba < 0x1000_0000
      modifies bus
      ensures Stretch(ports, old(bus.trace), bus.trace, 0)
      ensures Now() == Serving(lba, count, 0)
    {
      hide Stretch, Written, Lba28, Count28;
      var high := lba / 0x100_0000 % 0x10;
      DriveBits(0xE0 + high);
      SelectDrive(0xE0 + high);
      ghost var t0 := bus.trace;
      WriteAddress(if count == 256 then 0 else count, lba % 0x100, lba / 0x100 % 0x100, lba / 0x1_0000 % 0x100);
      ghost var t4 := bus.trace;
      StretchJoins(ports, old(bus.trace), t0, t4, 0, 0);
      Decoded28(ports, t4, lba, count);
      Command(COMMAND_READ_SECTORS);
      StretchJoins(ports, old(bus.trace), t4, bus.trace, 0, 0);
    }

    /** The high halves first: the second write pushes the first back. */
    method IssueLba48(lba: nat, count: nat)
      requires ports.Sound() && 1 <= count <= 65536
      modifies bus
      ensures Stretch(ports, old(bus.trace), bus.trace, 0)
      ensures lba < 0x1_0000_0000_0000 ==> Now() == Serving(lba, count, 0)
    {
      hide Stretch, Written, Lba48, Count48;
      DriveBits(0x40);
      SelectDrive(0x40);
      ghost var t0 := bus.trace;
      WriteAddress(count / 0x100 % 0x100, lba / 0x100_0000 % 0x100, lba / 0x1_0000_0000 % 0x100,
        lba / 0x100_0000_0000 % 0x100);
      ghost var t1 := bus.trace;
      StretchJoins(ports, old(bus.trace), t0, t1, 0, 0);
      WriteAddress(count % 0x100, lba % 0x100, lba / 0x100 % 0x100, lba / 0x1_0000 % 0x100);
      ghost var t2 := bus.trace;
      StretchJoins(ports, old(bus.trace), t1, t2, 0, 0);
      Decoded48(ports, t2, lba, count);
      Command(COMMAND_READ_SECTORS_EXT);
      StretchJoins(ports, old(bus.trace), t2, bus.trace, 0, 0);
    }

    /** Waits, but not for ever: a drive that does what it should is ready in time. */
    method WaitWhileBusy(ghost storage: seq<u8>) returns (ok: bool, status: u8)
      requires ports.Sound() && BusyRun(ports, bus.trace) == 0
      modifies bus
      ensures Stretch(ports, old(bus.trace), bus.trace, 1_000_000)
      ensures ok ==>
        bus.trace != [] && bus.trace[|bus.trace| - 1] == GotByte(ports.Register(7), status) && !Busy(status)
      ensures Now() == old(Now())
      ensures Conforms(bus, ports, slave, storage) && Wanted(old(Now()), storage) ==> ok && Good(status)
    {
      hide Stretch, Good, Busy, Wanted;
      NoStretch(ports, bus.trace);
      var attempt := 0;
      while attempt < 1_000_000
        invariant 0 <= attempt <= 1_000_000 && Now() == old(Now())
        invariant Stretch(ports, old(bus.trace), bus.trace, attempt) && BusyRun(ports, bus.trace) >= attempt
        invariant Conforms(bus, ports, slave, storage) && Wanted(old(Now()), storage) ==> attempt < 1_000_000
      {
        ghost var before := bus.trace;
        status := bus.ReadPortU8(ports.Register(7));
        assert bus.trace[..|bus.trace| - 1] == before;
        StretchGrows(ports, old(bus.trace), before, attempt, GotByte(ports.Register(7), status));
        attempt := attempt + 1;
        StretchAtMost(ports, old(bus.trace), bus.trace, attempt, 1_000_000);
        if status == 0xFF {
          return false, status;
        }
        if !Busy(status) {
          return true, status;
        }
      }
      return false, 0;
    }

    method WaitForData(ghost storage: seq<u8>) returns (ok: bool)
      requires ports.Sound() && BusyRun(ports, bus.trace) == 0
      modifies bus
      ensures Stretch(ports, old(bus.trace), bus.trace, 1_000_000)
      ensures ok ==> Allowed(ports, bus.trace) == 256
      ensures Now() == old(Now())
      ensures Conforms(bus, ports, slave, storage) && Wanted(old(Now()), storage) ==> ok
    {
      hide Stretch, Conforms, Wanted, PhaseOf;
      var status;
      ok, status := WaitWhileBusy(storage);
      if !ok {
        return;
      }
      if status % 2 == 1 || status / 0x20 % 2 == 1 {
        return false;
      }
      return status / 0x08 % 2 == 1;
    }

    method TakeWord() returns (word: u16)
      requires ports.Sound() && Allowed(ports, bus.trace) > 0
      modifies bus
      ensures Stretch(ports, old(bus.trace), bus.trace, 0) && BusyRun(ports, bus.trace) == 0
      ensures Allowed(ports, bus.trace) == old(Allowed(ports, bus.trace)) - 1
      ensures old(Now()).Serving? ==> Now() == old(Now()).(words := old(Now()).words + 1)
      ensures word == bus.wordAnswer(old(bus.trace), ports.Register(0))
    {
      hide Stretch, Written;
      NoStretch(ports, bus.trace);
      word := bus.ReadPortU16(ports.Register(0));
      assert bus.trace[..|bus.trace| - 1] == old(bus.trace);
      StretchGrows(ports, old(bus.trace), old(bus.trace), 0, GotWord(ports.Register(0), word));
    }

    /** One sector's worth of data, while it is allowed. */
    method ReadSectorWords(out: array<u8>, at: nat, ghost storage: seq<u8>)
      requires ports.Sound() && Allowed(ports, bus.trace) == 256 && at + 512 <= out.Length
      modifies bus, out
      ensures Stretch(ports, old(bus.trace), bus.trace, 0) && BusyRun(ports, bus.trace) == 0
      ensures forall k :: 0 <= k < out.Length && !(at <= k < at + 512) ==> out[k] == old(out[k])
      ensures old(Now()).Serving? ==> Now() == old(Now()).(words := old(Now()).words + 256)
      ensures Conforms(bus, ports, slave, storage) && SectorWanted(old(Now()), storage) ==>
        SectorHeld(old(Now()), storage, out[..], at, 512)
    {
      hide Stretch, Conforms, Written, SectorHeld, PhaseOf, Allowed, BusyRun;
      NoStretch(ports, bus.trace);
      ghost var begin := bus.trace;
      ghost var phase := Now();
      ghost var fine := Conforms(bus, ports, slave, storage) && SectorWanted(phase, storage);
      if phase.Serving? {
        NothingHeld(phase, storage, out[..], at);
      }
      for index := 0 to 256
        invariant Stretch(ports, begin, bus.trace, 0) && Allowed(ports, bus.trace) == 256 - index
        invariant forall k :: 0 <= k < out.Length && !(at <= k < at + 512) ==> out[k] == old(out[k])
        invariant phase.Serving? ==> Now() == phase.(words := phase.words + index)
        invariant index > 0 ==> BusyRun(ports, bus.trace) == 0
        invariant fine ==> SectorHeld(phase, storage, out[..], at, 2 * index)
      {
        ghost var before, held := bus.trace, out[..];
        var word := TakeWord();
        StretchJoins(ports, begin, before, bus.trace, 0, 0);
        out[at + index * 2] := word as int % 0x100;
        out[at + index * 2 + 1] := word as int / 0x100;
        if fine {
          WordIsServed(before, storage);
          WordHeld(phase, storage, held, out[..], at, index, word);
        }
      }
    }

    /** A drive that conforms gives the next word. */
    lemma WordIsServed(t: seq<Event>, storage: seq<u8>)
      requires ports.Sound() && Conforms(bus, ports, slave, storage) && Wanted(PhaseOf(ports, slave, t), storage)
      requires Allowed(ports, t) > 0
      ensures var phase := PhaseOf(ports, slave, t);
        var at := 512 * phase.lba + 2 * phase.words;
        && 0 <= at && at + 2 <= |storage|
        && bus.wordAnswer(t, ports.Register(0)) == storage[at] as int + 0x100 * (storage[at + 1] as int)
    {
    }

    /** The sectors asked for, one after another. Against any drive it ends within a
        fixed number of polls and takes data only when it is offered; from a drive
        that does what it should it gets exactly the sectors, whatever the delays. */
    method ReadSectors(lba: u64, count: u32, out: array<u8>, ghost storage: seq<u8>) returns (ok: bool)
      requires ports.Sound() && 512 * count <= out.Length
      modifies bus, out
      ensures Stretch(ports, old(bus.trace), bus.trace, count * 1_000_000)
      ensures Refused(lba, count) ==> !ok && bus.trace == old(bus.trace)
      ensures Conforms(bus, ports, slave, storage) && Addressable(lba, count) && (lba + count) * 512 <= |storage| ==>
        ok && out[..512 * count] == storage[512 * lba..512 * (lba + count)]
      ensures forall k :: 512 * count <= k < out.Length ==> out[k] == old(out[k])
      ensures !ok && count == 1 ==> out[..] == old(out[..])
    {
      hide Stretch, Conforms, Written, PhaseOf;
      NoStretch(ports, bus.trace);
      StretchAtMost(ports, bus.trace, bus.trace, 0, count * 1_000_000);
      if count == 0 || lba + count >= U64_LIMIT {
        return false;
      }
      if lba48 {
        if count > 65536 {
          return false;
        }
        IssueLba48(lba, count);
      } else {
        if lba + count > 0x1000_0000 || count > 256 {
          return false;
        }
        IssueLba28(lba, count);
      }
      ghost var issued := bus.trace;
      Settle();
      StretchJoins(ports, old(bus.trace), issued, bus.trace, 0, 0);
      ok := ReadAll(lba, count, out, storage, old(bus.trace));
    }

    /** What is refused without touching the drive. */
    predicate Refused(lba: nat, count: nat) {
      || count == 0 || lba + count >= U64_LIMIT
      || (if lba48 then count > 65536 else count > 256 || lba + count > 0x1000_0000)
    }

    /** What the channel's commands can address. */
    predicate Addressable(lba: nat, count: nat) {
      if lba48 then 1 <= count <= 65536 && lba + count <= 0x1_0000_0000_0000
      else 1 <= count <= 256 && lba + count <= 0x1000_0000
    }

    /** Each sector is waited for. */
    method ReadAll(
      lba: nat, count: nat, out: array<u8>, ghost storage: seq<u8>, ghost begin: seq<Event>) returns (ok: bool)
      requires ports.Sound() && 512 * count <= out.Length && BusyRun(ports, bus.trace) == 0
      requires Stretch(ports, begin, bus.trace, 0)
      modifies bus, out
      ensures Stretch(ports, begin, bus.trace, count * 1_000_000)
      ensures
        (Conforms(bus, ports, slave, storage) && old(Now()) == Serving(lba, count, 0)
         && (lba + count) * 512 <= |storage|) ==>
        ok && out[..512 * count] == storage[512 * lba..512 * (lba + count)]
      ensures forall k :: 512 * count <= k < out.Length ==> out[k] == old(out[k])
      ensures !ok && count == 1 ==> out[..] == old(out[..])
    {
      hide Stretch, Conforms, Written, PhaseOf, BusyRun, Allowed;
      ghost var fine := Conforms(bus, ports, slave, storage) && Now() == Serving(lba, count, 0)
        && (lba + count) * 512 <= |storage|;
      for index := 0 to count
        invariant Stretch(ports, begin, bus.trace, index * 1_000_000) && BusyRun(ports, bus.trace) == 0
        invariant forall k :: 512 * count <= k < out.Length ==> out[k] == old(out[k])
        invariant index == 0 ==> out[..] == old(out[..])
        invariant fine ==>
          Now() == Serving(lba, count, 256 * index) && out[..512 * index] == storage[512 * lba..512 * (lba + index)]
      {
        ghost var t0 := bus.trace;
        var got := WaitForData(storage);
        ghost var t1 := bus.trace;
        StretchJoins(ports, begin, t0, t1, index * 1_000_000, 1_000_000);
        if !got {
          StretchAtMost(ports, begin, t1, index * 1_000_000 + 1_000_000, count * 1_000_000);
          return false;
        }
        ghost var held := out[..512 * index];
        ReadSectorWords(out, 512 * index, storage);
        StretchJoins(ports, begin, t1, bus.trace, index * 1_000_000 + 1_000_000, 0);
        if fine {
          SectorsJoin(lba, index, count, storage, out[..], held);
        }
      }
      return true;
    }
  }

  /** The first bytes of the sector being served are in the buffer. */
  ghost predicate SectorHeld(phase: Phase, storage: seq<u8>, out: seq<u8>, at: int, n: int) {
    && phase.Serving? && 0 <= at && at + n <= |out|
    && forall k :: at <= k < at + n ==>
         var from := 512 * phase.lba + 2 * phase.words + (k - at);
         0 <= from < |storage| && out[k] == storage[from]
  }

  lemma WordHeld(phase: Phase, storage: seq<u8>, before: seq<u8>, out: seq<u8>, at: int, index: nat, word: u16)
    requires Wanted(phase, storage) && SectorHeld(phase, storage, before, at, 2 * index) && |out| == |before|
    requires at + 2 * index + 2 <= |out|
    requires forall k :: at <= k < at + 2 * index ==> out[k] == before[k]
    requires out[at + index * 2] == word as int % 0x100 && out[at + index * 2 + 1] == word as int / 0x100
    requires var from := 512 * phase.lba + 2 * (phase.words + index);
      0 <= from && from + 2 <= |storage| && word == storage[from] as int + 0x100 * (storage[from + 1] as int)
    ensures SectorHeld(phase, storage, out, at, 2 * (index + 1))
  {
    var from := 512 * phase.lba + 2 * (phase.words + index);
    WordBytes(word, storage[from], storage[from + 1]);
  }

  lemma WordBytes(word: u16, low: u8, high: u8)
    requires word == low as int + 0x100 * (high as int)
    ensures word as int % 0x100 == low && word as int / 0x100 == high
  {
  }

  /** Nothing is held yet. */
  lemma NothingHeld(phase: Phase, storage: seq<u8>, out: seq<u8>, at: int)
    requires phase.Serving? && 0 <= at <= |out|
    ensures SectorHeld(phase, storage, out, at, 0)
  {
  }

  lemma SectorsJoin(lba: nat, index: nat, count: nat, storage: seq<u8>, out: seq<u8>, held: seq<u8>)
    requires index < count && (lba + count) * 512 <= |storage| && 512 * index + 512 <= |out|
    requires out[..512 * index] == held == storage[512 * lba..512 * (lba + index)]
    requires SectorHeld(Serving(lba, count, 256 * index), storage, out, 512 * index, 512)
    ensures out[..512 * (index + 1)] == storage[512 * lba..512 * (lba + (index + 1))]
  {
    var a, b := out[..512 * (index + 1)], storage[512 * lba..512 * (lba + (index + 1))];
    forall k | 0 <= k < |a|
      ensures a[k] == b[k]
    {
      if k < 512 * index {
        assert a[k] == held[k];
      }
    }
    assert a == b;
  }

  lemma StretchAtMost(p: Ports, before: seq<Event>, t: seq<Event>, m: int, n: int)
    requires p.Sound() && Stretch(p, before, t, m) && m <= n
    ensures Stretch(p, before, t, n)
  {
  }
}
