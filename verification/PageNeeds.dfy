/** How many tables a range can take: no more than the blocks it touches, and two
    small ones when both sides agree on their place in a 2 MiB page. */
module PageNeeds {
  import opened Words
  import opened PageEntries
  import opened PageTree
  import opened AddressMap
  import opened PageTiling

  /** A table that a page at `leaf` around `v` hangs below. */
  predicate OnPath(n: Node, v: u64, leaf: Level) {
    leaf <= n.level <= LEVEL_POINTER && n.prefix == Slot(v, n.level + 1)
  }

  /** Offset `k` of a range is served by way of this table. */
  predicate NeededAt(r: Range, n: Node, k: int)
    requires 0 <= k && r.virtual + k < U64_LIMIT
  {
    OnPath(n, r.virtual + k, LevelAt(r.huge, r.virtual, r.physical, r.bytes, k))
  }

  ghost predicate Needed(r: Range, n: Node)
    requires r.virtual + r.bytes < U64_LIMIT
  {
    exists k :: 0 <= k < r.bytes && NeededAt(r, n, k)
  }

  /** The first byte of a range, by its low 48 bits. */
  function Start(r: Range): (start: nat) { r.virtual % 0x1_0000_0000_0000 }

  /** How many aligned blocks of a level's span a range touches. */
  function Blocks(r: Range, level: int): int
    requires 2 <= level <= 4 && r.bytes > 0
  {
    LastBlock(r, level) - FirstBlock(r, level) + 1
  }

  function FirstBlock(r: Range, level: int): nat
    requires 2 <= level <= 4
  {
    BlockOf(Start(r), level)
  }

  function LastBlock(r: Range, level: int): nat
    requires 2 <= level <= 4 && r.bytes > 0
  {
    BlockOf(Start(r) + r.bytes - 1, level)
  }

  function BlockOf(x: nat, level: int): nat
    requires 2 <= level <= 4
  {
    if level == 2 then x / 0x20_0000 else if level == 3 then x / 0x4000_0000 else x / 0x80_0000_0000
  }

  predicate Agrees(r: Range) { r.virtual % 0x20_0000 == r.physical % 0x20_0000 }

  /** The tables of 4 KiB pages a range can take. */
  function SmallTables(r: Range): int
    requires r.bytes > 0
  {
    if Agrees(r) && Blocks(r, 2) > 2 then 2 else Blocks(r, 2)
  }

  /** All the tables it can take besides the root. */
  function TablesFor(r: Range): int
    requires r.bytes > 0
  {
    SmallTables(r) + Blocks(r, 3) + Blocks(r, 4)
  }

  /** The nodes at a level for the blocks from `a` to `b`. */
  ghost function NodesFrom(level: Level, a: int, b: int): set<Node> {
    set p: nat | a <= p <= b && InBlocks(p, a, b) :: Node(level, p)
  }

  predicate InBlocks(p: int, a: int, b: int) { a <= p <= b }

  lemma {:induction false} NodesCounted(level: Level, a: nat, b: int)
    requires a <= b + 1
    ensures |NodesFrom(level, a, b)| == b - a + 1
    decreases b + 1 - a
  {
    if a == b + 1 {
      assert NodesFrom(level, a, b) == {};
    } else {
      NodesCounted(level, a, b - 1);
      assert InBlocks(b, a, b);
      assert NodesFrom(level, a, b) == NodesFrom(level, a, b - 1) + {Node(level, b)};
    }
  }

  ghost function SmallNodes(r: Range): set<Node>
    requires r.bytes > 0
  {
    if Agrees(r) then {Node(LEVEL_TABLE, FirstBlock(r, 2)), Node(LEVEL_TABLE, LastBlock(r, 2))}
    else NodesFrom(LEVEL_TABLE, FirstBlock(r, 2), LastBlock(r, 2))
  }

  /** All the nodes a range can need. */
  ghost function Nodes(r: Range): set<Node>
    requires r.bytes > 0
  {
    SmallNodes(r) + NodesFrom(LEVEL_DIRECTORY, FirstBlock(r, 3), LastBlock(r, 3))
      + NodesFrom(LEVEL_POINTER, FirstBlock(r, 4), LastBlock(r, 4))
  }

  lemma BlocksAscend(r: Range)
    requires r.bytes > 0
    ensures forall level :: 2 <= level <= 4 ==> FirstBlock(r, level) <= LastBlock(r, level)
  {
  }

  lemma TablesForIsPositive(r: Range)
    requires r.bytes > 0
    ensures TablesFor(r) > 0
  {
    BlocksAscend(r);
  }

  lemma NodesFit(r: Range)
    requires r.bytes > 0
    ensures |Nodes(r)| <= TablesFor(r) && |SmallNodes(r)| <= SmallTables(r)
  {
    hide FirstBlock, LastBlock, Agrees, NodesFrom;
    BlocksAscend(r);
    NodesCounted(LEVEL_TABLE, FirstBlock(r, 2), LastBlock(r, 2));
    NodesCounted(LEVEL_DIRECTORY, FirstBlock(r, 3), LastBlock(r, 3));
    NodesCounted(LEVEL_POINTER, FirstBlock(r, 4), LastBlock(r, 4));
    SmallNodesFit(r);
  }

  lemma SmallNodesFit(r: Range)
    requires r.bytes > 0
    ensures |SmallNodes(r)| <= SmallTables(r)
  {
    hide FirstBlock, LastBlock, NodesFrom;
    BlocksAscend(r);
    NodesCounted(LEVEL_TABLE, FirstBlock(r, 2), LastBlock(r, 2));
    var a, b := Node(LEVEL_TABLE, FirstBlock(r, 2)), Node(LEVEL_TABLE, LastBlock(r, 2));
    assert {a, b} == {a} + {b};
  }

  /** An address of a range that stays in one half lies as far from its start by its
      low 48 bits as it does by all of them. */
  lemma StartIsFar(r: Range, k: int)
    requires Accepted(r) && OneHalf(r) && 0 <= k < r.bytes
    ensures (r.virtual + k) % 0x1_0000_0000_0000 == Start(r) + k
  {
    hide Canonical, FlagsAccepted;
    CanonicalHalves(r.virtual);
    CanonicalHalves(r.virtual + r.bytes - 1);
    var lap := if r.virtual < 0x8000_0000_0000 then 0 else 0xFFFF;
    OnLap(r.virtual, lap);
    OnLap(r.virtual + k, lap);
  }

  /** An address on a lap of the 48-bit space. */
  lemma OnLap(x: nat, lap: nat)
    requires 0x1_0000_0000_0000 * lap <= x < 0x1_0000_0000_0000 * lap + 0x1_0000_0000_0000
    ensures x % 0x1_0000_0000_0000 == x - 0x1_0000_0000_0000 * lap
  {
    DivisionIs(x, 0x1_0000_0000_0000, lap, x - 0x1_0000_0000_0000 * lap);
  }

  lemma BlockIsBetween(r: Range, k: int, level: int)
    requires Accepted(r) && OneHalf(r) && 0 <= k < r.bytes && 2 <= level <= 4
    ensures FirstBlock(r, level) <= Slot(r.virtual + k, level) <= LastBlock(r, level)
  {
    StartIsFar(r, k);
  }

  /** Every table a range needs is one of these. */
  lemma NeededIsCounted(r: Range, n: Node)
    requires Accepted(r) && OneHalf(r) && Needed(r, n)
    ensures n in Nodes(r) && (n.level == LEVEL_TABLE ==> n in SmallNodes(r))
  {
    hide FirstBlock, LastBlock, Agrees, NodesFrom, SmallNodes, LevelAt, Slot, Canonical, FlagsAccepted, OneHalf;
    var k :| 0 <= k < r.bytes && NeededAt(r, n, k);
    BlockIsBetween(r, k, n.level + 1);
    InNodesFrom(n, FirstBlock(r, n.level + 1), LastBlock(r, n.level + 1));
    if n.level == LEVEL_TABLE {
      SmallIsCounted(r, n, k);
    }
  }

  lemma InNodesFrom(n: Node, a: int, b: int)
    requires a <= n.prefix <= b
    ensures n in NodesFrom(n.level, a, b)
  {
    assert InBlocks(n.prefix, a, b);
  }

  lemma SmallIsCounted(r: Range, n: Node, k: int)
    requires Accepted(r) && OneHalf(r) && 0 <= k < r.bytes && NeededAt(r, n, k) && n.level == LEVEL_TABLE
    ensures n in SmallNodes(r)
  {
    hide FirstBlock, LastBlock, Agrees, NodesFrom, LevelAt, Slot, Accepted, OneHalf;
    BlockIsBetween(r, k, 2);
    InNodesFrom(n, FirstBlock(r, 2), LastBlock(r, 2));
    if Agrees(r) {
      SmallIsAtEnd(r, k);
    }
  }

  lemma SmallIsAtEnd(r: Range, k: int)
    requires Accepted(r) && OneHalf(r) && Agrees(r) && 0 <= k < r.bytes
    requires LevelAt(r.huge, r.virtual, r.physical, r.bytes, k) == LEVEL_TABLE
    ensures Slot(r.virtual + k, 2) == FirstBlock(r, 2) || Slot(r.virtual + k, 2) == LastBlock(r, 2)
  {
    hide LevelAt, Canonical, FlagsAccepted;
    SmallPagesAtEnds(r.huge, r.virtual, r.physical, r.bytes, k);
    StartIsFar(r, k);
    StartIsFar(r, 0);
    StartIsFar(r, r.bytes - 1);
    if (r.virtual + k) / 0x20_0000 == r.virtual / 0x20_0000 {
      SameBlock(r.virtual, r.virtual + k);
    } else {
      SameBlock(r.virtual + r.bytes - 1, r.virtual + k);
    }
  }

  lemma SameBlock(x: nat, y: nat)
    requires x / 0x20_0000 == y / 0x20_0000
    ensures x % 0x1_0000_0000_0000 / 0x20_0000 == y % 0x1_0000_0000_0000 / 0x20_0000
  {
    BlockInSpace(x);
    BlockInSpace(y);
  }

  lemma BlockInSpace(x: nat)
    ensures x % 0x1_0000_0000_0000 / 0x20_0000 == x / 0x20_0000 % 0x800_0000
  {
    var q, r := x / 0x20_0000, x % 0x20_0000;
    DivisionIs(x, 0x1_0000_0000_0000, q / 0x800_0000, 0x20_0000 * (q % 0x800_0000) + r);
    DivisionIs(0x20_0000 * (q % 0x800_0000) + r, 0x20_0000, q % 0x800_0000, r);
  }
}
