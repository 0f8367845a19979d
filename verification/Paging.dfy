/** Building page tables in place, in memory taken from an arena
    (src/memory/paging.c). Tables are reached through the addresses stored in
    their entries, as the identity-mapped loader does. */
module Paging {
  import opened Words
  import opened ArenaAllocator
  import opened PageEntries
  import opened PageTree
  import opened AddressMap
  import opened PageBlocks
  import opened PageNeeds
  import opened Processor
  import opened PageRights

  lemma LeafWritten(
    m: seq<u64>, m': seq<u64>, root: int, tables: Tables, low: int, high: int,
    table: int, v: u64, level: Level, entry: u64, huge: bool)
    requires Tree(m, root, tables, low, high)
    requires table in tables && tables[table] == Node(level, Slot(v, level + 1))
    requires TableAt(m, root, LEVEL_ROOT, v, level) == Some(table)
    requires SameBut(m, m', tables, table, IndexAt(v, level))
    requires Decode(Load(m, table, IndexAt(v, level)), level) == Empty
    requires Load(m', table, IndexAt(v, level)) == entry && Decode(entry, level) == Leaf
    requires Reached(m, root, tables) && AllPlain(m, tables, huge) && Plain(entry, level, huge)
    ensures Tree(m', root, tables, low, high) && Reached(m', root, tables) && AllPlain(m', tables, huge)
    ensures LeafMapped(m, m', root, level, v, entry) && BlocksKept(m, m', root, v, level)
  {
    hide Reached, BlocksKept, AllPlain, Plain;
    var index := IndexAt(v, level);
    EntryKeepsPlain(m, m', tables, table, index, huge);
    EntryKeepsReached(m, m', root, tables, low, high, table, index);
    LeafBlocksItsOwn(m, m', root, tables, low, high, table, v, level);
    LeafKeepsTree(m, m', root, tables, low, high, table, index);
    forall w: u64
      ensures if Slot(w, level) == Slot(v, level)
        then Walk(m, root, LEVEL_ROOT, w) == None && Walk(m', root, LEVEL_ROOT, w) == Some(PageLeaf(level, entry))
        else Walk(m', root, LEVEL_ROOT, w) == Walk(m, root, LEVEL_ROOT, w)
    {
      LeafWrittenAt(m, m', root, tables, low, high, table, v, level, entry, w);
    }
  }

  lemma LeafWrittenAt(
    m: seq<u64>, m': seq<u64>, root: int, tables: Tables, low: int, high: int,
    table: int, v: u64, level: Level, entry: u64, w: u64)
    requires Tree(m, root, tables, low, high)
    requires table in tables && tables[table] == Node(level, Slot(v, level + 1))
    requires TableAt(m, root, LEVEL_ROOT, v, level) == Some(table)
    requires SameBut(m, m', tables, table, IndexAt(v, level))
    requires Decode(Load(m, table, IndexAt(v, level)), level) == Empty
    requires Load(m', table, IndexAt(v, level)) == entry && Decode(entry, level) == Leaf
    ensures if Slot(w, level) == Slot(v, level)
      then Walk(m, root, LEVEL_ROOT, w) == None && Walk(m', root, LEVEL_ROOT, w) == Some(PageLeaf(level, entry))
      else Walk(m', root, LEVEL_ROOT, w) == Walk(m, root, LEVEL_ROOT, w)
  {
    IndexIsSlot(v, level);
    IndexIsSlot(w, level);
    RootServesAll(w);
    hide Slot, IndexAt, Decode, Load, Placed;
    var index := IndexAt(v, level);
    if Slot(w, level) == Slot(v, level) {
      PathOfSlot(m, root, LEVEL_ROOT, level, v, w);
      LeafKeepsPath(m, m', root, tables, low, high, table, index, root, w);
      WalkFromPath(m, root, LEVEL_ROOT, level, w, table);
      WalkFromPath(m', root, LEVEL_ROOT, level, w, table);
    } else {
      LeafKeepsWalk(m, m', root, tables, low, high, table, index, root, w);
    }
  }

  lemma RootServesAll(w: u64)
    ensures Slot(w, LEVEL_ROOT + 1) == 0
  {
  }

  /** Where every walk begins. */
  lemma RootBegins(m: seq<u64>, root: int, tables: Tables, low: int, high: int, v: u64, leaf: Level)
    requires Tree(m, root, tables, low, high)
    ensures root in tables && tables[root] == Node(LEVEL_ROOT, 0)
    ensures TableAt(m, root, LEVEL_ROOT, v, LEVEL_ROOT) == Some(root)
    ensures SameWalks(m, m, root) && BlocksKept(m, m, root, v, leaf) && Placed(tables, low, high)
  {
  }

  lemma WalksOn(m: seq<u64>, m': seq<u64>, m'': seq<u64>, root: int, v: u64, leaf: Level)
    requires SameWalks(m, m', root) && BlocksKept(m, m', root, v, leaf)
    ensures SameWalks(m', m'', root) ==> SameWalks(m, m'', root)
    ensures BlocksKept(m', m'', root, v, leaf) ==> BlocksKept(m, m'', root, v, leaf)
  {
    hide Walk, Blocked, PagesApart;
  }

  lemma LeafOn(m: seq<u64>, m': seq<u64>, m'': seq<u64>, root: int, level: Level, v: u64, entry: u64)
    requires SameWalks(m, m', root) && LeafMapped(m', m'', root, level, v, entry)
    ensures LeafMapped(m, m'', root, level, v, entry)
  {
    hide Walk, Slot;
    forall w: u64
      ensures Walk(m', root, LEVEL_ROOT, w) == Walk(m, root, LEVEL_ROOT, w)
    {
    }
  }

  /** Tables sit on page boundaries, so distinct tables share no entry. */
  lemma TablesDisjoint(tables: Tables, low: int, high: int, s: int, t: int, i: int, j: int)
    requires Placed(tables, low, high)
    requires s in tables && t in tables && 0 <= i < 512 && 0 <= j < 512
    ensures s / 8 + i == t / 8 + j <==> s == t && i == j
  {
    var a, b := s / 4096, t / 4096;
    DivisionIs(s, 8, 512 * a, 0);
    DivisionIs(t, 8, 512 * b, 0);
  }

  /** Storing one word of a table changes that entry and no other. */
  lemma StoreIsSameBut(m: seq<u64>, tables: Tables, low: int, high: int, table: int, index: int, entry: u64)
    requires Placed(tables, low, high) && table in tables && 0 <= index < 512
    requires 0 <= low && high <= 8 * |m|
    ensures 0 <= table / 8 + index < |m|
    ensures var m' := m[table / 8 + index := entry];
      SameBut(m, m', tables, table, index) && Load(m', table, index) == entry
  {
    TableInRange(m, tables, low, high, table);
    var m' := m[table / 8 + index := entry];
    forall t, i | t in tables && 0 <= i < 512 && (t != table || i != index)
      ensures Load(m', t, i) == Load(m, t, i)
    {
      TablesDisjoint(tables, low, high, t, table, i, index);
    }
  }

  lemma TableInRange(m: seq<u64>, tables: Tables, low: int, high: int, table: int)
    requires Placed(tables, low, high) && table in tables
    requires 0 <= low && high <= 8 * |m|
    ensures 0 <= table / 8 && table / 8 + 512 <= |m|
  {
  }

  function IndexOf(v: u64, level: Level): (index: nat)
    ensures index == IndexAt(v, level) && index < 512
  {
    IndexAt(v, level)
  }

  lemma LinkedTable(m: seq<u64>, root: int, tables: Tables, low: int, high: int, table: int, index: nat)
    requires Tree(m, root, tables, low, high) && table in tables && index < 512
    ensures var content := Decode(Load(m, table, index), tables[table].level);
      content.Link? ==> content.table in tables && tables[content.table].level == tables[table].level - 1
  {
    assert LinkInTree(m, tables, table, index);
  }

  /** A fresh table, zeroed, leaves the entries of the others alone. */
  lemma FreshIsSame(m: seq<u64>, m': seq<u64>, tables: Tables, low: int, high: int, added: int, t: int, i: int)
    requires Placed(tables, low, high) && high <= added && added % 4096 == 0
    requires SameOutside(m, m', added)
    requires t in tables && 0 <= i < 512
    ensures Load(m', t, i) == Load(m, t, i)
  {
    var a, b := t / 4096, added / 4096;
    DivisionIs(t, 8, 512 * a, 0);
    DivisionIs(added, 8, 512 * b, 0);
  }

  /** A zeroed table and a word stored in another one, together. */
  lemma TableAndEntryWritten(
    m: seq<u64>, zeroed: seq<u64>, tables: Tables, low: int, high: int, high': int,
    table: int, index: int, added: u64, entry: u64)
    requires Placed(tables, low, high) && table in tables && 0 <= index < 512
    requires added % 4096 == 0 && 0 <= low <= high <= added && added + 4096 <= high' <= 8 * |m|
    requires SameOutside(m, zeroed, added) && Zeroed(zeroed, added)
    ensures 0 <= table / 8 + index < |zeroed|
    ensures var m' := zeroed[table / 8 + index := entry];
      SameBut(m, m', tables, table, index) && Load(m', table, index) == entry && Zeroed(m', added)
  {
    StoreIsSameBut(zeroed, tables, low, high, table, index, entry);
    var m' := zeroed[table / 8 + index := entry];
    forall t, i | t in tables && 0 <= i < 512 && (t != table || i != index)
      ensures Load(m', t, i) == Load(m, t, i)
    {
      FreshIsSame(m, zeroed, tables, low, high, added, t, i);
    }
    forall i | 0 <= i < 512
      ensures Load(m', added, i) == 0
    {
      var grown := tables[added := Node(LEVEL_TABLE, 0)];
      TablesDisjoint(grown, low, high', added, table, i, index);
      assert Load(zeroed, added, i) == 0;
    }
  }

  /** What `descend` does when the entry is empty: a zeroed table, then a link to it. */
  lemma LinkWritten(
    m: seq<u64>, zeroed: seq<u64>, root: int, tables: Tables, low: int, high: int, high': int,
    table: int, v: u64, level: Level, added: u64, huge: bool)
    requires Tree(m, root, tables, low, high) && AllPlain(m, tables, huge)
    requires table in tables && tables[table] == Node(level, Slot(v, level + 1)) && level > LEVEL_TABLE
    requires TableAt(m, root, LEVEL_ROOT, v, level) == Some(table)
    requires Decode(Load(m, table, IndexAt(v, level)), level) == Empty
    requires added % 4096 == 0 && 0 <= low <= high <= added && added + 4096 <= high' <= 8 * |m|
    requires added < PHYSICAL_LIMIT && added !in tables && Reached(m, root, tables)
    requires SameOutside(m, zeroed, added) && Zeroed(zeroed, added)
    ensures 0 <= table / 8 + IndexAt(v, level) < |zeroed|
    ensures var m' := zeroed[table / 8 + IndexAt(v, level) := LinkEntry(added)];
      && Reached(m', root, tables[added := Node(level - 1, Slot(v, level))])
      && AllPlain(m', tables[added := Node(level - 1, Slot(v, level))], huge)
      && (forall leaf: Level :: leaf < level ==> BlocksKept(m, m', root, v, leaf))
      && Tree(m', root, tables[added := Node(level - 1, Slot(v, level))], low, high')
      && SameWalks(m, m', root)
      && TableAt(m', root, LEVEL_ROOT, v, level - 1) == Some(added)
      && Decode(Load(m', table, IndexAt(v, level)), level) == Link(added)
      && Zeroed(m', added)
  {
    var index := IndexAt(v, level);
    var entry := LinkEntry(added);
    IndexIsSlot(v, level);
    LinkEntryDecodes(added, level);
    hide Slot, IndexAt, Decode, LinkEntry, Load, SameOutside, Zeroed, SameBut, Reached, BlocksKept, AllPlain, Plain;
    TableAndEntryWritten(m, zeroed, tables, low, high, high', table, index, added, entry);
    var m' := zeroed[table / 8 + index := entry];
    LinkIsPlain(added, level, huge);
    EntryKeepsPlain(m, m', tables, table, index, huge);
    TableKeepsPlain(m', tables, added, Node(level - 1, Slot(v, level)), huge);
    LinkKeepsTree(m, m', root, tables, low, high, high', table, index, added);
    forall w: u64
      ensures Walk(m', root, LEVEL_ROOT, w) == Walk(m, root, LEVEL_ROOT, w)
    {
      LinkKeepsWalk(m, m', root, tables, low, high, table, index, added, root, w);
    }
    LinkKeepsPath(m, m', root, tables, low, high, table, index, root, v, level, table);
    PathExtends(m', root, LEVEL_ROOT, level, v, table, added);
    EntryKeepsReached(m, m', root, tables, low, high, table, index);
    LinkIsReached(m', root, tables, v, level, added);
    forall leaf: Level | leaf < level
      ensures BlocksKept(m, m', root, v, leaf)
    {
      LinkBlocksNothing(m, m', root, tables, low, high, table, v, level, added, leaf);
    }
  }

  /** What has been mapped was not mapped before. */
  lemma MappedWasUnmapped(m: seq<u64>, m': seq<u64>, root: int, r: Range)
    requires FlagsAccepted(r.flags) && MapsPrefix(m, m', root, r, r.bytes)
    ensures Unmapped(m, root, r)
  {
    hide View, Expected, OffsetIn;
  }

  lemma RestIsUnmapped(m: seq<u64>, m': seq<u64>, root: int, r: Range, done: int)
    requires FlagsAccepted(r.flags) && MapsPrefix(m, m', root, r, done) && Unmapped(m, root, r)
    ensures forall w: u64 :: done <= OffsetIn(r.virtual, w) < r.bytes ==> View(m', root, w) == None
  {
    hide View, Expected, OffsetIn;
  }

  /** The tables on the way to a page are there, down to a level. */
  ghost predicate PathMade(v: u64, leaf: Level, level: Level, nodes: set<Node>) {
    forall n :: OnPath(n, v, leaf) && n.level >= level ==> n in nodes
  }

  lemma NoneMade(v: u64, leaf: Level, nodes: set<Node>)
    ensures PathMade(v, leaf, LEVEL_ROOT, nodes)
  {
  }

  lemma MadeOn(v: u64, leaf: Level, level: Level, before: set<Node>, after: set<Node>)
    requires PathMade(v, leaf, level, before) && before <= after && level > LEVEL_TABLE
    requires Node(level - 1, Slot(v, level)) in after
    ensures PathMade(v, leaf, level - 1, after)
  {
    hide Slot;
  }

  lemma AllMade(v: u64, leaf: Level, nodes: set<Node>)
    ensures PathMade(v, leaf, leaf, nodes) ==> forall n :: OnPath(n, v, leaf) ==> n in nodes
  {
  }

  /** All the bytes of a page are served by way of the same tables. */
  lemma PathOfPage(r: Range, done: int, leaf: Level, k: int, n: Node)
    requires 0 <= done <= k < done + Span(leaf) && k < r.bytes && r.virtual + r.bytes < U64_LIMIT
    requires leaf <= LEVEL_POINTER && PageOffset(r.virtual + done, leaf) == 0
    requires LevelAt(r.huge, r.virtual, r.physical, r.bytes, k) == leaf && NeededAt(r, n, k)
    ensures OnPath(n, r.virtual + done, leaf)
  {
    hide Slot, PageOffset, LevelAt;
    var v, w := r.virtual + done, r.virtual + k;
    DivisionIs(w - v, 0x1_0000_0000_0000, 0, w - v);
    PageServes(v, w, leaf);
    SlotsAgreeUpTo(v, w, leaf, n.level + 1);
  }

  /** Everything needed for the first `done` bytes is there. */
  ghost predicate Served(r: Range, done: int, nodes: set<Node>)
    requires r.virtual + r.bytes < U64_LIMIT && done <= r.bytes
  {
    forall n, k :: 0 <= k < done && NeededAt(r, n, k) ==> n in nodes
  }

  lemma NoneServed(r: Range, nodes: set<Node>)
    requires r.virtual + r.bytes < U64_LIMIT
    ensures Served(r, 0, nodes)
  {
  }

  lemma ServedOn(r: Range, done: int, leaf: Level, before: set<Node>, after: set<Node>)
    requires 0 <= done && done + Span(leaf) <= r.bytes && r.virtual + r.bytes < U64_LIMIT
    requires leaf <= LEVEL_POINTER && PageOffset(r.virtual + done, leaf) == 0
    requires forall k :: done <= k < done + Span(leaf) ==> LevelAt(r.huge, r.virtual, r.physical, r.bytes, k) == leaf
    requires Served(r, done, before) && before <= after
    requires forall n :: OnPath(n, r.virtual + done, leaf) ==> n in after
    ensures Served(r, done + Span(leaf), after)
  {
    hide Span, PageOffset, LevelAt, OnPath;
    forall n, k | 0 <= k < done + Span(leaf) && NeededAt(r, n, k)
      ensures n in after
    {
      if k >= done {
        PathOfPage(r, done, leaf, k, n);
      }
    }
  }

  lemma AllServed(r: Range, nodes: set<Node>)
    requires r.virtual + r.bytes < U64_LIMIT && Served(r, r.bytes, nodes)
    ensures forall n :: Needed(r, n) ==> n in nodes
  {
    hide NeededAt;
  }

  lemma GrownIncludes(base: int, used: int, used': int, before: set<Node>, after: set<Node>)
    requires Grown(base, used, used', before, after)
    ensures before <= after
  {
  }

  lemma PathIsNeeded(r: Range, done: int, n: Node, leaf: Level)
    requires 0 <= done < r.bytes && r.virtual + r.bytes < U64_LIMIT && OnPath(n, r.virtual + done, leaf)
    requires LevelAt(r.huge, r.virtual, r.physical, r.bytes, done) == leaf
    ensures Needed(r, n)
  {
    assert NeededAt(r, n, done);
  }

  /** The tables of 4 KiB pages among these. */
  ghost function Small(nodes: set<Node>): set<Node> { set n | n in nodes && n.level == LEVEL_TABLE }

  /** The new nodes of a range are needed by it; and they, and the small ones among
      them, are no more than it can take. */
  ghost predicate AddedWithin(r: Range, before: set<Node>, after: set<Node>)
    requires r.bytes > 0 && r.virtual + r.bytes < U64_LIMIT
  {
    && (forall n :: n in after && n !in before ==> Needed(r, n))
    && |after - before| <= TablesFor(r)
    && |Small(after - before)| <= SmallTables(r)
  }

  lemma NoneAdded(r: Range, nodes: set<Node>)
    requires r.bytes > 0 && r.virtual + r.bytes < U64_LIMIT
    ensures AddedWithin(r, nodes, nodes)
  {
    assert nodes - nodes == {};
    NodesFit(r);
  }

  lemma AddedIsBounded(r: Range, before: set<Node>, after: set<Node>)
    requires Accepted(r) && OneHalf(r)
    requires forall n :: n in after && n !in before ==> Needed(r, n)
    ensures AddedWithin(r, before, after) && after - before <= Nodes(r)
  {
    hide Needed, Nodes, SmallNodes, TablesFor, SmallTables, Canonical, FlagsAccepted, OneHalf;
    forall n | n in after - before
      ensures n in Nodes(r) && (n.level == LEVEL_TABLE ==> n in SmallNodes(r))
    {
      NeededIsCounted(r, n);
    }
    NodesFit(r);
    MoreNodes(after - before, Nodes(r));
    MoreNodes(Small(after - before), SmallNodes(r));
  }

  /** A range for which a table is still missing has not been given all it can take:
      if there was room for that much, there is room for one more. */
  lemma MissingLeavesRoom(r: Range, base: int, used: int, used': int, before: set<Node>, after: set<Node>)
    requires Accepted(r) && OneHalf(r) && Grown(base, used, used', before, after)
    requires forall n :: n in after && n !in before ==> Needed(r, n)
    requires exists n :: Needed(r, n) && n !in after
    ensures AlignUp(base + used', 4096) + 4096 <= AlignUp(base + used, 4096) + 4096 * TablesFor(r)
  {
    hide Needed, Nodes, SmallNodes, TablesFor, SmallTables, Canonical, FlagsAccepted, OneHalf, AlignUp, Reckoned;
    var n :| Needed(r, n) && n !in after;
    NeededIsCounted(r, n);
    AddedIsBounded(r, before, after);
    NodesFit(r);
    MoreNodes((after - before) + {n}, Nodes(r));
    MoreNodes(before, after);
    RoomIsLeft(base, used, used', before, after, TablesFor(r));
  }

  /** Words outside [low, high) are the same. */
  ghost predicate OutsideKept(m: seq<u64>, m': seq<u64>, low: int, high: int) {
    |m'| == |m| && forall k :: 0 <= k < |m| && !(low <= 8 * k < high) ==> m'[k] == m[k]
  }

  lemma NothingWritten(m: seq<u64>, low: int, high: int)
    ensures OutsideKept(m, m, low, high)
  {
  }

  lemma KeptOn(m: seq<u64>, m': seq<u64>, m'': seq<u64>, low: int, high: int)
    requires OutsideKept(m, m', low, high) && OutsideKept(m', m'', low, high)
    ensures OutsideKept(m, m'', low, high)
  {
  }

  lemma TableWritten(m: seq<u64>, m': seq<u64>, table: int, low: int, high: int)
    requires SameOutside(m, m', table) && table % 4096 == 0 && low <= table && table + 4096 <= high
    ensures OutsideKept(m, m', low, high)
  {
    DivisionIs(table, 8, table / 4096 * 512, 0);
  }

  lemma EntryWritten(m: seq<u64>, table: int, index: int, entry: u64, low: int, high: int)
    requires table % 4096 == 0 && low <= table && table + 4096 <= high && 0 <= index < 512
    requires 0 <= table / 8 + index < |m|
    ensures OutsideKept(m, m[table / 8 + index := entry], low, high)
  {
    DivisionIs(table, 8, table / 4096 * 512, 0);
  }

  // ----- how the arena is used up -----

  /** So many tables, each in the next page of the arena. */
  predicate Reckoned(base: int, used: int, used': int, n: int) {
    base + used' == if n == 0 then base + used else AlignUp(base + used, 4096) + 4096 * n
  }

  lemma ReckonedOn(base: int, used: int, used': int, used'': int, m: nat, n: nat)
    requires Reckoned(base, used, used', m) && Reckoned(base, used', used'', n)
    ensures Reckoned(base, used, used'', m + n)
  {
    hide AlignUp;
    AlignedStays(base + used, m);
  }

  lemma AlignedStays(x: int, n: int)
    ensures AlignUp(AlignUp(x, 4096) + 4096 * n, 4096) == AlignUp(x, 4096) + 4096 * n
  {
    AlignUpBounds(x, 4096);
  }

  /** Each new table is for a node that had none. */
  ghost predicate Grown(base: int, used: int, used': int, before: set<Node>, after: set<Node>) {
    before <= after && Reckoned(base, used, used', |after| - |before|)
  }

  lemma NothingGrown(base: int, used: int, nodes: set<Node>)
    ensures Grown(base, used, used, nodes, nodes)
  {
  }

  lemma GrownOn(base: int, used: int, used': int, used'': int, before: set<Node>, middle: set<Node>, after: set<Node>)
    requires Grown(base, used, used', before, middle) && Grown(base, used', used'', middle, after)
    ensures Grown(base, used, used'', before, after)
  {
    hide Reckoned;
    MoreNodes(before, middle);
    MoreNodes(middle, after);
    ReckonedOn(base, used, used', used'', |middle| - |before|, |after| - |middle|);
  }

  lemma MoreNodes(before: set<Node>, after: set<Node>)
    requires before <= after
    ensures |before| <= |after| && |after - before| == |after| - |before|
  {
    assert after == before + (after - before);
  }

  /** One more table, for a node there was none for. */
  lemma OneMoreTable(base: int, used: int, used': int, tables: Tables, added: int, node: Node)
    requires added !in tables && node !in tables.Values
    requires added == AlignUp(base + used, 4096) && base + used' == added + 4096
    ensures Grown(base, used, used', tables.Values, tables[added := node].Values)
    ensures tables[added := node].Values == tables.Values + {node}
  {
    var grown := tables[added := node];
    assert grown[added] == node;
    forall t | t in tables
      ensures grown[t] == tables[t]
    {
    }
    assert grown.Values == tables.Values + {node};
  }

  /** While fewer tables have been made than were reckoned with, there is room for
      one more. */
  lemma RoomIsLeft(base: int, used: int, used': int, before: set<Node>, after: set<Node>, n: int)
    requires Grown(base, used, used', before, after) && |after| - |before| < n
    ensures AlignUp(base + used', 4096) + 4096 <= AlignUp(base + used, 4096) + 4096 * n
  {
    hide Reckoned;
    MoreNodes(before, after);
    ReckonedRoom(base, used, used', |after| - |before|, n);
  }

  /** What has been taken from the arena is not given back. */
  lemma StaysExhausted(base: int, used: int, used': int, before: set<Node>, after: set<Node>)
    requires Grown(base, used, used', before, after)
    ensures AlignUp(base + used, 4096) <= AlignUp(base + used', 4096)
  {
    hide AlignUp;
    MoreNodes(before, after);
    AlignedStays(base + used, |after| - |before|);
  }

  lemma ReckonedRoom(base: int, used: int, used': int, m: nat, n: nat)
    requires Reckoned(base, used, used', m) && m < n
    ensures AlignUp(base + used', 4096) + 4096 <= AlignUp(base + used, 4096) + 4096 * n
  {
    hide AlignUp;
    AlignedStays(base + used, m);
  }

  /** Only the words of one table differ. */
  ghost predicate SameOutside(m: seq<u64>, m': seq<u64>, table: int) {
    && |m'| == |m|
    && forall k :: 0 <= k < |m| && !(table / 8 <= k < table / 8 + 512) ==> m'[k] == m[k]
  }

  lemma PageRounding(value: int)
    ensures PowerOfTwo(4096)
    ensures value <= AlignUp(value, 4096) && AlignUp(value, 4096) % 4096 == 0
  {
    assert PowerOfTwo(256) && PowerOfTwo(512) && PowerOfTwo(1024) && PowerOfTwo(2048);
  }

  class PageTables {
    const ram: array<u64>
    var arena: Arena
    /** Physical address of the root table, or zero before there is one. */
    var root: u64
    var hugePages: bool
    /** Where every table allocated so far hangs. */
    ghost var tables: Tables

    /** The arena's memory exists, and its addresses fit in an entry. */
    ghost predicate ArenaBacked()
      reads this, arena
    {
      && arena.Valid()
      && arena.base + arena.capacity <= 8 * ram.Length
      && arena.base + arena.capacity <= PHYSICAL_LIMIT
    }

    ghost predicate Valid()
      reads this, arena, ram
    {
      && ArenaBacked()
      && (root != NULL ==>
            && Tree(ram[..], root, tables, arena.base, arena.base + arena.used)
            && Reached(ram[..], root, tables) && AllPlain(ram[..], tables, hugePages))
    }

    /** Nothing outside the arena's memory has been written since it was `m`. */
    ghost predicate Kept(m: seq<u64>)
      reads this, arena, ram
    {
      OutsideKept(m, ram[..], arena.base, arena.base + arena.capacity)
    }

    /** There is no room left for one more table. */
    ghost predicate Exhausted()
      reads this, arena
    {
      AlignUp(arena.base + arena.used, 4096) + 4096 > arena.base + arena.capacity
    }

    /** The processor, given these tables, does what their address map says. */
    lemma ValidIsObeyed()
      requires Valid() && root != NULL
      ensures Obeyed(ram[..], root, hugePages)
    {
      hide Tree, AllPlain, Obeyed, Reached;
      TreeIsObeyed(ram[..], root, tables, arena.base, arena.base + arena.used, hugePages);
    }

    constructor (ram: array<u64>, arena: Arena)
      requires arena.Valid()
      requires arena.base + arena.capacity <= 8 * ram.Length
      requires arena.base + arena.capacity <= PHYSICAL_LIMIT
      ensures Valid() && root == NULL && this.ram == ram && this.arena == arena
    {
      this.ram, this.arena := ram, arena;
      root, hugePages := NULL, false;
      tables := map[];
    }

    /** The `memset` of a new table. */
    method ZeroTable(table: u64)
      requires table % 4096 == 0 && table + 4096 <= 8 * ram.Length
      modifies ram
      ensures Zeroed(ram[..], table)
      ensures SameOutside(old(ram[..]), ram[..], table)
    {
      var first := table / 8;
      for i := 0 to 512
        invariant forall k :: first <= k < first + i ==> ram[k] == 0
        invariant forall k :: 0 <= k < ram.Length && !(first <= k < first + 512) ==> ram[k] == old(ram[k])
      {
        ram[first + i] := 0;
      }
    }

    method AllocateTable() returns (table: u64)
      requires ArenaBacked()
      modifies arena`used, ram
      ensures ArenaBacked()
      ensures table == NULL ==> arena.used == old(arena.used) && ram[..] == old(ram[..]) && Exhausted()
      ensures table != NULL ==>
        && !old(Exhausted())
        && table % 4096 == 0
        && table == AlignUp(arena.base + old(arena.used), 4096) && arena.base + old(arena.used) <= table
        && table + 4096 == arena.base + arena.used
        && Zeroed(ram[..], table)
        && SameOutside(old(ram[..]), ram[..], table)
      ensures Kept(old(ram[..]))
    {
      hide AlignUp, PowerOfTwo, Zeroed, SameOutside, OutsideKept;
      PageRounding(arena.base + arena.used);
      NothingWritten(ram[..], arena.base, arena.base + arena.capacity);
      table := arena.AllocateAligned(4096, 4096);
      if table != NULL {
        ghost var before := ram[..];
        ZeroTable(table);
        TableWritten(before, ram[..], table, arena.base, arena.base + arena.capacity);
      }
    }

    method Create(arena: Arena, hugePages: bool) returns (ok: bool)
      requires arena.Valid()
      requires arena.base + arena.capacity <= 8 * ram.Length
      requires arena.base + arena.capacity <= PHYSICAL_LIMIT
      modifies this, arena`used, ram
      ensures Valid() && this.arena == arena && this.hugePages == hugePages
      ensures ok ==>
        root != NULL && (forall w: u64 :: Walk(ram[..], root, LEVEL_ROOT, w) == None) && Tight(ram[..], root)
      ensures ok ==> tables.Values == {Node(LEVEL_ROOT, 0)}
      ensures ok ==> arena.base + arena.used == AlignUp(arena.base + old(arena.used), 4096) + 4096
      ensures ok <==> AlignUp(arena.base + old(arena.used), 4096) + 4096 <= arena.base + arena.capacity
      ensures !ok ==> Exhausted() && ram[..] == old(ram[..])
      ensures Kept(old(ram[..]))
    {
      hide Tight, AlignUp, OutsideKept, SameOutside;
      this.arena := arena;
      this.hugePages := hugePages;
      root, tables := NULL, map[];
      var table := AllocateTable();
      if table == NULL {
        return false;
      }
      root := table;
      tables := map[root := Node(LEVEL_ROOT, 0)];
      RootIsReached(ram[..], root);
      EmptyIsTight(ram[..], root);
      forall i | 0 <= i < 512
        ensures LinkInTree(ram[..], tables, root, i)
      {
        assert Load(ram[..], root, i) == 0;
      }
      forall w: u64
        ensures Walk(ram[..], root, LEVEL_ROOT, w) == None
      {
        EmptyTableMapsNothing(ram[..], root, LEVEL_ROOT, w);
      }
      return true;
    }

    /** The second half of `descend`: a new table behind an empty entry. */
    method LinkNewTable(table: u64, level: Level, v: u64) returns (next: u64)
      requires Valid() && root != NULL && level > LEVEL_TABLE
      requires TableAt(ram[..], root, LEVEL_ROOT, v, level) == Some(table)
      requires table in tables && tables[table] == Node(level, Slot(v, level + 1))
      requires Decode(Load(ram[..], table, IndexAt(v, level)), level) == Empty
      modifies this`tables, arena`used, ram
      ensures Valid() && SameWalks(old(ram[..]), ram[..], root)
      ensures next != NULL ==>
        && TableAt(ram[..], root, LEVEL_ROOT, v, level - 1) == Some(next)
        && next in tables && tables[next] == Node(level - 1, Slot(v, level))
        && Zeroed(ram[..], next)
        && tables.Values == old(tables).Values + {Node(level - 1, Slot(v, level))}
        && forall leaf: Level :: leaf < level ==> BlocksKept(old(ram[..]), ram[..], root, v, leaf)
      ensures Node(level - 1, Slot(v, level)) !in old(tables).Values
      ensures next == NULL ==> Exhausted() && tables == old(tables) && ram[..] == old(ram[..])
      ensures Grown(arena.base, old(arena.used), arena.used, old(tables).Values, tables.Values) && Kept(old(ram[..]))
    {
      hide Slot, IndexAt, AddressOf, LinkEntry, SameOutside, Zeroed, Decode, Load;
      hide Exhausted, Grown, BlocksKept, Reached, AlignUp, OutsideKept;
      hide Tree, TableAt, SameWalks, LinkInTree, Walk, AllPlain;
      NodeIsNew(ram[..], root, tables, table, v, level);
      RootBegins(ram[..], root, tables, arena.base, arena.base + arena.used, v, LEVEL_TABLE);
      NothingGrown(arena.base, arena.used, tables.Values);
      ghost var before := ram[..];
      ghost var high := arena.base + arena.used;
      TableInRange(ram[..], tables, arena.base, high, table);
      var index := IndexOf(v, level);
      next := AllocateTable();
      if next == NULL {
        return;
      }
      ghost var zeroed := ram[..];
      LinkWritten(before, zeroed, root, tables, arena.base, high, arena.base + arena.used, table, v, level, next,
        hugePages);
      EntryWritten(zeroed, table, index, LinkEntry(next), arena.base, arena.base + arena.capacity);
      ram[table / 8 + index] := LinkEntry(next);
      assert ram[..] == zeroed[table / 8 + index := LinkEntry(next)];
      KeptOn(before, zeroed, ram[..], arena.base, arena.base + arena.capacity);
      OneMoreTable(arena.base, old(arena.used), arena.used, tables, next, Node(level - 1, Slot(v, level)));
      tables := tables[next := Node(level - 1, Slot(v, level))];
    }

    /** The table one level down on the way to `v`, made if it is not there. No
        translation changes, and it fails only at a leaf, when it may not create,
        or for want of memory. */
    method Descend(table: u64, level: Level, v: u64, create: bool) returns (next: u64)
      requires Valid() && root != NULL && level > LEVEL_TABLE
      requires TableAt(ram[..], root, LEVEL_ROOT, v, level) == Some(table)
      requires table in tables && tables[table] == Node(level, Slot(v, level + 1))
      modifies this`tables, arena`used, ram
      ensures Valid() && SameWalks(old(ram[..]), ram[..], root)
      ensures next != NULL ==>
        && TableAt(ram[..], root, LEVEL_ROOT, v, level - 1) == Some(next)
        && next in tables && tables[next] == Node(level - 1, Slot(v, level))
        && forall target: Level :: target < level ==>
          Blocked(ram[..], next, level - 1, v, target) == Blocked(old(ram[..]), table, level, v, target)
      ensures next != NULL && ram[..] != old(ram[..]) ==> Zeroed(ram[..], next)
      ensures next == NULL ==> ram[..] == old(ram[..]) && tables == old(tables)
      ensures next == NULL ==>
        || (forall target: Level :: target < level ==> Blocked(ram[..], table, level, v, target))
        || !create || (Exhausted() && Node(level - 1, Slot(v, level)) !in tables.Values)
      ensures forall n :: n in tables.Values && n !in old(tables).Values ==> n == Node(level - 1, Slot(v, level))
      ensures forall leaf: Level :: leaf < level ==> BlocksKept(old(ram[..]), ram[..], root, v, leaf)
      ensures Grown(arena.base, old(arena.used), arena.used, old(tables).Values, tables.Values) && Kept(old(ram[..]))
    {
      TableInRange(ram[..], tables, arena.base, arena.base + arena.used, table);
      var index := IndexAt(v, level);
      assert LinkInTree(ram[..], tables, table, index);
      IndexIsSlot(v, level);
      hide Slot, IndexAt, AddressOf, LinkEntry, Zeroed, Grown, Reached, Exhausted, OutsideKept, AllPlain;
      NothingWritten(ram[..], arena.base, arena.base + arena.capacity);
      NothingGrown(arena.base, arena.used, tables.Values);
      var entry := ram[table / 8 + index];
      assert Load(ram[..], table, index) == entry;
      if Present(entry) {
        if level < LEVEL_ROOT && Large(entry) {
          return NULL;
        }
        next := AddressOf(entry);
        PathExtends(ram[..], root, LEVEL_ROOT, level, v, table, next);
        return;
      }
      if !create {
        return NULL;
      }
      NothingBlocks(ram[..], table, level, v);
      next := LinkNewTable(table, level, v);
      if next != NULL {
        ZeroedBlocksNothing(ram[..], next, level - 1, v);
      }
    }

    /** One leaf. It goes in exactly when nothing present is in its way and the
        tables above it can be had; otherwise no translation changes. */
    method MapOne(v: u64, physical: u64, pageSize: int, flags: u64) returns (ok: bool)
      requires Valid() && root != NULL && FlagsAccepted(flags)
      requires PageOffset(physical, LevelFor(pageSize)) == 0 && (LevelFor(pageSize) == LEVEL_POINTER ==> hugePages)
      modifies this`tables, arena`used, ram
      ensures Valid()
      ensures ok ==>
        && !Blocked(old(ram[..]), root, LEVEL_ROOT, v, LevelFor(pageSize))
        && LeafMapped(old(ram[..]), ram[..], root, LevelFor(pageSize), v,
          LeafEntry(physical, flags, LevelFor(pageSize)))
      ensures ok ==> BlocksKept(old(ram[..]), ram[..], root, v, LevelFor(pageSize))
      ensures ok ==> forall n :: OnPath(n, v, LevelFor(pageSize)) ==> n in tables.Values
      ensures !ok ==>
        && SameWalks(old(ram[..]), ram[..], root)
        && ((Exhausted() && exists n :: OnPath(n, v, LevelFor(pageSize)) && n !in tables.Values) ||
            (ram[..] == old(ram[..]) && Blocked(ram[..], root, LEVEL_ROOT, v, LevelFor(pageSize))))
      ensures forall n :: n in tables.Values && n !in old(tables).Values ==> OnPath(n, v, LevelFor(pageSize))
      ensures Grown(arena.base, old(arena.used), arena.used, old(tables).Values, tables.Values) && Kept(old(ram[..]))
    {
      hide Grown, Reached, Exhausted, Tree, OutsideKept, TableAt, Slot;
      hide SameWalks, BlocksKept, LeafMapped, LinkInTree, PathMade, AllPlain, PageOffset;
      NothingWritten(ram[..], arena.base, arena.base + arena.capacity);
      var leafLevel: Level := LevelFor(pageSize);
      var table := root;
      var level: Level := LEVEL_ROOT;
      RootServesAll(v);
      RootBegins(ram[..], root, tables, arena.base, arena.base + arena.used, v, leafLevel);
      NothingGrown(arena.base, arena.used, tables.Values);
      NoneMade(v, leafLevel, tables.Values);
      ghost var before := ram[..];
      while level > leafLevel
        invariant leafLevel <= level && Valid()
        invariant TableAt(ram[..], root, LEVEL_ROOT, v, level) == Some(table)
        invariant table in tables && tables[table] == Node(level, Slot(v, level + 1))
        invariant SameWalks(before, ram[..], root)
        invariant Blocked(ram[..], table, level, v, leafLevel) == Blocked(before, root, LEVEL_ROOT, v, leafLevel)
        invariant ram[..] == before || !Blocked(ram[..], table, level, v, leafLevel)
        invariant BlocksKept(before, ram[..], root, v, leafLevel)
        invariant forall n :: n in tables.Values && n !in old(tables).Values ==> OnPath(n, v, leafLevel)
        invariant PathMade(v, leafLevel, level, tables.Values)
        invariant Grown(arena.base, old(arena.used), arena.used, old(tables).Values, tables.Values)
        invariant Kept(old(ram[..]))
      {
        ghost var current, middle, used := ram[..], tables, arena.used;
        table := Descend(table, level, v, true);
        GrownOn(arena.base, old(arena.used), used, arena.used, old(tables).Values, middle.Values, tables.Values);
        KeptOn(before, current, ram[..], arena.base, arena.base + arena.capacity);
        WalksOn(before, current, ram[..], root, v, leafLevel);
        GrownIncludes(arena.base, used, arena.used, middle.Values, tables.Values);
        assert OnPath(Node(level - 1, Slot(v, level)), v, leafLevel);
        if table == NULL {
          return false;
        }
        assert tables[table] in tables.Values;
        MadeOn(v, leafLevel, level, middle.Values, tables.Values);
        level := level - 1;
        if ram[..] != current {
          ZeroedBlocksNothing(ram[..], table, level, v);
        }
      }
      AllMade(v, leafLevel, tables.Values);
      ghost var linked := ram[..];
      ok := WriteLeaf(table, leafLevel, v, physical, flags);
      KeptOn(before, linked, ram[..], arena.base, arena.base + arena.capacity);
      WalksOn(before, linked, ram[..], root, v, leafLevel);
      if ok {
        LeafOn(before, linked, ram[..], root, leafLevel, v, LeafEntry(physical, flags, leafLevel));
      }
    }

    /** The end of `map_one`, once the table that holds the leaf is reached. */
    method WriteLeaf(table: u64, level: Level, v: u64, physical: u64, flags: u64) returns (ok: bool)
      requires Valid() && root != NULL && FlagsAccepted(flags) && level < LEVEL_ROOT
      requires PageOffset(physical, level) == 0 && (level == LEVEL_POINTER ==> hugePages)
      requires TableAt(ram[..], root, LEVEL_ROOT, v, level) == Some(table)
      requires table in tables && tables[table] == Node(level, Slot(v, level + 1))
      modifies ram
      ensures Valid()
      ensures ok <==> !Blocked(old(ram[..]), table, level, v, level)
      ensures ok ==> LeafMapped(old(ram[..]), ram[..], root, level, v, LeafEntry(physical, flags, level))
      ensures ok ==> BlocksKept(old(ram[..]), ram[..], root, v, level)
      ensures !ok ==> ram[..] == old(ram[..])
      ensures Kept(old(ram[..]))
    {
      hide Slot, IndexAt, LeafEntry, FlagsAccepted, Reached, BlocksKept, OutsideKept, LeafMapped, LinkInTree;
      hide AllPlain, Plain, PageOffset, LeafFlags, FlagsOf, AddressOf;
      ghost var high := arena.base + arena.used;
      var index := IndexOf(v, level);
      var value := LeafEntry(physical, flags, level);
      LeafEntryDecodes(physical, flags, level);
      LeafIsPlain(physical, flags, level, hugePages);
      StoreIsSameBut(ram[..], tables, arena.base, high, table, index, value);
      NothingWritten(ram[..], arena.base, arena.base + arena.capacity);
      EntryWritten(ram[..], table, index, value, arena.base, arena.base + arena.capacity);
      var at := table / 8 + index;
      assert Load(ram[..], table, index) == ram[at];
      if Present(ram[at]) {
        return false;
      }
      LeafWritten(ram[..], ram[..][at := value], root, tables, arena.base, high, table, v, level, value,
        hugePages);
      ghost var before := ram[..];
      ram[at] := value;
      assert ram[..] == before[at := value];
      return true;
    }

    /** What holds at first, and after any calls, refused ones included: no table is
        empty, unless the arena is spent. */
    ghost predicate Settled()
      reads this, arena, ram
    {
      Tight(ram[..], root) || Exhausted()
    }

    /** The arena has pages for all the tables a range can take. */
    ghost predicate Room(r: Range)
      requires r.bytes > 0
      reads this, arena
    {
      AlignUp(arena.base + arena.used, 4096) + 4096 * TablesFor(r) <= arena.base + arena.capacity
    }

    /** A table the range needs is not there. */
    ghost predicate Missing(r: Range)
      requires r.virtual + r.bytes < U64_LIMIT
      reads this
    {
      exists n :: Needed(r, n) && n !in tables.Values
    }

    /** A range, page by page. When it succeeds every byte of the range, unmapped
        before, is mapped as asked for, and the range is no longer than what the
        tables can tell apart. When it fails part way the same holds of a prefix,
        because the next page is occupied or the arena is spent. In every case an
        address outside keeps the translation it had. */
    method Map(virtual: u64, physical: u64, bytes: u64, flags: u64) returns (ok: bool)
      requires Valid()
      modifies this`tables, arena`used, ram
      ensures Valid()
      ensures var r := Range(virtual, physical, bytes, flags, hugePages);
        && (root == NULL || !Accepted(r) ==> !ok && ram[..] == old(ram[..]) && arena.used == old(arena.used))
        && (ok ==> OneHalf(r) && MapsPrefix(old(ram[..]), ram[..], root, r, bytes))
        && (!ok && root != NULL && Accepted(r) ==> exists done :: StoppedAt(old(ram[..]), r, done))
      // The processor takes the addresses of the range where they were to go, with the
      // rights that were asked for, and any other address where it took it before.
      ensures ok ==>
        && Obeyed(ram[..], root, hugePages)
        && ReachedAsAsked(old(ram[..]), ram[..], root, Range(virtual, physical, bytes, flags, hugePages), bytes)
      ensures root != NULL ==> AccessesKept(old(ram[..]), ram[..], root, hugePages)
      // Where there is room for the tables it can take, it works exactly if nothing
      // of the range is mapped; without it, only because the arena is spent does it not.
      ensures var r := Range(virtual, physical, bytes, flags, hugePages);
        root != NULL && Accepted(r) && OneHalf(r) && old(Settled()) && old(Room(r)) ==>
          (ok <==> Unmapped(old(ram[..]), root, r))
      ensures var r := Range(virtual, physical, bytes, flags, hugePages);
        root != NULL && Accepted(r) && OneHalf(r) && Tight(old(ram[..]), root) && Unmapped(old(ram[..]), root, r) ==>
          ok || Exhausted()
      ensures ok ==>
        !Blocked(old(ram[..]), root, LEVEL_ROOT, virtual, LevelAt(hugePages, virtual, physical, bytes, 0))
      ensures ok ==>
        var r := Range(virtual, physical, bytes, flags, hugePages); forall n :: Needed(r, n) ==> n in tables.Values
      ensures root != NULL && old(Settled()) ==> Settled()
      ensures ok && Tight(old(ram[..]), root) ==> Tight(ram[..], root)
      // New tables are no more than the range can take, and so are the small ones.
      ensures var r := Range(virtual, physical, bytes, flags, hugePages);
        Accepted(r) && OneHalf(r) ==> AddedWithin(r, old(tables).Values, tables.Values)
      ensures Grown(arena.base, old(arena.used), arena.used, old(tables).Values, tables.Values) && Kept(old(ram[..]))
    {
      hide Grown, OutsideKept, Tight, Unmapped, AlignUp, StoppedAt, MapsPrefix, AddedWithin, TablesFor, Tree, Reached;
      hide OneHalf, Blocked, LevelAt, AllPlain, Obeyed, ReachedAsAsked, Reaches;
      NothingWritten(ram[..], arena.base, arena.base + arena.capacity);
      NothingGrown(arena.base, arena.used, tables.Values);
      ghost var r := Range(virtual, physical, bytes, flags, hugePages);
      if bytes > 0 && virtual + bytes < U64_LIMIT {
        NoneAdded(r, tables.Values);
      }
      if root == NULL || bytes == 0 || virtual % 4096 != 0 || physical % 4096 != 0 || bytes % 4096 != 0 {
        return false;
      }
      if virtual + bytes >= U64_LIMIT || physical + bytes >= U64_LIMIT {
        return false;
      }
      if !Canonical(virtual) || !Canonical(virtual + bytes - 1) || !FlagsAccepted(flags) {
        return false;
      }
      ok := MapAccepted(Range(virtual, physical, bytes, flags, hugePages));
    }

    /** The same, once the arguments are accepted. */
    method MapAccepted(r: Range) returns (ok: bool)
      requires Valid() && root != NULL && Accepted(r) && r.huge == hugePages
      modifies this`tables, arena`used, ram
      ensures Valid()
      ensures ok ==> OneHalf(r) && MapsPrefix(old(ram[..]), ram[..], root, r, r.bytes)
      ensures !ok ==> exists done :: StoppedAt(old(ram[..]), r, done)
      ensures ok ==> Obeyed(ram[..], root, hugePages) && ReachedAsAsked(old(ram[..]), ram[..], root, r, r.bytes)
      ensures AccessesKept(old(ram[..]), ram[..], root, hugePages)
      ensures OneHalf(r) && old(Settled()) && old(Room(r)) ==> (ok <==> Unmapped(old(ram[..]), root, r))
      ensures !ok && OneHalf(r) && Tight(old(ram[..]), root) && Unmapped(old(ram[..]), root, r) ==> Exhausted()
      ensures ok ==>
        !Blocked(old(ram[..]), root, LEVEL_ROOT, r.virtual, LevelAt(r.huge, r.virtual, r.physical, r.bytes, 0))
      ensures ok ==> forall n :: Needed(r, n) ==> n in tables.Values
      ensures old(Settled()) ==> Settled()
      ensures ok && Tight(old(ram[..]), root) ==> Tight(ram[..], root)
      ensures OneHalf(r) ==> AddedWithin(r, old(tables).Values, tables.Values)
      ensures Grown(arena.base, old(arena.used), arena.used, old(tables).Values, tables.Values) && Kept(old(ram[..]))
    {
      hide Grown, OutsideKept, Tight, Unmapped, Blocks, SmallTables, Needed, Nodes, SmallNodes, AlignUp, StoppedAt;
      hide MapsPrefix, Tree, Reached, Canonical, FlagsAccepted, AddedWithin, TablesFor, Blocked, LevelAt;
      hide Obeyed, ReachedAsAsked, AccessesKept, AllPlain;
      TablesForIsPositive(r);
      ValidIsObeyed();
      ok := MapPages(r);
      ValidIsObeyed();
      StaysExhausted(arena.base, old(arena.used), arena.used, old(tables).Values, tables.Values);
      CrossingIsTooLong(r);
      if OneHalf(r) {
        AddedIsBounded(r, old(tables).Values, tables.Values);
        if !ok && Missing(r) {
          MissingLeavesRoom(r, arena.base, old(arena.used), arena.used, old(tables).Values, tables.Values);
        }
      }
      if ok {
        MappedWasUnmapped(old(ram[..]), ram[..], root, r);
        AllAsAsked(old(ram[..]), ram[..], root, r, r.bytes);
        AccessesSurvive(old(ram[..]), ram[..], root, r, r.bytes);
      } else {
        ghost var done :| StoppedAt(old(ram[..]), r, done);
        StoppedIsPrefix(old(ram[..]), r, done);
        AccessesSurvive(old(ram[..]), ram[..], root, r, done);
      }
    }

    /** The loop of `paging_map`, once its arguments are accepted. */
    method MapPages(r: Range) returns (ok: bool)
      requires Valid() && root != NULL && Accepted(r) && r.huge == hugePages
      modifies this`tables, arena`used, ram
      ensures Valid()
      ensures ok ==> r.bytes <= LINEAR_LIMIT && MapsPrefix(old(ram[..]), ram[..], root, r, r.bytes)
      ensures !ok ==> exists done :: StoppedAt(old(ram[..]), r, done)
      ensures Tight(old(ram[..]), root) ==> Tight(ram[..], root) || (!ok && Exhausted())
      ensures !ok && Tight(old(ram[..]), root) && Unmapped(old(ram[..]), root, r) && r.bytes <= LINEAR_LIMIT ==>
        Exhausted() && Missing(r)
      ensures ok ==>
        !Blocked(old(ram[..]), root, LEVEL_ROOT, r.virtual, LevelAt(r.huge, r.virtual, r.physical, r.bytes, 0))
      ensures forall n :: n in tables.Values && n !in old(tables).Values ==> Needed(r, n)
      ensures ok ==> forall n :: Needed(r, n) ==> n in tables.Values
      ensures Grown(arena.base, old(arena.used), arena.used, old(tables).Values, tables.Values) && Kept(old(ram[..]))
    {
      hide PageSizeFor, LevelFor, LevelAt, Span, PageOffset, Canonical, FlagsAccepted;
      hide LeafEntry, PagesFrom, OnPath, Needed, AllPlain;
      hide MapsPrefix, SameWalks, LeafMapped, Blocked, Tree, Reached, Grown;
      hide OutsideKept, Tight, BlocksKept, Unmapped, AlignUp;
      hide Served;
      NoneServed(r, tables.Values);
      var done := 0;
      ghost var before := ram[..];
      NothingWritten(before, arena.base, arena.base + arena.capacity);
      NothingGrown(arena.base, arena.used, tables.Values);
      RangeBegins(before, root, r);
      while done < r.bytes
        invariant 0 <= done <= r.bytes && done <= LINEAR_LIMIT && done % 4096 == 0
        invariant Valid() && MapsPrefix(before, ram[..], root, r, done)
        invariant done < r.bytes ==> PagesFrom(r, done)
        invariant Tight(before, root) ==> Tight(ram[..], root)
        invariant done == 0 ==> ram[..] == before
        invariant done > 0 ==>
          !Blocked(before, root, LEVEL_ROOT, r.virtual, LevelAt(r.huge, r.virtual, r.physical, r.bytes, 0))
        invariant forall n :: n in tables.Values && n !in old(tables).Values ==> Needed(r, n)
        invariant Served(r, done, tables.Values)
        invariant Grown(arena.base, old(arena.used), arena.used, old(tables).Values, tables.Values) && Kept(before)
      {
        var pageSize := PageSizeFor(r.huge, r.virtual + done, r.physical + done, r.bytes - done);
        PagesStep(r, done, pageSize);
        PagesServe(r, done);
        ghost var current, middle, used := ram[..], tables.Values, arena.used;
        var mapped := MapOne(r.virtual + done, r.physical + done, pageSize, r.flags);
        GrownOn(arena.base, old(arena.used), used, arena.used, old(tables).Values, middle, tables.Values);
        KeptOn(before, current, ram[..], arena.base, arena.base + arena.capacity);
        GrownIncludes(arena.base, used, arena.used, middle, tables.Values);
        forall n | OnPath(n, r.virtual + done, LevelFor(pageSize))
          ensures Needed(r, n)
        {
          PathIsNeeded(r, done, n, LevelFor(pageSize));
        }
        if !mapped {
          SameViews(before, current, ram[..], root, r, done);
          assert StoppedAt(before, r, done);
          if Tight(before, root) && Unmapped(before, root, r) && r.bytes <= LINEAR_LIMIT {
            RestIsUnmapped(before, current, root, r, done);
            FreePageIsNotBlocked(current, root, r, done, LevelFor(pageSize));
          }
          return false;
        }
        if Tight(current, root) {
          PageKeepsTight(current, ram[..], root, r.virtual + done, LevelFor(pageSize),
            LeafEntry(r.physical + done, r.flags, LevelFor(pageSize)));
        }
        PrefixExtends(before, current, ram[..], root, r, done, LevelFor(pageSize));
        ServedOn(r, done, LevelFor(pageSize), middle, tables.Values);
        done := done + pageSize;
      }
      AllServed(r, tables.Values);
      return true;
    }

    /** Mapping got as far as `done`, where the next page is occupied or would
        need a table the arena has no room for. */
    ghost predicate StoppedAt(before: seq<u64>, r: Range, done: int)
      requires FlagsAccepted(r.flags)
      reads this, arena, ram
    {
      && 0 <= done < r.bytes && done <= LINEAR_LIMIT && done % 4096 == 0
      && r.virtual + done < U64_LIMIT
      && MapsPrefix(before, ram[..], root, r, done)
      && (Exhausted() ||
          Blocked(ram[..], root, LEVEL_ROOT, r.virtual + done, LevelAt(r.huge, r.virtual, r.physical, r.bytes, done)))
    }

    lemma StoppedIsPrefix(before: seq<u64>, r: Range, done: int)
      requires FlagsAccepted(r.flags) && StoppedAt(before, r, done)
      ensures MapsPrefix(before, ram[..], root, r, done)
    {
    }

    /** The walk the processor would do: it finds exactly the address map, and says of an
        address what the processor makes of it. */
    method Translate(v: u64) returns (found: bool, physical: int, flags: u64)
      requires Valid()
      ensures found <==> root != NULL && Translation(ram[..], root, v).Some?
      ensures found ==> Mapping(physical, flags) == Translation(ram[..], root, v).value
      ensures root != NULL ==> forall f: Features :: (hugePages ==> f.gigabytePages) ==>
        Reaches(f, ram[..], root, v) == if found then AsAsked(f, physical, flags) else None
    {
      hide IndexAt, Slot, AddressOf, FlagsOf, Canonical, PageOffset, LinkInTree;
      hide AllPlain, Reached, Reaches, Obeyed;
      found, physical, flags := false, 0, 0;
      if root != NULL {
        ValidIsObeyed();
        ObeyedAt(ram[..], root, hugePages, v);
      }
      if root == NULL || !Canonical(v) {
        return;
      }
      var table := root;
      var level: Level := LEVEL_ROOT;
      while true
        invariant table in tables && tables[table].level == level
        invariant Walk(ram[..], root, LEVEL_ROOT, v) == Walk(ram[..], table, level, v)
        decreases level
      {
        var index := IndexOf(v, level);
        TableInRange(ram[..], tables, arena.base, arena.base + arena.used, table);
        LinkedTable(ram[..], root, tables, arena.base, arena.base + arena.used, table, index);
        var entry := ram[table / 8 + index];
        assert Load(ram[..], table, index) == entry;
        if !Present(entry) {
          return;
        }
        if level == LEVEL_TABLE || (level < LEVEL_ROOT && Large(entry)) {
          return true, AddressOf(entry) + PageOffset(v, level), FlagsOf(entry);
        }
        table := AddressOf(entry);
        level := level - 1;
      }
    }
  }

  /** What one call asks for. */
  datatype Request = Request(virtual: u64, physical: u64, bytes: u64, flags: u64)

  /** A new address space, and any calls after that, whatever becomes of each: what
      decides the next one is room, and whether its range is mapped. */
  method MapAll(tables: PageTables, arena: Arena, hugePages: bool, requests: seq<Request>)
    returns (ok: bool, mapped: seq<bool>)
    requires arena.Valid()
    requires arena.base + arena.capacity <= 8 * tables.ram.Length
    requires arena.base + arena.capacity <= PHYSICAL_LIMIT
    modifies tables, arena`used, tables.ram
    ensures tables.Valid() && (ok ==> tables.root != NULL && tables.Settled() && |mapped| == |requests|)
  {
    hide Tight, Tree, Reached, AlignUp, OutsideKept, Grown, MapsPrefix, Unmapped, AddedWithin, Blocked;
    mapped := [];
    ok := tables.Create(arena, hugePages);
    if !ok {
      return;
    }
    for i := 0 to |requests|
      invariant tables.Valid() && tables.root != NULL && tables.Settled() && |mapped| == i
      invariant tables.arena == arena
    {
      var done := tables.Map(requests[i].virtual, requests[i].physical, requests[i].bytes, requests[i].flags);
      mapped := mapped + [done];
    }
  }
}
