/** The tree that linked page tables form in physical memory, and the walk the
    processor does over it. Memory is the sequence of its 64-bit words. */
module PageTree {
  import opened Words
  import opened PageEntries

  datatype PageLeaf = PageLeaf(level: Level, entry: u64)

  function Load(m: seq<u64>, table: int, index: int): u64 {
    var at := table / 8 + index;
    if 0 <= at < |m| then m[at] else 0
  }

  function Walk(m: seq<u64>, table: int, level: Level, v: u64): Option<PageLeaf>
    decreases level
  {
    var entry := Load(m, table, IndexAt(v, level));
    match Decode(entry, level)
    case Empty => None
    case Leaf => Some(PageLeaf(level, entry))
    case Link(next) => Walk(m, next, level - 1, v)
  }

  /** The table at level `target` on the way to `v`. */
  function TableAt(m: seq<u64>, table: int, level: Level, v: u64, target: Level): Option<int>
    requires target <= level
    decreases level
  {
    if level == target then Some(table)
    else
      var content := Decode(Load(m, table, IndexAt(v, level)), level);
      if content.Link? then TableAt(m, content.table, level - 1, v, target) else None
  }

  // ----- the shape of the tree -----

  /** Where a table hangs: its level, and the slot of the entry that links to it. */
  datatype Node = Node(level: Level, prefix: nat)

  type Tables = map<int, Node>

  /** A link out of a table leads to the table that serves that entry's slot. */
  ghost predicate LinkInTree(m: seq<u64>, tables: Tables, table: int, index: nat)
    requires table in tables
  {
    var node := tables[table];
    var content := Decode(Load(m, table, index), node.level);
    content.Link? ==>
      && content.table in tables
      && tables[content.table] == Node(node.level - 1, node.prefix * 512 + index)
  }

  ghost predicate Placed(tables: Tables, low: int, high: int) {
    forall t :: t in tables ==> t % 4096 == 0 && low <= t && t + 4096 <= high
  }

  /** Every table lies whole in [low, high), and every link keeps to the tree. As
      each table serves a single slot, no two entries lead to the same table. */
  ghost predicate Tree(m: seq<u64>, root: int, tables: Tables, low: int, high: int) {
    && root in tables && tables[root] == Node(LEVEL_ROOT, 0)
    && Placed(tables, low, high)
    && forall t, i :: t in tables && 0 <= i < 512 ==> LinkInTree(m, tables, t, i)
  }

  /** Everything in the tables is the same, but for one entry. */
  ghost predicate SameBut(m: seq<u64>, m': seq<u64>, tables: Tables, table: int, index: int) {
    forall t, i :: t in tables && 0 <= i < 512 && (t != table || i != index) ==>
      Load(m', t, i) == Load(m, t, i)
  }

  ghost predicate Zeroed(m: seq<u64>, table: int) {
    forall i :: 0 <= i < 512 ==> Load(m, table, i) == 0
  }

  /** `v` is one of the addresses `table` serves. */
  ghost predicate Serves(tables: Tables, table: int, v: u64) {
    table in tables && tables[table].prefix == Slot(v, tables[table].level + 1)
  }

  lemma ChildServes(m: seq<u64>, tables: Tables, table: int, v: u64)
    requires Serves(tables, table, v)
    requires LinkInTree(m, tables, table, IndexAt(v, tables[table].level))
    ensures var content := Decode(Load(m, table, IndexAt(v, tables[table].level)), tables[table].level);
      content.Link? ==> Serves(tables, content.table, v) && tables[content.table].level == tables[table].level - 1
  {
    hide Slot, IndexAt, Decode, Load;
    IndexIsSlot(v, tables[table].level);
  }

  /** No address is translated any differently. */
  ghost predicate SameWalks(m: seq<u64>, m': seq<u64>, root: int) {
    forall w: u64 :: Walk(m', root, LEVEL_ROOT, w) == Walk(m, root, LEVEL_ROOT, w)
  }

  /** The page around `v`, unmapped before, is mapped by `entry`; nothing else changed. */
  ghost predicate LeafMapped(m: seq<u64>, m': seq<u64>, root: int, level: Level, v: u64, entry: u64) {
    forall w: u64 ::
      if Slot(w, level) == Slot(v, level)
      then Walk(m, root, LEVEL_ROOT, w) == None && Walk(m', root, LEVEL_ROOT, w) == Some(PageLeaf(level, entry))
      else Walk(m', root, LEVEL_ROOT, w) == Walk(m, root, LEVEL_ROOT, w)
  }

  // ----- a link to an empty table changes no translation -----

  lemma {:induction false} LinkKeepsWalk(
    m: seq<u64>, m': seq<u64>, root: int, tables: Tables, low: int, high: int,
    table: int, index: int, added: u64, s: int, v: u64)
    requires Tree(m, root, tables, low, high)
    requires table in tables && 0 <= index < 512 && SameBut(m, m', tables, table, index)
    requires Decode(Load(m, table, index), tables[table].level) == Empty
    requires Decode(Load(m', table, index), tables[table].level) == Link(added)
    requires Zeroed(m', added)
    requires s in tables
    ensures Walk(m', s, tables[s].level, v) == Walk(m, s, tables[s].level, v)
    decreases tables[s].level
  {
    hide Slot, IndexAt, Decode, Load, Placed;
    var level := tables[s].level;
    var i := IndexAt(v, level);
    assert LinkInTree(m, tables, s, i);
    if s == table && i == index {
      EmptyTableMapsNothing(m', added, level - 1, v);
    } else {
      var content := Decode(Load(m, s, i), level);
      if content.Link? {
        LinkKeepsWalk(m, m', root, tables, low, high, table, index, added, content.table, v);
      }
    }
  }

  lemma EmptyTableMapsNothing(m: seq<u64>, table: int, level: Level, v: u64)
    requires Zeroed(m, table)
    ensures Walk(m, table, level, v) == None
  {
    assert Load(m, table, IndexAt(v, level)) == 0;
  }

  lemma LinkKeepsTree(
    m: seq<u64>, m': seq<u64>, root: int, tables: Tables, low: int, high: int, high': int,
    table: int, index: int, added: u64)
    requires Tree(m, root, tables, low, high)
    requires table in tables && 0 <= index < 512 && SameBut(m, m', tables, table, index)
    requires tables[table].level > LEVEL_TABLE
    requires Decode(Load(m', table, index), tables[table].level) == Link(added)
    requires added !in tables && added % 4096 == 0 && low <= high <= added && added + 4096 <= high'
    requires Zeroed(m', added)
    ensures var node := Node(tables[table].level - 1, tables[table].prefix * 512 + index);
      Tree(m', root, tables[added := node], low, high')
  {
    var tables' := tables[added := Node(tables[table].level - 1, tables[table].prefix * 512 + index)];
    forall t, i | t in tables' && 0 <= i < 512
      ensures LinkInTree(m', tables', t, i)
    {
      if t == added {
        assert Load(m', added, i) == 0;
      } else {
        assert LinkInTree(m, tables, t, i);
      }
    }
  }

  // ----- a new leaf changes the translations of its slot and no others -----

  lemma {:induction false} LeafKeepsWalk(
    m: seq<u64>, m': seq<u64>, root: int, tables: Tables, low: int, high: int,
    table: int, index: int, s: int, v: u64)
    requires Tree(m, root, tables, low, high)
    requires table in tables && 0 <= index < 512 && SameBut(m, m', tables, table, index)
    requires Serves(tables, s, v)
    requires Slot(v, tables[table].level) != tables[table].prefix * 512 + index
    ensures Walk(m', s, tables[s].level, v) == Walk(m, s, tables[s].level, v)
    decreases tables[s].level
  {
    var level := tables[s].level;
    var i := IndexAt(v, level);
    IndexIsSlot(v, level);
    hide Slot, IndexAt, Decode, Load, Placed;
    assert LinkInTree(m, tables, s, i);
    assert s != table || i != index;
    ChildServes(m, tables, s, v);
    var content := Decode(Load(m, s, i), level);
    if content.Link? {
      LeafKeepsWalk(m, m', root, tables, low, high, table, index, content.table, v);
    }
  }

  lemma {:induction false} LeafKeepsPath(
    m: seq<u64>, m': seq<u64>, root: int, tables: Tables, low: int, high: int,
    table: int, index: int, s: int, v: u64)
    requires Tree(m, root, tables, low, high)
    requires table in tables && 0 <= index < 512 && SameBut(m, m', tables, table, index)
    requires s in tables && tables[table].level <= tables[s].level
    ensures TableAt(m', s, tables[s].level, v, tables[table].level)
         == TableAt(m, s, tables[s].level, v, tables[table].level)
    decreases tables[s].level
  {
    hide Slot, IndexAt, Decode, Load, Placed;
    var level := tables[s].level;
    if level != tables[table].level {
      var i := IndexAt(v, level);
      assert LinkInTree(m, tables, s, i);
      var content := Decode(Load(m, s, i), level);
      if content.Link? {
        LeafKeepsPath(m, m', root, tables, low, high, table, index, content.table, v);
      }
    }
  }

  lemma LeafKeepsTree(
    m: seq<u64>, m': seq<u64>, root: int, tables: Tables, low: int, high: int, table: int, index: int)
    requires Tree(m, root, tables, low, high)
    requires table in tables && 0 <= index < 512 && SameBut(m, m', tables, table, index)
    requires Decode(Load(m', table, index), tables[table].level) == Leaf
    ensures Tree(m', root, tables, low, high)
  {
    forall t, i | t in tables && 0 <= i < 512
      ensures LinkInTree(m', tables, t, i)
    {
      assert LinkInTree(m, tables, t, i);
    }
  }

  // ----- paths -----

  /** The table an address reaches depends on no more than the slot it serves. */
  lemma {:induction false} PathOfSlot(m: seq<u64>, s: int, level: Level, target: Level, v: u64, w: u64)
    requires target <= level && Slot(v, target + 1) == Slot(w, target + 1)
    ensures TableAt(m, s, level, v, target) == TableAt(m, s, level, w, target)
    decreases level
  {
    if level > target {
      SlotsAgreeUpTo(v, w, target + 1, level);
      IndexIsSlot(v, level);
      IndexIsSlot(w, level);
      hide Slot, IndexAt, Decode, Load;
      var content := Decode(Load(m, s, IndexAt(v, level)), level);
      if content.Link? {
        PathOfSlot(m, content.table, level - 1, target, v, w);
      }
    }
  }

  lemma {:induction false} SlotsAgreeUpTo(v: u64, w: u64, below: int, above: int)
    requires 1 <= below <= above <= 5 && Slot(v, below) == Slot(w, below)
    ensures Slot(v, above) == Slot(w, above)
    decreases above - below
  {
    if below < above {
      SlotsAgreeAbove(v, w, below);
      SlotsAgreeUpTo(v, w, below + 1, above);
    }
  }

  lemma {:induction false} WalkFromPath(m: seq<u64>, s: int, level: Level, target: Level, v: u64, table: int)
    requires target <= level && TableAt(m, s, level, v, target) == Some(table)
    ensures Walk(m, s, level, v) == Walk(m, table, target, v)
    decreases level
  {
    hide IndexAt, Load;
    if level > target {
      var content := Decode(Load(m, s, IndexAt(v, level)), level);
      WalkFromPath(m, content.table, level - 1, target, v, table);
    }
  }

  lemma {:induction false} PathExtends(m: seq<u64>, s: int, level: Level, target: Level, v: u64, table: int, next: u64)
    requires LEVEL_TABLE < target <= level && TableAt(m, s, level, v, target) == Some(table)
    requires Decode(Load(m, table, IndexAt(v, target)), target) == Link(next)
    ensures TableAt(m, s, level, v, target - 1) == Some(next)
    decreases level
  {
    hide IndexAt, Load;
    if level > target {
      var content := Decode(Load(m, s, IndexAt(v, level)), level);
      PathExtends(m, content.table, level - 1, target, v, table, next);
    } else {
      assert TableAt(m, next, level - 1, v, target - 1) == Some(next);
    }
  }

  lemma {:induction false} LinkKeepsPath(
    m: seq<u64>, m': seq<u64>, root: int, tables: Tables, low: int, high: int,
    table: int, index: int, s: int, v: u64, target: Level, found: int)
    requires Tree(m, root, tables, low, high)
    requires table in tables && 0 <= index < 512 && SameBut(m, m', tables, table, index)
    requires Decode(Load(m, table, index), tables[table].level) == Empty
    requires s in tables && target <= tables[s].level
    requires TableAt(m, s, tables[s].level, v, target) == Some(found)
    ensures TableAt(m', s, tables[s].level, v, target) == Some(found)
    decreases tables[s].level
  {
    hide IndexAt, Decode, Load, Placed;
    var level := tables[s].level;
    if level != target {
      var i := IndexAt(v, level);
      assert LinkInTree(m, tables, s, i);
      var content := Decode(Load(m, s, i), level);
      assert s != table || i != index;
      LinkKeepsPath(m, m', root, tables, low, high, table, index, content.table, v, target, found);
    }
  }
}
