/** What can be in the way of a new page, and what cannot: where every table holds
    some page, nothing stands in the way of a range but a page of its own. */
module PageBlocks {
  import opened Words
  import opened PageEntries
  import opened PageTree
  import opened AddressMap

  /** Something present stands where a leaf for `v` would go, at `target` or above. */
  predicate Blocked(m: seq<u64>, table: int, level: Level, v: u64, target: Level)
    requires target <= level
    decreases level
  {
    var content := Decode(Load(m, table, IndexAt(v, level)), level);
    if level == target then content != Empty
    else content.Leaf? || (content.Link? && Blocked(m, content.table, level - 1, v, target))
  }

  lemma NothingBlocks(m: seq<u64>, table: int, level: Level, v: u64)
    requires Decode(Load(m, table, IndexAt(v, level)), level) == Empty
    ensures forall target: Level :: target <= level ==> !Blocked(m, table, level, v, target)
  {
  }

  lemma ZeroedBlocksNothing(m: seq<u64>, table: int, level: Level, v: u64)
    requires Zeroed(m, table)
    ensures forall target: Level :: target <= level ==> !Blocked(m, table, level, v, target)
  {
    assert Load(m, table, IndexAt(v, level)) == 0;
  }

  function Higher(a: Level, b: Level): Level { if a < b then b else a }

  /** A page at `leaf` around `v` and one at `target` around `w` have nothing in common. */
  predicate PagesApart(v: u64, leaf: Level, w: u64, target: Level) {
    Slot(w, Higher(leaf, target)) != Slot(v, Higher(leaf, target))
  }

  /** Mapping a page at `leaf` around `v` puts nothing in the way of a page apart from it. */
  ghost predicate BlocksKept(m: seq<u64>, m': seq<u64>, root: int, v: u64, leaf: Level) {
    forall w: u64, target: Level :: PagesApart(v, leaf, w, target) ==>
      Blocked(m', root, LEVEL_ROOT, w, target) == Blocked(m, root, LEVEL_ROOT, w, target)
  }

  /** Filling an empty entry blocks no page that is not served by it, and, if it links
      to an empty table, none that is below it. */
  lemma {:induction false} EntryKeepsBlocked(
    m: seq<u64>, m': seq<u64>, root: int, tables: Tables, low: int, high: int,
    table: int, index: int, added: u64, s: int, w: u64, target: Level)
    requires Tree(m, root, tables, low, high)
    requires table in tables && 0 <= index < 512 && SameBut(m, m', tables, table, index)
    requires Decode(Load(m, table, index), tables[table].level) == Empty
    requires Serves(tables, s, w) && target <= tables[s].level
    requires Slot(w, tables[table].level) == tables[table].prefix * 512 + index && target <= tables[table].level ==>
      && target < tables[table].level && Zeroed(m', added)
      && Decode(Load(m', table, index), tables[table].level) == Link(added)
    ensures Blocked(m', s, tables[s].level, w, target) == Blocked(m, s, tables[s].level, w, target)
    decreases tables[s].level
  {
    var level := tables[s].level;
    var i := IndexAt(w, level);
    IndexIsSlot(w, level);
    hide Slot, IndexAt, Decode, Load, Placed;
    assert LinkInTree(m, tables, s, i);
    if s == table && i == index {
      ZeroedBlocksNothing(m', added, level - 1, w);
    } else if level > target {
      ChildServes(m, tables, s, w);
      var content := Decode(Load(m, s, i), level);
      if content.Link? {
        EntryKeepsBlocked(m, m', root, tables, low, high, table, index, added, content.table, w, target);
      }
    }
  }

  lemma LinkBlocksNothing(
    m: seq<u64>, m': seq<u64>, root: int, tables: Tables, low: int, high: int,
    table: int, v: u64, level: Level, added: u64, leaf: Level)
    requires Tree(m, root, tables, low, high) && leaf < level
    requires table in tables && tables[table] == Node(level, Slot(v, level + 1))
    requires SameBut(m, m', tables, table, IndexAt(v, level))
    requires Decode(Load(m, table, IndexAt(v, level)), level) == Empty
    requires Decode(Load(m', table, IndexAt(v, level)), level) == Link(added) && Zeroed(m', added)
    ensures BlocksKept(m, m', root, v, leaf)
  {
    IndexIsSlot(v, level);
    hide Slot, IndexAt, Decode, Load, Placed, SameBut, LinkInTree, Blocked, Zeroed;
    forall w: u64, target: Level | PagesApart(v, leaf, w, target)
      ensures Blocked(m', root, LEVEL_ROOT, w, target) == Blocked(m, root, LEVEL_ROOT, w, target)
    {
      RootSlot(w);
      EntryKeepsBlocked(m, m', root, tables, low, high, table, IndexAt(v, level), added, root, w, target);
    }
  }

  lemma LeafBlocksItsOwn(
    m: seq<u64>, m': seq<u64>, root: int, tables: Tables, low: int, high: int,
    table: int, v: u64, level: Level)
    requires Tree(m, root, tables, low, high)
    requires table in tables && tables[table] == Node(level, Slot(v, level + 1))
    requires SameBut(m, m', tables, table, IndexAt(v, level))
    requires Decode(Load(m, table, IndexAt(v, level)), level) == Empty
    ensures BlocksKept(m, m', root, v, level)
  {
    IndexIsSlot(v, level);
    hide Slot, IndexAt, Decode, Load, Placed, SameBut, LinkInTree, Blocked, Zeroed;
    forall w: u64, target: Level | PagesApart(v, level, w, target)
      ensures Blocked(m', root, LEVEL_ROOT, w, target) == Blocked(m, root, LEVEL_ROOT, w, target)
    {
      RootSlot(w);
      EntryKeepsBlocked(m, m', root, tables, low, high, table, IndexAt(v, level), 0, root, w, target);
    }
  }

  lemma RootSlot(w: u64)
    ensures Slot(w, LEVEL_ROOT + 1) == 0
  {
  }

  // ----- tables that hold something -----

  /** Some mapped address shares the page at `target` around `w`. */
  ghost predicate Inhabited(m: seq<u64>, root: int, w: u64, target: Level) {
    exists x: u64 :: Slot(x, target) == Slot(w, target) && Walk(m, root, LEVEL_ROOT, x).Some?
  }

  /** No table is empty but for the root: whatever is in the way of a page, something
      is mapped there. */
  ghost predicate Tight(m: seq<u64>, root: int) {
    forall w: u64, target: Level :: Blocked(m, root, LEVEL_ROOT, w, target) ==> Inhabited(m, root, w, target)
  }

  lemma EmptyIsTight(m: seq<u64>, root: int)
    requires Zeroed(m, root)
    ensures Tight(m, root)
  {
    hide Blocked;
    forall w: u64, target: Level
      ensures !Blocked(m, root, LEVEL_ROOT, w, target)
    {
      ZeroedBlocksNothing(m, root, LEVEL_ROOT, w);
    }
  }

  /** A page that is mapped, with whatever tables it took, leaves no table empty. */
  lemma PageKeepsTight(m: seq<u64>, m': seq<u64>, root: int, v: u64, leaf: Level, entry: u64)
    requires Tight(m, root) && BlocksKept(m, m', root, v, leaf) && LeafMapped(m, m', root, leaf, v, entry)
    ensures Tight(m', root)
  {
    hide Slot, Blocked, Walk;
    forall w: u64, target: Level | Blocked(m', root, LEVEL_ROOT, w, target)
      ensures Inhabited(m', root, w, target)
    {
      assert Walk(m', root, LEVEL_ROOT, v).Some?;
      if PagesApart(v, leaf, w, target) {
        assert Inhabited(m, root, w, target);
        var x: u64 :| Slot(x, target) == Slot(w, target) && Walk(m, root, LEVEL_ROOT, x).Some?;
        assert Walk(m', root, LEVEL_ROOT, x).Some?;
      } else if target < leaf {
        assert Walk(m', root, LEVEL_ROOT, w).Some?;
      }
    }
  }

  /** Nothing of a range is mapped. */
  ghost predicate Unmapped(m: seq<u64>, root: int, r: Range) {
    forall w: u64 :: OffsetIn(r.virtual, w) < r.bytes ==> View(m, root, w) == None
  }

  /** In tables that hold something, an unmapped page is not blocked. */
  lemma FreePageIsNotBlocked(m: seq<u64>, root: int, r: Range, done: int, level: Level)
    requires Tight(m, root) && level <= LEVEL_POINTER
    requires 0 <= done < r.bytes && r.virtual + done < U64_LIMIT && r.bytes <= 0x1_0000_0000_0000
    requires PageOffset(r.virtual + done, level) == 0 && done + Span(level) <= r.bytes
    requires forall w: u64 :: done <= OffsetIn(r.virtual, w) < r.bytes ==> View(m, root, w) == None
    ensures !Blocked(m, root, LEVEL_ROOT, r.virtual + done, level)
  {
    hide Slot, Blocked, OffsetIn, PageOffset, Span, Walk;
    forall x: u64 | Slot(x, level) == Slot(r.virtual + done, level)
      ensures Walk(m, root, LEVEL_ROOT, x) == None
    {
      PageServes(r.virtual + done, x, level);
      OffsetShift(r.virtual, done, x);
      OffsetBound(r.virtual, x);
      assert View(m, root, x) == None;
    }
    assert !Inhabited(m, root, r.virtual + done, level);
  }

  lemma OffsetBound(virtual: int, w: int)
    ensures OffsetIn(virtual, w) < 0x1_0000_0000_0000
  {
  }

  // ----- every table is where its node says -----

  /** Every table is the one found on the way to the addresses it serves. */
  ghost predicate Reached(m: seq<u64>, root: int, tables: Tables) {
    forall t, v: u64 :: Serves(tables, t, v) ==> TableAt(m, root, LEVEL_ROOT, v, tables[t].level) == Some(t)
  }

  lemma RootIsReached(m: seq<u64>, root: int)
    ensures Reached(m, root, map[root := Node(LEVEL_ROOT, 0)])
  {
  }

  lemma {:induction false} PathEnds(m: seq<u64>, s: int, level: Level, target: Level, v: u64, table: int)
    requires LEVEL_TABLE < target <= level && TableAt(m, s, level, v, target) == Some(table)
    requires Decode(Load(m, table, IndexAt(v, target)), target) == Empty
    ensures TableAt(m, s, level, v, target - 1) == None
    decreases level
  {
    hide IndexAt, Load;
    if level > target {
      var content := Decode(Load(m, s, IndexAt(v, level)), level);
      PathEnds(m, content.table, level - 1, target, v, table);
    }
  }

  /** A table behind an empty entry is a new one. */
  lemma NodeIsNew(m: seq<u64>, root: int, tables: Tables, table: int, v: u64, level: Level)
    requires Reached(m, root, tables) && level > LEVEL_TABLE
    requires TableAt(m, root, LEVEL_ROOT, v, level) == Some(table)
    requires Decode(Load(m, table, IndexAt(v, level)), level) == Empty
    ensures Node(level - 1, Slot(v, level)) !in tables.Values
  {
    hide Slot, IndexAt, Decode, Load, TableAt;
    PathEnds(m, root, LEVEL_ROOT, level, v, table);
    forall t | t in tables
      ensures tables[t] != Node(level - 1, Slot(v, level))
    {
      assert Serves(tables, t, v) <==> tables[t].prefix == Slot(v, tables[t].level + 1);
    }
  }

  /** Filling an empty entry leads no path astray. */
  lemma EntryKeepsReached(
    m: seq<u64>, m': seq<u64>, root: int, tables: Tables, low: int, high: int, table: int, index: int)
    requires Tree(m, root, tables, low, high) && Reached(m, root, tables)
    requires table in tables && 0 <= index < 512 && SameBut(m, m', tables, table, index)
    requires Decode(Load(m, table, index), tables[table].level) == Empty
    ensures Reached(m', root, tables)
  {
    hide Slot, IndexAt, Decode, Load, TableAt, Placed, SameBut, LinkInTree;
    forall t, v: u64 | Serves(tables, t, v)
      ensures TableAt(m', root, LEVEL_ROOT, v, tables[t].level) == Some(t)
    {
      LinkKeepsPath(m, m', root, tables, low, high, table, index, root, v, tables[t].level, t);
    }
  }

  lemma LinkIsReached(m: seq<u64>, root: int, tables: Tables, v: u64, level: Level, added: int)
    requires Reached(m, root, tables) && added !in tables && level > LEVEL_TABLE
    requires TableAt(m, root, LEVEL_ROOT, v, level - 1) == Some(added)
    ensures Reached(m, root, tables[added := Node(level - 1, Slot(v, level))])
  {
    hide Slot, IndexAt, Decode, Load, TableAt;
    var tables' := tables[added := Node(level - 1, Slot(v, level))];
    forall t, w: u64 | Serves(tables', t, w)
      ensures TableAt(m, root, LEVEL_ROOT, w, tables'[t].level) == Some(t)
    {
      if t == added {
        PathOfSlot(m, root, LEVEL_ROOT, level - 1, v, w);
      } else {
        assert Serves(tables, t, w);
      }
    }
  }

  /** A table on the way to an address, used or not, is in the way of any larger page
      there. */
  lemma {:induction false} TableBlocks(m: seq<u64>, s: int, level: Level, v: u64, below: Level, target: Level)
    requires below < target <= level && TableAt(m, s, level, v, below).Some?
    ensures Blocked(m, s, level, v, target)
    decreases level
  {
    hide IndexAt, Load, Decode;
    var content := Decode(Load(m, s, IndexAt(v, level)), level);
    if level > target {
      TableBlocks(m, content.table, level - 1, v, below, target);
    }
  }

  /** Where nothing is mapped, a table on the way is an empty one. */
  lemma EmptyTableIsLoose(m: seq<u64>, root: int, v: u64, target: Level)
    requires Blocked(m, root, LEVEL_ROOT, v, target) && forall w: u64 :: Walk(m, root, LEVEL_ROOT, w) == None
    ensures !Tight(m, root)
  {
    hide Walk, Blocked, Slot;
    assert !Inhabited(m, root, v, target);
  }
}
