/** The page sizes paging_map chooses use the fewest leaves, and, when both sides
    of the range agree on their place in a 2 MiB page, at most two small tables. */
module PageTiling {
  import opened Words
  import opened PageEntries
  import opened AddressMap

  predicate Supported(huge: bool, size: int) {
    size == 0x1000 || size == 0x20_0000 || (huge && size == 0x4000_0000)
  }

  predicate Aligned(x: int, size: int)
  {
    if size == 0x1000 then x % 0x1000 == 0
    else if size == 0x20_0000 then x % 0x20_0000 == 0
    else x % 0x4000_0000 == 0
  }

  /** Leaves of these sizes, in order, map the range exactly. */
  predicate Tiles(huge: bool, virtual: int, physical: int, bytes: int, sizes: seq<int>)
    decreases |sizes|
  {
    if sizes == [] then bytes == 0
    else
      && Supported(huge, sizes[0]) && sizes[0] <= bytes
      && Aligned(virtual, sizes[0]) && Aligned(physical, sizes[0])
      && Tiles(huge, virtual + sizes[0], physical + sizes[0], bytes - sizes[0], sizes[1..])
  }

  /** The sizes the loop of paging_map goes through. */
  function Chosen(huge: bool, virtual: int, physical: int, bytes: int): (sizes: seq<int>)
    decreases bytes
  {
    if bytes < 0x1000 then []
    else
      var size := PageSizeFor(huge, virtual, physical, bytes);
      [size] + Chosen(huge, virtual + size, physical + size, bytes - size)
  }

  lemma ChosenStep(huge: bool, virtual: int, physical: int, bytes: int)
    requires virtual % 4096 == 0 && physical % 4096 == 0 && bytes % 4096 == 0 && bytes >= 0x1000
    ensures var size := PageSizeFor(huge, virtual, physical, bytes);
      && Supported(huge, size) && size <= bytes && Aligned(virtual, size) && Aligned(physical, size)
      && (virtual + size) % 4096 == 0 && (physical + size) % 4096 == 0 && (bytes - size) % 4096 == 0
  {
  }

  lemma {:induction false} ChosenTiles(huge: bool, virtual: int, physical: int, bytes: int)
    requires virtual % 4096 == 0 && physical % 4096 == 0 && bytes % 4096 == 0 && bytes >= 0
    ensures Tiles(huge, virtual, physical, bytes, Chosen(huge, virtual, physical, bytes))
    decreases bytes
  {
    hide PageSizeFor, Aligned, Supported;
    if bytes >= 0x1000 {
      var size := PageSizeFor(huge, virtual, physical, bytes);
      ChosenStep(huge, virtual, physical, bytes);
      ChosenTiles(huge, virtual + size, physical + size, bytes - size);
    }
  }

  /** No tile crosses the end of an aligned block it starts in: sizes divide one
      another, so a tile either stays inside or is at least as aligned as the block. */
  lemma TileStaysInBlock(v: int, block: int, into: int, size: int)
    requires Supported(true, block) && Supported(true, size)
    requires Aligned(v, block) && 0 <= into < block
    requires into == 0 ==> size <= block
    requires Aligned(v + into, size)
    ensures size <= block - into
  {
    if block == 0x20_0000 && size == 0x1000 {
      BlockSplit(v, 0x20_0000, into, 0x1000, 512);
    } else if block == 0x4000_0000 && size == 0x1000 {
      BlockSplit(v, 0x4000_0000, into, 0x1000, 0x4_0000);
    } else if block == 0x4000_0000 && size == 0x20_0000 {
      BlockSplit(v, 0x4000_0000, into, 0x20_0000, 512);
    } else if block == size {
      BlockSplit(v, block, into, size, 1);
    } else if block == 0x1000 && size == 0x20_0000 {
      BlockInside(v, 0x1000, into, 0x20_0000, 512);
    } else if block == 0x1000 && size == 0x4000_0000 {
      BlockInside(v, 0x1000, into, 0x4000_0000, 0x4_0000);
    } else {
      BlockInside(v, 0x20_0000, into, 0x4000_0000, 512);
    }
  }

  lemma BlockSplit(v: int, block: int, into: int, size: int, count: int)
    requires size > 0 && count > 0 && block == size * count
    requires v % block == 0 && (v + into) % size == 0 && 0 <= into < block
    ensures size <= block - into
  {
    var i, j := v / block, (v + into) / size;
    assert v == block * i && v + into == size * j;
    assert block * i == size * (count * i);
    assert into == size * (j - count * i);
    if j - count * i >= count {
      ScaleMonotone(size, count, j - count * i);
    }
    ScaleStrict(size, j - count * i, count);
  }

  lemma BlockInside(v: int, block: int, into: int, size: int, count: int)
    requires block > 0 && count > 0 && size == block * count
    requires v % block == 0 && (v + into) % size == 0 && 0 <= into < block
    ensures into == 0
  {
    var i, j := v / block, (v + into) / size;
    assert v == block * i && v + into == size * j;
    assert size * j == block * (count * j);
    assert into == block * (count * j - i);
    if count * j - i >= 1 {
      ScaleMonotone(block, 1, count * j - i);
    } else if count * j - i <= -1 {
      ScaleMonotone(block, count * j - i, -1);
    }
  }

  /** Tiles that start inside an aligned block fill it to its end; at least one
      of them is needed unless the block is already full. */
  lemma {:induction false} TilesFillBlock(
    huge: bool, virtual: int, physical: int, bytes: int, block: int, into: int, sizes: seq<int>)
    returns (used: nat)
    requires Supported(huge, block) && Aligned(virtual, block) && Aligned(physical, block)
    requires 0 <= into <= block <= bytes
    requires Tiles(huge, virtual + into, physical + into, bytes - into, sizes)
    requires into == 0 ==> sizes != [] && sizes[0] <= block
    ensures used <= |sizes| && (into < block ==> used >= 1)
    ensures Tiles(huge, virtual + block, physical + block, bytes - block, sizes[used..])
    decreases |sizes|
  {
    if into == block {
      assert sizes[0..] == sizes;
      return 0;
    }
    hide Aligned;
    TileStaysInBlock(virtual, block, into, sizes[0]);
    assert virtual + into + sizes[0] == virtual + (into + sizes[0]);
    assert physical + into + sizes[0] == physical + (into + sizes[0]);
    assert bytes - into - sizes[0] == bytes - (into + sizes[0]);
    var rest := TilesFillBlock(huge, virtual, physical, bytes, block, into + sizes[0], sizes[1..]);
    assert sizes[1..][rest..] == sizes[rest + 1..];
    return rest + 1;
  }

  lemma LargestFirst(huge: bool, virtual: int, physical: int, bytes: int, size: int)
    requires virtual % 4096 == 0 && physical % 4096 == 0 && bytes >= 0x1000
    requires Supported(huge, size) && size <= bytes && Aligned(virtual, size) && Aligned(physical, size)
    ensures var chosen := PageSizeFor(huge, virtual, physical, bytes);
      size <= chosen <= bytes && Supported(huge, chosen) && Aligned(virtual, chosen) && Aligned(physical, chosen)
  {
  }

  /** The greedy choice is optimal: no tiling by supported, aligned pages has
      fewer leaves than the one paging_map makes. */
  lemma {:induction false} FewestLeaves(huge: bool, virtual: int, physical: int, bytes: int, sizes: seq<int>)
    requires virtual % 4096 == 0 && physical % 4096 == 0 && bytes % 4096 == 0 && bytes >= 0
    requires Tiles(huge, virtual, physical, bytes, sizes)
    ensures |Chosen(huge, virtual, physical, bytes)| <= |sizes|
    decreases bytes
  {
    hide PageSizeFor, Aligned, Supported, LevelFor, PageOffset, Span;
    if bytes >= 0x1000 {
      var size := PageSizeFor(huge, virtual, physical, bytes);
      LargestFirst(huge, virtual, physical, bytes, sizes[0]);
      assert virtual + 0 == virtual && physical + 0 == physical && bytes - 0 == bytes;
      var used := TilesFillBlock(huge, virtual, physical, bytes, size, 0, sizes);
      ChosenStep(huge, virtual, physical, bytes);
      FewestLeaves(huge, virtual + size, physical + size, bytes - size, sizes[used..]);
    }
  }

  /** Sum of the first tiles: where tile `i` starts. */
  function StartOf(sizes: seq<int>, i: nat): int
    requires i <= |sizes|
  {
    if i == 0 then 0 else sizes[0] + StartOf(sizes[1..], i - 1)
  }

  /** Offset `k` is served by a leaf of the size chosen for the tile it lies in. */
  lemma {:induction false} LevelAtIsTile(huge: bool, virtual: int, physical: int, bytes: int, i: nat, k: int)
    requires i < |Chosen(huge, virtual, physical, bytes)|
    requires var sizes := Chosen(huge, virtual, physical, bytes);
      StartOf(sizes, i) <= k < StartOf(sizes, i) + sizes[i]
    ensures LevelAt(huge, virtual, physical, bytes, k) == LevelFor(Chosen(huge, virtual, physical, bytes)[i])
    decreases bytes
  {
    hide PageSizeFor, LevelFor;
    var size := PageSizeFor(huge, virtual, physical, bytes);
    var sizes := Chosen(huge, virtual, physical, bytes);
    var rest := Chosen(huge, virtual + size, physical + size, bytes - size);
    assert sizes == [size] + rest && sizes[1..] == rest;
    if i > 0 {
      StartsAscend(huge, virtual + size, physical + size, bytes - size, i - 1);
      LevelAtIsTile(huge, virtual + size, physical + size, bytes - size, i - 1, k - size);
    }
  }

  lemma {:induction false} StartsAscend(huge: bool, virtual: int, physical: int, bytes: int, i: nat)
    requires i <= |Chosen(huge, virtual, physical, bytes)|
    ensures StartOf(Chosen(huge, virtual, physical, bytes), i) >= 0
    decreases bytes
  {
    var size := PageSizeFor(huge, virtual, physical, bytes);
    if i > 0 {
      assert Chosen(huge, virtual, physical, bytes)[1..] == Chosen(huge, virtual + size, physical + size, bytes - size);
      StartsAscend(huge, virtual + size, physical + size, bytes - size, i - 1);
    }
  }

  // ----- small tables -----

  lemma {:induction false} SmallPagesAtEnd(huge: bool, virtual: int, physical: int, bytes: int, k: int)
    requires virtual % 0x20_0000 == 0 && physical % 0x20_0000 == 0 && bytes % 4096 == 0
    requires 0 <= k < bytes && LevelAt(huge, virtual, physical, bytes, k) == LEVEL_TABLE
    ensures (virtual + k) / 0x20_0000 == (virtual + bytes - 1) / 0x20_0000
    decreases bytes
  {
    if bytes >= 0x20_0000 {
      var size := PageSizeFor(huge, virtual, physical, bytes);
      SmallPagesAtEnd(huge, virtual + size, physical + size, bytes - size, k - size);
    }
  }

  lemma SmallSize(huge: bool, virtual: int, physical: int, bytes: int)
    requires virtual % 0x20_0000 != 0
    ensures PageSizeFor(huge, virtual, physical, bytes) == 0x1000
  {
    NotHugeUnlessLarge(virtual);
  }

  lemma BlockStep(v: int, k: int)
    requires v % 4096 == 0
    ensures 0 <= k < 0x1000 ==> (v + k) / 0x20_0000 == v / 0x20_0000
    ensures (v + 0x1000) % 0x20_0000 == if v % 0x20_0000 == 0x1F_F000 then 0 else v % 0x20_0000 + 0x1000
    ensures (v + 0x1000) / 0x20_0000 == v / 0x20_0000 || v % 0x20_0000 == 0x1F_F000
  {
    var block, page := v / 0x20_0000, v % 0x20_0000 / 4096;
    DivisionIs(v, 4096, block * 512 + page, v % 0x20_0000 % 4096);
    assert v == 0x20_0000 * block + 4096 * page;
    if 0 <= k < 0x1000 {
      DivisionIs(v + k, 0x20_0000, block, 4096 * page + k);
    }
    if page == 511 {
      DivisionIs(v + 0x1000, 0x20_0000, block + 1, 0);
    } else {
      DivisionIs(v + 0x1000, 0x20_0000, block, 4096 * page + 0x1000);
    }
  }

  lemma NotHugeUnlessLarge(v: int)
    ensures v % 0x4000_0000 == 0 ==> v % 0x20_0000 == 0
  {
    DivisionIs(v, 0x20_0000, v / 0x4000_0000 * 512 + v % 0x4000_0000 / 0x20_0000, v % 0x4000_0000 % 0x20_0000);
  }

  /** When virtual and physical agree modulo 2 MiB, small pages are only used in
      the 2 MiB the range starts in and the 2 MiB it ends in: two tables at most. */
  lemma {:induction false} SmallPagesAtEnds(huge: bool, virtual: int, physical: int, bytes: int, k: int)
    requires virtual % 4096 == 0 && physical % 4096 == 0 && bytes % 4096 == 0
    requires virtual % 0x20_0000 == physical % 0x20_0000
    requires 0 <= k < bytes && LevelAt(huge, virtual, physical, bytes, k) == LEVEL_TABLE
    ensures (virtual + k) / 0x20_0000 in {virtual / 0x20_0000, (virtual + bytes - 1) / 0x20_0000}
    decreases bytes
  {
    hide PageSizeFor;
    if virtual % 0x20_0000 == 0 {
      SmallPagesAtEnd(huge, virtual, physical, bytes, k);
      return;
    }
    SmallSize(huge, virtual, physical, bytes);
    BlockStep(virtual, k);
    BlockStep(physical, k);
    if k >= 0x1000 {
      assert virtual + 0x1000 + (k - 0x1000) == virtual + k;
      SmallPagesAtEnds(huge, virtual + 0x1000, physical + 0x1000, bytes - 0x1000, k - 0x1000);
      if (virtual + 0x1000) % 0x20_0000 == 0 {
        SmallPagesAtEnd(huge, virtual + 0x1000, physical + 0x1000, bytes - 0x1000, k - 0x1000);
      }
    }
  }
}
