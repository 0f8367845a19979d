/** The block map of ext2 (src/fs/ext2.c): which disk block holds a block of a file,
    through up to three levels of pointers, and reading a file by it. */
module Ext2Blocks {
  import opened Words
  import opened BlockDevices

  const BLOCK_HOLE: u32 := 0

  // ----- paths through the pointers -----

  function Power(p: nat, n: nat): (r: nat)
    ensures p > 0 ==> r > 0
  {
    if n == 0 then 1 else PositiveTimes(p, Power(p, n - 1))
  }

  function PositiveTimes(a: nat, b: nat): (r: nat)
    ensures r == a * b && (a > 0 && b > 0 ==> r > 0)
  {
    if a > 0 && b > 0 then
      ScaleMonotone(a, 1, b);
      a * b
    else if a == 0 then 0 else assert b == 0; 0
  }

  /** A number in base `p`, in so many digits, the greatest first. */
  function Digits(i: nat, p: nat, depth: nat): (digits: seq<nat>)
    requires p > 0
    ensures |digits| == depth
  {
    if depth == 0 then []
    else
      var span := Power(p, depth - 1);
      QuotientIsNat(i, span);
      [i / span] + Digits(i % span, p, depth - 1)
  }

  lemma QuotientIsNat(i: nat, span: nat)
    requires span > 0
    ensures i / span >= 0
    ensures i == span * (i / span) + i % span
  {
    if i / span < 0 {
      ScaleMonotone(span, i / span, -1);
    }
  }

  function Value(digits: seq<nat>, p: nat): nat {
    if digits == [] then 0 else PositiveTimes(Power(p, |digits| - 1), digits[0]) + Value(digits[1..], p)
  }

  /** One of the fifteen pointers of an inode, and where to turn at each level below
      it. */
  datatype Path = Path(slot: nat, turns: seq<nat>)

  predicate ValidPath(p: nat, path: Path) {
    && path.slot < 15
    && |path.turns| == (if path.slot < 12 then 0 else path.slot - 11)
    && forall i :: 0 <= i < |path.turns| ==> path.turns[i] < p
  }

  /** The first block of a file that takes `depth` levels: 12, 12 + p, 12 + p + p^2,
      and past the end 12 + p + p^2 + p^3. */
  function Base(p: nat, depth: nat): (base: nat)
    requires depth >= 1
    ensures base >= 12
  {
    if depth == 1 then 12 else Base(p, depth - 1) + Power(p, depth - 1)
  }

  function PathFrom(p: nat, index: nat, depth: nat): Option<Path>
    requires p > 0 && depth >= 1 && index >= Base(p, depth)
    decreases 4 - depth
  {
    if depth > 3 then None
    else if index < Base(p, depth + 1) then Some(Path(11 + depth, Digits(index - Base(p, depth), p, depth)))
    else PathFrom(p, index, depth + 1)
  }

  function PathOf(p: nat, index: nat): Option<Path>
    requires p > 0
  {
    if index < 12 then Some(Path(index, [])) else PathFrom(p, index, 1)
  }

  /** The block of the file a path belongs to. */
  function IndexOf(p: nat, path: Path): nat
    requires ValidPath(p, path)
  {
    if path.slot < 12 then path.slot else Base(p, path.slot - 11) + Value(path.turns, p)
  }

  lemma PowerIs(p: nat, n: nat)
    requires p > 0
    ensures Power(p, n + 1) == p * Power(p, n) && Power(p, n) > 0
  {
  }

  lemma PowerZero(p: nat)
    ensures Power(p, 0) == 1
  {
  }

  lemma FirstDigit(value: nat, span: nat, first: nat, rest: nat, p: nat)
    requires value == span * first + rest && rest < span && first < p
    ensures value / span == first && value % span == rest && value < p * span
  {
    DivisionIs(value, span, first, rest);
    ScaleStrict(span, first, p);
  }

  lemma RestOfDigits(value: nat, span: nat, p: nat)
    requires span > 0 && value < p * span
    ensures 0 <= value / span < p && 0 <= value % span < span && value == span * (value / span) + value % span
  {
    QuotientIsNat(value, span);
    if value / span >= p {
      ScaleMonotone(span, p, value / span);
    }
  }

  lemma {:induction false} DigitsAreBelow(i: nat, p: nat, depth: nat)
    requires p > 0 && i < Power(p, depth)
    ensures forall d <- Digits(i, p, depth) :: d < p
    ensures Value(Digits(i, p, depth), p) == i
  {
    if depth > 0 {
      var span := Power(p, depth - 1);
      PowerIs(p, depth - 1);
      RestOfDigits(i, span, p);
      DigitsAreBelow(i % span, p, depth - 1);
      assert Digits(i, p, depth)[1..] == Digits(i % span, p, depth - 1);
    }
  }

  lemma {:induction false} ValueIsBelow(digits: seq<nat>, p: nat)
    requires p > 0 && forall d <- digits :: d < p
    ensures Value(digits, p) < Power(p, |digits|)
    ensures Digits(Value(digits, p), p, |digits|) == digits
  {
    if digits != [] {
      var span := Power(p, |digits| - 1);
      assert digits[0] in digits && forall d <- digits[1..] :: d in digits;
      ValueIsBelow(digits[1..], p);
      PowerIs(p, |digits| - 1);
      FirstDigit(Value(digits, p), span, digits[0], Value(digits[1..], p), p);
    }
  }

  /** How many levels a block needs. */
  lemma LevelOf(p: nat, index: nat, depth: nat)
    requires p > 0 && 1 <= depth <= 3 && Base(p, depth) <= index < Base(p, depth + 1)
    ensures PathOf(p, index) == Some(Path(11 + depth, Digits(index - Base(p, depth), p, depth)))
    ensures index - Base(p, depth) < Power(p, depth)
  {
    hide Digits, Power;
    assert Base(p, 1) == 12;
    assert Base(p, 2) == 12 + Power(p, 1);
    assert Base(p, 3) == Base(p, 2) + Power(p, 2);
    assert Base(p, 4) == Base(p, 3) + Power(p, 3);
    assert depth > 1 ==> PathFrom(p, index, 1) == PathFrom(p, index, 2);
    assert depth > 2 ==> PathFrom(p, index, 2) == PathFrom(p, index, 3);
  }

  lemma TooFar(p: nat, index: nat)
    requires p > 0 && index >= Base(p, 4)
    ensures PathOf(p, index).None?
  {
    hide Digits, Power;
    assert Base(p, 1) == 12;
    assert Base(p, 2) == 12 + Power(p, 1);
    assert Base(p, 3) == Base(p, 2) + Power(p, 2);
    assert Base(p, 4) == Base(p, 3) + Power(p, 3);
    assert PathFrom(p, index, 1) == PathFrom(p, index, 2) == PathFrom(p, index, 3) == PathFrom(p, index, 4) == None;
  }

  /** Every block below 12 + p + p^2 + p^3 has a path, its own, and no other has. */
  lemma IndexHasPath(p: nat, index: nat)
    requires p > 0
    ensures PathOf(p, index).Some? <==> index < Base(p, 4)
    ensures PathOf(p, index).Some? ==>
      ValidPath(p, PathOf(p, index).value) && IndexOf(p, PathOf(p, index).value) == index
  {
    hide Digits, Power, Value, Base, PathFrom;
    BaseIs(p);
    if 12 <= index < Base(p, 4) {
      var depth := if index < Base(p, 2) then 1 else if index < Base(p, 3) then 2 else 3;
      LevelOf(p, index, depth);
      var turns := Digits(index - Base(p, depth), p, depth);
      DigitsAreBelow(index - Base(p, depth), p, depth);
      assert forall i :: 0 <= i < |turns| ==> turns[i] in turns;
    } else if index >= Base(p, 4) {
      TooFar(p, index);
    }
  }

  lemma BaseIs(p: nat)
    requires p > 0
    ensures Base(p, 1) == 12 && 12 < Base(p, 2) < Base(p, 3) < Base(p, 4)
    ensures forall depth :: 1 <= depth <= 3 ==> Base(p, depth + 1) == Base(p, depth) + Power(p, depth)
  {
    hide Power;
    assert Base(p, 2) == 12 + Power(p, 1);
    assert Base(p, 3) == Base(p, 2) + Power(p, 2);
    assert Base(p, 4) == Base(p, 3) + Power(p, 3);
  }

  /** And every path belongs to one block. */
  lemma PathHasIndex(p: nat, path: Path)
    requires p > 0 && ValidPath(p, path)
    ensures IndexOf(p, path) < Base(p, 4) && PathOf(p, IndexOf(p, path)) == Some(path)
  {
    hide Digits, Power, Value, Base, PathFrom;
    BaseIs(p);
    if path.slot >= 12 {
      var depth := path.slot - 11;
      ValueIsBelow(path.turns, p);
      assert Base(p, depth + 1) == Base(p, depth) + Power(p, depth);
      LevelOf(p, IndexOf(p, path), depth);
    }
  }

  lemma CapacityIs(p: nat)
    requires p > 0
    ensures Base(p, 4) == 12 + p + p * p + p * p * p
  {
    hide Base;
    BaseIs(p);
    PowerIs(p, 0);
    PowerIs(p, 1);
    PowerIs(p, 2);
    assert Base(p, 1 + 1) == 12 + Power(p, 1);
    assert Base(p, 2 + 1) == Base(p, 2) + Power(p, 2);
    assert Base(p, 3 + 1) == Base(p, 3) + Power(p, 3);
    assert Power(p, 3) == p * (p * p);
    assert p * (p * p) == p * p * p;
  }

  // ----- what the pointers on a disk say -----

  datatype Geometry = Geometry(blockBytes: nat, pointers: nat, blockCount: u32)
  {
    /** What mounting establishes of the sizes. */
    predicate Sound() {
      256 <= pointers <= 16384 && blockBytes == 4 * pointers
    }

    /** A block that may be read: not a hole, and on the volume. */
    predicate Usable(block: u32) { 0 < block < blockCount }

    function Offset(block: nat): nat { PositiveTimes(block, blockBytes) }
  }

  ghost function Pointer(d: BlockDevice, g: Geometry, block: u32, k: nat): Option<u32>
    requires d.Valid()
  {
    if g.Usable(block) then Word32(d, g.Offset(block) + 4 * k) else None
  }

  /** Following the turns of a path; a hole on the way is a hole. */
  ghost function Follow(d: BlockDevice, g: Geometry, block: u32, turns: seq<nat>): Option<u32>
    requires d.Valid()
    decreases |turns|
  {
    if turns == [] then Some(block)
    else if block == BLOCK_HOLE then Some(BLOCK_HOLE)
    else
      var next := Pointer(d, g, block, turns[0]);
      if next.None? then None else Follow(d, g, next.value, turns[1..])
  }

  type Blocks = b: seq<u32> | |b| == 15 witness seq(15, _ => 0)

  ghost function Resolved(d: BlockDevice, g: Geometry, blocks: Blocks, index: nat): Option<u32>
    requires d.Valid() && g.Sound()
  {
    IndexHasPath(g.pointers, index);
    var path := PathOf(g.pointers, index);
    if path.None? then None else Follow(d, g, blocks[path.value.slot], path.value.turns)
  }

  function IndexAt(g: Geometry, position: nat): nat
    requires g.Sound()
  {
    QuotientIsNat(position, g.blockBytes);
    position / g.blockBytes
  }

  /** The byte of a file at a position: zero in a hole. */
  ghost function FileByte(d: BlockDevice, g: Geometry, blocks: Blocks, position: nat): Option<u8>
    requires d.Valid() && g.Sound()
  {
    var block := Resolved(d, g, blocks, IndexAt(g, position));
    if block.None? then None
    else if block.value == BLOCK_HOLE then Some(0)
    else if g.Usable(block.value) then d.Byte(g.Offset(block.value) + position % g.blockBytes)
    else None
  }

  /** A device that does not fail, with all of the volume on it. */
  ghost predicate Whole(d: BlockDevice, g: Geometry)
    requires d.Valid()
  {
    && d.disk.Reliable() && d.Readable(0, g.Offset(g.blockCount))
    && g.blockBytes % d.sectorBytes == 0
    && (d.sectorCount != 0 ==> g.Offset(g.blockCount) <= d.Span(d.sectorCount))
  }

  lemma BlockIsInVolume(g: Geometry, block: u32)
    requires g.Sound() && g.Usable(block)
    ensures g.Offset(block) + g.blockBytes <= g.Offset(g.blockCount) == g.blockBytes * g.blockCount < 0x2_0000_0000_0000
  {
    ScaleStrict(g.blockBytes, block, g.blockCount);
    ScaleMonotone(g.blockBytes, g.blockCount, 0x1_0000_0000);
  }

  /** Any part of a block can be read from such a device. */
  lemma BlockIsThere(d: BlockDevice, g: Geometry, block: u32, into: nat, length: nat)
    requires d.Valid() && g.Sound() && g.Usable(block) && length > 0 && into + length <= g.blockBytes
    ensures g.Offset(block) + into + length < U64_LIMIT
    ensures Whole(d, g) ==> d.disk.Reliable() && d.RangeReadable(g.Offset(block) + into, length)
  {
    hide BlockDevice.Byte, BlockDevice.Span, BlockDevice.SectorOf, BlockDevice.SectorsOf;
    BlockIsInVolume(g, block);
    var bytes, total := g.blockBytes, g.Offset(g.blockCount);
    if Whole(d, g) {
      var offset := g.Offset(block) + into;
      SectorsEndInside(d, bytes, g.blockCount, offset, length);
      var first, n := d.SectorOf(offset), d.SectorsOf(offset, length);
      d.PartReadable(0, total, d.Span(first), d.Span(n));
    }
  }

  /** Where blocks are whole sectors, the sectors of a range of blocks end with it. */
  lemma SectorsEndInside(d: BlockDevice, bytes: nat, count: nat, offset: nat, length: nat)
    requires d.Valid() && bytes % d.sectorBytes == 0 && length > 0 && offset + length <= bytes * count
    ensures var first, n := d.SectorOf(offset), d.SectorsOf(offset, length);
      0 <= d.Span(first) && d.Span(first) + d.Span(n) <= bytes * count
  {
    hide BlockDevice.Span, BlockDevice.SectorOf;
    var sb, first, last := d.sectorBytes, d.SectorOf(offset), d.SectorOf(offset + length - 1);
    d.SplitOffset(offset);
    d.SplitOffset(offset + length - 1);
    d.SpanOrder(0, first);
    d.SpanSum(first, last - first + 1);
    d.SpanSum(last, 1);
    SectorsInBlocks(d, bytes, count);
    var sectors := (bytes / sb) * count;
    d.SpanOrder(last + 1, sectors);
    d.SpanOrder(sectors, last);
  }

  lemma SectorsInBlocks(d: BlockDevice, bytes: nat, count: nat)
    requires d.Valid() && bytes % d.sectorBytes == 0
    ensures bytes * count == d.Span((bytes / d.sectorBytes) * count)
  {
    var per := bytes / d.sectorBytes;
    assert bytes == per * d.sectorBytes;
    assert (per * d.sectorBytes) * count == (per * count) * d.sectorBytes;
  }

  // ----- as the code does it -----

  method ReadPointer(d: BlockDevice, g: Geometry, block: u32, within: nat) returns (ok: bool, pointer: u32)
    requires d.Valid() && g.Sound() && within < g.pointers
    modifies d.disk`served, d.disk`touched, d.bounce
    ensures ok ==> Pointer(d, g, block, within) == Some(pointer)
    ensures Whole(d, g) && g.Usable(block) ==> ok
  {
    hide BlockDevice.Byte, BlockDevice.RangeReadable, Whole;
    ok, pointer := false, 0;
    if !g.Usable(block) {
      return;
    }
    BlockIsThere(d, g, block, 4 * within, 4);
    var raw := new u8[4](_ => 0);
    var offset := g.Offset(block) + within * 4;
    ok := d.ReadBytes(offset, 4, raw, 0);
    if ok {
      pointer := U32At(raw[..], 0);
      WordWasRead(d, offset, raw);
    }
  }

  lemma WordWasRead(d: BlockDevice, offset: nat, raw: array<u8>)
    requires d.Valid() && raw.Length == 4 && d.HoldsAt(raw, 0, offset, 4)
    ensures Word32(d, offset) == Some(U32At(raw[..], 0))
  {
    assert d.Byte(offset + (0 - 0)) == Some(raw[0]) && d.Byte(offset + (1 - 0)) == Some(raw[1]);
    assert d.Byte(offset + (2 - 0)) == Some(raw[2]) && d.Byte(offset + (3 - 0)) == Some(raw[3]);
  }

  /** Spans stay far below 2^64: the checked product never fails. */
  lemma SpanFits(p: nat, depth: nat)
    requires 1 <= p <= 16384 && depth <= 4
    ensures Power(p, depth) <= Power(16384, depth) < U64_LIMIT
  {
    assert Power(16384, 4) == 0x100_0000_0000_0000;
    if depth > 0 {
      SpanFits(p, depth - 1);
      ScaleMonotone(p, Power(p, depth - 1), Power(16384, depth - 1));
      ScaleMonotone(Power(16384, depth - 1), p, 16384);
    }
  }

  /** The depth is worked out first, then followed. */
  method ResolveBlock(d: BlockDevice, g: Geometry, blocks: Blocks, index: u64) returns (ok: bool, block: u32)
    requires d.Valid() && g.Sound()
    modifies d.disk`served, d.disk`touched, d.bounce
    ensures ok ==> Resolved(d, g, blocks, index) == Some(block)
    ensures Whole(d, g) && Resolved(d, g, blocks, index).Some? ==> ok
  {
    hide Whole, Pointer, Digits, Power, BlockDevice.Valid;
    if index < 12 {
      return true, blocks[index];
    }
    var rest := index - 12;
    var span, depth, slot := g.pointers, 1, 12;
    PowerIs(g.pointers, 0);
    assert Power(g.pointers, 0) == 1 by { PowerZero(g.pointers); }
    while depth <= 3
      invariant 1 <= depth <= 4 && slot == 11 + depth && span == Power(g.pointers, depth)
      invariant index >= Base(g.pointers, depth) && rest == index - Base(g.pointers, depth)
      invariant PathOf(g.pointers, index) == PathFrom(g.pointers, index, depth)
    {
      if rest < span {
        break;
      }
      rest := rest - span;
      SpanFits(g.pointers, depth + 1);
      PowerIs(g.pointers, depth);
      assert span * g.pointers < U64_LIMIT;
      span := span * g.pointers;
      depth := depth + 1;
      slot := slot + 1;
    }
    if depth > 3 {
      return false, 0;
    }
    assert PathOf(g.pointers, index) == Some(Path(slot, Digits(rest, g.pointers, depth)));
    ok, block := FollowDown(d, g, blocks[slot], rest, span, depth);
  }

  method FollowDown(
    d: BlockDevice, g: Geometry, start: u32, index: nat, whole: nat, levels: nat) returns (ok: bool, block: u32)
    requires d.Valid() && g.Sound() && whole == Power(g.pointers, levels) && index < whole
    modifies d.disk`served, d.disk`touched, d.bounce
    ensures ok ==> Follow(d, g, start, Digits(index, g.pointers, levels)) == Some(block)
    ensures Whole(d, g) && Follow(d, g, start, Digits(index, g.pointers, levels)).Some? ==> ok
  {
    hide Whole, Pointer, BlockDevice.Valid, Digits, Power;
    block := start;
    var rest, span, depth := index, whole, levels;
    while depth > 0
      invariant 0 <= depth && span == Power(g.pointers, depth) && 0 <= rest < span
      invariant Follow(d, g, block, Digits(rest, g.pointers, depth)) ==
        Follow(d, g, start, Digits(index, g.pointers, levels))
      decreases depth
    {
      if block == BLOCK_HOLE {
        return true, BLOCK_HOLE;
      }
      NextSpan(g.pointers, depth, rest);
      span := span / g.pointers;
      var within := rest / span;
      ghost var turns := Digits(rest, g.pointers, depth);
      rest := rest % span;
      assert turns[0] == within && turns[1..] == Digits(rest, g.pointers, depth - 1);
      var next;
      ok, next := ReadPointer(d, g, block, within);
      if !ok {
        PointerNeedsBlock(d, g, block, within);
        return false, 0;
      }
      block := next;
      depth := depth - 1;
    }
    return true, block;
  }

  lemma PointerNeedsBlock(d: BlockDevice, g: Geometry, block: u32, k: nat)
    requires d.Valid()
    ensures Pointer(d, g, block, k).Some? ==> g.Usable(block)
  {
  }

  lemma NextSpan(p: nat, depth: nat, rest: nat)
    requires p > 0 && depth > 0 && rest < Power(p, depth)
    ensures var span := Power(p, depth - 1);
      && span > 0 && Power(p, depth) / p == span
      && 0 <= rest / span < p && 0 <= rest % span < span
      && Digits(rest, p, depth) == [rest / span] + Digits(rest % span, p, depth - 1)
  {
    var span := Power(p, depth - 1);
    PowerIs(p, depth - 1);
    DivisionIs(Power(p, depth), p, span, 0);
    RestOfDigits(rest, span, p);
  }

  // ----- reading -----

  /** Positions inside one block. */
  lemma SameBlock(g: Geometry, position: nat, i: nat)
    requires g.Sound() && position % g.blockBytes + i < g.blockBytes
    ensures IndexAt(g, position + i) == IndexAt(g, position)
    ensures (position + i) % g.blockBytes == position % g.blockBytes + i
  {
    QuotientIsNat(position, g.blockBytes);
    DivisionIs(position + i, g.blockBytes, IndexAt(g, position), position % g.blockBytes + i);
  }

  ghost predicate HoldsFile(
    d: BlockDevice, g: Geometry, blocks: Blocks, offset: nat, length: nat, out: array<u8>, at: nat)
    requires d.Valid() && g.Sound() && at + length <= out.Length
    reads out
  {
    forall k {:trigger out[k]} :: at <= k < at + length ==> FileByte(d, g, blocks, offset + (k - at)) == Some(out[k])
  }

  ghost predicate AllThere(d: BlockDevice, g: Geometry, blocks: Blocks, offset: nat, length: nat)
    requires d.Valid() && g.Sound()
  {
    forall o {:trigger FileByte(d, g, blocks, o)} :: offset <= o < offset + length ==> FileByte(d, g, blocks, o).Some?
  }

  /** What the byte at a position comes to, once its block is known. */
  lemma ByteOfBlock(d: BlockDevice, g: Geometry, blocks: Blocks, position: nat, i: nat, block: u32)
    requires d.Valid() && g.Sound() && position % g.blockBytes + i < g.blockBytes
    requires Resolved(d, g, blocks, IndexAt(g, position)) == Some(block)
    ensures FileByte(d, g, blocks, position + i) ==
      if block == BLOCK_HOLE then Some(0)
      else if g.Usable(block) then d.Byte(g.Offset(block) + position % g.blockBytes + i) else None
  {
    hide Resolved, IndexAt;
    SameBlock(g, position, i);
  }

  /** The part of one block. */
  method ReadPiece(
    d: BlockDevice, g: Geometry, blocks: Blocks, position: u64, take: nat, out: array<u8>, at: nat) returns (ok: bool)
    requires d.Valid() && g.Sound() && out != d.bounce && at + take <= out.Length
    requires take > 0 && position % g.blockBytes + take <= g.blockBytes
    modifies d.disk`served, d.disk`touched, d.bounce, out
    ensures ok ==> HoldsFile(d, g, blocks, position, take, out, at)
    ensures Whole(d, g) && FileByte(d, g, blocks, position).Some? ==> ok
    ensures forall k :: 0 <= k < out.Length && !(at <= k < at + take) ==> out[k] == old(out[k])
  {
    hide Whole, Resolved, BlockDevice.Valid, BlockDevice.RangeReadable, BlockDevice.Byte;
    hide BlockDevice.Origin, SectorsFrom;
    var block;
    ok, block := ResolveBlock(d, g, blocks, IndexAt(g, position));
    if !ok {
      return;
    }
    ByteOfBlock(d, g, blocks, position, 0, block);
    if block == BLOCK_HOLE {
      for i := 0 to take
        invariant forall k :: at <= k < at + i ==> out[k] == 0
        invariant forall k :: 0 <= k < out.Length && !(at <= k < at + take) ==> out[k] == old(out[k])
      {
        out[at + i] := 0;
      }
    } else {
      if !g.Usable(block) {
        return false;
      }
      BlockIsThere(d, g, block, position % g.blockBytes, take);
      ok := d.ReadBytes(g.Offset(block) + position % g.blockBytes, take, out, at);
      if !ok {
        return;
      }
    }
    forall k {:trigger out[k]} | at <= k < at + take
      ensures FileByte(d, g, blocks, position + (k - at)) == Some(out[k])
    {
      ByteOfBlock(d, g, blocks, position, k - at, block);
    }
  }

  /** Any part of a file, block by block: the bytes the pointers define, zeros for
      holes; on a device that does not fail it works exactly when all of them are
      defined. */
  method ReadBlocks(
    d: BlockDevice, g: Geometry, blocks: Blocks, offset: nat, length: nat, out: array<u8>, at: nat) returns (ok: bool)
    requires d.Valid() && g.Sound() && out != d.bounce && at + length <= out.Length && offset + length < U64_LIMIT
    modifies d.disk`served, d.disk`touched, d.bounce, out
    ensures ok ==> HoldsFile(d, g, blocks, offset, length, out, at)
    ensures Whole(d, g) ==> (ok <==> AllThere(d, g, blocks, offset, length))
    ensures forall k :: 0 <= k < out.Length && !(at <= k < at + length) ==> out[k] == old(out[k])
  {
    hide Whole, FileByte, BlockDevice.Valid;
    var done := 0;
    while done < length
      invariant 0 <= done <= length && HoldsFile(d, g, blocks, offset, done, out, at)
      invariant forall k :: 0 <= k < out.Length && !(at <= k < at + length) ==> out[k] == old(out[k])
    {
      var into := (offset + done) % g.blockBytes;
      var available := g.blockBytes - into;
      var take := if available < length - done then available else length - done;
      ghost var before := out[..];
      var got := ReadPiece(d, g, blocks, offset + done, take, out, at + done);
      if !got {
        return false;
      }
      Joined(d, g, blocks, offset, done, take, out, at, before);
      done := done + take;
    }
    AllHeld(d, g, blocks, offset, length, out, at);
    return true;
  }

  lemma Joined(
    d: BlockDevice, g: Geometry, blocks: Blocks, offset: nat, done: nat, take: nat, out: array<u8>, at: nat,
    before: seq<u8>)
    requires d.Valid() && g.Sound() && at + done + take <= out.Length == |before|
    requires forall k :: at <= k < at + done ==> FileByte(d, g, blocks, offset + (k - at)) == Some(before[k])
    requires forall k :: at <= k < at + done ==> before[k] == out[k]
    requires HoldsFile(d, g, blocks, offset + done, take, out, at + done)
    ensures HoldsFile(d, g, blocks, offset, done + take, out, at)
  {
    hide FileByte;
    forall k {:trigger out[k]} | at <= k < at + (done + take)
      ensures FileByte(d, g, blocks, offset + (k - at)) == Some(out[k])
    {
      if k >= at + done {
        assert offset + done + (k - (at + done)) == offset + (k - at);
      }
    }
  }

  lemma AllHeld(d: BlockDevice, g: Geometry, blocks: Blocks, offset: nat, length: nat, out: array<u8>, at: nat)
    requires d.Valid() && g.Sound() && at + length <= out.Length
    requires HoldsFile(d, g, blocks, offset, length, out, at)
    ensures AllThere(d, g, blocks, offset, length)
  {
    hide FileByte;
    forall o {:trigger FileByte(d, g, blocks, o)} | offset <= o < offset + length
      ensures FileByte(d, g, blocks, o).Some?
    {
      assert FileByte(d, g, blocks, offset + (at + (o - offset) - at)) == Some(out[at + (o - offset)]);
    }
  }

  /** An open file. */
  class Ext2File {
    const device: BlockDevice
    const g: Geometry
    const size: u64
    const directory: bool
    const blocks: Blocks

    constructor (device: BlockDevice, g: Geometry, size: u64, directory: bool, blocks: Blocks)
      ensures this.device == device && this.g == g && this.size == size
      ensures this.directory == directory && this.blocks == blocks
    {
      this.device, this.g, this.size, this.directory, this.blocks := device, g, size, directory, blocks;
    }

    method Read(offset: u64, length: nat, out: array<u8>) returns (ok: bool)
      requires device.Valid() && g.Sound() && out != device.bounce && length <= out.Length
      modifies device.disk`served, device.disk`touched, device.bounce, out
      ensures ok ==> !directory && (length > 0 ==> offset + length <= size)
      ensures ok ==> HoldsFile(device, g, blocks, offset, length, out, 0)
      ensures Whole(device, g) ==>
        (ok <==> !directory && (length > 0 ==> offset + length <= size && AllThere(device, g, blocks, offset, length)))
      ensures forall k :: length <= k < out.Length ==> out[k] == old(out[k])
    {
      hide Whole, FileByte, BlockDevice.Valid;
      if directory {
        return false;
      }
      if length == 0 {
        return true;
      }
      if offset + length >= U64_LIMIT || offset + length > size {
        return false;
      }
      ok := ReadBlocks(device, g, blocks, offset, length, out, 0);
    }
  }
}
