/** A linear framebuffer (src/video/framebuffer.c): where pixels are, and the ways of
    changing them. */
module Framebuffers {
  import opened Words

  /** So many of the low bytes of a colour. */
  function Kept(colour: u32, bytes: int): u32 {
    if bytes == 2 then colour % 0x1_0000 else if bytes == 3 then colour % 0x100_0000 else colour
  }

  /** `(uint8_t)(colour >> (index * 8))` */
  function ByteOf(colour: u32, index: int): u8 {
    if index == 0 then colour % 0x100
    else if index == 1 then colour / 0x100 % 0x100
    else if index == 2 then colour / 0x1_0000 % 0x100
    else colour / 0x100_0000
  }

  /** The colour in the bytes at a place. */
  function ColourIn(s: seq<u8>, at: int, bytes: int): (colour: u32)
    requires 2 <= bytes <= 4 && 0 <= at && at + bytes <= |s|
  {
    s[at] as int + 0x100 * (s[at + 1] as int)
      + (if bytes > 2 then 0x1_0000 * (s[at + 2] as int) else 0)
      + (if bytes > 3 then 0x100_0000 * (s[at + 3] as int) else 0)
  }

  /** What a byte of a pixel counts for. */
  function Weight(index: int): int {
    if index == 0 then 1 else if index == 1 then 0x100 else if index == 2 then 0x1_0000 else 0x100_0000
  }

  /** The colour of the first `n` bytes. */
  function PartOf(s: seq<u8>, at: int, n: nat): (colour: int)
    requires 0 <= at && at + n <= |s| && n <= 4
    ensures 0 <= colour < (if n == 0 then 1 else if n == 4 then U32_LIMIT else Weight(n))
  {
    if n == 0 then 0 else PartOf(s, at, n - 1) + s[at + n - 1] * Weight(n - 1)
  }

  lemma PartIsColour(s: seq<u8>, at: int, bytes: int)
    requires 2 <= bytes <= 4 && 0 <= at && at + bytes <= |s|
    ensures PartOf(s, at, bytes) == ColourIn(s, at, bytes)
  {
    assert PartOf(s, at, 2) == s[at] as int + 0x100 * (s[at + 1] as int);
  }

  /** The bytes of a colour, as far as they have been written. */
  ghost predicate ColourWritten(s: seq<u8>, at: int, n: int, colour: u32)
    requires 0 <= at && at + n <= |s|
  {
    forall k :: at <= k < at + n ==> s[k] == ByteOf(colour, k - at)
  }

  lemma ColourComesBack(s: seq<u8>, at: int, bytes: int, colour: u32)
    requires 2 <= bytes <= 4 && 0 <= at && at + bytes <= |s| && ColourWritten(s, at, bytes, colour)
    ensures ColourIn(s, at, bytes) == Kept(colour, bytes)
  {
    BytesOfColour(colour);
  }

  lemma BytesOfColour(colour: u32)
    ensures colour % 0x1_0000 == ByteOf(colour, 0) as int + 0x100 * (ByteOf(colour, 1) as int)
    ensures colour % 0x100_0000 == colour % 0x1_0000 as int + 0x1_0000 * (ByteOf(colour, 2) as int)
    ensures colour == colour % 0x100_0000 as int + 0x100_0000 * (ByteOf(colour, 3) as int)
  {
    var q1, q2 := colour / 0x100, colour / 0x1_0000;
    DivisionIs(colour, 0x1_0000, q1 / 0x100, 0x100 * (q1 % 0x100) + colour % 0x100);
    DivisionIs(colour, 0x100_0000, q2 / 0x100, 0x1_0000 * (q2 % 0x100) + colour % 0x1_0000);
  }

  lemma SameColour(s: seq<u8>, at: int, t: seq<u8>, at': int, bytes: int)
    requires 2 <= bytes <= 4 && 0 <= at && at + bytes <= |s| && 0 <= at' && at' + bytes <= |t|
    requires s[at..at + bytes] == t[at'..at' + bytes]
    ensures ColourIn(s, at, bytes) == ColourIn(t, at', bytes)
  {
    var a, b := s[at..at + bytes], t[at'..at' + bytes];
    assert a[0] == b[0] && a[1] == b[1];
    assert bytes > 2 ==> a[2] == b[2];
    assert bytes > 3 ==> a[3] == b[3];
  }

  /** The sizes of a picture in memory. Rows may be padded: `pitch` is the distance
      from one to the next. */
  datatype Layout = Layout(width: u32, height: u32, pitch: u32, bitsPerPixel: u32)
  {
    function Bytes(): int { (bitsPerPixel + 7) / 8 }

    function RowBytes(): int { width * Bytes() }

    function RowStart(y: int): int { y * pitch }

    function At(x: int, y: int): int { RowStart(y) + x * Bytes() }

    function Size(): int { RowStart(height) }

    /** What framebuffer_valid checks of the sizes. */
    predicate Sound() {
      && 0 < width <= 16384 && 0 < height <= 16384 && 15 <= bitsPerPixel <= 32 && RowBytes() <= pitch
    }

    predicate Inside(x: int, y: int) { 0 <= x < width && 0 <= y < height }

    predicate InRow(k: int, y: int) { RowStart(y) <= k < RowStart(y) + RowBytes() }

    /** A byte that belongs to no pixel. */
    ghost predicate IsPadding(k: int) {
      forall y :: 0 <= y < height ==> !InRow(k, y)
    }
  }

  /** Where a pixel is: inside its row, and the row inside the memory. */
  lemma PixelIsThere(l: Layout, x: int, y: int)
    requires l.Sound() && l.Inside(x, y)
    ensures 2 <= l.Bytes() <= 4
    ensures 0 <= l.RowStart(y) <= l.At(x, y) && l.At(x, y) + l.Bytes() <= l.RowStart(y) + l.RowBytes() <= l.Size()
  {
    ScaleMonotone(l.pitch, 0, y);
    ScaleStrict(l.pitch, y, l.height);
    ScaleMonotone(l.Bytes(), 0, x);
    ScaleStrict(l.Bytes(), x, l.width);
  }

  lemma RowIsThere(l: Layout, y: int)
    requires l.Sound() && 0 <= y < l.height
    ensures 0 <= l.RowStart(y) && l.RowStart(y) + l.RowBytes() <= l.Size() && l.RowBytes() >= 0
  {
    ScaleMonotone(l.pitch, 0, y);
    ScaleStrict(l.pitch, y, l.height);
    ScaleMonotone(l.Bytes(), 0, l.width);
  }

  lemma RowsApart(l: Layout, a: int, b: int)
    requires l.Sound() && 0 <= a < b < l.height
    ensures l.RowStart(a) + l.RowBytes() <= l.RowStart(b)
  {
    ScaleStrict(l.pitch, a, b);
  }

  /** No two pixels share a byte. */
  lemma PixelsApart(l: Layout, x: int, y: int, x': int, y': int)
    requires l.Sound() && l.Inside(x, y) && l.Inside(x', y') && (x != x' || y != y')
    ensures l.At(x, y) + l.Bytes() <= l.At(x', y') || l.At(x', y') + l.Bytes() <= l.At(x, y)
  {
    if y == y' {
      if x < x' {
        ScaleStrict(l.Bytes(), x, x');
      } else {
        ScaleStrict(l.Bytes(), x', x);
      }
    } else {
      RowsPixelsApart(l, x, y, x', y');
    }
  }

  lemma RowsPixelsApart(l: Layout, x: int, y: int, x': int, y': int)
    requires l.Sound() && l.Inside(x, y) && l.Inside(x', y') && y != y'
    ensures l.At(x, y) + l.Bytes() <= l.At(x', y') || l.At(x', y') + l.Bytes() <= l.At(x, y)
  {
    hide Layout.At, Layout.RowStart, Layout.RowBytes, Layout.Sound;
    PixelIsThere(l, x, y);
    PixelIsThere(l, x', y');
    if y < y' {
      RowsApart(l, y, y');
    } else {
      RowsApart(l, y', y);
    }
  }

  /** Memory that holds a picture. */
  ghost predicate Fits(l: Layout, s: seq<u8>) { l.Sound() && l.Size() <= |s| }

  ghost function PixelOf(l: Layout, s: seq<u8>, x: int, y: int): u32
    requires Fits(l, s) && l.Inside(x, y)
  {
    PixelIsThere(l, x, y);
    ColourIn(s, l.At(x, y), l.Bytes())
  }

  /** Bytes that belong to no pixel are the same. */
  ghost predicate PaddingKept(l: Layout, s: seq<u8>, t: seq<u8>) {
    |s| == |t| && forall k :: 0 <= k < |s| && l.IsPadding(k) ==> t[k] == s[k]
  }

  /** One pixel written, and nothing else. */
  ghost predicate PixelSet(l: Layout, s: seq<u8>, t: seq<u8>, x: int, y: int, colour: u32)
    requires Fits(l, s) && Fits(l, t) && l.Inside(x, y)
  {
    && PixelOf(l, t, x, y) == Kept(colour, l.Bytes())
    && (forall x', y' :: l.Inside(x', y') && (x' != x || y' != y) ==> PixelOf(l, t, x', y') == PixelOf(l, s, x', y'))
    && PaddingKept(l, s, t)
  }

  lemma PixelKept(l: Layout, s: seq<u8>, t: seq<u8>, x: int, y: int)
    requires Fits(l, s) && Fits(l, t) && l.Inside(x, y) && |s| == |t|
    requires 0 <= l.At(x, y) && l.At(x, y) + l.Bytes() <= |s|
    requires s[l.At(x, y)..l.At(x, y) + l.Bytes()] == t[l.At(x, y)..l.At(x, y) + l.Bytes()]
    ensures PixelOf(l, t, x, y) == PixelOf(l, s, x, y)
  {
    hide Layout.At, Layout.RowStart, Layout.RowBytes, ColourIn;
    PixelIsThere(l, x, y);
    SameColour(s, l.At(x, y), t, l.At(x, y), l.Bytes());
  }

  /** Writing the bytes of a pixel is setting it. */
  lemma BytesSetPixel(l: Layout, s: seq<u8>, t: seq<u8>, x: int, y: int, colour: u32)
    requires Fits(l, s) && |s| == |t| && l.Inside(x, y)
    requires 0 <= l.At(x, y) && l.At(x, y) + l.Bytes() <= |s|
    requires ColourWritten(t, l.At(x, y), l.Bytes(), colour)
    requires forall k :: 0 <= k < |s| && !(l.At(x, y) <= k < l.At(x, y) + l.Bytes()) ==> t[k] == s[k]
    ensures PixelSet(l, s, t, x, y, colour)
  {
    hide Layout.At, Layout.RowStart, Layout.RowBytes, Layout.Sound, Layout.Bytes, ColourIn, ColourWritten, Kept;
    PixelIsThere(l, x, y);
    ColourComesBack(t, l.At(x, y), l.Bytes(), colour);
    forall x', y' | l.Inside(x', y') && (x' != x || y' != y)
      ensures PixelOf(l, t, x', y') == PixelOf(l, s, x', y')
    {
      PixelIsThere(l, x', y');
      PixelsApart(l, x, y, x', y');
      PixelKept(l, s, t, x', y');
    }
    forall k | 0 <= k < |s| && l.IsPadding(k)
      ensures t[k] == s[k]
    {
      assert !l.InRow(k, y);
    }
  }

  /** One row a copy of another, and nothing else changed. */
  ghost predicate RowCopied(l: Layout, s: seq<u8>, t: seq<u8>, target: int, source: int)
    requires Fits(l, s) && Fits(l, t) && 0 <= target < l.height && 0 <= source < l.height
  {
    && (forall x, y :: l.Inside(x, y) ==> PixelOf(l, t, x, y) == PixelOf(l, s, x, if y == target then source else y))
    && PaddingKept(l, s, t)
  }

  lemma BytesCopyRow(l: Layout, s: seq<u8>, t: seq<u8>, target: int, source: int)
    requires Fits(l, s) && |s| == |t| && 0 <= target < l.height && 0 <= source < l.height && target != source
    requires 0 <= l.RowStart(target) && l.RowStart(target) + l.RowBytes() <= |s|
    requires 0 <= l.RowStart(source) && l.RowStart(source) + l.RowBytes() <= |s|
    requires t[l.RowStart(target)..l.RowStart(target) + l.RowBytes()] ==
      s[l.RowStart(source)..l.RowStart(source) + l.RowBytes()]
    requires forall k :: 0 <= k < |s| && !l.InRow(k, target) ==> t[k] == s[k]
    ensures RowCopied(l, s, t, target, source)
  {
    hide Layout.RowStart, Layout.RowBytes, Layout.Sound, Layout.Bytes, Layout.At, ColourIn;
    forall x, y | l.Inside(x, y)
      ensures PixelOf(l, t, x, y) == PixelOf(l, s, x, if y == target then source else y)
    {
      PixelIsThere(l, x, y);
      if y == target {
        PixelOfCopy(l, s, t, x, target, source);
      } else {
        if y < target {
          RowsApart(l, y, target);
        } else {
          RowsApart(l, target, y);
        }
        PixelKept(l, s, t, x, y);
      }
    }
    forall k | 0 <= k < |s| && l.IsPadding(k)
      ensures t[k] == s[k]
    {
      assert !l.InRow(k, target);
    }
  }

  lemma SubSlice(s: seq<u8>, at: int, n: int, into: int, length: int)
    requires 0 <= at && at + n <= |s| && 0 <= into && 0 <= length && into + length <= n
    ensures s[at..at + n][into..into + length] == s[at + into..at + into + length]
  {
    var part, a, b := s[at..at + n], s[at..at + n][into..into + length], s[at + into..at + into + length];
    forall k | 0 <= k < length
      ensures a[k] == b[k]
    {
      assert part[into + k] == s[at + into + k];
    }
    assert a == b;
  }

  lemma PixelOfCopy(l: Layout, s: seq<u8>, t: seq<u8>, x: int, target: int, source: int)
    requires Fits(l, s) && |s| == |t| && l.Inside(x, target) && l.Inside(x, source)
    requires 0 <= l.RowStart(target) && l.RowStart(target) + l.RowBytes() <= |s|
    requires 0 <= l.RowStart(source) && l.RowStart(source) + l.RowBytes() <= |s|
    requires t[l.RowStart(target)..l.RowStart(target) + l.RowBytes()] ==
      s[l.RowStart(source)..l.RowStart(source) + l.RowBytes()]
    ensures PixelOf(l, t, x, target) == PixelOf(l, s, x, source)
  {
    hide Layout.RowStart, Layout.RowBytes, Layout.Sound, Layout.Bytes, ColourIn;
    PixelIsThere(l, x, target);
    PixelIsThere(l, x, source);
    var a, b := t[l.RowStart(target)..l.RowStart(target) + l.RowBytes()],
      s[l.RowStart(source)..l.RowStart(source) + l.RowBytes()];
    var into := l.At(x, target) - l.RowStart(target);
    assert 0 <= into == l.At(x, source) - l.RowStart(source);
    assert into + l.Bytes() <= l.RowBytes();
    SubSlice(t, l.RowStart(target), l.RowBytes(), into, l.Bytes());
    SubSlice(s, l.RowStart(source), l.RowBytes(), into, l.Bytes());
    SameColour(t, l.At(x, target), s, l.At(x, source), l.Bytes());
  }

  /** A rectangle in one colour, the rest as it was. */
  ghost predicate Filled(l: Layout, s: seq<u8>, t: seq<u8>, x: int, y: int, w: int, h: int, colour: u32)
    requires Fits(l, s) && Fits(l, t)
  {
    && (forall x', y' :: l.Inside(x', y') ==>
          PixelOf(l, t, x', y') ==
            if x <= x' < x + w && y <= y' < y + h then Kept(colour, l.Bytes()) else PixelOf(l, s, x', y'))
    && PaddingKept(l, s, t)
  }

  /** Rows `lo` to `hi` of those to be moved are where they are to be, the rest as it
      was. */
  ghost predicate RowsMoved(l: Layout, s: seq<u8>, t: seq<u8>, target: int, source: int, lo: int, hi: int)
    requires Fits(l, s) && Fits(l, t) && 0 <= source + lo && source + hi <= l.height
  {
    && (forall x', y' :: l.Inside(x', y') ==>
          PixelOf(l, t, x', y') ==
            PixelOf(l, s, x', if target + lo <= y' < target + hi then y' - target + source else y'))
    && PaddingKept(l, s, t)
  }

  /** A row copied that has not been written over yet. */
  lemma OneMoreRow(l: Layout, s: seq<u8>, t: seq<u8>, u: seq<u8>, target: int, source: int, lo: int, hi: int, row: int)
    requires Fits(l, s) && Fits(l, t) && Fits(l, u) && lo <= hi && (row == hi || row == lo - 1)
    requires 0 <= source + lo && source + hi <= l.height && RowsMoved(l, s, t, target, source, lo, hi)
    requires 0 <= target + row < l.height && 0 <= source + row < l.height
    requires RowCopied(l, t, u, target + row, source + row)
    requires !(target + lo <= source + row < target + hi)
    ensures RowsMoved(l, s, u, target, source, if row < lo then row else lo, if row < lo then hi else hi + 1)
  {
    hide PixelOf, Fits, PaddingKept;
    PaddingStays(l, s, t, u);
    forall x', y' | l.Inside(x', y')
      ensures y' == target + row ==> PixelOf(l, u, x', y') == PixelOf(l, s, x', source + row)
      ensures y' != target + row ==> PixelOf(l, u, x', y') == PixelOf(l, t, x', y')
    {
      assert l.Inside(x', source + row);
      assert PixelOf(l, t, x', source + row) == PixelOf(l, s, x', source + row);
    }
  }

  lemma OneMorePixel(l: Layout, r: seq<u8>, t: seq<u8>, u: seq<u8>, x: int, y: int, n: int, colour: u32)
    requires Fits(l, r) && Fits(l, t) && Fits(l, u) && l.Inside(x + n, y) && n >= 0
    requires Filled(l, r, t, x, y, n, 1, colour) && PixelSet(l, t, u, x + n, y, colour)
    ensures Filled(l, r, u, x, y, n + 1, 1, colour)
  {
    hide PixelOf, Fits, PaddingKept;
    PaddingStays(l, r, t, u);
  }

  lemma OneMoreLine(l: Layout, s: seq<u8>, t: seq<u8>, u: seq<u8>, x: int, y: int, w: int, n: int, colour: u32)
    requires Fits(l, s) && Fits(l, t) && Fits(l, u) && n >= 0
    requires Filled(l, s, t, x, y, w, n, colour) && Filled(l, t, u, x, y + n, w, 1, colour)
    ensures Filled(l, s, u, x, y, w, n + 1, colour)
  {
    hide PixelOf, Fits, PaddingKept;
    PaddingStays(l, s, t, u);
  }

  class Framebuffer {
    const memory: array<u8>
    const l: Layout

    constructor (memory: array<u8>, l: Layout)
      ensures this.memory == memory && this.l == l
    {
      this.memory, this.l := memory, l;
    }

    /** The memory is really there. */
    ghost predicate Valid() {
      l.Sound() && l.Size() <= memory.Length
    }

    /** The bytes of one pixel. */
    method WritePixel(x: int, y: int, colour: u32)
      requires Valid() && l.Inside(x, y)
      modifies memory
      ensures PixelSet(l, old(memory[..]), memory[..], x, y, colour)
    {
      hide Layout.At, Layout.RowStart, Layout.RowBytes, Layout.Bytes, Layout.Sound, PixelSet, ByteOf, Layout.Inside;
      PixelIsThere(l, x, y);
      var at, bytes := l.At(x, y), l.Bytes();
      for index := 0 to bytes
        invariant ColourWritten(memory[..], at, index, colour)
        invariant forall k :: 0 <= k < memory.Length && !(at <= k < at + bytes) ==> memory[k] == old(memory[k])
      {
        memory[at + index] := ByteOf(colour, index);
      }
      BytesSetPixel(l, old(memory[..]), memory[..], x, y, colour);
    }

    /** One pixel; nothing if it is outside. */
    method Put(x: nat, y: nat, colour: u32)
      requires Valid()
      modifies memory
      ensures Filled(l, old(memory[..]), memory[..], x, y, 1, 1, colour)
    {
      hide Layout.Sound, Layout.Size, Layout.Bytes, PaddingKept, Kept, PixelOf;
      if x >= l.width || y >= l.height {
        NothingChanged(l, memory[..]);
        return;
      }
      WritePixel(x, y, colour);
    }

    /** The colour of a pixel, byte by byte; zero outside. */
    method Get(x: nat, y: nat) returns (colour: u32)
      requires Valid()
      ensures colour == if l.Inside(x, y) then PixelOf(l, memory[..], x, y) else 0
    {
      if x >= l.width || y >= l.height {
        return 0;
      }
      PixelIsThere(l, x, y);
      var at, bytes := l.At(x, y), l.Bytes();
      hide Layout.At, Layout.RowStart, Layout.RowBytes, Layout.Sound, Layout.Bytes;
      colour := 0;
      for index := 0 to bytes
        invariant colour == PartOf(memory[..], at, index)
      {
        colour := colour + memory[at + index] * Weight(index);
      }
      PartIsColour(memory[..], at, bytes);
    }

    /** What is put can be got back, as far as the pixel has bits for it. */
    method PutThenGet(x: nat, y: nat, colour: u32) returns (back: u32)
      requires Valid()
      modifies memory
      ensures back == if l.Inside(x, y) then Kept(colour, l.Bytes()) else 0
    {
      Put(x, y, colour);
      back := Get(x, y);
    }

    /** A rectangle, clipped to the picture. */
    method Fill(x: nat, y: nat, w: nat, h: nat, colour: u32)
      requires Valid()
      modifies memory
      ensures Filled(l, old(memory[..]), memory[..], x, y, w, h, colour)
    {
      hide Layout.Sound, Layout.Size, Layout.Bytes, PaddingKept, Kept, PixelOf, PixelSet;
      NothingChanged(l, memory[..]);
      if x >= l.width || y >= l.height {
        return;
      }
      var across := if w > l.width - x then l.width - x else w;
      var down := if h > l.height - y then l.height - y else h;
      for row := 0 to down
        invariant Filled(l, old(memory[..]), memory[..], x, y, across, row, colour)
      {
        ghost var line := memory[..];
        NothingChanged(l, line);
        for column := 0 to across
          invariant Filled(l, line, memory[..], x, y + row, column, 1, colour)
        {
          ghost var before := memory[..];
          WritePixel(x + column, y + row, colour);
          OneMorePixel(l, line, before, memory[..], x, y + row, column, colour);
        }
        OneMoreLine(l, old(memory[..]), line, memory[..], x, y, across, row, colour);
      }
    }

    /** One row over another. */
    method CopyRow(target: nat, source: nat)
      requires Valid() && target < l.height && source < l.height && target != source
      modifies memory
      ensures RowCopied(l, old(memory[..]), memory[..], target, source)
    {
      hide RowCopied, Layout.Bytes, Layout.RowBytes, Layout.RowStart, Layout.Sound, Layout.At;
      RowIsThere(l, target);
      RowIsThere(l, source);
      if target < source {
        RowsApart(l, target, source);
      } else {
        RowsApart(l, source, target);
      }
      var bytes, to', from := l.RowBytes(), l.RowStart(target), l.RowStart(source);
      for i := 0 to bytes
        invariant memory[to'..to' + i] == old(memory[from..from + i])
        invariant forall k :: 0 <= k < memory.Length && !(to' <= k < to' + bytes) ==> memory[k] == old(memory[k])
      {
        memory[to' + i] := memory[from + i];
        assert memory[to'..to' + i + 1] == memory[to'..to' + i] + [old(memory[from + i])];
        assert old(memory[from..from + i + 1]) == old(memory[from..from + i]) + [old(memory[from + i])];
      }
      assert old(memory[..])[from..from + bytes] == old(memory[from..from + bytes]);
      assert memory[..][to'..to' + bytes] == memory[to'..to' + bytes];
      BytesCopyRow(l, old(memory[..]), memory[..], target, source);
    }

    /** How many rows are moved: as many as are asked for and lie on the screen. */
    function Moved(target: nat, source: nat, rows: nat): (n: nat)
      ensures n > 0 ==> target + n <= l.height && source + n <= l.height
      ensures n <= rows && (n < rows ==> target + n >= l.height || source + n >= l.height)
    {
      if target >= l.height || source >= l.height then 0
      else
        var available := l.height - (if target > source then target else source);
        if rows > available then available else rows
    }

    /** Rows moved up or down, and right when they overlap. */
    method MoveRows(target: nat, source: nat, rows: nat)
      requires Valid()
      modifies memory
      ensures RowsMoved(l, old(memory[..]), memory[..], target, if Moved(target, source, rows) == 0 then 0 else source,
        0, Moved(target, source, rows))
    {
      hide Layout.Sound, Layout.Size, Layout.Bytes, PaddingKept, PixelOf, RowCopied;
      NothingChanged(l, memory[..]);
      if target >= l.height || source >= l.height || target == source {
        return;
      }
      var count := Moved(target, source, rows);
      if count == 0 {
        return;
      }
      if target < source {
        for row := 0 to count
          invariant RowsMoved(l, old(memory[..]), memory[..], target, source, 0, row)
        {
          ghost var before := memory[..];
          CopyRow(target + row, source + row);
          OneMoreRow(l, old(memory[..]), before, memory[..], target, source, 0, row, row);
        }
      } else {
        for row := count downto 0
          invariant RowsMoved(l, old(memory[..]), memory[..], target, source, row, count)
        {
          ghost var before := memory[..];
          CopyRow(target + row, source + row);
          OneMoreRow(l, old(memory[..]), before, memory[..], target, source, row + 1, count, row);
        }
      }
    }
  }

  lemma NothingChanged(l: Layout, s: seq<u8>)
    ensures PaddingKept(l, s, s)
  {
  }

  lemma PaddingStays(l: Layout, s: seq<u8>, t: seq<u8>, u: seq<u8>)
    requires PaddingKept(l, s, t) && PaddingKept(l, t, u)
    ensures PaddingKept(l, s, u)
  {
  }
}
