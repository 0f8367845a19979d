/** Text on a framebuffer (src/terminal/terminal.c): the pixels always show a grid of
    characters, with wrapping, tabs and scrolling. */
module Terminals {
  import opened Words
  import opened Framebuffers

  const NEWLINE: u8 := 10
  const CARRIAGE_RETURN: u8 := 13
  const TAB: u8 := 9

  /** Glyphs are rows of bits, the leftmost pixel in the highest bit. */
  datatype Font = Font(glyphs: seq<u8>, width: nat, height: nat, first: nat, count: nat)
  {
    /** What terminal_init checks, for a font whose glyphs are all there. */
    predicate Sound() {
      1 <= width <= 8 && height > 0 && count > 0 && |glyphs| >= count * height
    }

    predicate Has(character: u8) { first <= character < first + count }
  }

  /** `(bits & (0x80 >> column)) != 0` */
  predicate BitSet(bits: u8, column: int) {
    if column == 0 then bits / 0x80 % 2 == 1
    else if column == 1 then bits / 0x40 % 2 == 1
    else if column == 2 then bits / 0x20 % 2 == 1
    else if column == 3 then bits / 0x10 % 2 == 1
    else if column == 4 then bits / 0x08 % 2 == 1
    else if column == 5 then bits / 0x04 % 2 == 1
    else if column == 6 then bits / 0x02 % 2 == 1
    else bits % 2 == 1
  }

  lemma GlyphIsThere(font: Font, character: u8, row: int)
    requires font.Sound() && font.Has(character) && 0 <= row < font.height
    ensures 0 <= (character - font.first) * font.height + row < |font.glyphs|
  {
    ScaleMonotone(font.height, 0, character - font.first);
    ScaleStrict(font.height, character - font.first, font.count);
  }

  /** Whether a pixel of a character is drawn; one the font lacks is a filled box. */
  predicate GlyphPixel(font: Font, character: u8, px: int, py: int)
    requires font.Sound() && 0 <= py < font.height
  {
    if font.Has(character) then
      GlyphIsThere(font, character, py);
      BitSet(font.glyphs[(character - font.first) * font.height + py], px)
    else true
  }

  // ----- the screen as a grid of characters -----

  datatype Cell = Blank | Drawn(character: u8, colour: u32)

  /** What is on the screen, and where the next character goes. */
  datatype Text = Text(grid: seq<seq<Cell>>, column: nat, row: nat, foreground: u32)

  ghost predicate Shaped(t: Text, columns: nat, rows: nat) {
    && columns >= 1 && rows >= 1 && |t.grid| == rows
    && (forall r :: 0 <= r < rows ==> |t.grid[r]| == columns)
    && t.row < rows && t.column <= columns
  }

  function BlankLine(columns: nat): (line: seq<Cell>)
    ensures |line| == columns
  {
    seq(columns, _ => Blank)
  }

  function Cleared(columns: nat, rows: nat, foreground: u32): Text {
    Text(seq(rows, _ => BlankLine(columns)), 0, 0, foreground)
  }

  /** To the next line; past the last one, everything moves up. */
  function NextLine(t: Text, columns: nat, rows: nat): Text
    requires |t.grid| == rows && rows >= 1
  {
    if t.row + 1 < rows then t.(column := 0, row := t.row + 1)
    else t.(grid := t.grid[1..] + [BlankLine(columns)], column := 0, row := rows - 1)
  }

  /** A character in the cell under the cursor, and the cursor one further. */
  function Drew(t: Text, character: u8): Text
    requires t.row < |t.grid| && t.column < |t.grid[t.row]|
  {
    var line := t.grid[t.row][t.column := Drawn(character, t.foreground)];
    t.(grid := t.grid[t.row := line], column := t.column + 1)
  }

  /** What one character does. */
  function Typed(t: Text, columns: nat, rows: nat, character: u8): Text
    requires |t.grid| == rows && rows >= 1 && t.row < rows
    requires forall r :: 0 <= r < rows ==> |t.grid[r]| == columns
    requires columns >= 1
  {
    if character == NEWLINE then NextLine(t, columns, rows)
    else if character == CARRIAGE_RETURN then t.(column := 0)
    else if character == TAB then
      var stop := (t.column / 8 + 1) * 8;
      if stop >= columns then NextLine(t, columns, rows) else t.(column := stop)
    else
      var u := if t.column >= columns then NextLine(t, columns, rows) else t;
      Drew(u, character)
  }

  /** What keeps the cursor on the screen. */
  lemma TypedIsShaped(t: Text, columns: nat, rows: nat, character: u8)
    requires Shaped(t, columns, rows)
    ensures Shaped(NextLine(t, columns, rows), columns, rows)
    ensures Shaped(Typed(t, columns, rows, character), columns, rows)
  {
  }

  datatype Command = Put(character: u8) | SetForeground(colour: u32)

  ghost function Performed(t: Text, columns: nat, rows: nat, commands: seq<Command>): (u: Text)
    requires Shaped(t, columns, rows)
    ensures Shaped(u, columns, rows)
    decreases |commands|
  {
    if commands == [] then t
    else
      var before := Performed(t, columns, rows, commands[..|commands| - 1]);
      match commands[|commands| - 1]
      case Put(character) => TypedIsShaped(before, columns, rows, character); Typed(before, columns, rows, character)
      case SetForeground(colour) => before.(foreground := colour)
  }

  predicate Printable(character: u8) {
    character != NEWLINE && character != CARRIAGE_RETURN && character != TAB
  }

  function PutAll(text: seq<u8>): (commands: seq<Command>)
    ensures |commands| == |text|
  {
    seq(|text|, i requires 0 <= i < |text| => Put(text[i]))
  }

  /** Text without control characters, typed on a clear screen it does not overflow,
      is there line by line: every character in its cell, and nothing else. */
  lemma {:induction false} PlainTextIsThere(columns: nat, rows: nat, foreground: u32, text: seq<u8>, r: nat, c: nat)
    requires columns >= 1 && rows >= 1 && |text| <= rows * columns && r < rows && c < columns
    requires forall i :: 0 <= i < |text| ==> Printable(text[i])
    ensures Shaped(Cleared(columns, rows, foreground), columns, rows)
    ensures var u := Performed(Cleared(columns, rows, foreground), columns, rows, PutAll(text));
      && u.foreground == foreground && u.row * columns + u.column == |text|
      && (u.column == 0 ==> u.row == 0)
      && r * columns + c >= 0
      && u.grid[r][c] == if r * columns + c < |text| then Drawn(text[r * columns + c], foreground) else Blank
    decreases |text|
  {
    ScaleMonotone(columns, 0, r);
    var start := Cleared(columns, rows, foreground);
    if text != [] {
      var shorter, last := text[..|text| - 1], text[|text| - 1];
      assert PutAll(text)[..|text| - 1] == PutAll(shorter);
      PlainTextIsThere(columns, rows, foreground, shorter, r, c);
      var before := Performed(start, columns, rows, PutAll(shorter));
      OneMoreCharacter(before, columns, rows, |shorter|, last, r, c);
    }
  }

  /** A place in reading order is one cell. */
  lemma PlaceIsCell(columns: nat, r: nat, c: nat, r': nat, c': nat)
    requires c < columns && c' < columns
    ensures r * columns + c == r' * columns + c' ==> r == r' && c == c'
  {
    if r < r' {
      ScaleStrict(columns, r, r');
    } else if r' < r {
      ScaleStrict(columns, r', r);
    }
  }

  /** A full line is not the last one while there is room. */
  lemma LineIsLeft(columns: nat, rows: nat, row: nat)
    requires row < rows && row * columns + columns < rows * columns
    ensures row + 1 < rows && (row + 1) * columns == row * columns + columns
  {
    assert (row + 1) * columns == row * columns + columns;
    if row + 1 == rows {
      assert false;
    }
  }

  /** One character more goes into the cell after the last. */
  lemma OneMoreCharacter(t: Text, columns: nat, rows: nat, n: nat, character: u8, r: nat, c: nat)
    requires Shaped(t, columns, rows) && Printable(character) && n < rows * columns && r < rows && c < columns
    requires t.row * columns + t.column == n && (t.column == 0 ==> t.row == 0)
    ensures var u := Typed(t, columns, rows, character);
      && u.row * columns + u.column == n + 1 && u.column > 0 && u.foreground == t.foreground
      && |u.grid| == rows && |u.grid[r]| == columns
      && u.grid[r][c] == if r * columns + c == n then Drawn(character, t.foreground) else t.grid[r][c]
  {
    if t.column >= columns {
      LineIsLeft(columns, rows, t.row);
      PlaceIsCell(columns, r, c, t.row + 1, 0);
    } else {
      PlaceIsCell(columns, r, c, t.row, t.column);
    }
  }

  // ----- what the pixels must be -----

  /** A screen: sizes of the picture and of its cells, and the colour behind the
      text. */
  datatype Screen = Screen(l: Layout, font: Font, columns: nat, rows: nat, background: u32)
  {
    /** Whole cells fit; what is left over at the right and at the bottom is not
        used. */
    predicate Sound() {
      && l.Sound() && font.Sound() && columns >= 1 && rows >= 1
      && columns * font.width <= l.width && rows * font.height <= l.height
    }

    predicate InCell(x: int, y: int, r: int, c: int) {
      c * font.width <= x < c * font.width + font.width && r * font.height <= y < r * font.height + font.height
    }

    predicate InCells(x: int, y: int) {
      0 <= x < columns * font.width && 0 <= y < rows * font.height
    }
  }

  /** The colour of a pixel of a cell. */
  function CellColour(s: Screen, cell: Cell, px: int, py: int): u32
    requires s.font.Sound() && 0 <= py < s.font.height
  {
    if cell.Drawn? && GlyphPixel(s.font, cell.character, px, py) then cell.colour else s.background
  }

  /** A pixel of one cell is as the character in it. */
  ghost predicate ShowsAt(s: Screen, memory: seq<u8>, t: Text, x: int, y: int, r: int, c: int)
    requires s.Sound() && Fits(s.l, memory) && Shaped(t, s.columns, s.rows)
    requires s.l.Inside(x, y) && 0 <= r < s.rows && 0 <= c < s.columns
  {
    s.InCell(x, y, r, c) ==>
      PixelOf(s.l, memory, x, y) ==
        Kept(CellColour(s, t.grid[r][c], x - c * s.font.width, y - r * s.font.height), s.l.Bytes())
  }

  /** The pixels show the text: every cell its character, and the background where
      there are no cells. */
  ghost predicate Shows(s: Screen, memory: seq<u8>, t: Text)
    requires s.Sound() && Fits(s.l, memory) && Shaped(t, s.columns, s.rows)
  {
    && (forall x, y, r, c :: s.l.Inside(x, y) && 0 <= r < s.rows && 0 <= c < s.columns ==>
      ShowsAt(s, memory, t, x, y, r, c))
    && (forall x, y :: s.l.Inside(x, y) && !s.InCells(x, y) ==>
      PixelOf(s.l, memory, x, y) == Kept(s.background, s.l.Bytes()))
  }

  /** Cells lie on the picture, and do not overlap. */
  lemma CellIsThere(s: Screen, r: int, c: int)
    requires s.Sound() && 0 <= r < s.rows && 0 <= c < s.columns
    ensures 0 <= c * s.font.width && c * s.font.width + s.font.width <= s.columns * s.font.width <= s.l.width
    ensures 0 <= r * s.font.height && r * s.font.height + s.font.height <= s.rows * s.font.height <= s.l.height
  {
    ScaleMonotone(s.font.width, 0, c);
    ScaleStrict(s.font.width, c, s.columns);
    ScaleMonotone(s.font.height, 0, r);
    ScaleStrict(s.font.height, r, s.rows);
  }

  lemma CellsApart(s: Screen, x: int, y: int, r: int, c: int, r': int, c': int)
    requires s.Sound() && s.InCell(x, y, r, c) && s.InCell(x, y, r', c')
    ensures r == r' && c == c'
  {
    if c < c' { ScaleStrict(s.font.width, c, c'); }
    if c' < c { ScaleStrict(s.font.width, c', c); }
    if r < r' { ScaleStrict(s.font.height, r, r'); }
    if r' < r { ScaleStrict(s.font.height, r', r); }
  }

  /** A glyph drawn into a cell, and nothing else. */
  ghost predicate GlyphDrawn(s: Screen, m: seq<u8>, n: seq<u8>, character: u8, colour: u32, left: int, top: int)
    requires s.Sound() && Fits(s.l, m) && Fits(s.l, n)
  {
    && (forall x, y :: s.l.Inside(x, y) ==>
          PixelOf(s.l, n, x, y) ==
            if left <= x < left + s.font.width && top <= y < top + s.font.height
            then Kept(CellColour(s, Drawn(character, colour), x - left, y - top), s.l.Bytes())
            else PixelOf(s.l, m, x, y))
    && PaddingKept(s.l, m, n)
  }

  lemma GlyphShows(s: Screen, m: seq<u8>, n: seq<u8>, t: Text, character: u8)
    requires s.Sound() && Fits(s.l, m) && Fits(s.l, n) && Shaped(t, s.columns, s.rows) && Shows(s, m, t)
    requires t.column < s.columns
    requires GlyphDrawn(s, m, n, character, t.foreground, t.column * s.font.width, t.row * s.font.height)
    ensures var u := Drew(t, character);
      Shaped(u, s.columns, s.rows) && Shows(s, n, u)
  {
    hide PixelOf, Fits, PaddingKept, CellColour, Kept, Layout.Sound, Font.Sound;
    var u := Drew(t, character);
    forall x, y, r, c | s.l.Inside(x, y) && 0 <= r < s.rows && 0 <= c < s.columns
      ensures ShowsAt(s, n, u, x, y, r, c)
    {
      assert ShowsAt(s, m, t, x, y, r, c);
      if s.InCell(x, y, r, c) && s.InCell(x, y, t.row, t.column) {
        CellsApart(s, x, y, r, c, t.row, t.column);
      }
    }
    CellIsThere(s, t.row, t.column);
  }

  /** Everything one line up, and the last line cleared. */
  lemma ScrollShows(s: Screen, m: seq<u8>, between: seq<u8>, n: seq<u8>, t: Text, moved: nat)
    requires s.Sound() && Fits(s.l, m) && Fits(s.l, between) && Fits(s.l, n)
    requires Shaped(t, s.columns, s.rows) && Shows(s, m, t)
    requires var kept := (s.rows - 1) * s.font.height;
      && moved == kept && 0 <= kept && s.font.height + kept <= s.l.height
      && RowsMoved(s.l, m, between, 0, if kept == 0 then 0 else s.font.height, 0, kept)
      && Filled(s.l, between, n, 0, kept, s.l.width, s.font.height, s.background)
    ensures var u := t.(grid := t.grid[1..] + [BlankLine(s.columns)], column := 0, row := s.rows - 1);
      Shaped(u, s.columns, s.rows) && Shows(s, n, u)
  {
    hide PixelOf, Fits, PaddingKept, GlyphPixel, Kept, Layout.Sound, Font.Sound, RowsMoved, Filled, ShowsAt;
    var u := t.(grid := t.grid[1..] + [BlankLine(s.columns)], column := 0, row := s.rows - 1);
    var high, kept := s.font.height, (s.rows - 1) * s.font.height;
    assert s.rows * high == kept + high;
    forall x, y, r, c | s.l.Inside(x, y) && 0 <= r < s.rows && 0 <= c < s.columns
      ensures ShowsAt(s, n, u, x, y, r, c)
    {
      CellScrolls(s, m, between, n, t, kept, x, y, r, c);
    }
    forall x, y | s.l.Inside(x, y) && !s.InCells(x, y)
      ensures PixelOf(s.l, n, x, y) == Kept(s.background, s.l.Bytes())
    {
      PixelScrolls(s, m, between, n, kept, x, y);
      if y < kept {
        assert s.l.Inside(x, y + high) && !s.InCells(x, y + high);
      }
    }
  }

  /** Where each pixel comes from. */
  lemma PixelScrolls(s: Screen, m: seq<u8>, between: seq<u8>, n: seq<u8>, kept: int, x: int, y: int)
    requires s.Sound() && Fits(s.l, m) && Fits(s.l, between) && Fits(s.l, n) && s.l.Inside(x, y)
    requires 0 <= kept && s.font.height + kept <= s.l.height
    requires RowsMoved(s.l, m, between, 0, if kept == 0 then 0 else s.font.height, 0, kept)
    requires Filled(s.l, between, n, 0, kept, s.l.width, s.font.height, s.background)
    ensures y < kept ==> PixelOf(s.l, n, x, y) == PixelOf(s.l, m, x, y + s.font.height)
    ensures kept <= y < kept + s.font.height ==> PixelOf(s.l, n, x, y) == Kept(s.background, s.l.Bytes())
    ensures kept + s.font.height <= y ==> PixelOf(s.l, n, x, y) == PixelOf(s.l, m, x, y)
  {
    hide PixelOf, Fits, PaddingKept, Kept, Layout.Sound, Font.Sound;
    assert PixelOf(s.l, between, x, y) ==
      PixelOf(s.l, m, x, if 0 <= y < kept then y - 0 + (if kept == 0 then 0 else s.font.height) else y);
  }

  lemma CellScrolls(
    s: Screen, m: seq<u8>, between: seq<u8>, n: seq<u8>, t: Text, kept: int, x: int, y: int, r: int, c: int)
    requires s.Sound() && Fits(s.l, m) && Fits(s.l, between) && Fits(s.l, n) && s.l.Inside(x, y)
    requires Shaped(t, s.columns, s.rows) && Shows(s, m, t) && kept == (s.rows - 1) * s.font.height
    requires 0 <= kept && s.font.height + kept <= s.l.height
    requires RowsMoved(s.l, m, between, 0, if kept == 0 then 0 else s.font.height, 0, kept)
    requires Filled(s.l, between, n, 0, kept, s.l.width, s.font.height, s.background)
    requires 0 <= r < s.rows && 0 <= c < s.columns
    ensures ShowsAt(s, n, t.(grid := t.grid[1..] + [BlankLine(s.columns)], column := 0, row := s.rows - 1), x, y, r, c)
  {
    hide PixelOf, Fits, PaddingKept, GlyphPixel, Kept, Layout.Sound, Font.Sound, RowsMoved, Filled, Shows;
    PixelScrolls(s, m, between, n, kept, x, y);
    if s.InCell(x, y, r, c) {
      if r < s.rows - 1 {
        LineBelow(s, kept, y, r);
        ShowsBelow(s, m, t, x, y, r, c);
      }
    }
  }

  /** A line that is not the last is one that is kept, and there is one below it. */
  lemma LineBelow(s: Screen, kept: int, y: int, r: int)
    requires s.font.height > 0 && 0 <= r < s.rows - 1 && kept == (s.rows - 1) * s.font.height
    requires r * s.font.height <= y < r * s.font.height + s.font.height
    ensures y < kept && (r + 1) * s.font.height == r * s.font.height + s.font.height
  {
    ScaleStrict(s.font.height, r, s.rows - 1);
  }

  lemma ShowsBelow(s: Screen, m: seq<u8>, t: Text, x: int, y: int, r: int, c: int)
    requires s.Sound() && Fits(s.l, m) && Shaped(t, s.columns, s.rows) && Shows(s, m, t)
    requires s.l.Inside(x, y) && s.l.Inside(x, y + s.font.height) && 0 <= r < s.rows - 1 && 0 <= c < s.columns
    ensures ShowsAt(s, m, t, x, y + s.font.height, r + 1, c)
  {
    hide PixelOf, Fits, ShowsAt, Layout.Sound, Font.Sound;
  }

  lemma ClearShows(s: Screen, m: seq<u8>, n: seq<u8>, foreground: u32)
    requires s.Sound() && Fits(s.l, m) && Fits(s.l, n)
    requires Filled(s.l, m, n, 0, 0, s.l.width, s.l.height, s.background)
    ensures Shaped(Cleared(s.columns, s.rows, foreground), s.columns, s.rows)
    ensures Shows(s, n, Cleared(s.columns, s.rows, foreground))
  {
    hide PixelOf, Fits, PaddingKept, GlyphPixel, Kept, Layout.Sound, Font.Sound;
  }

  // ----- the terminal -----

  class Terminal {
    const fb: Framebuffer
    const font: Font
    const columns: nat
    const rows: nat
    var column: nat
    var row: nat
    var foreground: u32
    const background: u32
    /** What has been typed and not scrolled away. */
    ghost var grid: seq<seq<Cell>>

    /** terminal_init, once it has checked that a character fits. Nothing is drawn
        before the first clear. */
    constructor (fb: Framebuffer, font: Font, foreground: u32, background: u32)
      requires fb.Valid() && font.Sound() && fb.l.width >= font.width && fb.l.height >= font.height
      ensures this.fb == fb && this.font == font && Fitted() && this.background == background
      ensures columns * font.width <= fb.l.width < (columns + 1) * font.width
      ensures rows * font.height <= fb.l.height < (rows + 1) * font.height
      ensures this.foreground == foreground
    {
      this.fb, this.font, this.foreground, this.background := fb, font, foreground, background;
      CellCount(fb.l.width, font.width);
      CellCount(fb.l.height, font.height);
      columns, rows := fb.l.width / font.width, fb.l.height / font.height;
      column, row, grid := 0, 0, [];
    }

    function Shape(): Screen { Screen(fb.l, font, columns, rows, background) }

    ghost predicate Fitted() {
      fb.Valid() && Shape().Sound()
    }

    ghost function State(): Text
      reads this
    {
      Text(grid, column, row, foreground)
    }

    /** The screen shows the text. */
    ghost predicate Valid()
      reads this, fb.memory
    {
      && Fitted() && Shaped(State(), columns, rows)
      && Shows(Shape(), fb.memory[..], State())
    }

    method Clear()
      requires Fitted()
      modifies this`column, this`row, this`grid, fb.memory
      ensures Valid() && State() == Cleared(columns, rows, foreground)
      ensures PaddingKept(fb.l, old(fb.memory[..]), fb.memory[..])
    {
      hide Layout.Sound, Font.Sound, Shows, PixelOf;
      fb.Fill(0, 0, fb.l.width, fb.l.height, background);
      column, row := 0, 0;
      grid := Cleared(columns, rows, foreground).grid;
      ClearShows(Shape(), old(fb.memory[..]), fb.memory[..], foreground);
    }

    method Recolour(colour: u32)
      requires Valid()
      modifies this`foreground
      ensures Valid() && State() == old(State()).(foreground := colour)
    {
      hide Layout.Sound, Font.Sound, PixelOf, GlyphPixel;
      foreground := colour;
      CursorDoesNotShow(Shape(), fb.memory[..], old(State()), State());
    }

    /** One character into the pixels of one cell. */
    method DrawGlyph(character: u8, left: nat, top: nat)
      requires Fitted() && left + font.width <= fb.l.width && top + font.height <= fb.l.height
      modifies fb.memory
      ensures GlyphDrawn(Shape(), old(fb.memory[..]), fb.memory[..], character, foreground, left, top)
    {
      hide Layout.Sound, PixelOf, PaddingKept, Kept, GlyphPixel;
      NothingChanged(fb.l, fb.memory[..]);
      for line := 0 to font.height
        invariant GlyphPart(Shape(), old(fb.memory[..]), fb.memory[..], character, foreground, left, top, line, 0)
      {
        for across := 0 to font.width
          invariant GlyphPart(Shape(), old(fb.memory[..]), fb.memory[..], character, foreground, left, top, line,
            across)
        {
          ghost var before := fb.memory[..];
          var drawn := GlyphPixel(font, character, across, line);
          fb.Put(left + across, top + line, if drawn then foreground else background);
          GlyphGrows(Shape(), old(fb.memory[..]), before, fb.memory[..], character, foreground, left, top, line,
            across);
        }
      }
    }

    method Scroll()
      requires Fitted() && Shaped(State(), columns, rows) && Shows(Shape(), fb.memory[..], State())
      modifies this`column, this`row, this`grid, fb.memory
      ensures Valid()
      ensures State() == old(State()).(grid := old(grid)[1..] + [BlankLine(columns)], column := 0, row := rows - 1)
      ensures PaddingKept(fb.l, old(fb.memory[..]), fb.memory[..])
    {
      hide Layout.Sound, PixelOf, PaddingKept, Shows, RowsMoved, Filled;
      var line := font.height;
      var kept := (rows - 1) * line;
      ScrollFits(Shape());
      fb.MoveRows(0, line, kept);
      ghost var between := fb.memory[..];
      fb.Fill(0, kept, fb.l.width, line, background);
      ScrollShows(Shape(), old(fb.memory[..]), between, fb.memory[..], old(State()), kept);
      PaddingScrolls(Shape(), old(fb.memory[..]), between, fb.memory[..], kept);
      column, row, grid := 0, rows - 1, grid[1..] + [BlankLine(columns)];
    }

    method Newline()
      requires Valid()
      modifies this`column, this`row, this`grid, fb.memory
      ensures Valid() && State() == NextLine(old(State()), columns, rows)
      ensures PaddingKept(fb.l, old(fb.memory[..]), fb.memory[..])
    {
      hide Layout.Sound, PixelOf, PaddingKept, ShowsAt;
      NothingChanged(fb.l, fb.memory[..]);
      if row + 1 >= rows {
        Scroll();
      } else {
        column, row := 0, row + 1;
        CursorDoesNotShow(Shape(), fb.memory[..], old(State()), State());
      }
    }

    /** One character: the screen shows what it did to the text, and no byte between
        the rows of pixels is touched. */
    method Put(character: u8)
      requires Valid()
      modifies this`column, this`row, this`grid, fb.memory
      ensures Valid() && State() == Typed(old(State()), columns, rows, character)
      ensures PaddingKept(fb.l, old(fb.memory[..]), fb.memory[..])
    {
      hide Layout.Sound, PixelOf, PaddingKept, Shows;
      NothingChanged(fb.l, fb.memory[..]);
      if character == NEWLINE {
        Newline();
        return;
      }
      if character == CARRIAGE_RETURN {
        column := 0;
        CursorDoesNotShow(Shape(), fb.memory[..], old(State()), State());
        return;
      }
      if character == TAB {
        var stop := (column / 8 + 1) * 8;
        if stop >= columns {
          Newline();
        } else {
          column := stop;
          CursorDoesNotShow(Shape(), fb.memory[..], old(State()), State());
        }
        return;
      }
      if column >= columns {
        Newline();
      }
      CellIsThere(Shape(), row, column);
      ghost var before, text := fb.memory[..], State();
      DrawGlyph(character, column * font.width, row * font.height);
      GlyphShows(Shape(), before, fb.memory[..], text, character);
      GlyphKeepsPadding(Shape(), before, fb.memory[..], character, foreground, column * font.width, row * font.height);
      PaddingStays(fb.l, old(fb.memory[..]), before, fb.memory[..]);
      grid := grid[row := grid[row][column := Drawn(character, foreground)]];
      column := column + 1;
    }

    /** Any sequence of characters and changes of colour. */
    method Perform(commands: seq<Command>)
      requires Valid()
      modifies this`column, this`row, this`grid, this`foreground, fb.memory
      ensures Valid() && State() == Performed(old(State()), columns, rows, commands)
      ensures PaddingKept(fb.l, old(fb.memory[..]), fb.memory[..])
    {
      hide Layout.Sound, PixelOf, PaddingKept, Shows, Typed;
      NothingChanged(fb.l, fb.memory[..]);
      for i := 0 to |commands|
        invariant Valid() && State() == Performed(old(State()), columns, rows, commands[..i])
        invariant PaddingKept(fb.l, old(fb.memory[..]), fb.memory[..])
      {
        ghost var before := fb.memory[..];
        assert commands[..i + 1][..i] == commands[..i];
        match commands[i] {
          case Put(character) =>
            Put(character);
            PaddingStays(fb.l, old(fb.memory[..]), before, fb.memory[..]);
          case SetForeground(colour) =>
            Recolour(colour);
        }
      }
      assert commands[..|commands|] == commands;
    }
  }

  /** A glyph drawn so far: the lines above `line`, and that line up to `across`. */
  ghost predicate GlyphPart(
    s: Screen, m: seq<u8>, n: seq<u8>, character: u8, colour: u32, left: int, top: int, line: int, across: int)
    requires s.Sound() && Fits(s.l, m) && Fits(s.l, n) && 0 <= line <= s.font.height
  {
    && (forall x, y :: s.l.Inside(x, y) ==>
          PixelOf(s.l, n, x, y) ==
            if (left <= x < left + s.font.width && top <= y < top + line)
               || (left <= x < left + across && y == top + line && line < s.font.height)
            then Kept(CellColour(s, Drawn(character, colour), x - left, y - top), s.l.Bytes())
            else PixelOf(s.l, m, x, y))
    && PaddingKept(s.l, m, n)
  }

  lemma GlyphGrows(
    s: Screen, m: seq<u8>, between: seq<u8>, n: seq<u8>, character: u8, colour: u32, left: int, top: int, line: int,
    across: int)
    requires s.Sound() && Fits(s.l, m) && Fits(s.l, between) && Fits(s.l, n)
    requires 0 <= line < s.font.height && 0 <= across < s.font.width
    requires GlyphPart(s, m, between, character, colour, left, top, line, across)
    requires Filled(s.l, between, n, left + across, top + line, 1, 1,
      if GlyphPixel(s.font, character, across, line) then colour else s.background)
    ensures GlyphPart(s, m, n, character, colour, left, top, line, across + 1)
    ensures across + 1 == s.font.width ==> GlyphPart(s, m, n, character, colour, left, top, line + 1, 0)
  {
    hide PixelOf, Fits, PaddingKept, GlyphPixel, Kept, Layout.Sound, Font.Sound;
    PaddingStays(s.l, m, between, n);
  }

  lemma GlyphKeepsPadding(s: Screen, m: seq<u8>, n: seq<u8>, character: u8, colour: u32, left: int, top: int)
    requires s.Sound() && Fits(s.l, m) && Fits(s.l, n) && GlyphDrawn(s, m, n, character, colour, left, top)
    ensures PaddingKept(s.l, m, n)
  {
  }

  lemma PaddingScrolls(s: Screen, m: seq<u8>, between: seq<u8>, n: seq<u8>, kept: int)
    requires s.Sound() && Fits(s.l, m) && Fits(s.l, between) && Fits(s.l, n) && 0 <= kept
    requires s.font.height + kept <= s.l.height
    requires RowsMoved(s.l, m, between, 0, if kept == 0 then 0 else s.font.height, 0, kept)
    requires Filled(s.l, between, n, 0, kept, s.l.width, s.font.height, s.background)
    ensures PaddingKept(s.l, m, n)
  {
    hide PixelOf, Fits, PaddingKept, Kept, Layout.Sound, Font.Sound;
    PaddingStays(s.l, m, between, n);
  }

  lemma ScrollFits(s: Screen)
    requires s.Sound()
    ensures var kept := (s.rows - 1) * s.font.height;
      0 <= kept && s.font.height + kept <= s.l.height && (s.font.height == s.l.height ==> kept == 0)
  {
    ScaleMonotone(s.font.height, 0, s.rows - 1);
    assert s.rows * s.font.height == (s.rows - 1) * s.font.height + s.font.height;
  }

  /** Moving the cursor, or choosing a colour, changes nothing that is shown. */
  lemma CursorDoesNotShow(s: Screen, m: seq<u8>, t: Text, u: Text)
    requires s.Sound() && Fits(s.l, m) && Shaped(t, s.columns, s.rows) && Shaped(u, s.columns, s.rows)
    requires t.grid == u.grid
    requires Shows(s, m, t)
    ensures Shows(s, m, u)
  {
    hide PixelOf, Fits, PaddingKept, GlyphPixel, Kept, Layout.Sound, Font.Sound;
    forall x, y, r, c | s.l.Inside(x, y) && 0 <= r < s.rows && 0 <= c < s.columns
      ensures ShowsAt(s, m, u, x, y, r, c)
    {
      assert ShowsAt(s, m, t, x, y, r, c);
    }
  }

  lemma CellCount(pixels: nat, size: nat)
    requires 0 < size <= pixels
    ensures var n := pixels / size;
      n >= 1 && n * size <= pixels < (n + 1) * size
  {
    var n := pixels / size;
    assert pixels == size * n + pixels % size;
    if n < 1 {
      ScaleMonotone(size, n, 0);
    }
  }
}
