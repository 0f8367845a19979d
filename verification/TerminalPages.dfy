/** What is typed, as a page without end, and the screen as its last lines: the bytes of the
    framebuffer are those of the glyphs of the characters that are there
    (src/terminal/terminal.c). */
module TerminalPages {
  import opened Words
  import opened Framebuffers
  import opened Terminals

  // ----- a page -----

  datatype Mark = Mark(character: u8, colour: u32)

  /** Characters in lines and columns, and where the next one goes. Lines are never taken
      away. */
  datatype Page = Page(marks: map<(nat, nat), Mark>, line: nat, column: nat, colour: u32)

  function OnNextLine(p: Page): Page { p.(line := p.line + 1, column := 0) }

  /** One character: 10 begins a line, 13 goes back to the beginning of this one, 9 goes on to
      the next multiple of eight, and any other is set where the line has room for it. */
  function Set(p: Page, columns: nat, character: u8): Page {
    if character == 10 then OnNextLine(p)
    else if character == 13 then p.(column := 0)
    else if character == 9 then
      var stop := p.column - p.column % 8 + 8;
      if stop < columns then p.(column := stop) else OnNextLine(p)
    else
      var q := if p.column < columns then p else OnNextLine(p);
      q.(marks := q.marks[(q.line, q.column) := Mark(character, q.colour)], column := q.column + 1)
  }

  function Typeset(p: Page, columns: nat, commands: seq<Command>): Page {
    if commands == [] then p
    else
      var before := Typeset(p, columns, commands[..|commands| - 1]);
      match commands[|commands| - 1]
      case Put(character) => Set(before, columns, character)
      case SetForeground(colour) => before.(colour := colour)
  }

  /** The first line that is to be seen: with the one typed on, so many as there are rows. */
  function Top(p: Page, rows: nat): int { if p.line < rows then 0 else p.line - rows + 1 }

  /** Nothing is set below the line that is typed on, nor beside the page. */
  ghost predicate Tidy(p: Page, columns: nat) {
    forall at :: at in p.marks ==> at.0 <= p.line && at.1 < columns
  }

  /** The text is the last lines of the page. */
  ghost predicate ShowsPage(t: Text, p: Page, columns: nat, rows: nat) {
    && Shaped(t, columns, rows) && Tidy(p, columns)
    && t.row == p.line - Top(p, rows) && t.column == p.column && t.foreground == p.colour
    && forall r, c :: 0 <= r < rows && 0 <= c < columns ==> CellShows(t, p, rows, r, c)
  }

  ghost predicate CellShows(t: Text, p: Page, rows: nat, r: nat, c: nat)
    requires r < |t.grid| && c < |t.grid[r]|
  {
    var line: int := Top(p, rows) + r;
    var at := (line, c);
    line >= 0 &&
    t.grid[r][c] == if at in p.marks then Drawn(p.marks[at].character, p.marks[at].colour) else Blank
  }

  lemma ClearedShows(columns: nat, rows: nat, colour: u32)
    requires columns >= 1 && rows >= 1
    ensures ShowsPage(Cleared(columns, rows, colour), Page(map[], 0, 0, colour), columns, rows)
  {
  }

  /** A new line scrolls the page when it runs past the last row. */
  lemma NextLineShows(t: Text, p: Page, columns: nat, rows: nat)
    requires ShowsPage(t, p, columns, rows)
    ensures ShowsPage(NextLine(t, columns, rows), OnNextLine(p), columns, rows)
  {
    var u, q := NextLine(t, columns, rows), OnNextLine(p);
    TypedIsShaped(t, columns, rows, 10);
    forall r, c | 0 <= r < rows && 0 <= c < columns
      ensures CellShows(u, q, rows, r, c)
    {
      assert CellShows(t, p, rows, r, c);
      if t.row + 1 >= rows && r + 1 < rows {
        assert CellShows(t, p, rows, r + 1, c);
      }
    }
  }

  lemma MarkShows(t: Text, p: Page, columns: nat, rows: nat, character: u8)
    requires ShowsPage(t, p, columns, rows) && t.column < columns
    ensures ShowsPage(Drew(t, character),
      p.(marks := p.marks[(p.line, p.column) := Mark(character, p.colour)], column := p.column + 1), columns, rows)
  {
    var u := Drew(t, character);
    var q := p.(marks := p.marks[(p.line, p.column) := Mark(character, p.colour)], column := p.column + 1);
    forall r, c | 0 <= r < rows && 0 <= c < columns
      ensures CellShows(u, q, rows, r, c)
    {
      assert CellShows(t, p, rows, r, c);
    }
  }

  lemma CursorShows(t: Text, p: Page, columns: nat, rows: nat, column: nat, colour: u32)
    requires ShowsPage(t, p, columns, rows) && column <= columns
    ensures ShowsPage(t.(column := column, foreground := colour), p.(column := column, colour := colour), columns, rows)
  {
    var u, q := t.(column := column, foreground := colour), p.(column := column, colour := colour);
    forall r, c | 0 <= r < rows && 0 <= c < columns
      ensures CellShows(u, q, rows, r, c)
    {
      assert CellShows(t, p, rows, r, c);
    }
  }

  lemma CharacterShows(t: Text, p: Page, columns: nat, rows: nat, character: u8)
    requires ShowsPage(t, p, columns, rows)
    ensures ShowsPage(Typed(t, columns, rows, character), Set(p, columns, character), columns, rows)
  {
    hide ShowsPage, NextLine, Drew;
    PageIsShaped(t, p, columns, rows);
    NextLineShows(t, p, columns, rows);
    if character == 13 {
      CursorShows(t, p, columns, rows, 0, p.colour);
    } else if character == 9 {
      StopIs(t.column);
      if t.column - t.column % 8 + 8 < columns {
        CursorShows(t, p, columns, rows, t.column - t.column % 8 + 8, p.colour);
      }
    } else if character != 10 {
      var u := if t.column >= columns then NextLine(t, columns, rows) else t;
      var q := if p.column < columns then p else OnNextLine(p);
      NextLineBegins(t, columns, rows);
      PageIsShaped(u, q, columns, rows);
      MarkShows(u, q, columns, rows, character);
    }
  }

  lemma StopIs(column: nat)
    ensures (column / 8 + 1) * 8 == column - column % 8 + 8
  {
  }

  lemma NextLineBegins(t: Text, columns: nat, rows: nat)
    requires Shaped(t, columns, rows)
    ensures NextLine(t, columns, rows).column == 0
  {
  }

  lemma PageIsShaped(t: Text, p: Page, columns: nat, rows: nat)
    requires ShowsPage(t, p, columns, rows)
    ensures Shaped(t, columns, rows) && t.column == p.column && t.foreground == p.colour
  {
  }

  /** Whatever is typed on a clear screen, it shows the last lines of the page that comes to. */
  lemma {:induction false} ScreenShowsPage(columns: nat, rows: nat, colour: u32, commands: seq<Command>)
    requires columns >= 1 && rows >= 1
    ensures Shaped(Cleared(columns, rows, colour), columns, rows)
    ensures ShowsPage(Performed(Cleared(columns, rows, colour), columns, rows, commands),
      Typeset(Page(map[], 0, 0, colour), columns, commands), columns, rows)
    decreases |commands|
  {
    hide ShowsPage, Typed, Set;
    ClearedShows(columns, rows, colour);
    PageIsShaped(Cleared(columns, rows, colour), Page(map[], 0, 0, colour), columns, rows);
    if commands != [] {
      var shorter := commands[..|commands| - 1];
      ScreenShowsPage(columns, rows, colour, shorter);
      var t := Performed(Cleared(columns, rows, colour), columns, rows, shorter);
      var p := Typeset(Page(map[], 0, 0, colour), columns, shorter);
      PageIsShaped(t, p, columns, rows);
      match commands[|commands| - 1]
      case Put(character) => CharacterShows(t, p, columns, rows, character);
      case SetForeground(next) => CursorShows(t, p, columns, rows, t.column, next);
    }
  }

  // ----- glyphs -----

  /** A glyph as a picture: rows of eight points, the leftmost first. */
  type Picture = seq<seq<bool>>

  function RowByte(row: seq<bool>): u8
    requires |row| == 8
  {
    (if row[0] then 0x80 else 0) + (if row[1] then 0x40 else 0) + (if row[2] then 0x20 else 0)
    + (if row[3] then 0x10 else 0) + (if row[4] then 0x08 else 0) + (if row[5] then 0x04 else 0)
    + (if row[6] then 0x02 else 0) + (if row[7] then 0x01 else 0)
  }

  /** The bytes of a font draw these pictures, one after another. */
  ghost predicate Draws(font: Font, pictures: seq<Picture>)
    requires font.Sound()
  {
    && |pictures| == font.count
    && forall i :: 0 <= i < font.count ==> PictureDrawn(font, pictures[i], i)
  }

  ghost predicate PictureDrawn(font: Font, picture: Picture, i: nat)
    requires font.Sound() && i < font.count
  {
    |picture| == font.height && forall y :: 0 <= y < font.height ==> RowDrawn(font, picture[y], i, y)
  }

  ghost predicate RowDrawn(font: Font, row: seq<bool>, i: nat, y: nat)
    requires font.Sound() && i < font.count && y < font.height
  {
    RowIsThere(font, i, y);
    |row| == 8 && font.glyphs[i * font.height + y] == RowByte(row)
  }

  lemma RowIsThere(font: Font, i: nat, y: nat)
    requires font.Sound() && i < font.count && y < font.height
    ensures 0 <= i * font.height + y < |font.glyphs|
  {
    ScaleMonotone(font.height, 0, i);
    ScaleStrict(font.height, i, font.count);
  }

  function Bit(b: bool): int { if b then 1 else 0 }

  lemma BitIsPoint(row: seq<bool>, x: nat)
    requires |row| == 8 && x < 8
    ensures BitSet(RowByte(row), x) == row[x]
  {
    hide BitSet, RowByte;
    RowByteIs(row);
    PointIs(RowByte(row), Bit(row[0]), Bit(row[1]), Bit(row[2]), Bit(row[3]), Bit(row[4]), Bit(row[5]), Bit(row[6]),
      Bit(row[7]), x);
  }

  lemma RowByteIs(row: seq<bool>)
    requires |row| == 8
    ensures RowByte(row) as int == 0x80 * Bit(row[0]) + 0x40 * Bit(row[1]) + 0x20 * Bit(row[2]) + 0x10 * Bit(row[3])
      + 8 * Bit(row[4]) + 4 * Bit(row[5]) + 2 * Bit(row[6]) + Bit(row[7])
  {
  }

  lemma PointIs(byte: u8, b0: int, b1: int, b2: int, b3: int, b4: int, b5: int, b6: int, b7: int, x: nat)
    requires 0 <= b0 <= 1 && 0 <= b1 <= 1 && 0 <= b2 <= 1 && 0 <= b3 <= 1
    requires 0 <= b4 <= 1 && 0 <= b5 <= 1 && 0 <= b6 <= 1 && 0 <= b7 <= 1 && x < 8
    requires byte == 0x80 * b0 + 0x40 * b1 + 0x20 * b2 + 0x10 * b3 + 8 * b4 + 4 * b5 + 2 * b6 + b7
    ensures var bit := if x == 0 then b0 else if x == 1 then b1 else if x == 2 then b2 else if x == 3 then b3
        else if x == 4 then b4 else if x == 5 then b5 else if x == 6 then b6 else b7;
      BitSet(byte, x) <==> bit == 1
  {
    if x == 0 {
      BitAt(byte, 0, b0, 0x40 * b1 + 0x20 * b2 + 0x10 * b3 + 8 * b4 + 4 * b5 + 2 * b6 + b7, 0x80);
    } else if x == 1 {
      BitAt(byte, b0, b1, 0x20 * b2 + 0x10 * b3 + 8 * b4 + 4 * b5 + 2 * b6 + b7, 0x40);
    } else if x == 2 {
      BitAt(byte, 2 * b0 + b1, b2, 0x10 * b3 + 8 * b4 + 4 * b5 + 2 * b6 + b7, 0x20);
    } else if x == 3 {
      BitAt(byte, 4 * b0 + 2 * b1 + b2, b3, 8 * b4 + 4 * b5 + 2 * b6 + b7, 0x10);
    } else if x == 4 {
      BitAt(byte, 8 * b0 + 4 * b1 + 2 * b2 + b3, b4, 4 * b5 + 2 * b6 + b7, 8);
    } else if x == 5 {
      BitAt(byte, 0x10 * b0 + 8 * b1 + 4 * b2 + 2 * b3 + b4, b5, 2 * b6 + b7, 4);
    } else if x == 6 {
      BitAt(byte, 0x20 * b0 + 0x10 * b1 + 8 * b2 + 4 * b3 + 2 * b4 + b5, b6, b7, 2);
    } else {
      BitAt(byte, 0x40 * b0 + 0x20 * b1 + 0x10 * b2 + 8 * b3 + 4 * b4 + 2 * b5 + b6, b7, 0, 1);
    }
  }

  lemma BitAt(byte: int, high: int, bit: int, low: int, weight: int)
    requires weight > 0 && byte == 2 * (weight * high) + weight * bit + low && 0 <= low < weight && 0 <= bit <= 1
    ensures byte / weight % 2 == bit
  {
    assert 2 * (weight * high) + weight * bit == weight * (2 * high + bit);
    DivisionIs(byte, weight, 2 * high + bit, low);
  }

  /** Whether a point of a character is drawn; one the font lacks is a filled box. */
  predicate Ink(font: Font, pictures: seq<Picture>, character: u8, x: nat, y: nat) {
    if font.first <= character < font.first + font.count && character - font.first < |pictures| &&
       y < |pictures[character - font.first]| && x < |pictures[character - font.first][y]|
    then pictures[character - font.first][y][x]
    else true
  }

  lemma GlyphIsPicture(font: Font, pictures: seq<Picture>, character: u8, x: nat, y: nat)
    requires font.Sound() && Draws(font, pictures) && x < font.width && y < font.height
    ensures GlyphPixel(font, character, x, y) == Ink(font, pictures, character, x, y)
  {
    hide BitSet, RowByte;
    if font.first <= character < font.first + font.count {
      var i := character - font.first;
      assert PictureDrawn(font, pictures[i], i);
      assert RowDrawn(font, pictures[i][y], i, y);
      BitIsPoint(pictures[i][y], x);
    }
  }

  // ----- the bytes of the framebuffer -----

  /** What is to be seen at a pixel: the point of the character there, if there is one and it
      is drawn, and else the background. */
  ghost function ColourAt(s: Screen, pictures: seq<Picture>, p: Page, x: nat, y: nat): u32
    requires s.Sound()
  {
    var r, c := y / s.font.height, x / s.font.width;
    var line: int := Top(p, s.rows) + r;
    if && r < s.rows && c < s.columns && line >= 0 && c >= 0 && (line, c) in p.marks
       && Ink(s.font, pictures, p.marks[(line, c)].character, x % s.font.width, y % s.font.height)
    then p.marks[(line, c)].colour
    else s.background
  }

  /** A pixel is the low bytes of its colour, the lowest first, as many as its bits fill. */
  ghost predicate PixelLaid(l: Layout, memory: seq<u8>, x: nat, y: nat, colour: u32) {
    var at := y * l.pitch + x * ((l.bitsPerPixel + 7) / 8);
    && l.bitsPerPixel > 8 && 0 <= at && at + (l.bitsPerPixel + 7) / 8 <= |memory|
    && memory[at] == colour % 0x100 && memory[at + 1] == colour / 0x100 % 0x100
    && (l.bitsPerPixel > 16 ==> memory[at + 2] == colour / 0x1_0000 % 0x100)
    && (l.bitsPerPixel > 24 ==> memory[at + 3] == colour / 0x100_0000)
  }

  /** The screen, byte by byte. */
  ghost predicate Displays(s: Screen, pictures: seq<Picture>, memory: seq<u8>, p: Page)
    requires s.Sound()
  {
    forall x: nat, y: nat :: x < s.l.width && y < s.l.height ==>
      PixelLaid(s.l, memory, x, y, ColourAt(s, pictures, p, x, y))
  }

  /** A pixel that reads as a colour is that colour's bytes. */
  lemma PixelIsLaid(l: Layout, memory: seq<u8>, x: nat, y: nat, colour: u32)
    requires Fits(l, memory) && l.Inside(x, y) && PixelOf(l, memory, x, y) == Kept(colour, l.Bytes())
    ensures PixelLaid(l, memory, x, y, colour)
  {
    PixelIsThere(l, x, y);
    var at := y * l.pitch + x * ((l.bitsPerPixel + 7) / 8);
    assert at == l.At(x, y);
    ColourBytes(memory, at, l.Bytes(), colour);
  }

  lemma ColourBytes(memory: seq<u8>, at: nat, bytes: int, colour: u32)
    requires 2 <= bytes <= 4 && at + bytes <= |memory| && ColourIn(memory, at, bytes) == Kept(colour, bytes)
    ensures memory[at] == colour % 0x100 && memory[at + 1] == colour / 0x100 % 0x100
    ensures bytes > 2 ==> memory[at + 2] == colour / 0x1_0000 % 0x100
    ensures bytes > 3 ==> memory[at + 3] == colour / 0x100_0000
  {
    var a, b, c, e := colour % 0x100, colour / 0x100 % 0x100, colour / 0x1_0000 % 0x100, colour / 0x100_0000;
    BytesOfColour(colour);
    var got := ColourIn(memory, at, bytes);
    LowestFirst(got, memory[at], memory[at + 1], if bytes > 2 then memory[at + 2] else 0,
      if bytes > 3 then memory[at + 3] else 0);
    LowestFirst(got, a, b, if bytes > 2 then c else 0, if bytes > 3 then e else 0);
  }

  lemma LowestFirst(x: int, a: int, b: int, c: int, d: int)
    requires 0 <= a < 0x100 && 0 <= b < 0x100 && 0 <= c < 0x100 && 0 <= d < 0x100
    requires x == a + 0x100 * b + 0x1_0000 * c + 0x100_0000 * d
    ensures a == x % 0x100 && b == x / 0x100 % 0x100 && c == x / 0x1_0000 % 0x100 && d == x / 0x100_0000
  {
    DivisionIs(x, 0x100, b + 0x100 * c + 0x1_0000 * d, a);
    DivisionIs(x / 0x100, 0x100, c + 0x100 * d, b);
    DivisionIs(x, 0x1_0000, c + 0x100 * d, a + 0x100 * b);
    DivisionIs(x / 0x1_0000, 0x100, d, c);
    DivisionIs(x, 0x100_0000, d, a + 0x100 * b + 0x1_0000 * c);
  }

  /** The cell a pixel is in, and where in it. */
  lemma CellOfPixel(s: Screen, x: nat, y: nat)
    requires s.Sound()
    ensures var r, c := y / s.font.height, x / s.font.width;
      && r >= 0 && c >= 0
      && x % s.font.width == x - c * s.font.width && y % s.font.height == y - r * s.font.height
      && s.InCell(x, y, r, c)
      && (s.InCells(x, y) <==> r < s.rows && c < s.columns)
  {
    var w, h := s.font.width, s.font.height;
    var r, c := y / h, x / w;
    QuotientBelow(x, w, s.columns);
    QuotientBelow(y, h, s.rows);
  }

  lemma QuotientBelow(x: nat, size: nat, count: nat)
    requires size > 0
    ensures x / size >= 0 && x == (x / size) * size + x % size && 0 <= x % size < size
    ensures x / size < count <==> x < count * size
  {
    var q := x / size;
    assert x == size * q + x % size;
    if q < 0 {
      ScaleMonotone(size, q, -1);
    }
    if q < count {
      ScaleStrict(size, q, count);
    } else {
      ScaleMonotone(size, count, q);
    }
  }

  /** Pixels that show a text which shows a page are the bytes of the page. */
  lemma ShownIsDisplayed(s: Screen, pictures: seq<Picture>, memory: seq<u8>, t: Text, p: Page)
    requires s.Sound() && Fits(s.l, memory) && Draws(s.font, pictures)
    requires ShowsPage(t, p, s.columns, s.rows) && Shows(s, memory, t)
    ensures Displays(s, pictures, memory, p)
  {
    hide Draws, ShowsPage, Shows, PixelLaid, ColourAt, Fits;
    forall x: nat, y: nat | x < s.l.width && y < s.l.height
      ensures PixelLaid(s.l, memory, x, y, ColourAt(s, pictures, p, x, y))
    {
      PixelIsDisplayed(s, pictures, memory, t, p, x, y);
      PixelIsLaid(s.l, memory, x, y, ColourAt(s, pictures, p, x, y));
    }
  }

  lemma PixelIsDisplayed(s: Screen, pictures: seq<Picture>, memory: seq<u8>, t: Text, p: Page, x: nat, y: nat)
    requires s.Sound() && Fits(s.l, memory) && Draws(s.font, pictures)
    requires ShowsPage(t, p, s.columns, s.rows) && Shows(s, memory, t) && x < s.l.width && y < s.l.height
    ensures PixelOf(s.l, memory, x, y) == Kept(ColourAt(s, pictures, p, x, y), s.l.Bytes())
  {
    hide Draws, PixelOf, Fits, Kept, GlyphPixel, Ink, Layout.Sound, Font.Sound, Screen.InCells, Screen.InCell;
    CellOfPixel(s, x, y);
    var r, c := y / s.font.height, x / s.font.width;
    assert s.l.Inside(x, y);
    if s.InCells(x, y) {
      assert ShowsAt(s, memory, t, x, y, r, c);
      assert CellShows(t, p, s.rows, r, c);
      FontIsSized(s.font);
      if t.grid[r][c].Drawn? {
        GlyphIsPicture(s.font, pictures, t.grid[r][c].character, x % s.font.width, y % s.font.height);
      }
    }
  }

  lemma FontIsSized(font: Font)
    requires font.Sound()
    ensures font.width > 0 && font.height > 0
  {
  }

  /** A terminal cleared and typed on: every byte of every pixel is as the page says. */
  method Type(terminal: Terminal, commands: seq<Command>, ghost pictures: seq<Picture>)
    requires terminal.Fitted() && Draws(terminal.font, pictures)
    modifies terminal`column, terminal`row, terminal`grid, terminal`foreground, terminal.fb.memory
    ensures terminal.Valid()
    ensures Displays(terminal.Shape(), pictures, terminal.fb.memory[..],
      Typeset(Page(map[], 0, 0, old(terminal.foreground)), terminal.columns, commands))
  {
    hide Draws, ShowsPage, Shows, Displays, Typeset, Performed, Layout.Sound, Font.Sound;
    ghost var colour := terminal.foreground;
    terminal.Clear();
    terminal.Perform(commands);
    ScreenShowsPage(terminal.columns, terminal.rows, colour, commands);
    ShownIsDisplayed(terminal.Shape(), pictures, terminal.fb.memory[..], terminal.State(),
      Typeset(Page(map[], 0, 0, colour), terminal.columns, commands));
  }
}
