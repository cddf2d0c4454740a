/** What is on the glass: pixels after a byte stream, in font bits and RGB values. */
module ConsolePixels {
  import opened Terminal
  import opened TerminalTheorems
  import opened TerminalLaws
  import opened TextConsole

  /** The eight ANSI colours by component: red for odd numbers, green for 2, 3, 6 and 7, blue from 4
      up, each at 0xAA, except that the green of 3 is 0x55. */
  function Rgb(i: nat): nat {
    var red := if i % 2 == 1 then 0xAA else 0;
    var green := if i == 3 then 0x55 else if i / 2 % 2 == 1 then 0xAA else 0;
    var blue := if i >= 4 then 0xAA else 0;
    0x1_0000 * red + 0x100 * green + blue
  }

  /** The font's leftmost pixel is the lowest bit of a row. */
  function BitWeight(gx: nat): (p: nat)
    requires gx < 8
    ensures p > 0
  {
    [1, 2, 4, 8, 16, 32, 64, 128][gx]
  }

  /** The font bit of a printable character at row gy, column gx. */
  predicate Inked(font: Font, ch: nat, gy: nat, gx: nat)
    requires 0x20 <= ch <= 0x7F && gy < 16 && gx < 8
  {
    font[ch - 0x20][gy] / BitWeight(gx) % 2 == 1
  }

  lemma PaletteIsRgb(i: nat)
    requires i < 8
    ensures Palette(i) == Rgb(i)
  {
  }

  lemma LitIsInked(font: Font, ch: nat, gy: nat, gx: nat)
    requires 0x20 <= ch <= 0x7F && gy < 16 && gx < 8
    ensures Lit(font, ch, gy, gx) == Inked(font, ch, gy, gx)
  {
    assert Alu.Pow2(1) == 2 && Alu.Pow2(2) == 4 && Alu.Pow2(3) == 8 && Alu.Pow2(4) == 16;
    assert Alu.Pow2(5) == 32 && Alu.Pow2(6) == 64 && Alu.Pow2(7) == 128;
    assert Alu.Pow2(gx) == BitWeight(gx);
  }

  /** Every pixel of every cell that shows a printable character: ink in the foreground, the rest
      in the background. */
  lemma CellPixel(con: Console, r: nat, c: nat, gy: nat, gx: nat)
    requires con.Valid() && r < con.rows && c < con.cols && gy < 16 && gx < 8
    requires 0x20 <= con.grid[r][c].ch <= 0x7F
    ensures con.grid[r][c].fg < 8 && con.grid[r][c].bg < 8
    ensures 16 * r + gy < con.heightPx && 8 * c + gx < con.widthPx
    ensures var cell := con.grid[r][c];
      con.pixels[16 * r + gy, 8 * c + gx] == Rgb(if Inked(con.font, cell.ch, gy, gx) then cell.fg else cell.bg)
  {
    hide Palette, Lit, Inked, Legal, Rgb;
    var cell, y, x := con.grid[r][c], 16 * r + gy, 8 * c + gx;
    assert y / 16 == r && y % 16 == gy && x / 8 == c && x % 8 == gx;
    assert con.pixels[y, x] == Shade(con.font, con.grid, con.rows, con.cols, y, x);
    LitIsInked(con.font, cell.ch, gy, gx);
    PaletteIsRgb(cell.fg);
    PaletteIsRgb(cell.bg);
  }

  /** Where a printable byte goes: under the cursor, or to the start of the next line when a wrap is
      pending. */
  lemma PlacedAt(t: Term, b: nat)
    requires Legal(t) && t.parser.Ground? && 0x20 <= b <= 0x7E
    ensures var u := Outs(t, [b]).0; var r := if t.wrap then Least(t.row + 1, t.rows - 1) else t.row;
      var c := if t.wrap then 0 else t.col;
      Follows(t, u) && u.grid[r][c] == Cell(b, t.fg, t.bg)
  {
    hide Outs;
    OneByte(t, b);
  }

  /** The 128 pixels of the cell at (r, c) show `ch` in these two colours. */
  ghost predicate Shows(con: Console, r: nat, c: nat, ch: nat, fg: nat, bg: nat)
    requires con.Sized() && r < con.rows && c < con.cols && 0x20 <= ch <= 0x7F
    reads con.pixels
  {
    forall gy, gx :: 0 <= gy < 16 && 0 <= gx < 8 ==>
      con.pixels[16 * r + gy, 8 * c + gx] == if Inked(con.font, ch, gy, gx) then Rgb(fg) else Rgb(bg)
  }

  lemma CellShows(con: Console, r: nat, c: nat)
    requires con.Valid() && r < con.rows && c < con.cols && 0x20 <= con.grid[r][c].ch <= 0x7F
    ensures Shows(con, r, c, con.grid[r][c].ch, con.grid[r][c].fg, con.grid[r][c].bg)
  {
    hide Inked, Rgb, Legal;
    forall gy, gx | 0 <= gy < 16 && 0 <= gx < 8
      ensures con.pixels[16 * r + gy, 8 * c + gx]
        == Rgb(if Inked(con.font, con.grid[r][c].ch, gy, gx) then con.grid[r][c].fg else con.grid[r][c].bg)
    {
      CellPixel(con, r, c, gy, gx);
    }
  }

  predicate Inkless(rows: seq<nat>) {
    forall i :: 0 <= i < |rows| ==> rows[i] == 0
  }

  /** A glyph without ink leaves all 128 pixels in the background. */
  lemma BlankShows(con: Console, r: nat, c: nat, ch: nat, fg: nat, bg: nat)
    requires con.Sized() && r < con.rows && c < con.cols && 0x20 <= ch <= 0x7F && Shows(con, r, c, ch, fg, bg)
    requires Inkless(con.font[ch - 0x20])
    ensures forall y, x :: 0 <= y < con.heightPx && 0 <= x < con.widthPx && y / 16 == r && x / 8 == c ==>
      con.pixels[y, x] == Rgb(bg)
  {
    hide Rgb;
    forall y, x | 0 <= y < con.heightPx && 0 <= x < con.widthPx && y / 16 == r && x / 8 == c
      ensures con.pixels[y, x] == Rgb(bg)
    {
      var gy, gx := y % 16, x % 8;
      assert 16 * r + gy == y && 8 * c + gx == x;
      ZeroDivides(BitWeight(gx));
      assert !Inked(con.font, ch, gy, gx);
    }
  }

  lemma ZeroDivides(p: nat)
    requires p > 0
    ensures 0 / p % 2 == 0
  {
  }

  /** Writing a printable byte paints its cell, in the colours that are current. */
  method WriteGlyph(con: Console, b: nat) returns (r: nat, c: nat)
    requires con.Valid() && con.pstate == 0 && 0x20 <= b <= 0x7E
    modifies con, con.pixels, con.glyph, con.attr, con.param
    ensures con.Valid() && r < con.rows && c < con.cols
    ensures (r, c) == if !old(con.wrapPending) then (old(con.row), old(con.col))
      else (if old(con.row) + 1 < con.rows then old(con.row) + 1 else old(con.row), 0)
    ensures Shows(con, r, c, b, old(con.fg), old(con.bg))
  {
    hide Shows, con.Painted, con.Holds, Outs;
    r, c := con.row, con.col;
    if con.wrapPending {
      r, c := if con.row + 1 < con.rows then con.row + 1 else con.row, 0;
    }
    PlacedAt(con.View(), b);
    con.WriteOut([b]);
    CellShows(con, r, c);
  }

  /** ESC[3Xm ESC[4Ym and a printable byte: its cell shows the table's colours X on Y. */
  method WriteColoured(con: Console, x: nat, y: nat, b: nat) returns (r: nat, c: nat)
    requires con.Valid() && con.pstate == 0 && x < 8 && y < 8 && 0x20 <= b <= 0x7E
    modifies con, con.pixels, con.glyph, con.attr, con.param
    ensures con.Valid() && r < con.rows && c < con.cols
    ensures !old(con.wrapPending) ==> (r, c) == (old(con.row), old(con.col))
    ensures Shows(con, r, c, b, x, y)
  {
    hide Shows, con.Painted, con.Holds, Outs, Legal;
    ghost var t := con.View();
    ColourCodes(t, x);
    con.WriteOut([0x1B, 0x5B] + [0x33, 0x30 + x] + [0x6D]);
    assert con.View() == t.(fg := x);
    ColourCodes(con.View(), y);
    con.WriteOut([0x1B, 0x5B] + [0x34, 0x30 + y] + [0x6D]);
    assert con.View() == t.(fg := x, bg := y);
    r, c := WriteGlyph(con, b);
  }

  /** A new console with an inkless space glyph is black from edge to edge. */
  method PowerUp(font: Font, widthPx: nat, heightPx: nat) returns (con: Console)
    requires widthPx >= 8 && heightPx >= 16 && Inkless(font[0])
    ensures con.Valid() && fresh(con) && con.pixels.Length0 == heightPx && con.pixels.Length1 == widthPx
    ensures forall y, x :: 0 <= y < heightPx && 0 <= x < widthPx ==> con.pixels[y, x] == 0
  {
    con := new Console(font, widthPx, heightPx);
    forall y, x | 0 <= y < heightPx && 0 <= x < widthPx
      ensures con.pixels[y, x] == 0
    {
      BlackStart(con, y, x);
    }
  }

  lemma BlackStart(con: Console, y: nat, x: nat)
    requires con.Valid() && y < con.heightPx && x < con.widthPx && con.grid == Start(con.rows, con.cols).grid
    requires Inkless(con.font[0])
    ensures con.pixels[y, x] == 0
  {
    hide Palette, Lit, Legal;
    assert con.pixels[y, x] == Shade(con.font, con.grid, con.rows, con.cols, y, x);
    if y / 16 < con.rows && x / 8 < con.cols {
      LitIsInked(con.font, 0x20, y % 16, x % 8);
      ZeroDivides(BitWeight(x % 8));
      PaletteIsRgb(0);
    }
  }
}
