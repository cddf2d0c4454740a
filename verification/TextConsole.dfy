/** The host text console: glyph, attribute and pixel buffers updated in place, byte by byte. */
module TextConsole {
  import opened Terminal
  import Alu

  const FONT_W: nat := 8
  const FONT_H: nat := 16
  const FONT_FIRST: nat := 0x20
  const FONT_LAST: nat := 0x7F

  function Palette(i: nat): nat {
    if i == 0 then 0x000000 else if i == 1 then 0xAA0000 else if i == 2 then 0x00AA00 else if i == 3 then 0xAA5500
    else if i == 4 then 0x0000AA else if i == 5 then 0xAA00AA else if i == 6 then 0x00AAAA else 0xAAAAAA
  }

  type Font = f: seq<seq<nat>> | |f| == 96 && forall i :: 0 <= i < 96 ==> |f[i]| == 16
    witness seq(96, _ => seq(16, _ => 0))

  /** Whether a character's bitmap is set at (gy, gx); characters outside the font are blank. */
  predicate Lit(font: Font, ch: nat, gy: nat, gx: nat)
    requires gy < 16 && gx < 8
  {
    var known := if FONT_FIRST <= ch <= FONT_LAST then ch else 0x20;
    font[known - FONT_FIRST][gy] / Alu.Pow2(gx) % 2 == 1
  }

  /** The pixel at (y, x) of a full render of the grid; the margin right and below is black. */
  function Shade(font: Font, g: Grid, rows: nat, cols: nat, y: nat, x: nat): nat
    requires Shaped(g, rows, cols)
  {
    if y / 16 < rows && x / 8 < cols then
      var cell := g[y / 16][x / 8];
      Palette(if Lit(font, cell.ch, y % 16, x % 8) then cell.fg else cell.bg)
    else 0
  }

  function Start(rows: nat, cols: nat): (t: Term)
    requires 1 <= rows && 1 <= cols
    ensures Legal(t)
  {
    Term(rows, cols, seq(rows, _ => seq(cols, _ => Cell(0x20, 7, 0))), 0, 0, false, 7, 0, true, Ground)
  }

  class Console {
    const font: Font
    const widthPx: nat
    const heightPx: nat
    const cols: nat
    const rows: nat
    const pixels: array2<nat>
    const glyph: array2<nat>
    const attr: array2<nat>
    const param: array<nat>
    var row: int
    var col: int
    var wrapPending: bool
    var fg: nat
    var bg: nat
    var pstate: nat
    var pidx: nat
    var pseen: bool
    var priv: bool
    var cursorVisible: bool
    /** Bytes waiting on the input stream. */
    var delivered: seq<nat>
    /** The cells the glyph and attribute buffers hold. */
    ghost var grid: Grid

    ghost predicate Sized() {
      && 1 <= cols && 1 <= rows && cols == widthPx / FONT_W && rows == heightPx / FONT_H
      && pixels.Length0 == heightPx && pixels.Length1 == widthPx
      && glyph.Length0 == rows && glyph.Length1 == cols
      && attr.Length0 == rows && attr.Length1 == cols
      && pixels != glyph && pixels != attr && glyph != attr
      && param.Length == MAX_PARAMS
    }

    ghost predicate Holds(g: Grid)
      requires Sized()
      reads glyph, attr
    {
      && Shaped(g, rows, cols)
      && forall r, c :: 0 <= r < rows && 0 <= c < cols ==>
        glyph[r, c] == g[r][c].ch && g[r][c].fg < 8 && g[r][c].bg < 8 && attr[r, c] == g[r][c].bg * 16 + g[r][c].fg
    }

    ghost predicate Painted(g: Grid)
      requires Sized() && Shaped(g, rows, cols)
      reads pixels
    {
      forall y, x :: 0 <= y < heightPx && 0 <= x < widthPx ==> pixels[y, x] == Shade(font, g, rows, cols, y, x)
    }

    function Parsing(): Parser
      requires param.Length == MAX_PARAMS && pidx < MAX_PARAMS
      reads `pstate, `pidx, `pseen, `priv, param
    {
      if pstate == 0 then Ground else if pstate == 1 then Escape else Csi(param[..pidx + 1], pseen, priv)
    }

    ghost function View(): Term
      requires param.Length == MAX_PARAMS && pidx < MAX_PARAMS
      reads this, param
    {
      Term(rows, cols, grid, row, col, wrapPending, fg, bg, cursorVisible, Parsing())
    }

    ghost predicate Valid()
      reads this, pixels, glyph, attr, param
    {
      && Sized() && pidx < MAX_PARAMS && pstate <= 2
      && Legal(View()) && Holds(grid) && Painted(grid)
    }

    method RenderCell(r: nat, c: nat)
      requires Sized() && Holds(grid) && r < rows && c < cols
      modifies pixels
      ensures forall y, x :: 0 <= y < heightPx && 0 <= x < widthPx ==>
        pixels[y, x] == if y / 16 == r && x / 8 == c then Shade(font, grid, rows, cols, y, x) else old(pixels[y, x])
    {
      hide Palette, Alu.Pow2;
      var ch, a := glyph[r, c], attr[r, c];
      var front, back := Palette(a % 8), Palette(a / 16 % 8);
      if ch < FONT_FIRST || ch > FONT_LAST {
        ch := 0x20;
      }
      var idx := ch - FONT_FIRST;
      for gy := 0 to FONT_H
        invariant forall y, x :: 0 <= y < heightPx && 0 <= x < widthPx ==>
          pixels[y, x] == if y / 16 == r && y % 16 < gy && x / 8 == c
                          then Shade(font, grid, rows, cols, y, x) else old(pixels[y, x])
      {
        var bits := font[idx][gy];
        for gx := 0 to FONT_W
          invariant forall y, x :: 0 <= y < heightPx && 0 <= x < widthPx ==>
            pixels[y, x] == if y / 16 == r && x / 8 == c && (y % 16 < gy || (y % 16 == gy && x % 8 < gx))
                            then Shade(font, grid, rows, cols, y, x) else old(pixels[y, x])
        {
          pixels[r * FONT_H + gy, c * FONT_W + gx] := if bits / Alu.Pow2(gx) % 2 == 1 then front else back;
        }
      }
    }

    /** Rewrites one cell of all three buffers. */
    method SetCell(r: nat, c: nat, ch: nat)
      requires Sized() && Holds(grid) && Painted(grid) && r < rows && c < cols && fg < 8 && bg < 8
      modifies pixels, glyph, attr, `grid
      ensures Holds(grid) && Painted(grid)
      ensures grid == old(grid)[r := old(grid)[r][c := Cell(ch, fg, bg)]]
    {
      hide Palette, Lit;
      glyph[r, c] := ch;
      attr[r, c] := bg * 16 + fg;
      grid := grid[r := grid[r][c := Cell(ch, fg, bg)]];
      RenderCell(r, c);
    }

    /** Blanks columns `lo` up to `hi` of one row. */
    method ClearSpan(r: nat, lo: nat, hi: nat)
      requires Sized() && Holds(grid) && Painted(grid) && r < rows && lo <= hi <= cols && fg < 8 && bg < 8
      modifies pixels, glyph, attr, `grid
      ensures Holds(grid) && Painted(grid)
      ensures forall i, j :: 0 <= i < rows && 0 <= j < cols ==>
        grid[i][j] == if i == r && lo <= j < hi then Cell(0x20, fg, bg) else old(grid)[i][j]
    {
      hide Painted;
      for c := lo to hi
        invariant Holds(grid) && Painted(grid)
        invariant forall i, j :: 0 <= i < rows && 0 <= j < cols ==>
          grid[i][j] == if i == r && lo <= j < c then Cell(0x20, fg, bg) else old(grid)[i][j]
      {
        SetCell(r, c, 0x20);
      }
    }

    method ClearRows(lo: nat, hi: nat)
      requires Sized() && Holds(grid) && Painted(grid) && lo <= hi <= rows && fg < 8 && bg < 8
      modifies pixels, glyph, attr, `grid
      ensures Holds(grid) && Painted(grid)
      ensures forall i, j :: 0 <= i < rows && 0 <= j < cols ==>
        grid[i][j] == if lo <= i < hi then Cell(0x20, fg, bg) else old(grid)[i][j]
    {
      hide Painted;
      for r := lo to hi
        invariant Holds(grid) && Painted(grid)
        invariant forall i, j :: 0 <= i < rows && 0 <= j < cols ==>
          grid[i][j] == if lo <= i < r then Cell(0x20, fg, bg) else old(grid)[i][j]
      {
        ClearSpan(r, 0, cols);
      }
    }

    /** ESC[J and ESC[K. */
    method Erase(final: nat, mode: nat)
      requires Valid() && (final == 0x4A || final == 0x4B)
      modifies pixels, glyph, attr, `grid
      ensures Holds(grid) && Painted(grid) && grid == Erased(old(View()), RegionOf(final, mode))
    {
      hide Painted;
      if mode == 0 {
        ClearSpan(row, col, cols);
        if final == 0x4A {
          ClearRows(row + 1, rows);
        }
      } else if mode == 1 {
        if final == 0x4A {
          ClearRows(0, row);
        }
        ClearSpan(row, 0, col + 1);
      } else if mode == 2 {
        if final == 0x4A {
          ClearRows(0, rows);
        } else {
          ClearSpan(row, 0, cols);
        }
      }
      SameGrid(grid, Erased(old(View()), RegionOf(final, mode)), rows, cols);
    }

    /** Copies every row over the one above it and blanks the last. */
    method ShiftUp()
      requires Sized() && Holds(grid) && fg < 8 && bg < 8
      modifies glyph, attr, `grid
      ensures Holds(grid) && grid == Scrolled(old(grid), cols, Cell(0x20, fg, bg))
    {
      for r := 0 to rows - 1
        invariant grid == old(grid)
        invariant forall i, j :: 0 <= i < rows && 0 <= j < cols ==>
          && glyph[i, j] == old(glyph[if i < r then i + 1 else i, j])
          && attr[i, j] == old(attr[if i < r then i + 1 else i, j])
      {
        for c := 0 to cols
          invariant grid == old(grid)
          invariant forall i, j :: 0 <= i < rows && 0 <= j < cols ==>
            && glyph[i, j] == old(glyph[if i < r || (i == r && j < c) then i + 1 else i, j])
            && attr[i, j] == old(attr[if i < r || (i == r && j < c) then i + 1 else i, j])
        {
          glyph[r, c] := glyph[r + 1, c];
          attr[r, c] := attr[r + 1, c];
        }
      }
      for c := 0 to cols
        invariant forall i, j :: 0 <= i < rows - 1 && 0 <= j < cols ==>
          glyph[i, j] == old(glyph[i + 1, j]) && attr[i, j] == old(attr[i + 1, j])
        invariant forall i, j :: i == rows - 1 && 0 <= j < c ==> glyph[i, j] == 0x20 && attr[i, j] == bg * 16 + fg
        invariant grid == old(grid)
      {
        glyph[rows - 1, c] := 0x20;
        attr[rows - 1, c] := bg * 16 + fg;
      }
      grid := Scrolled(grid, cols, Cell(0x20, fg, bg));
    }

    method Repaint()
      requires Sized() && Holds(grid)
      requires forall y, x :: 0 <= y < heightPx && 0 <= x < widthPx && (y / 16 >= rows || x / 8 >= cols) ==>
        pixels[y, x] == 0
      modifies pixels
      ensures Painted(grid)
    {
      hide Palette, Lit;
      for r := 0 to rows
        invariant forall y, x :: 0 <= y < heightPx && 0 <= x < widthPx ==>
          pixels[y, x] == if y / 16 < r && x / 8 < cols
                          then Shade(font, grid, rows, cols, y, x) else old(pixels[y, x])
      {
        for c := 0 to cols
          invariant forall y, x :: 0 <= y < heightPx && 0 <= x < widthPx ==>
            pixels[y, x] == if (y / 16 < r && x / 8 < cols) || (y / 16 == r && x / 8 < c)
                            then Shade(font, grid, rows, cols, y, x) else old(pixels[y, x])
        {
          RenderCell(r, c);
        }
      }
    }

    method ScrollUp()
      requires Sized() && Holds(grid) && Painted(grid) && fg < 8 && bg < 8
      modifies pixels, glyph, attr, `grid
      ensures Holds(grid) && Painted(grid) && grid == Scrolled(old(grid), cols, Cell(0x20, fg, bg))
    {
      ShiftUp();
      Repaint();
    }

    method NewLine()
      requires Valid()
      modifies this, pixels, glyph, attr
      ensures Valid() && View() == NextLine(old(View())) && delivered == old(delivered)
      ensures pstate == old(pstate) && pidx == old(pidx) && pseen == old(pseen) && priv == old(priv)
    {
      hide Painted, Holds;
      wrapPending, col, row := false, 0, row + 1;
      if row >= rows {
        row := rows - 1;
        ScrollUp();
      }
    }

    method PlaceGlyph(ch: nat)
      requires Valid()
      modifies pixels, glyph, attr, `grid, `col, `wrapPending
      ensures Valid() && View() == Place(old(View()), ch)
    {
      hide Painted, Holds;
      PlaceLegal(View(), ch);
      SetCell(row, col, ch);
      if col >= cols - 1 {
        wrapPending := true;
      } else {
        col := col + 1;
      }
    }

    method PutGlyph(ch: nat)
      requires Valid()
      modifies this, pixels, glyph, attr
      ensures Valid() && View() == Put(old(View()), ch) && delivered == old(delivered)
    {
      hide Painted, Holds, Legal, Place, NextLine, Parsing;
      NextLineLegal(View());
      if wrapPending {
        NewLine();
      }
      PlaceGlyph(ch);
    }

    /** The colour codes of ESC[m. */
    method SelectGraphics()
      requires param.Length == MAX_PARAMS && pidx < MAX_PARAMS && fg < 8 && bg < 8
      modifies `fg, `bg
      ensures fg < 8 && bg < 8
      ensures (fg, bg) == if pseen then Colours(old(fg), old(bg), param[..pidx + 1]) else (7, 0)
    {
      if !pseen {
        fg, bg := 7, 0;
        return;
      }
      ghost var ps := param[..pidx + 1];
      assert ps[0..] == ps;
      for i := 0 to pidx + 1
        invariant fg < 8 && bg < 8 && Colours(old(fg), old(bg), ps) == Colours(fg, bg, ps[i..])
      {
        var p := param[i];
        assert ps[i..][0] == p && ps[i..][1..] == ps[i + 1..];
        if p == 0 {
          fg, bg := 7, 0;
        } else if 30 <= p <= 37 {
          fg := p - 30;
        } else if 40 <= p <= 47 {
          bg := p - 40;
        }
      }
    }

    /** At most eight digits, least significant first. */
    static method MakeDigits(number: nat) returns (tmp: array<nat>, k: nat)
      ensures fresh(tmp) && k <= tmp.Length && Backwards(tmp[..k]) == Printed(number)
    {
      hide Digits, Undone;
      tmp := new nat[8];
      tmp[0] := 0x30 + number % 10;
      assert tmp[..1] == [0x30 + number % 10];
      FirstDigit(number, tmp[..1]);
      k := 1;
      var v: nat := number / 10;
      while v > 0 && k < 8
        invariant 1 <= k <= 8 && Digits(number) == Undone(v) + Backwards(tmp[..k])
      {
        ghost var made := tmp[..k];
        tmp[k] := 0x30 + v % 10;
        assert tmp[..k + 1] == made + [0x30 + v % 10];
        UndoneStep(v, made);
        k, v := k + 1, v / 10;
      }
      MadeIsPrinted(number, v, Backwards(tmp[..k]));
    }

    method PushDec(number: nat)
      modifies `delivered
      ensures delivered == old(delivered) + Printed(number)
    {
      hide Printed;
      var tmp, k := MakeDigits(number);
      ghost var made := Backwards(tmp[..k]);
      while k > 0
        invariant k <= tmp.Length && delivered + Backwards(tmp[..k]) == old(delivered) + made
      {
        k := k - 1;
        assert tmp[..k + 1] == tmp[..k] + [tmp[k]];
        assert delivered + ([tmp[k]] + Backwards(tmp[..k])) == delivered + [tmp[k]] + Backwards(tmp[..k]);
        delivered := delivered + [tmp[k]];
      }
    }

    method ReportCursor()
      requires row >= 0 && col >= 0
      modifies `delivered
      ensures delivered == old(delivered) + Report(row + 1, col + 1, 0x52)
    {
      hide Printed;
      delivered := delivered + [ESC, BRACKET];
      PushDec(row + 1);
      delivered := delivered + [SEMICOLON];
      PushDec(col + 1);
      delivered := delivered + [0x52];
    }

    /** ESC[H and ESC[f. */
    method MoveTo(final: nat)
      requires Sized() && pidx < MAX_PARAMS && Legal(View()) && pstate == 2 && (final == 0x48 || final == 0x66)
      modifies `row, `col, `wrapPending
      ensures (View().(parser := Ground), []) == Dispatch(old(View()), final)
    {
      hide Erased, Colours, Report;
      wrapPending := false;
      var rr := if pseen then param[0] else 1;
      var cc := if pidx + 1 >= 2 then param[1] else 1;
      if rr < 1 { rr := 1; }
      if cc < 1 { cc := 1; }
      row, col := rr - 1, cc - 1;
      if row > rows - 1 { row := rows - 1; }
      if col > cols - 1 { col := cols - 1; }
    }

    /** ESC[A up, ESC[B down, ESC[C right, ESC[D left. */
    method MoveBy(final: nat)
      requires Sized() && pidx < MAX_PARAMS && Legal(View()) && pstate == 2 && 0x41 <= final <= 0x44
      modifies `row, `col, `wrapPending
      ensures (View().(parser := Ground), []) == Dispatch(old(View()), final)
    {
      hide Erased, Colours, Report;
      wrapPending := false;
      var n := param[0];
      if !pseen || n == 0 { n := 1; }
      if final == 0x41 {
        row := row - n;
        if row < 0 { row := 0; }
      } else if final == 0x42 {
        row := row + n;
        if row > rows - 1 { row := rows - 1; }
      } else if final == 0x43 {
        col := col + n;
        if col > cols - 1 { col := cols - 1; }
      } else {
        col := col - n;
        if col < 0 { col := 0; }
      }
    }

    /** Cursor visibility, colours and the cursor report. */
    method CsiSetting(final: nat)
      requires Valid() && pstate == 2 && (final == 0x68 || final == 0x6C || final == 0x6D || final == 0x6E)
      modifies `cursorVisible, `fg, `bg, `delivered
      ensures View().(parser := Ground) == Dispatch(old(View()), final).0
      ensures delivered == old(delivered) + Dispatch(old(View()), final).1
    {
      hide Painted, Holds, Erased, Colours, Report, RegionOf;
      var n := param[0];
      if final == 0x68 {
        if priv && n == 25 { cursorVisible := true; }
      } else if final == 0x6C {
        if priv && n == 25 { cursorVisible := false; }
      } else if final == 0x6D {
        SelectGraphics();
      } else {
        if !priv && n == 6 { ReportCursor(); }
      }
    }

    method CsiDispatch(final: nat)
      requires Valid() && pstate == 2
      modifies this, pixels, glyph, attr
      ensures Valid() && pstate == 0
      ensures View() == Dispatch(old(View()), final).0
      ensures delivered == old(delivered) + Dispatch(old(View()), final).1
    {
      hide Painted, Holds, Erased, Colours, Report, RegionOf;
      DispatchKeepsLegal(View(), final);
      if 0x41 <= final <= 0x44 {
        MoveBy(final);
      } else if final == 0x48 || final == 0x66 {
        MoveTo(final);
      } else if final == 0x4A || final == 0x4B {
        Erase(final, if pseen then param[0] else 0);
      } else if final == 0x68 || final == 0x6C || final == 0x6D || final == 0x6E {
        CsiSetting(final);
      }
      pstate := 0;
    }

    /** One output byte while text is being shown. */
    method GroundByte(b: nat)
      requires Valid() && pstate == 0
      modifies this, pixels, glyph, attr
      ensures Valid() && View() == Out(old(View()), b).0 && Out(old(View()), b).1 == []
      ensures delivered == old(delivered)
    {
      hide Painted, Holds, Put, NextLine, Dispatch;
      OutKeepsLegal(View(), b);
      if b == ESC {
        pstate := 1;
      } else if b == 0x0D {
        wrapPending, col := false, 0;
      } else if b == 0x0A {
        NewLine();
      } else if b == 0x08 {
        wrapPending := false;
        if col > 0 { col := col - 1; }
      } else if b == 0x09 {
        wrapPending := false;
        var nc := col - col % 8 + 8;
        if nc > cols - 1 { nc := cols - 1; }
        col := nc;
      } else if 0x20 <= b <= 0x7E {
        PutGlyph(b);
      }
    }

    /** One byte of a control sequence. */
    method CsiByte(b: nat)
      requires Valid() && pstate == 2
      modifies this, pixels, glyph, attr, param
      ensures Valid() && View() == Out(old(View()), b).0 && delivered == old(delivered) + Out(old(View()), b).1
    {
      hide Painted, Holds, Put, NextLine, Dispatch;
      OutKeepsLegal(View(), b);
      if b == 0x3F {
        priv := true;
      } else if 0x30 <= b <= 0x39 {
        param[pidx] := param[pidx] * 10 + (b - 0x30);
        pseen := true;
      } else if b == SEMICOLON {
        if pidx < 7 {
          pidx := pidx + 1;
          param[pidx] := 0;
          assert param[..pidx + 1] == old(param[..pidx + 1]) + [0];
        }
      } else {
        CsiDispatch(b);
      }
    }

    method OutByte(b: nat)
      requires Valid()
      modifies this, pixels, glyph, attr, param
      ensures Valid() && View() == Out(old(View()), b).0 && delivered == old(delivered) + Out(old(View()), b).1
    {
      hide Painted, Holds, Put, NextLine, Dispatch;
      if pstate == 0 {
        GroundByte(b);
      } else if pstate == 1 {
        if b == BRACKET {
          pstate, pidx, pseen, priv := 2, 0, false, false;
          param[0] := 0;
          assert param[..1] == [0];
        } else {
          pstate := 0;
        }
      } else {
        CsiByte(b);
      }
    }

    /** Any byte stream: the terminal is the specified one, the pixel buffer is a full render of
        its grid, and the answers are queued in order. */
    method WriteOut(bytes: seq<nat>)
      requires Valid()
      modifies this, pixels, glyph, attr, param
      ensures Valid() && View() == Outs(old(View()), bytes).0
      ensures delivered == old(delivered) + Outs(old(View()), bytes).1
    {
      hide Painted, Holds, Out, Legal, Parsing;
      assert bytes[0..] == bytes;
      for i := 0 to |bytes|
        invariant Valid()
        invariant var (u, more) := Outs(View(), bytes[i..]);
          Outs(old(View()), bytes).0 == u && old(delivered) + Outs(old(View()), bytes).1 == delivered + more
      {
        ghost var was, queue := View(), delivered;
        assert bytes[i..][0] == bytes[i] && bytes[i..][1..] == bytes[i + 1..];
        OutByte(bytes[i]);
        ghost var (u, more) := Outs(View(), bytes[i + 1..]);
        assert queue + (Out(was, bytes[i]).1 + more) == delivered + more;
      }
    }

    /** A blank screen, light grey on black. */
    constructor (font: Font, widthPx: nat, heightPx: nat)
      requires widthPx >= FONT_W && heightPx >= FONT_H
      ensures Valid() && fresh(pixels) && fresh(glyph) && fresh(attr) && fresh(param)
      ensures View() == Start(heightPx / FONT_H, widthPx / FONT_W) && delivered == []
      ensures this.font == font && this.widthPx == widthPx && this.heightPx == heightPx
    {
      this.font, this.widthPx, this.heightPx := font, widthPx, heightPx;
      cols, rows := widthPx / FONT_W, heightPx / FONT_H;
      pixels := new nat[heightPx, widthPx]((_, _) => 0);
      glyph := new nat[heightPx / FONT_H, widthPx / FONT_W]((_, _) => 0x20);
      attr := new nat[heightPx / FONT_H, widthPx / FONT_W]((_, _) => 7);
      param := new nat[MAX_PARAMS](_ => 0);
      row, col, wrapPending, fg, bg, cursorVisible := 0, 0, false, 7, 0, true;
      pstate, pidx, pseen, priv, delivered := 0, 0, false, false, [];
      grid := Start(heightPx / FONT_H, widthPx / FONT_W).grid;
      new;
      Repaint();
    }
  }

  /** A sequence read from its last element. */
  function Backwards(s: seq<nat>): (r: seq<nat>)
    ensures |r| == |s| && forall i :: 0 <= i < |s| ==> r[i] == s[|s| - 1 - i]
  {
    if s == [] then [] else [s[|s| - 1]] + Backwards(s[..|s| - 1])
  }

  /** The digits still to be made when the quotient is `v`. */
  function Undone(v: nat): seq<nat> { if v > 0 then Digits(v) else [] }

  lemma FirstDigit(v: nat, made: seq<nat>)
    requires made == [0x30 + v % 10]
    ensures Digits(v) == Undone(v / 10) + Backwards(made)
  {
    assert Backwards(made) == made;
  }

  lemma UndoneStep(v: nat, made: seq<nat>)
    requires v > 0
    ensures Undone(v) + Backwards(made) == Undone(v / 10) + Backwards(made + [0x30 + v % 10])
  {
    hide Backwards;
    var d := [0x30 + v % 10];
    assert Undone(v) == Undone(v / 10) + d;
    assert Backwards(made + d) == d + Backwards(made);
    assert Undone(v / 10) + d + Backwards(made) == Undone(v / 10) + (d + Backwards(made));
  }

  lemma MadeIsPrinted(number: nat, v: nat, made: seq<nat>)
    requires Digits(number) == Undone(v) + made && |made| <= 8 && (v == 0 || |made| == 8)
    ensures made == Printed(number)
  {
    hide Digits;
    if v > 0 {
      assert |Digits(number)| > 8;
    } else {
      assert Undone(v) == [];
    }
  }

  lemma SameGrid(g: Grid, h: Grid, rows: nat, cols: nat)
    requires Shaped(g, rows, cols) && Shaped(h, rows, cols)
    requires forall r, c :: 0 <= r < rows && 0 <= c < cols ==> g[r][c] == h[r][c]
    ensures g == h
  {
    forall r | 0 <= r < rows
      ensures g[r] == h[r]
    {
    }
  }
}
