/** The text console's terminal as a value: a grid of cells, a cursor with a deferred wrap, and
    an escape-sequence parser. One byte in, a new terminal and the bytes it answers with out. */
module Terminal {

  datatype Cell = Cell(ch: nat, fg: nat, bg: nat)

  type Grid = seq<seq<Cell>>

  datatype Parser = Ground | Escape | Csi(params: seq<nat>, seen: bool, priv: bool)

  datatype Term = Term(
    rows: nat, cols: nat, grid: Grid, row: int, col: int, wrap: bool, fg: nat, bg: nat, visible: bool, parser: Parser)

  const ESC: nat := 0x1B
  const BRACKET: nat := 0x5B
  const SEMICOLON: nat := 0x3B
  const MAX_PARAMS: nat := 8

  predicate Shaped(g: Grid, rows: nat, cols: nat) {
    |g| == rows && forall r :: 0 <= r < rows ==> |g[r]| == cols
  }

  /** Every reachable terminal: the cursor is on the grid, at most eight parameters are being
      collected, colours are in range, and a wrap is pending only at the right margin. */
  predicate Legal(t: Term) {
    && 1 <= t.rows && 1 <= t.cols && Shaped(t.grid, t.rows, t.cols)
    && 0 <= t.row < t.rows && 0 <= t.col < t.cols
    && (t.wrap ==> t.col == t.cols - 1)
    && t.fg < 8 && t.bg < 8
    && (t.parser.Csi? ==> 1 <= |t.parser.params| <= MAX_PARAMS)
  }

  // ---- screen operations ------------------------------------------------------------------------------

  function Blank(t: Term): Cell { Cell(0x20, t.fg, t.bg) }

  function Scrolled(g: Grid, cols: nat, blank: Cell): (h: Grid)
    requires g != []
    ensures |h| == |g| && h[|g| - 1] == seq(cols, _ => blank)
    ensures forall r :: 0 <= r < |g| - 1 ==> h[r] == g[r + 1]
  {
    g[1..] + [seq(cols, _ => blank)]
  }

  function NextLine(t: Term): Term
    requires Legal(t)
  {
    if t.row + 1 < t.rows then t.(wrap := false, col := 0, row := t.row + 1)
    else t.(wrap := false, col := 0, grid := Scrolled(t.grid, t.cols, Blank(t)))
  }

  /** A glyph under the cursor; at the right margin the wrap is left pending. */
  function Place(t: Term, ch: nat): Term
    requires Legal(t)
  {
    var painted := t.(grid := t.grid[t.row := t.grid[t.row][t.col := Cell(ch, t.fg, t.bg)]]);
    if t.col < t.cols - 1 then painted.(col := t.col + 1) else painted.(wrap := true)
  }

  lemma NextLineLegal(t: Term)
    requires Legal(t)
    ensures Legal(NextLine(t)) && NextLine(t).rows == t.rows && NextLine(t).cols == t.cols
  {
  }

  /** A pending wrap is honoured first. */
  function Put(t: Term, ch: nat): Term
    requires Legal(t)
  {
    if t.wrap then
      NextLineLegal(t);
      Place(NextLine(t), ch)
    else Place(t, ch)
  }

  datatype Region = Nowhere | Everywhere | FromCursor | ToCursor | Line | LineFromCursor | LineToCursor

  predicate Inside(t: Term, region: Region, r: int, c: int) {
    match region
    case Nowhere => false
    case Everywhere => true
    case FromCursor => r > t.row || (r == t.row && c >= t.col)
    case ToCursor => r < t.row || (r == t.row && c <= t.col)
    case Line => r == t.row
    case LineFromCursor => r == t.row && c >= t.col
    case LineToCursor => r == t.row && c <= t.col
  }

  function Erased(t: Term, region: Region): (g: Grid)
    requires Shaped(t.grid, t.rows, t.cols)
    ensures Shaped(g, t.rows, t.cols)
    ensures forall r, c :: 0 <= r < t.rows && 0 <= c < t.cols ==>
      g[r][c] == if Inside(t, region, r, c) then Blank(t) else t.grid[r][c]
  {
    seq(t.rows, r requires 0 <= r < t.rows =>
      seq(t.cols, c requires 0 <= c < t.cols =>
        if Inside(t, region, r, c) then Blank(t) else t.grid[r][c]))
  }

  function RegionOf(final: nat, mode: nat): Region {
    if final == 0x4A then
      if mode == 0 then FromCursor else if mode == 1 then ToCursor else if mode == 2 then Everywhere else Nowhere
    else
      if mode == 0 then LineFromCursor else if mode == 1 then LineToCursor else if mode == 2 then Line else Nowhere
  }

  function Least(a: int, b: int): int { if a < b then a else b }
  function Most(a: int, b: int): int { if a < b then b else a }

  /** Foreground and background after the colour codes of one SGR sequence. */
  function Colours(fg: nat, bg: nat, params: seq<nat>): (r: (nat, nat))
    requires fg < 8 && bg < 8
    ensures r.0 < 8 && r.1 < 8
    decreases |params|
  {
    if params == [] then (fg, bg)
    else
      var p, rest := params[0], params[1..];
      if p == 0 then Colours(7, 0, rest)
      else if 30 <= p <= 37 then Colours(p - 30, bg, rest)
      else if 40 <= p <= 47 then Colours(fg, p - 40, rest)
      else Colours(fg, bg, rest)
  }

  // ---- decimal ------------------------------------------------------------------------------------------

  /** The decimal digits of `v`, most significant first; at least one. */
  function Digits(v: nat): (ds: seq<nat>)
    ensures |ds| >= 1 && forall i :: 0 <= i < |ds| ==> 0x30 <= ds[i] <= 0x39
  {
    if v < 10 then [0x30 + v] else Digits(v / 10) + [0x30 + v % 10]
  }

  /** The report's number printer keeps the eight least significant digits. */
  function Printed(v: nat): (ds: seq<nat>)
    ensures 1 <= |ds| <= 8 && forall i :: 0 <= i < |ds| ==> 0x30 <= ds[i] <= 0x39
  {
    var ds := Digits(v);
    if |ds| <= 8 then ds else ds[|ds| - 8..]
  }

  function Report(row: nat, col: nat, final: nat): seq<nat> {
    [ESC, BRACKET] + Printed(row) + [SEMICOLON] + Printed(col) + [final]
  }

  // ---- the parser -----------------------------------------------------------------------------------------

  /** A CSI sequence with its final byte: the new terminal, back at ground, and the answer. */
  function Dispatch(t: Term, final: nat): (Term, seq<nat>)
    requires Legal(t) && t.parser.Csi?
  {
    var p := t.parser;
    var first := p.params[0];
    var n := if !p.seen || first == 0 then 1 else first;
    var g := t.(parser := Ground);
    if final == 0x41 then (g.(wrap := false, row := Most(t.row - n, 0)), [])
    else if final == 0x42 then (g.(wrap := false, row := Least(t.row + n, t.rows - 1)), [])
    else if final == 0x43 then (g.(wrap := false, col := Least(t.col + n, t.cols - 1)), [])
    else if final == 0x44 then (g.(wrap := false, col := Most(t.col - n, 0)), [])
    else if final == 0x48 || final == 0x66 then
      var r := Most(if p.seen then first else 1, 1);
      var c := Most(if |p.params| >= 2 then p.params[1] else 1, 1);
      (g.(wrap := false, row := Least(r - 1, t.rows - 1), col := Least(c - 1, t.cols - 1)), [])
    else if final == 0x4A || final == 0x4B then
      (g.(grid := Erased(t, RegionOf(final, if p.seen then first else 0))), [])
    else if final == 0x68 && p.priv && first == 25 then (g.(visible := true), [])
    else if final == 0x6C && p.priv && first == 25 then (g.(visible := false), [])
    else if final == 0x6D then
      var (fg, bg) := if p.seen then Colours(t.fg, t.bg, p.params) else (7, 0);
      (g.(fg := fg, bg := bg), [])
    else if final == 0x6E && !p.priv && first == 6 then (g, Report(t.row + 1, t.col + 1, 0x52))
    else (g, [])
  }

  function Out(t: Term, b: nat): (Term, seq<nat>)
    requires Legal(t)
  {
    match t.parser
    case Ground =>
      if b == ESC then (t.(parser := Escape), [])
      else if b == 0x0D then (t.(wrap := false, col := 0), [])
      else if b == 0x0A then (NextLine(t), [])
      else if b == 0x08 then (t.(wrap := false, col := Most(t.col - 1, 0)), [])
      else if b == 0x09 then (t.(wrap := false, col := Least(t.col - t.col % 8 + 8, t.cols - 1)), [])
      else if 0x20 <= b <= 0x7E then (Put(t, b), [])
      else (t, [])
    case Escape =>
      (t.(parser := if b == BRACKET then Csi([0], false, false) else Ground), [])
    case Csi(ps, seen, priv) =>
      if b == 0x3F then (t.(parser := Csi(ps, seen, true)), [])
      else if 0x30 <= b <= 0x39 then
        (t.(parser := Csi(ps[|ps| - 1 := ps[|ps| - 1] * 10 + (b - 0x30)], true, priv)), [])
      else if b == SEMICOLON then
        (t.(parser := Csi(if |ps| < MAX_PARAMS then ps + [0] else ps, seen, priv)), [])
      else Dispatch(t, b)
  }

  predicate Follows(t: Term, u: Term) {
    Legal(u) && u.rows == t.rows && u.cols == t.cols
  }

  lemma PutKeepsLegal(t: Term, ch: nat)
    requires Legal(t)
    ensures Follows(t, NextLine(t)) && Follows(t, Put(t, ch))
  {
    hide NextLine;
    NextLineLegal(t);
    PlaceLegal(t, ch);
    PlaceLegal(NextLine(t), ch);
  }

  lemma PlaceLegal(t: Term, ch: nat)
    requires Legal(t)
    ensures Follows(t, Place(t, ch))
  {
  }

  lemma DispatchKeepsLegal(t: Term, final: nat)
    requires Legal(t) && t.parser.Csi?
    ensures Follows(t, Dispatch(t, final).0)
  {
    hide Report, Inside, RegionOf, Colours, Erased;
  }

  lemma OutKeepsLegal(t: Term, b: nat)
    requires Legal(t)
    ensures Follows(t, Out(t, b).0)
  {
    hide Dispatch, Put, NextLine;
    PutKeepsLegal(t, b);
    if t.parser.Csi? {
      DispatchKeepsLegal(t, b);
    }
  }

  function Outs(t: Term, bytes: seq<nat>): (Term, seq<nat>)
    requires Legal(t)
    ensures Follows(t, Outs(t, bytes).0)
    decreases |bytes|
  {
    if bytes == [] then (t, [])
    else
      OutKeepsLegal(t, bytes[0]);
      var (u, answer) := Out(t, bytes[0]);
      var (v, more) := Outs(u, bytes[1..]);
      (v, answer + more)
  }

  lemma {:induction false} OutsAppend(t: Term, xs: seq<nat>, ys: seq<nat>)
    requires Legal(t)
    ensures var (u, a) := Outs(t, xs); var (v, b) := Outs(u, ys); Outs(t, xs + ys) == (v, a + b)
    decreases |xs|
  {
    hide Out, Legal;
    if xs == [] {
      assert xs + ys == ys;
      assert [] + Outs(t, ys).1 == Outs(t, ys).1;
    } else {
      OutKeepsLegal(t, xs[0]);
      var (u, first) := Out(t, xs[0]);
      assert (xs + ys)[0] == xs[0] && (xs + ys)[1..] == xs[1..] + ys;
      OutsAppend(u, xs[1..], ys);
      var (_, a) := Outs(u, xs[1..]);
      var (_, b) := Outs(Outs(u, xs[1..]).0, ys);
      assert first + (a + b) == first + a + b;
    }
  }
}
