/** Byte by byte, what the terminal's control characters and sequences do: cursor keys, erasing,
    colours and cursor visibility, with every byte written out. */
module TerminalLaws {
  import opened Terminal
  import opened TerminalTheorems

  /** A sequence with no parameter. */
  lemma NoParameter(t: Term, final: nat)
    requires Legal(t) && t.parser.Ground? && 0x41 <= final
    ensures var u := t.(parser := Csi([0], false, false));
      Legal(u) && Outs(t, [0x1B, 0x5B, final]) == Dispatch(u, final)
  {
    hide Dispatch, Outs, Put, NextLine;
    var e, u := t.(parser := Escape), t.(parser := Csi([0], false, false));
    var none: seq<nat> := [];
    OneByte(t, 0x1B);
    OneByte(e, 0x5B);
    OneByte(u, final);
    OutsAppend(e, [0x5B], [final]);
    OutsAppend(t, [0x1B], [0x5B] + [final]);
    assert [0x1B] + ([0x5B] + [final]) == [0x1B, 0x5B, final];
    assert none + (none + Out(u, final).1) == Out(u, final).1;
  }

  // ---- cursor keys ---------------------------------------------------------------------------------------

  /** ESC[nA, ESC[nB, ESC[nC and ESC[nD: up, down, right and left by n, stopping at the edge. */
  lemma Arrows(t: Term, ds: seq<nat>)
    requires Legal(t) && t.parser.Ground? && Numeral(ds) && ds != [] && Value(0, ds) > 0
    ensures var n := Value(0, ds);
      && Outs(t, [0x1B, 0x5B] + ds + [0x41]) == (t.(wrap := false, row := if t.row >= n then t.row - n else 0), [])
      && Outs(t, [0x1B, 0x5B] + ds + [0x42])
           == (t.(wrap := false, row := if t.row + n < t.rows then t.row + n else t.rows - 1), [])
      && Outs(t, [0x1B, 0x5B] + ds + [0x43])
           == (t.(wrap := false, col := if t.col + n < t.cols then t.col + n else t.cols - 1), [])
      && Outs(t, [0x1B, 0x5B] + ds + [0x44]) == (t.(wrap := false, col := if t.col >= n then t.col - n else 0), [])
  {
    hide Outs, Value, Dispatch, Legal;
    ArrowKeys(t, Csi([Value(0, ds)], true, false), Value(0, ds));
    OneParameter(t, ds, 0x41);
    OneParameter(t, ds, 0x42);
    OneParameter(t, ds, 0x43);
    OneParameter(t, ds, 0x44);
  }

  lemma ArrowKeys(t: Term, p: Parser, n: nat)
    requires Legal(t) && t.parser.Ground? && n > 0 && p.Csi? && !p.priv
    requires p == Csi([n], true, false) || (p == Csi([0], false, false) && n == 1)
    ensures var u := t.(parser := p);
      && Legal(u)
      && Dispatch(u, 0x41) == (t.(wrap := false, row := if t.row >= n then t.row - n else 0), [])
      && Dispatch(u, 0x42) == (t.(wrap := false, row := if t.row + n < t.rows then t.row + n else t.rows - 1), [])
      && Dispatch(u, 0x43) == (t.(wrap := false, col := if t.col + n < t.cols then t.col + n else t.cols - 1), [])
      && Dispatch(u, 0x44) == (t.(wrap := false, col := if t.col >= n then t.col - n else 0), [])
  {
    hide Erased, Colours, Report;
  }

  /** Without a number each moves by one. */
  lemma ArrowsByOne(t: Term)
    requires Legal(t) && t.parser.Ground?
    ensures Outs(t, [0x1B, 0x5B, 0x41]).0 == t.(wrap := false, row := if t.row > 0 then t.row - 1 else 0)
    ensures Outs(t, [0x1B, 0x5B, 0x42]).0 == t.(wrap := false, row := if t.row < t.rows - 1 then t.row + 1 else t.row)
    ensures Outs(t, [0x1B, 0x5B, 0x43]).0 == t.(wrap := false, col := if t.col < t.cols - 1 then t.col + 1 else t.col)
    ensures Outs(t, [0x1B, 0x5B, 0x44]).0 == t.(wrap := false, col := if t.col > 0 then t.col - 1 else 0)
  {
    hide Outs, Dispatch;
    NoParameter(t, 0x41);
    NoParameter(t, 0x42);
    NoParameter(t, 0x43);
    NoParameter(t, 0x44);
    ArrowKeys(t, Csi([0], false, false), 1);
  }

  /** Up and down by the same amount return to the row exactly when the edge was not hit; left and
      right likewise. */
  lemma ThereAndBack(t: Term, ds: seq<nat>)
    requires Legal(t) && t.parser.Ground? && Numeral(ds) && ds != [] && Value(0, ds) > 0
    ensures var n := Value(0, ds);
      var upDown := Outs(t, [0x1B, 0x5B] + ds + [0x41] + ([0x1B, 0x5B] + ds + [0x42])).0;
      var leftRight := Outs(t, [0x1B, 0x5B] + ds + [0x44] + ([0x1B, 0x5B] + ds + [0x43])).0;
      && (upDown.row == t.row <==> n <= t.row || t.row == t.rows - 1 <= n)
      && (leftRight.col == t.col <==> n <= t.col || t.col == t.cols - 1 <= n)
  {
    hide Outs, Value;
    var up, left := [0x1B, 0x5B] + ds + [0x41], [0x1B, 0x5B] + ds + [0x44];
    Arrows(t, ds);
    Arrows(Outs(t, up).0, ds);
    Arrows(Outs(t, left).0, ds);
    OutsAppend(t, up, [0x1B, 0x5B] + ds + [0x42]);
    OutsAppend(t, left, [0x1B, 0x5B] + ds + [0x43]);
  }

  // ---- erasing ----------------------------------------------------------------------------------------------

  /** The cells a mode digit selects: from the cursor on, up to the cursor, or all. */
  predicate Selected(t: Term, mode: nat, wholeScreen: bool, r: int, c: int) {
    if wholeScreen then
      if mode == 0x30 then r > t.row || (r == t.row && c >= t.col)
      else if mode == 0x31 then r < t.row || (r == t.row && c <= t.col)
      else mode == 0x32
    else
      r == t.row && (if mode == 0x30 then c >= t.col else if mode == 0x31 then c <= t.col else mode == 0x32)
  }

  ghost predicate Wiped(t: Term, u: Term, mode: nat, wholeScreen: bool)
    requires Legal(t) && Legal(u) && u.rows == t.rows && u.cols == t.cols
  {
    && u == t.(grid := u.grid)
    && forall r, c :: 0 <= r < t.rows && 0 <= c < t.cols ==>
         u.grid[r][c] == if Selected(t, mode, wholeScreen, r, c) then Cell(0x20, t.fg, t.bg) else t.grid[r][c]
  }

  /** ESC[0J, ESC[1J and ESC[2J, and the same for K: the selected cells become spaces in the current
      colours, every other cell and the cursor stay; other digits do nothing. */
  lemma Erasing(t: Term, mode: nat)
    requires Legal(t) && t.parser.Ground? && 0x30 <= mode <= 0x39
    ensures Wiped(t, Outs(t, [0x1B, 0x5B] + [mode] + [0x4A]).0, mode, true)
    ensures Wiped(t, Outs(t, [0x1B, 0x5B] + [mode] + [0x4B]).0, mode, false)
  {
    hide Outs, Dispatch, Wiped;
    assert Value(0, [mode]) == Value(mode - 0x30, [mode][1..]) == mode - 0x30;
    OneParameter(t, [mode], 0x4A);
    OneParameter(t, [mode], 0x4B);
    EraseDispatch(t, Csi([mode - 0x30], true, false), mode);
  }

  lemma EraseDispatch(t: Term, p: Parser, mode: nat)
    requires Legal(t) && t.parser.Ground? && 0x30 <= mode <= 0x39
    requires p == Csi([mode - 0x30], true, false) || (mode == 0x30 && p == Csi([0], false, false))
    ensures var u := t.(parser := p);
      && Legal(u) && Follows(t, Dispatch(u, 0x4A).0) && Follows(t, Dispatch(u, 0x4B).0)
      && Wiped(t, Dispatch(u, 0x4A).0, mode, true) && Wiped(t, Dispatch(u, 0x4B).0, mode, false)
  {
    hide Wiped, Erased, Colours, Report;
    var u := t.(parser := p);
    DispatchKeepsLegal(u, 0x4A);
    DispatchKeepsLegal(u, 0x4B);
    EraseRegion(t, u, mode, 0x4A);
    EraseRegion(t, u, mode, 0x4B);
  }

  lemma EraseRegion(t: Term, u: Term, mode: nat, final: nat)
    requires Legal(t) && t.parser.Ground? && 0x30 <= mode <= 0x39 && u == t.(parser := u.parser)
    requires final == 0x4A || final == 0x4B
    ensures var v := t.(grid := Erased(u, RegionOf(final, mode - 0x30))); Legal(v) && Wiped(t, v, mode, final == 0x4A)
  {
  }

  /** Without a digit both erase from the cursor on. */
  lemma ErasingByDefault(t: Term)
    requires Legal(t) && t.parser.Ground?
    ensures Wiped(t, Outs(t, [0x1B, 0x5B, 0x4A]).0, 0x30, true)
    ensures Wiped(t, Outs(t, [0x1B, 0x5B, 0x4B]).0, 0x30, false)
  {
    hide Outs, Dispatch, Wiped;
    NoParameter(t, 0x4A);
    NoParameter(t, 0x4B);
    EraseDispatch(t, Csi([0], false, false), 0x30);
  }

  // ---- colours ------------------------------------------------------------------------------------------------

  lemma TwoDigits(a: nat, b: nat)
    requires 0x30 <= a <= 0x39 && 0x30 <= b <= 0x39
    ensures Numeral([a, b]) && Value(0, [a, b]) == 10 * (a - 0x30) + (b - 0x30)
  {
    assert [a, b][1..] == [b] && [b][1..] == [];
    assert Value(a - 0x30, [b]) == (a - 0x30) * 10 + (b - 0x30);
  }

  /** ESC[3Xm sets the foreground to X and ESC[4Ym the background to Y, 0 to 7; ESC[0m and ESC[m go
      back to light grey on black. Nothing else changes. */
  lemma ColourCodes(t: Term, x: nat)
    requires Legal(t) && t.parser.Ground? && x < 8
    ensures Outs(t, [0x1B, 0x5B] + [0x33, 0x30 + x] + [0x6D]) == (t.(fg := x), [])
    ensures Outs(t, [0x1B, 0x5B] + [0x34, 0x30 + x] + [0x6D]) == (t.(bg := x), [])
    ensures Outs(t, [0x1B, 0x5B] + [0x30] + [0x6D]) == (t.(fg := 7, bg := 0), [])
    ensures Outs(t, [0x1B, 0x5B, 0x6D]) == (t.(fg := 7, bg := 0), [])
  {
    hide Outs, Dispatch;
    TwoDigits(0x33, 0x30 + x);
    TwoDigits(0x34, 0x30 + x);
    assert Value(0, [0x30]) == Value(0, [0x30][1..]) == 0;
    OneParameter(t, [0x33, 0x30 + x], 0x6D);
    OneParameter(t, [0x34, 0x30 + x], 0x6D);
    OneParameter(t, [0x30], 0x6D);
    NoParameter(t, 0x6D);
    OneColour(t, 30 + x);
    OneColour(t, 40 + x);
    OneColour(t, 0);
  }

  lemma OneColour(t: Term, n: nat)
    requires Legal(t) && t.parser.Ground? && (n == 0 || 30 <= n <= 37 || 40 <= n <= 47)
    ensures Legal(Reading(t, [n]))
    ensures Dispatch(Reading(t, [n]), 0x6D) ==
      (if n == 0 then t.(fg := 7, bg := 0) else if n <= 37 then t.(fg := n - 30) else t.(bg := n - 40), [])
    ensures Legal(t.(parser := Csi([0], false, false)))
    ensures Dispatch(t.(parser := Csi([0], false, false)), 0x6D) == (t.(fg := 7, bg := 0), [])
  {
    hide Erased, Report;
    assert [n][1..] == [];
    assert Colours(7, 0, []) == (7, 0);
    if 30 <= n <= 37 {
      assert Colours(n - 30, t.bg, []) == (n - 30, t.bg);
    } else if n > 37 {
      assert Colours(t.fg, n - 40, []) == (t.fg, n - 40);
    }
  }

  // ---- parameter lists ------------------------------------------------------------------------------------------

  /** Numerals joined by semicolons. */
  function Joined(dss: seq<seq<nat>>): seq<nat> {
    if dss == [] then [] else if |dss| == 1 then dss[0] else Joined(dss[..|dss| - 1]) + [0x3B] + dss[|dss| - 1]
  }

  ghost function Values(dss: seq<seq<nat>>): (vs: seq<nat>)
    requires forall ds :: ds in dss ==> Numeral(ds)
    ensures |vs| == |dss|
  {
    seq(|dss|, i requires 0 <= i < |dss| => assert dss[i] in dss; Value(0, dss[i]))
  }

  /** Up to eight parameters are collected in order. */
  lemma {:induction false} ParameterList(t: Term, dss: seq<seq<nat>>)
    requires Legal(t) && t.parser.Ground? && 1 <= |dss| <= 8
    requires forall ds :: ds in dss ==> Numeral(ds) && ds != []
    ensures Outs(t, [0x1B, 0x5B] + Joined(dss)) == (Reading(t, Values(dss)), [])
    decreases |dss|
  {
    hide Outs, Out, Dispatch, Value;
    assert dss[0] in dss;
    if |dss| == 1 {
      FirstParameter(t, dss[0]);
      assert Values(dss) == [Value(0, dss[0])];
    } else {
      var n := |dss| - 1;
      var before, last := dss[..n], dss[n];
      assert last in dss && forall ds :: ds in before ==> ds in dss;
      ParameterList(t, before);
      var head := [0x1B, 0x5B] + Joined(before);
      var u := Reading(t, Values(before));
      NextParameter(t, Values(before), last);
      OutsAppend(t, head, [0x3B] + last);
      assert head + ([0x3B] + last) == [0x1B, 0x5B] + Joined(dss);
      assert Values(before) + [Value(0, last)] == Values(dss);
      var none: seq<nat> := [];
      assert none + none == none;
    }
  }

  lemma NextParameter(t: Term, ps: seq<nat>, ds: seq<nat>)
    requires Legal(t) && Numeral(ds) && ds != [] && 1 <= |ps| <= 7
    ensures Legal(Reading(t, ps))
    ensures Outs(Reading(t, ps), [0x3B] + ds) == (Reading(t, ps + [Value(0, ds)]), [])
  {
    hide Dispatch, Put, NextLine, Outs, Value;
    var u := Reading(t, ps);
    Feed(u, 0x3B, Reading(t, ps + [0]), ds);
    CollectDigits(Reading(t, ps + [0]), ps, 0, true, ds);
  }

  /** A ninth separator is ignored, so the digits after it run on into the eighth parameter. */
  lemma NinthIgnored(t: Term, ps: seq<nat>)
    requires Legal(t) && |ps| == 8
    ensures Legal(Reading(t, ps)) && Outs(Reading(t, ps), [0x3B]) == (Reading(t, ps), [])
  {
    hide Dispatch, Put, NextLine, Outs;
    OneByte(Reading(t, ps), 0x3B);
  }

  // ---- single control bytes --------------------------------------------------------------------------------

  /** CR goes to column 0, BS one left, TAB to the next multiple of eight or the last column; all
      cancel a pending wrap. */
  lemma ControlBytes(t: Term)
    requires Legal(t) && t.parser.Ground?
    ensures Outs(t, [0x0D]) == (t.(wrap := false, col := 0), [])
    ensures Outs(t, [0x08]) == (t.(wrap := false, col := if t.col > 0 then t.col - 1 else 0), [])
    ensures var u := Outs(t, [0x09]).0;
      && u == t.(wrap := false, col := u.col)
      && (u.col == t.cols - 1 || (u.col % 8 == 0 && t.col < u.col <= t.col + 8)) && u.col >= t.col
  {
    hide Outs, Put, NextLine, Legal;
    assert 0 <= t.col < t.cols by { PositionInGrid(t); }
    OneByte(t, 0x0D);
    OneByte(t, 0x08);
    OneByte(t, 0x09);
    TabStop(t.col, t.cols);
  }

  lemma TabStop(col: int, cols: int)
    requires 0 <= col < cols
    ensures var stop := Least(col - col % 8 + 8, cols - 1);
      (stop == cols - 1 || (stop % 8 == 0 && col < stop <= col + 8)) && stop >= col
  {
    assert (col - col % 8) % 8 == 0;
  }

  /** LF goes to column 0 of the next row, or moves every row up and leaves a blank last one. */
  lemma LineFeed(t: Term)
    requires Legal(t) && t.parser.Ground?
    ensures var u := Outs(t, [0x0A]).0;
      && u == t.(wrap := false, col := 0, row := u.row, grid := u.grid)
      && (t.row < t.rows - 1 ==> u.row == t.row + 1 && u.grid == t.grid)
      && (t.row == t.rows - 1 ==>
            && u.row == t.row && |u.grid| == t.rows
            && (forall r :: 0 <= r < t.rows - 1 ==> u.grid[r] == t.grid[r + 1])
            && u.grid[t.rows - 1] == seq(t.cols, _ => Cell(0x20, t.fg, t.bg)))
  {
    hide Outs, Put;
    OneByte(t, 0x0A);
  }

  /** A printable byte with no wrap pending goes into the cell under the cursor, in the current
      colours; the cursor moves right, or waits at the margin. */
  lemma PrintableByte(t: Term, b: nat)
    requires Legal(t) && t.parser.Ground? && 0x20 <= b <= 0x7E && !t.wrap
    ensures var u := Outs(t, [b]).0;
      && u.row == t.row && (if t.col < t.cols - 1 then u.col == t.col + 1 && !u.wrap else u.col == t.col && u.wrap)
      && Follows(t, u) && u == t.(grid := u.grid, col := u.col, wrap := u.wrap)
      && forall r, c :: 0 <= r < t.rows && 0 <= c < t.cols ==>
           u.grid[r][c] == if r == t.row && c == t.col then Cell(b, t.fg, t.bg) else t.grid[r][c]
  {
    hide Outs;
    OneByte(t, b);
  }

  /** Other bytes are ignored, an escape not followed by a bracket is swallowed, and a sequence with
      an unknown final byte leaves no trace. */
  lemma Ignored(t: Term, b: nat)
    requires Legal(t) && t.parser.Ground?
    ensures (b < 0x20 && b !in {0x1B, 0x0D, 0x0A, 0x08, 0x09}) || b > 0x7E ==> Outs(t, [b]) == (t, [])
    ensures b != 0x5B ==> Outs(t, [0x1B, b]) == (t, [])
    ensures 0x41 <= b && b !in {0x41, 0x42, 0x43, 0x44, 0x48, 0x4A, 0x4B, 0x66, 0x6D} ==>
      Outs(t, [0x1B, 0x5B, b]) == (t, [])
  {
    hide Outs, Put, NextLine, Erased, Colours, Report;
    OneByte(t, b);
    OneByte(t, 0x1B);
    OneByte(t.(parser := Escape), b);
    OutsAppend(t, [0x1B], [b]);
    var none: seq<nat> := [];
    assert [0x1B] + [b] == [0x1B, b] && none + none == none;
    if 0x41 <= b {
      NoParameter(t, b);
    }
  }

  /** ESC[?25h shows the cursor and ESC[?25l hides it. */
  lemma CursorVisibility(t: Term)
    requires Legal(t) && t.parser.Ground?
    ensures Outs(t, [0x1B, 0x5B, 0x3F, 0x32, 0x35, 0x68]) == (t.(visible := true), [])
    ensures Outs(t, [0x1B, 0x5B, 0x3F, 0x32, 0x35, 0x6C]) == (t.(visible := false), [])
  {
    hide Outs, Put, NextLine, Dispatch;
    PrivateNumber(t);
    var u := t.(parser := Csi([25], true, true));
    var head := [0x1B, 0x5B, 0x3F, 0x32, 0x35];
    OneByte(u, 0x68);
    OneByte(u, 0x6C);
    OutsAppend(t, head, [0x68]);
    OutsAppend(t, head, [0x6C]);
    assert head + [0x68] == [0x1B, 0x5B, 0x3F, 0x32, 0x35, 0x68];
    assert head + [0x6C] == [0x1B, 0x5B, 0x3F, 0x32, 0x35, 0x6C];
    VisibleDispatch(t);
    var none: seq<nat> := [];
    assert none + none == none;
  }

  lemma VisibleDispatch(t: Term)
    requires Legal(t) && t.parser.Ground?
    ensures var u := t.(parser := Csi([25], true, true));
      Legal(u) && Dispatch(u, 0x68) == (t.(visible := true), []) && Dispatch(u, 0x6C) == (t.(visible := false), [])
  {
    hide Erased, Colours, Report;
  }

  /** One silent byte, and the rest. */
  lemma Feed(t: Term, b: nat, u: Term, rest: seq<nat>)
    requires Legal(t) && Out(t, b) == (u, [])
    ensures Legal(u) && Outs(t, [b] + rest) == Outs(u, rest)
  {
    hide Out, Legal;
    OutKeepsLegal(t, b);
    assert ([b] + rest)[1..] == rest;
    var none: seq<nat> := [];
    assert none + Outs(u, rest).1 == Outs(u, rest).1;
  }

  lemma PrivateNumber(t: Term)
    requires Legal(t) && t.parser.Ground?
    ensures Outs(t, [0x1B, 0x5B, 0x3F, 0x32, 0x35]) == (t.(parser := Csi([25], true, true)), [])
  {
    hide Put, NextLine, Dispatch, Outs;
    var t1, t2 := t.(parser := Escape), t.(parser := Csi([0], false, false));
    var t3, t4 := t.(parser := Csi([0], false, true)), t.(parser := Csi([2], true, true));
    assert [0][0 := 2] == [2] && [2][0 := 25] == [25];
    Feed(t, 0x1B, t1, [0x5B, 0x3F, 0x32, 0x35]);
    Feed(t1, 0x5B, t2, [0x3F, 0x32, 0x35]);
    Feed(t2, 0x3F, t3, [0x32, 0x35]);
    Feed(t3, 0x32, t4, [0x35]);
    OneByte(t4, 0x35);
    assert [0x1B] + [0x5B, 0x3F, 0x32, 0x35] == [0x1B, 0x5B, 0x3F, 0x32, 0x35];
    assert [0x5B] + [0x3F, 0x32, 0x35] == [0x5B, 0x3F, 0x32, 0x35];
    assert [0x3F] + [0x32, 0x35] == [0x3F, 0x32, 0x35] && [0x32] + [0x35] == [0x32, 0x35];
  }
}
