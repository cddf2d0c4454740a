/** What the terminal promises across whole byte streams: cursor reports that can be sent back,
    and text that fills the screen in reading order. */
module TerminalTheorems {
  import opened Terminal

  // ---- numbers in, numbers out --------------------------------------------------------------------------

  predicate Numeral(ds: seq<nat>) {
    forall i :: 0 <= i < |ds| ==> 0x30 <= ds[i] <= 0x39
  }

  /** What a parameter holding `v` becomes after more digits. */
  function Value(v: nat, ds: seq<nat>): nat
    requires Numeral(ds)
    decreases |ds|
  {
    if ds == [] then v else Value(v * 10 + (ds[0] - 0x30), ds[1..])
  }

  lemma {:induction false} ValueOneMore(v: nat, ds: seq<nat>, d: nat)
    requires Numeral(ds) && 0x30 <= d <= 0x39
    ensures Value(v, ds + [d]) == Value(v, ds) * 10 + (d - 0x30)
    decreases |ds|
  {
    if ds == [] {
      assert Value(v * 10 + (d - 0x30), [d][1..]) == v * 10 + (d - 0x30);
    } else {
      assert (ds + [d])[1..] == ds[1..] + [d];
      ValueOneMore(v * 10 + (ds[0] - 0x30), ds[1..], d);
    }
  }

  lemma {:induction false} DigitsRoundTrip(n: nat)
    ensures Value(0, Digits(n)) == n
  {
    if n < 10 {
      assert Value(n, Digits(n)[1..]) == n;
    } else {
      DigitsRoundTrip(n / 10);
      ValueOneMore(0, Digits(n / 10), 0x30 + n % 10);
    }
  }

  function Pow10(k: nat): nat { if k == 0 then 1 else 10 * Pow10(k - 1) }

  lemma {:induction false} ValueBound(v: nat, ds: seq<nat>)
    requires Numeral(ds)
    ensures Value(v, ds) < (v + 1) * Pow10(|ds|)
    decreases |ds|
  {
    if ds != [] {
      var w, p := v * 10 + (ds[0] - 0x30), Pow10(|ds| - 1);
      ValueBound(w, ds[1..]);
      assert (w + 1) * p <= (v * 10 + 10) * p == (v + 1) * (10 * p);
    }
  }

  lemma {:induction false} DigitCount(n: nat, k: nat)
    requires k >= 1 && n < Pow10(k)
    ensures |Digits(n)| <= k
  {
    if n >= 10 {
      assert k >= 2;
      DigitCount(n / 10, k - 1);
    }
  }

  /** The eight-place printer is read back exactly when the number fits. */
  lemma PrintedReads(n: nat)
    ensures Value(0, Printed(n)) == n <==> n < 100_000_000
  {
    assert Pow10(8) == 100_000_000 by {
      assert Pow10(4) == 10_000;
    }
    if n < 100_000_000 {
      DigitCount(n, 8);
      DigitsRoundTrip(n);
    } else {
      ValueBound(0, Printed(n));
      if |Printed(n)| < 8 {
        ValueBound(0, Digits(n));
        DigitsRoundTrip(n);
        Pow10Grows(|Digits(n)|, 8);
      }
    }
  }

  lemma {:induction false} Pow10Grows(j: nat, k: nat)
    requires j <= k
    ensures 1 <= Pow10(j) <= Pow10(k)
  {
    if j < k {
      Pow10Grows(j, k - 1);
    } else if j > 0 {
      Pow10Grows(j - 1, k - 1);
    }
  }

  // ---- sequences through the parser ---------------------------------------------------------------------

  lemma {:induction false} CollectDigits(t: Term, ps: seq<nat>, v: nat, seen: bool, ds: seq<nat>)
    requires Legal(t) && t.parser == Csi(ps + [v], seen, false) && Numeral(ds)
    ensures Outs(t, ds) == (t.(parser := Csi(ps + [Value(v, ds)], seen || ds != [], false)), [])
    decreases |ds|
  {
    hide Dispatch, Put, NextLine;
    if ds != [] {
      OutKeepsLegal(t, ds[0]);
      var w := v * 10 + (ds[0] - 0x30);
      var u := Out(t, ds[0]).0;
      assert (ps + [v])[|ps| := w] == ps + [w];
      CollectDigits(u, ps, w, true, ds[1..]);
    }
  }

  lemma OneByte(t: Term, b: nat)
    requires Legal(t)
    ensures Outs(t, [b]) == Out(t, b)
  {
    hide Out, Legal;
    OutKeepsLegal(t, b);
    assert [b][1..] == [];
    assert Out(t, b).1 + [] == Out(t, b).1;
  }

  function Reading(t: Term, params: seq<nat>): Term { t.(parser := Csi(params, true, false)) }

  /** Introducer and first parameter. */
  lemma FirstParameter(t: Term, ds: seq<nat>)
    requires Legal(t) && t.parser.Ground? && Numeral(ds) && ds != []
    ensures Outs(t, [ESC, BRACKET] + ds) == (Reading(t, [Value(0, ds)]), [])
  {
    hide Dispatch, Put, NextLine, Outs;
    var u := t.(parser := Escape);
    var v := t.(parser := Csi([0], false, false));
    OneByte(t, ESC);
    OneByte(u, BRACKET);
    assert [ESC, BRACKET] == [ESC] + [BRACKET];
    OutsAppend(t, [ESC], [BRACKET]);
    OutsAppend(t, [ESC, BRACKET], ds);
    var none: seq<nat> := [];
    assert none + [0] == [0] && none + [Value(0, ds)] == [Value(0, ds)] && none + none == none;
    CollectDigits(v, none, 0, false, ds);
    assert Outs(t, [ESC, BRACKET]) == (v, none);
  }

  lemma SecondParameter(t: Term, p: nat, ds: seq<nat>)
    requires Legal(t) && Numeral(ds)
    ensures Legal(Reading(t, [p])) && Outs(Reading(t, [p]), [SEMICOLON] + ds) == (Reading(t, [p, Value(0, ds)]), [])
  {
    hide Dispatch, Put, NextLine, Outs;
    var u := Reading(t, [p]);
    OneByte(u, SEMICOLON);
    assert [p] + [0] == [p, 0] && [p] + [Value(0, ds)] == [p, Value(0, ds)];
    OutsAppend(u, [SEMICOLON], ds);
    CollectDigits(Reading(t, [p, 0]), [p], 0, true, ds);
    var none: seq<nat> := [];
    assert Outs(u, [SEMICOLON]) == (Reading(t, [p, 0]), none) && none + none == none;
  }

  /** A whole sequence with one parameter. */
  lemma OneParameter(t: Term, ds: seq<nat>, final: nat)
    requires Legal(t) && t.parser.Ground? && Numeral(ds) && ds != [] && 0x41 <= final
    ensures Legal(Reading(t, [Value(0, ds)]))
    ensures Outs(t, [ESC, BRACKET] + ds + [final]) == Dispatch(Reading(t, [Value(0, ds)]), final)
  {
    hide Dispatch, Outs;
    var u := Reading(t, [Value(0, ds)]);
    FirstParameter(t, ds);
    OneByte(u, final);
    OutsAppend(t, [ESC, BRACKET] + ds, [final]);
    assert [] + Out(u, final).1 == Out(u, final).1;
  }

  /** A cursor-position sequence puts the cursor where it says, clamped to the grid. */
  lemma SetPosition(t: Term, rs: seq<nat>, cs: seq<nat>)
    requires Legal(t) && t.parser.Ground? && Numeral(rs) && Numeral(cs) && rs != []
    ensures Outs(t, [ESC, BRACKET] + rs + [SEMICOLON] + cs + [0x48]).0
      == t.(wrap := false, row := Least(Most(Value(0, rs), 1) - 1, t.rows - 1),
          col := Least(Most(Value(0, cs), 1) - 1, t.cols - 1))
  {
    hide Outs, Value, Erased, Colours, Report;
    var p, q := Value(0, rs), Value(0, cs);
    var u := Reading(t, [p, q]);
    FirstParameter(t, rs);
    SecondParameter(t, p, cs);
    OneByte(u, 0x48);
    var head := [ESC, BRACKET] + rs;
    OutsAppend(t, head, [SEMICOLON] + cs);
    OutsAppend(t, head + ([SEMICOLON] + cs), [0x48]);
    assert head + ([SEMICOLON] + cs) + [0x48] == [ESC, BRACKET] + rs + [SEMICOLON] + cs + [0x48];
  }

  // ---- cursor reports ------------------------------------------------------------------------------------

  const QUERY: seq<nat> := [ESC, BRACKET, 0x36, 0x6E]

  lemma QueryAnswers(t: Term)
    requires Legal(t) && t.parser.Ground?
    ensures Outs(t, QUERY) == (t, Report(t.row + 1, t.col + 1, 0x52))
  {
    hide Outs, Report, Erased, Colours, Put, NextLine;
    assert QUERY == [ESC, BRACKET] + [0x36] + [0x6E];
    assert Value(0, [0x36]) == Value(6, [0x36][1..]) == 6;
    OneParameter(t, [0x36], 0x6E);
  }

  /** Asking for the cursor changes nothing on the screen, and the answer sent back with final
      byte H from any later state returns the cursor to the reported cell exactly when both
      coordinates print in eight digits. */
  lemma CursorReportRoundTrip(t: Term, u: Term)
    requires Legal(t) && Legal(u) && t.parser.Ground? && u.parser.Ground? && u.rows == t.rows && u.cols == t.cols
    ensures var (after, answer) := Outs(t, QUERY);
      && after == t && |answer| > 0 && answer[|answer| - 1] == 0x52
      && var back := Outs(u, answer[..|answer| - 1] + [0x48]).0;
      && back == u.(row := back.row, col := back.col, wrap := false)
      && (back.row == t.row && back.col == t.col <==> t.row + 1 < 100_000_000 && t.col + 1 < 100_000_000)
  {
    hide Outs, Printed, Value, Legal;
    assert t.row >= 0 && t.col >= 0 && t.row < t.rows && t.col < t.cols by {
      PositionInGrid(t);
    }
    var rs, cs := Printed(t.row + 1), Printed(t.col + 1);
    QueryAnswers(t);
    var answer := Report(t.row + 1, t.col + 1, 0x52);
    assert answer[..|answer| - 1] + [0x48] == [ESC, BRACKET] + rs + [SEMICOLON] + cs + [0x48];
    SetPosition(u, rs, cs);
    PrintedReads(t.row + 1);
    PrintedReads(t.col + 1);
    SmallerWhenCut(t.row + 1);
    SmallerWhenCut(t.col + 1);
  }

  /** A terminal 10^8 columns wide with the cursor at its right edge: its own report does not
      bring the cursor back. */
  lemma HugeGridReportFails(t: Term)
    requires var row := seq(100_000_000, _ => Cell(0x20, 7, 0));
      t == Term(1, 100_000_000, [row], 0, 99_999_999, false, 7, 0, true, Ground)
    ensures Legal(t)
    ensures var answer := Outs(t, QUERY).1;
      |answer| > 0 && Outs(t, answer[..|answer| - 1] + [0x48]).0.col != t.col
  {
    hide Outs, QUERY;
    CursorReportRoundTrip(t, t);
  }

  lemma PositionInGrid(t: Term)
    requires Legal(t)
    ensures 0 <= t.row < t.rows && 0 <= t.col < t.cols
  {
  }

  /** A number that does not fit reads back as a smaller one. */
  lemma SmallerWhenCut(n: nat)
    requires n >= 1
    ensures Value(0, Printed(n)) <= n
    ensures n >= 100_000_000 ==> Value(0, Printed(n)) < 100_000_000
  {
    PrintedReads(n);
    if n >= 100_000_000 {
      ValueBound(0, Printed(n));
      assert Pow10(8) == 100_000_000 by {
        assert Pow10(4) == 10_000;
      }
      Pow10Grows(|Printed(n)|, 8);
    }
  }

  lemma Nudge(t: Term, n: nat)
    requires Legal(t) && t.parser.Ground? && n > 0
    ensures Legal(Reading(t, [n]))
    ensures Dispatch(Reading(t, [n]), 0x43) == (t.(wrap := false, col := Least(t.col + n, t.cols - 1)), [])
    ensures Dispatch(Reading(t, [n]), 0x42) == (t.(wrap := false, row := Least(t.row + n, t.rows - 1)), [])
  {
  }

  lemma Push(t: Term, ds: seq<nat>)
    requires Legal(t) && t.parser.Ground? && Numeral(ds) && ds != [] && Value(0, ds) > 0
    ensures Outs(t, [ESC, BRACKET] + ds + [0x43])
      == (t.(wrap := false, col := Least(t.col + Value(0, ds), t.cols - 1)), [])
    ensures Outs(t, [ESC, BRACKET] + ds + [0x42])
      == (t.(wrap := false, row := Least(t.row + Value(0, ds), t.rows - 1)), [])
  {
    hide Outs, Dispatch, Value;
    OneParameter(t, ds, 0x43);
    OneParameter(t, ds, 0x42);
    Nudge(t, Value(0, ds));
  }

  /** The size handshake: ESC[999C ESC[999B pins the cursor to the bottom right corner exactly
      when it was within 999 cells of it each way, so the next report gives the window size. */
  lemma WindowSize(t: Term, ds: seq<nat>)
    requires Legal(t) && t.parser.Ground? && ds == [0x39, 0x39, 0x39]
    ensures var (u, answer) := Outs(t, [ESC, BRACKET] + ds + [0x43] + ([ESC, BRACKET] + ds + [0x42]) + QUERY);
      && answer == Report(u.row + 1, u.col + 1, 0x52)
      && (u.row == t.rows - 1 && u.col == t.cols - 1 <==> t.rows - t.row <= 1000 && t.cols - t.col <= 1000)
  {
    hide Outs, Report, Value, Numeral;
    Nines(ds);
    var right, down := [ESC, BRACKET] + ds + [0x43], [ESC, BRACKET] + ds + [0x42];
    Push(t, ds);
    var u := t.(wrap := false, col := Least(t.col + 999, t.cols - 1));
    Push(u, ds);
    var v := u.(row := Least(u.row + 999, u.rows - 1));
    QueryAnswers(v);
    OutsAppend(t, right, down);
    OutsAppend(t, right + down, QUERY);
  }

  lemma Nines(ds: seq<nat>)
    requires ds == [0x39, 0x39, 0x39]
    ensures Numeral(ds) && Value(0, ds) == 999
  {
    assert ds[1..] == [0x39, 0x39] && [0x39, 0x39][1..] == [0x39];
    assert Value(99, [0x39]) == Value(999, [0x39][1..]);
  }
}
