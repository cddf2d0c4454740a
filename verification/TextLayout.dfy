/** Printable text on a cleared screen: whatever its length, the screen shows the last lines of
    the text broken at the right margin, and a full last line does not scroll. */
module TextLayout {
  import opened Terminal

  /** Text broken into lines of `cols` characters: one more character goes on the last line, or
      starts a new one when the last line is full. */
  function Add(cols: nat, lines: seq<seq<nat>>, ch: nat): seq<seq<nat>>
    requires lines != []
  {
    var last := lines[|lines| - 1];
    if |last| < cols then lines[..|lines| - 1] + [last + [ch]] else lines + [[ch]]
  }

  function Broken(cols: nat, text: seq<nat>): (lines: seq<seq<nat>>)
    ensures lines != []
  {
    if text == [] then [[]] else Add(cols, Broken(cols, text[..|text| - 1]), text[|text| - 1])
  }

  function Joined(lines: seq<seq<nat>>): seq<nat> {
    if lines == [] then [] else Joined(lines[..|lines| - 1]) + lines[|lines| - 1]
  }

  /** Every line but the last is full, and the last is not over-full. */
  predicate Proper(cols: nat, lines: seq<seq<nat>>) {
    && lines != [] && |lines[|lines| - 1]| <= cols
    && forall i :: 0 <= i < |lines| - 1 ==> |lines[i]| == cols
  }

  lemma AddOne(cols: nat, lines: seq<seq<nat>>, ch: nat)
    requires cols >= 1 && Proper(cols, lines)
    ensures Proper(cols, Add(cols, lines, ch)) && Joined(Add(cols, lines, ch)) == Joined(lines) + [ch]
  {
    var init, last, more := lines[..|lines| - 1], lines[|lines| - 1], Add(cols, lines, ch);
    if |last| < cols {
      assert more[..|more| - 1] == init;
      assert Joined(init) + (last + [ch]) == Joined(init) + last + [ch];
    } else {
      assert more[..|more| - 1] == lines;
    }
  }

  /** Breaking loses nothing, and fills every line before it starts the next. */
  lemma {:induction false} BrokenIsText(cols: nat, text: seq<nat>)
    requires cols >= 1
    ensures Proper(cols, Broken(cols, text)) && Joined(Broken(cols, text)) == text
  {
    hide Add;
    if text == [] {
      var lines := Broken(cols, text);
      assert lines[..0] == [] && Joined(lines[..0]) == [];
    } else {
      BrokenIsText(cols, text[..|text| - 1]);
      AddOne(cols, Broken(cols, text[..|text| - 1]), text[|text| - 1]);
      assert text == text[..|text| - 1] + [text[|text| - 1]];
    }
  }

  /** A line of text in the current colours, blank to the right margin. */
  function Shown(t: Term, line: seq<nat>): (r: seq<Cell>)
    requires |line| <= t.cols
    ensures |r| == t.cols
  {
    seq(t.cols, c requires 0 <= c < t.cols => Cell(if c < |line| then line[c] else 0x20, t.fg, t.bg))
  }

  function RowAt(t: Term, lines: seq<seq<nat>>, r: nat): (row: seq<Cell>)
    requires Proper(t.cols, lines) && r < t.rows
    ensures |row| == t.cols
  {
    var used := Least(|lines|, t.rows);
    Shown(t, if r < used then lines[|lines| - used + r] else [])
  }

  function Rows(t: Term, lines: seq<seq<nat>>): (g: Grid)
    requires Proper(t.cols, lines)
    ensures Shaped(g, t.rows, t.cols)
  {
    seq(t.rows, r requires 0 <= r < t.rows => RowAt(t, lines, r))
  }

  /** The screen for those lines: the last `rows` of them, from the top. */
  function Screen(t: Term, lines: seq<seq<nat>>): Term
    requires Proper(t.cols, lines) && t.rows >= 1
  {
    var used := Least(|lines|, t.rows);
    var last := lines[|lines| - 1];
    t.(grid := Rows(t, lines),
       row := used - 1,
       col := if |last| < t.cols then |last| else t.cols - 1,
       wrap := |last| == t.cols)
  }

  lemma ScreenLegal(t: Term, lines: seq<seq<nat>>)
    requires Legal(t) && Proper(t.cols, lines)
    ensures Legal(Screen(t, lines))
  {
  }

  lemma PutExtends(t: Term, lines: seq<seq<nat>>, ch: nat)
    requires Legal(t) && Proper(t.cols, lines) && |lines[|lines| - 1]| < t.cols
    ensures Legal(Screen(t, lines)) && Proper(t.cols, Add(t.cols, lines, ch))
    ensures Put(Screen(t, lines), ch) == Screen(t, Add(t.cols, lines, ch))
  {
    var s, more := Screen(t, lines), Add(t.cols, lines, ch);
    var last := lines[|lines| - 1];
    assert more[|more| - 1] == last + [ch];
    ScreenLegal(t, lines);
    assert s.grid[s.row] == Shown(t, last);
    assert s.grid[s.row][s.col := Cell(ch, t.fg, t.bg)] == Shown(t, last + [ch]);
    assert Put(s, ch).grid == Screen(t, more).grid;
  }

  /** A deferred wrap opens an empty line, scrolling when there is no room. */
  lemma WrapOpensLine(t: Term, lines: seq<seq<nat>>)
    requires Legal(t) && Proper(t.cols, lines) && |lines[|lines| - 1]| == t.cols
    ensures Legal(Screen(t, lines)) && Proper(t.cols, lines + [[]])
    ensures NextLine(Screen(t, lines)) == Screen(t, lines + [[]])
  {
    ScreenLegal(t, lines);
    assert seq(t.cols, _ => Blank(t)) == Shown(t, []);
    assert NextLine(Screen(t, lines)).grid == Rows(t, lines + [[]]);
  }

  lemma PutBreaks(t: Term, lines: seq<seq<nat>>, ch: nat)
    requires Legal(t) && Proper(t.cols, lines) && |lines[|lines| - 1]| == t.cols
    ensures Legal(Screen(t, lines)) && Proper(t.cols, Add(t.cols, lines, ch))
    ensures Put(Screen(t, lines), ch) == Screen(t, Add(t.cols, lines, ch))
  {
    hide NextLine, Rows;
    WrapOpensLine(t, lines);
    PutExtends(t, lines + [[]], ch);
    var open: seq<nat> := [];
    assert open + [ch] == [ch];
    assert (lines + [[]])[..|lines|] + [open + [ch]] == lines + [[ch]];
    assert Put(Screen(t, lines), ch) == Put(Screen(t, lines + [[]]), ch);
  }

  /** A legal terminal at home on a blank screen, with no sequence under way. */
  predicate Cleared(t: Term) {
    && Legal(t) && t.parser.Ground? && t.row == 0 && t.col == 0 && !t.wrap
    && forall r, c :: 0 <= r < t.rows && 0 <= c < t.cols ==> t.grid[r][c] == Blank(t)
  }

  lemma NothingShown(t: Term)
    requires Cleared(t)
    ensures Screen(t, [[]]) == t
  {
    forall r | 0 <= r < t.rows
      ensures t.grid[r] == Shown(t, [])
    {
    }
    assert Screen(t, [[]]).grid == t.grid;
  }

  lemma TypeOne(t: Term, lines: seq<seq<nat>>, ch: nat)
    requires Legal(t) && t.parser.Ground? && Proper(t.cols, lines) && 0x20 <= ch <= 0x7E
    ensures Legal(Screen(t, lines)) && Proper(t.cols, Add(t.cols, lines, ch))
    ensures Outs(Screen(t, lines), [ch]) == (Screen(t, Add(t.cols, lines, ch)), [])
  {
    hide Put, Screen, Dispatch, NextLine;
    if |lines[|lines| - 1]| < t.cols {
      PutExtends(t, lines, ch);
    } else {
      PutBreaks(t, lines, ch);
    }
    StillGround(t, lines);
    OutKeepsLegal(Screen(t, lines), ch);
    var none: seq<nat> := [];
    assert [ch][1..] == none && none + none == none;
  }

  predicate Printable(text: seq<nat>) {
    forall i :: 0 <= i < |text| ==> 0x20 <= text[i] <= 0x7E
  }

  lemma TypeLast(t: Term, before: seq<nat>, lines: seq<seq<nat>>, ch: nat)
    requires Legal(t) && t.parser.Ground? && Proper(t.cols, lines) && 0x20 <= ch <= 0x7E
    requires Outs(t, before) == (Screen(t, lines), [])
    ensures Proper(t.cols, Add(t.cols, lines, ch))
    ensures Outs(t, before + [ch]) == (Screen(t, Add(t.cols, lines, ch)), [])
  {
    hide Screen, Outs, Add, Proper;
    TypeOne(t, lines, ch);
    OutsAppend(t, before, [ch]);
    var none: seq<nat> := [];
    assert none + none == none;
  }

  /** Any printable text, of any length. */
  lemma {:induction false} TextFillsScreen(t: Term, text: seq<nat>)
    requires Cleared(t) && Printable(text)
    ensures Proper(t.cols, Broken(t.cols, text))
    ensures Outs(t, text) == (Screen(t, Broken(t.cols, text)), [])
  {
    hide Screen, Out, Add, Proper;
    BrokenIsText(t.cols, text);
    if text == [] {
      NothingShown(t);
    } else {
      hide Outs;
      var before, ch := text[..|text| - 1], text[|text| - 1];
      TextFillsScreen(t, before);
      assert text == before + [ch];
      TypeLast(t, before, Broken(t.cols, before), ch);
    }
  }

  lemma StillGround(t: Term, lines: seq<seq<nat>>)
    requires Legal(t) && Proper(t.cols, lines)
    ensures Screen(t, lines).parser == t.parser && Legal(Screen(t, lines))
  {
    ScreenLegal(t, lines);
  }
}
