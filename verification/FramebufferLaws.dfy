/** What is selected, claimed and shown, read off the history of port writes alone. */
module FramebufferLaws {
  import opened Words
  import opened Framebuffer

  // ---- reading the history ---------------------------------------------------------------------------------

  /** The slot the last in-range select named; slot 0 before any. */
  function SelectedBy(events: seq<Event>): nat {
    if events == [] then 0
    else
      var e := events[|events| - 1];
      if e.Select? && e.w < 8 then e.w else SelectedBy(events[..|events| - 1])
  }

  /** Event i is a base write to this slot. */
  predicate WritesBase(events: seq<Event>, i: nat, slot: nat)
    requires i < |events|
  {
    events[i].Base? && SelectedBy(events[..i]) == slot
  }

  /** Some nonzero base write with a window available, and no zero write since. */
  ghost predicate ClaimedBy(events: seq<Event>, slot: nat) {
    exists i :: 0 <= i < |events| && WritesBase(events, i, slot) && events[i].w != 0 && events[i].displayOk
      && forall j :: i < j < |events| && WritesBase(events, j, slot) ==> events[j].w != 0
  }

  lemma ClaimedStep(events: seq<Event>, slot: nat)
    requires events != []
    ensures var n := |events| - 1; var e := events[n];
      ClaimedBy(events, slot) <==>
        if e.Base? && SelectedBy(events[..n]) == slot then e.w != 0 && (e.displayOk || ClaimedBy(events[..n], slot))
        else ClaimedBy(events[..n], slot)
  {
    var n := |events| - 1;
    var e, before := events[n], events[..n];
    assert forall i :: 0 <= i < n ==> events[..i] == before[..i];
    assert forall i :: 0 <= i < n ==> WritesBase(events, i, slot) == WritesBase(before, i, slot);
    if ClaimedBy(before, slot) && !(WritesBase(events, n, slot) && e.w == 0) {
      var i :| 0 <= i < n && WritesBase(before, i, slot) && before[i].w != 0 && before[i].displayOk
        && forall j :: i < j < n && WritesBase(before, j, slot) ==> before[j].w != 0;
      assert WritesBase(events, i, slot);
    }
    if ClaimedBy(events, slot) {
      var i :| 0 <= i < |events| && WritesBase(events, i, slot) && events[i].w != 0 && events[i].displayOk
        && forall j :: i < j < |events| && WritesBase(events, j, slot) ==> events[j].w != 0;
      if i < n {
        assert WritesBase(before, i, slot);
      }
    }
  }

  /** Event k puts a surface on the screen: a switch to the console or to a slot claimed by then, or
      a first claim while the console was shown. */
  ghost predicate Decides(events: seq<Event>, k: nat)
    requires k < |events|
    decreases k, 1
  {
    var e, before := events[k], events[..k];
    || (e.Switch? && (e.w == 0xFFFF_FFFF || (e.w < 8 && ClaimedBy(before, e.w))))
    || (e.Base? && e.w != 0 && e.displayOk && !ClaimedBy(before, SelectedBy(before)) && ShownBy(events, k) == -1)
  }

  /** The surface event k would show. */
  function Target(events: seq<Event>, k: nat): int
    requires k < |events|
  {
    if events[k].Switch? then if events[k].w == 0xFFFF_FFFF then -1 else events[k].w
    else SelectedBy(events[..k])
  }

  /** The target of the last deciding event among the first n; the console before any. */
  ghost function ShownBy(events: seq<Event>, n: nat): int
    requires n <= |events|
    decreases n, 0
  {
    if n == 0 then -1 else if Decides(events, n - 1) then Target(events, n - 1) else ShownBy(events, n - 1)
  }

  // ---- the device agrees -------------------------------------------------------------------------------------

  lemma {:induction false} RunEnds(f: Fb, events: seq<Event>)
    requires Sound(f) && events != []
    ensures var n := |events| - 1; Run(f, events) == Step(Run(f, events[..n]), events[n])
    decreases |events|
  {
    hide Step;
    var n := |events| - 1;
    StepSound(f, events[0]);
    if n > 0 {
      RunEnds(Step(f, events[0]), events[1..]);
      assert events[1..][..n - 1] == events[..n][1..];
      assert events[..n][0] == events[0];
    } else {
      assert events[..0] == [] && events[1..] == [];
    }
  }

  /** From power-up, after any run: the selected slot and the claimed slots are what the history
      says. */
  lemma {:induction false} HistoryDecidesClaims(events: seq<Event>)
    ensures var f := Run(Start(), events);
      && f.selected == SelectedBy(events)
      && forall s :: 0 <= s < 8 ==> (f.bases[s] != 0 <==> ClaimedBy(events, s))
    decreases |events|
  {
    hide Sound, ClaimedBy, Run;
    if events == [] {
      NothingClaimed();
    } else {
      var n := |events| - 1;
      HistoryDecidesClaims(events[..n]);
      RunEnds(Start(), events);
      RunFormed(events[..n]);
      RunFormed(events);
      forall s | 0 <= s < 8
        ensures Run(Start(), events).bases[s] != 0 <==> ClaimedBy(events, s)
      {
        ClaimedStep(events, s);
        BaseAfter(Run(Start(), events[..n]), events[n], s);
      }
      SelectionAfter(Run(Start(), events[..n]), events[n]);
    }
  }

  lemma NothingClaimed()
    ensures Run(Start(), []) == Start() && forall s :: 0 <= s < 8 ==> !ClaimedBy([], s)
  {
  }

  lemma BaseAfter(f: Fb, e: Event, s: nat)
    requires Formed(f) && s < 8
    ensures |Step(f, e).bases| == 8
    ensures Step(f, e).bases[s] != 0 <==>
      if e.Base? && f.selected == s then e.w != 0 && (e.displayOk || f.bases[s] != 0) else f.bases[s] != 0
  {
    hide Without, Back;
  }

  lemma SelectionAfter(f: Fb, e: Event)
    requires Formed(f)
    ensures Step(f, e).selected == if e.Select? && e.w < 8 then e.w else f.selected
  {
    hide Without, Back;
  }

  /** Nothing in the history releases a claimed slot. */
  ghost predicate ReleaseFree(events: seq<Event>) {
    forall i :: 0 <= i < |events| && events[i].Base? && events[i].w == 0 ==>
      !ClaimedBy(events[..i], SelectedBy(events[..i]))
  }

  lemma ActiveAfter(f: Fb, e: Event)
    requires Formed(f) && !Releases(f, e)
    ensures Step(f, e).active ==
      if e.Switch? && e.w == 0xFFFF_FFFF then -1
      else if e.Switch? && e.w < 8 && f.bases[e.w] != 0 then e.w
      else if e.Base? && e.w != 0 && e.displayOk && f.bases[f.selected] == 0 && f.active == -1 then f.selected
      else f.active
  {
    hide Without, Back;
  }

  /** From power-up, until a release: the surface on the screen is the target of the last event that
      decides one. */
  lemma {:induction false} HistoryDecidesScreen(events: seq<Event>, n: nat)
    requires n <= |events| && ReleaseFree(events)
    ensures Run(Start(), events[..n]).active == ShownBy(events, n)
    decreases n
  {
    hide Sound, ClaimedBy, Run, Step, SelectedBy;
    if n == 0 {
      NothingClaimed();
      assert events[..0] == [];
    } else {
      var e, before := events[n - 1], events[..n - 1];
      assert events[..n][..n - 1] == before;
      HistoryDecidesScreen(events, n - 1);
      HistoryDecidesClaims(before);
      RunEnds(Start(), events[..n]);
      var f := Run(Start(), before);
      assert Formed(f) by { RunFormed(before); }
      ActiveAfter(f, e);
    }
  }

  lemma RunFormed(events: seq<Event>)
    ensures Formed(Run(Start(), events))
  {
  }

  /** A claim while another slot is shown does not take the screen, and a switch to an unclaimed or
      out-of-range slot changes nothing; a switch to a claimed slot shows it. */
  lemma SwitchesAndClaims(f: Fb, w: Word, ok: bool)
    requires Sound(f)
    ensures f.active != -1 && w != 0 ==> Step(f, Base(w, ok)).active == f.active
    ensures w != 0xFFFF_FFFF && (w >= 8 || f.bases[w] == 0) ==> Step(f, Switch(w)) == f
    ensures w < 8 && f.bases[w] != 0 ==> Step(f, Switch(w)).active == w
    ensures Step(f, Switch(0xFFFF_FFFF)).active == -1
    ensures w != 0 && (ok || f.bases[f.selected] != 0) ==> Step(f, Base(w, ok)).bases == f.bases[f.selected := w]
    ensures w == 0 ==> Step(f, Base(w, ok)).bases == f.bases[f.selected := 0]
    ensures !ok && w != 0 && f.bases[f.selected] == 0 ==>
      var g := Step(f, Base(w, ok)); g == f.(rejected := g.rejected) && g.rejected[f.selected]
  {
    hide Without, Back;
  }

  // ---- most recently shown -------------------------------------------------------------------------------------

  /** Where x was last shown; -1 if never. */
  function LastTime(shown: seq<int>, x: int): int {
    if shown == [] then -1
    else if shown[|shown| - 1] == x then |shown| - 1
    else LastTime(shown[..|shown| - 1], x)
  }

  ghost predicate Increasing(h: seq<int>, shown: seq<int>) {
    forall i, j :: 0 <= i < j < |h| ==> LastTime(shown, h[i]) < LastTime(shown, h[j])
  }

  lemma {:induction false} WithoutIncreases(h: seq<int>, shown: seq<int>, x: int)
    requires Increasing(h, shown)
    ensures Increasing(Without(h, x), shown)
    decreases |h|
  {
    hide LastTime;
    if h != [] {
      var front, last := h[..|h| - 1], h[|h| - 1];
      WithoutIncreases(front, shown, x);
      var r := Without(front, x);
      forall i | 0 <= i < |r|
        ensures LastTime(shown, r[i]) < LastTime(shown, last)
      {
        assert r[i] in r && r[i] in front;
        var k :| 0 <= k < |front| && front[k] == r[i];
        assert h[k] == r[i];
      }
    }
  }

  lemma {:induction false} LastTimeBound(shown: seq<int>, x: int)
    ensures -1 <= LastTime(shown, x) < |shown|
    ensures LastTime(shown, x) >= 0 <==> x in shown
  {
    if shown != [] {
      LastTimeBound(shown[..|shown| - 1], x);
      assert shown == shown[..|shown| - 1] + [shown[|shown| - 1]];
    }
  }

  /** The order used for switching back holds every surface shown, once, by when it was last shown. */
  lemma {:induction false} MostRecentMeans(shown: seq<int>)
    ensures Increasing(MostRecent(shown), shown) && forall x :: x in MostRecent(shown) <==> x in shown
  {
    hide LastTime;
    if shown != [] {
      var before, x := shown[..|shown| - 1], shown[|shown| - 1];
      MostRecentMeans(before);
      WithoutIncreases(MostRecent(before), before, x);
      var r := Without(MostRecent(before), x);
      assert shown == before + [x];
      forall i | 0 <= i < |r|
        ensures LastTime(shown, r[i]) == LastTime(before, r[i]) < |before| == LastTime(shown, x)
      {
        assert r[i] in r;
        LastTimeBound(before, r[i]);
        LastTimeUnfolds(shown, r[i]);
        LastTimeUnfolds(shown, x);
      }
    }
  }

  lemma LastTimeUnfolds(shown: seq<int>, x: int)
    requires shown != []
    ensures LastTime(shown, x)
      == if shown[|shown| - 1] == x then |shown| - 1 else LastTime(shown[..|shown| - 1], x)
  {
  }
}
