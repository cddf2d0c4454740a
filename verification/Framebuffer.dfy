/** Framebuffer surfaces: a table of slots a guest claims and releases, one of them (or the text
    console, -1) scanned out, and a history of surfaces to switch back to. */
module Framebuffer {
  import opened Words

  const SLOTS: nat := 8
  const CONSOLE: int := -1
  const SENTINEL: Word := 0xFFFF_FFFF

  // ---- surfaces as a value -----------------------------------------------------------------------------

  /** A slot is claimed exactly while its base is nonzero. */
  datatype Fb = Fb(bases: seq<Word>, rejected: seq<bool>, selected: nat, active: int, history: seq<int>)

  /** The console can always be shown; a slot only while claimed. */
  predicate Showable(bases: seq<Word>, surface: int) {
    surface == CONSOLE || (0 <= surface < |bases| && bases[surface] != 0)
  }

  function Without(h: seq<int>, x: int): (r: seq<int>)
    ensures forall y :: y in r <==> y in h && y != x
    ensures Distinct(h) ==> Distinct(r)
  {
    if h == [] then []
    else
      var front := Without(h[..|h| - 1], x);
      if h[|h| - 1] == x then front
      else
        assert Distinct(h) ==> h[|h| - 1] !in h[..|h| - 1];
        front + [h[|h| - 1]]
  }

  predicate Distinct(h: seq<int>) {
    forall i, j :: 0 <= i < j < |h| ==> h[i] != h[j]
  }

  function Activate(f: Fb, surface: int): Fb {
    if surface == f.active then f
    else f.(history := Without(f.history, f.active) + [f.active], active := surface)
  }

  /** The topmost history entry that can still be shown, and what lies under it; the console when
      there is none. */
  function Back(bases: seq<Word>, h: seq<int>): (int, seq<int>)
    decreases |h|
  {
    if h == [] then (CONSOLE, [])
    else
      var top, under := h[|h| - 1], h[..|h| - 1];
      if Showable(bases, top) then (top, under) else Back(bases, under)
  }

  function Release(f: Fb, slot: nat): Fb
    requires slot < |f.bases|
  {
    var bases := f.bases[slot := 0];
    if f.active != slot then f.(bases := bases)
    else
      var (next, under) := Back(bases, f.history);
      f.(bases := bases, active := next, history := under)
  }

  datatype Event =
    | Select(w: Word)
    /** A base write; whether a window is available is the host's answer. */
    | Base(w: Word, displayOk: bool)
    | Switch(w: Word)

  predicate Formed(f: Fb) {
    |f.bases| == SLOTS && |f.rejected| == SLOTS && f.selected < SLOTS
  }

  function Step(f: Fb, e: Event): Fb
    requires Formed(f)
  {
    match e
    case Select(w) => if w < SLOTS then f.(selected := w) else f
    case Base(w, ok) =>
      var s := f.selected;
      if w == 0 then if f.bases[s] != 0 then Release(f, s) else f
      else if f.bases[s] != 0 then f.(bases := f.bases[s := w])
      else if !ok then f.(rejected := f.rejected[s := true])
      else
        var claimed := f.(bases := f.bases[s := w], rejected := f.rejected[s := false]);
        if f.active == CONSOLE then Activate(claimed, s) else claimed
    case Switch(w) =>
      if w == SENTINEL then Activate(f, CONSOLE)
      else if w < SLOTS && f.bases[w] != 0 then Activate(f, w)
      else f
  }

  /** Every reachable table. */
  ghost predicate Sound(f: Fb) {
    && Formed(f) && Showable(f.bases, f.active)
    && Distinct(f.history) && (forall x :: x in f.history ==> CONSOLE <= x < SLOTS)
  }

  lemma {:induction false} BackSound(bases: seq<Word>, h: seq<int>)
    requires Distinct(h)
    ensures var (next, under) := Back(bases, h);
      && Showable(bases, next) && Distinct(under + [next]) && under <= h && (under != [] ==> next in h)
    ensures forall x :: x in Back(bases, h).1 ==> x in h
    decreases |h|
  {
    if h != [] {
      var top, under := h[|h| - 1], h[..|h| - 1];
      if Showable(bases, top) {
        assert under + [top] == h;
      } else {
        BackSound(bases, under);
      }
    }
  }

  lemma ActivateSound(f: Fb, surface: int)
    requires Sound(f) && Showable(f.bases, surface)
    ensures Sound(Activate(f, surface))
  {
    var rest := Without(f.history, f.active);
    forall i | 0 <= i < |rest|
      ensures rest[i] != f.active
    {
      assert rest[i] in rest;
    }
  }

  lemma StepSound(f: Fb, e: Event)
    requires Sound(f)
    ensures Sound(Step(f, e))
  {
    hide Activate, Without;
    match e
    case Select(w) =>
    case Base(w, ok) =>
      var s := f.selected;
      if w == 0 {
        BackSound(f.bases[s := 0], f.history);
      } else if f.bases[s] == 0 && ok {
        var claimed := f.(bases := f.bases[s := w], rejected := f.rejected[s := false]);
        ActivateSound(claimed, s);
      }
    case Switch(w) =>
      ActivateSound(f, CONSOLE);
      if w < SLOTS && f.bases[w] != 0 {
        ActivateSound(f, w);
      }
  }

  /** Distinct surfaces: the console and the slots, so the history cannot outgrow the table. */
  lemma HistoryBounded(f: Fb)
    requires Sound(f)
    ensures |f.history| <= SLOTS + 1
  {
    DistinctCount(f.history);
    SubsetSize(set x | x in f.history, {-1, 0, 1, 2, 3, 4, 5, 6, 7});
  }

  lemma {:induction false} DistinctCount(h: seq<int>)
    requires Distinct(h)
    ensures |set x | x in h| == |h|
  {
    if h != [] {
      var under, top := h[..|h| - 1], h[|h| - 1];
      DistinctCount(under);
      assert (set x | x in h) == (set x | x in under) + {top};
      assert top !in under;
    }
  }

  // ---- what the history means --------------------------------------------------------------------------

  /** Each surface once, in the order it was last shown. */
  function MostRecent(shown: seq<int>): seq<int> {
    if shown == [] then [] else Without(MostRecent(shown[..|shown| - 1]), shown[|shown| - 1]) + [shown[|shown| - 1]]
  }

  predicate Remembers(f: Fb, shown: seq<int>) {
    Without(f.history, f.active) + [f.active] == MostRecent(shown)
  }

  lemma WithoutLast(h: seq<int>, x: int, y: int)
    ensures Without(h + [x], y) == if x == y then Without(h, y) else Without(h, y) + [x]
  {
    assert (h + [x])[..|h|] == h;
  }

  lemma {:induction false} WithoutTwice(h: seq<int>, x: int)
    ensures Without(Without(h, x), x) == Without(h, x)
  {
    if h != [] {
      WithoutTwice(h[..|h| - 1], x);
      if h[|h| - 1] != x {
        WithoutLast(Without(h[..|h| - 1], x), h[|h| - 1], x);
      }
    }
  }

  /** The history and the active surface are the surfaces shown so far, most recent last. */
  lemma ActivateRemembers(f: Fb, shown: seq<int>, surface: int)
    requires Remembers(f, shown)
    ensures Remembers(Activate(f, surface), shown + [surface])
  {
    var order := MostRecent(shown);
    assert (shown + [surface])[..|shown|] == shown;
    WithoutLast(Without(f.history, f.active), f.active, surface);
    WithoutTwice(f.history, f.active);
  }

  /** The last entry of `order` that can be shown. */
  function LastShowable(bases: seq<Word>, order: seq<int>): int
    decreases |order|
  {
    if order == [] then CONSOLE
    else if Showable(bases, order[|order| - 1]) then order[|order| - 1]
    else LastShowable(bases, order[..|order| - 1])
  }

  lemma {:induction false} BackIsLastShowable(bases: seq<Word>, h: seq<int>, gone: int)
    requires !Showable(bases, gone)
    ensures Back(bases, h).0 == LastShowable(bases, Without(h, gone))
    decreases |h|
  {
    if h != [] {
      var top, under := h[|h| - 1], h[..|h| - 1];
      BackIsLastShowable(bases, under, gone);
      if top != gone {
        assert (Without(under, gone) + [top])[..|Without(under, gone)|] == Without(under, gone);
      }
    }
  }

  /** Releasing the active slot shows the surface shown most recently before it that can still
      be shown, or the console. */
  lemma ReleaseSwitchesBack(f: Fb, shown: seq<int>, slot: nat)
    requires Sound(f) && Remembers(f, shown) && f.active == slot
    ensures var order := MostRecent(shown);
      && order != [] && order[|order| - 1] == slot
      && Release(f, slot).active == LastShowable(f.bases[slot := 0], order[..|order| - 1])
  {
    var order := MostRecent(shown);
    assert order[..|order| - 1] == Without(f.history, slot);
    BackIsLastShowable(f.bases[slot := 0], f.history, slot);
  }

  function Run(f: Fb, events: seq<Event>): Fb
    requires Sound(f)
    ensures Sound(Run(f, events))
    decreases |events|
  {
    if events == [] then f
    else
      StepSound(f, events[0]);
      Run(Step(f, events[0]), events[1..])
  }

  // ---- runs that release nothing -------------------------------------------------------------------------

  predicate Releases(f: Fb, e: Event)
    requires Formed(f)
  {
    e.Base? && e.w == 0 && f.bases[f.selected] != 0
  }

  ghost predicate NoRelease(f: Fb, events: seq<Event>)
    requires Sound(f)
    decreases |events|
  {
    StepSound(f, if events == [] then Select(0) else events[0]);
    events == [] || (!Releases(f, events[0]) && NoRelease(Step(f, events[0]), events[1..]))
  }

  /** The surface on the screen after each event. */
  ghost function OnScreen(f: Fb, events: seq<Event>): seq<int>
    requires Sound(f)
    decreases |events|
  {
    if events == [] then []
    else
      StepSound(f, events[0]);
      [Step(f, events[0]).active] + OnScreen(Step(f, events[0]), events[1..])
  }

  lemma StepRemembers(f: Fb, shown: seq<int>, e: Event)
    requires Sound(f) && Remembers(f, shown) && !Releases(f, e)
    ensures Remembers(Step(f, e), shown + [Step(f, e).active])
  {
    hide Without, MostRecent, Distinct;
    var g := Step(f, e);
    ActivateRemembers(f, shown, g.active);
    assert Activate(f, g.active).history == g.history && Activate(f, g.active).active == g.active;
  }

  lemma {:induction false} RunRemembers(f: Fb, shown: seq<int>, events: seq<Event>)
    requires Sound(f) && Remembers(f, shown) && NoRelease(f, events)
    ensures Remembers(Run(f, events), shown + OnScreen(f, events))
    decreases |events|
  {
    hide Step, Without, MostRecent, Releases;
    if events == [] {
      assert shown + [] == shown;
    } else {
      StepSound(f, events[0]);
      StepRemembers(f, shown, events[0]);
      var g := Step(f, events[0]);
      RunRemembers(g, shown + [g.active], events[1..]);
      assert shown + [g.active] + OnScreen(g, events[1..]) == shown + ([g.active] + OnScreen(g, events[1..]));
    }
  }

  /** Power-up: no slot claimed, the console on the screen. */
  ghost function Start(): (f: Fb)
    ensures Sound(f)
  {
    Fb(seq(SLOTS, _ => 0), seq(SLOTS, _ => false), 0, CONSOLE, [])
  }

  lemma StartRemembers()
    ensures Remembers(Start(), [CONSOLE])
  {
    assert [CONSOLE][..0] == [];
    assert MostRecent([CONSOLE]) == Without([], CONSOLE) + [CONSOLE];
  }

  /** From power-up, after any claims and switches that release nothing: releasing the slot on the
      screen brings back the surface shown most recently before it that can still be shown. */
  lemma FirstReleaseSwitchesBack(events: seq<Event>)
    requires NoRelease(Start(), events) && Run(Start(), events).active != CONSOLE
    ensures var f := Run(Start(), events); var order := MostRecent([CONSOLE] + OnScreen(Start(), events));
      && 0 <= f.active < SLOTS && order != [] && order[|order| - 1] == f.active
      && Release(f, f.active).active == LastShowable(f.bases[f.active := 0], order[..|order| - 1])
  {
    hide Run, OnScreen, NoRelease, MostRecent, Release, LastShowable, Remembers;
    StartRemembers();
    RunRemembers(Start(), [CONSOLE], events);
    ReleaseSwitchesBack(Run(Start(), events), [CONSOLE] + OnScreen(Start(), events), Run(Start(), events).active);
  }

  // ---- the device ----------------------------------------------------------------------------------------

  datatype Slot = Slot(base: Word, claimed: bool, rejected: bool)

  function Count(slots: seq<Slot>): nat {
    if slots == [] then 0 else Count(slots[..|slots| - 1]) + (if slots[|slots| - 1].claimed then 1 else 0)
  }

  function Bases(slots: seq<Slot>): (r: seq<Word>)
    ensures |r| == |slots| && forall i :: 0 <= i < |r| ==> r[i] == slots[i].base
  {
    seq(|slots|, i requires 0 <= i < |slots| => slots[i].base)
  }

  function Rejections(slots: seq<Slot>): (r: seq<bool>)
    ensures |r| == |slots| && forall i :: 0 <= i < |r| ==> r[i] == slots[i].rejected
  {
    seq(|slots|, i requires 0 <= i < |slots| => slots[i].rejected)
  }

  lemma ViewUpdate(slots: seq<Slot>, i: nat, s: Slot)
    requires i < |slots|
    ensures Bases(slots[i := s]) == Bases(slots)[i := s.base]
    ensures Rejections(slots[i := s]) == Rejections(slots)[i := s.rejected]
  {
  }

  lemma {:induction false} CountUpdate(slots: seq<Slot>, i: nat, s: Slot)
    requires i < |slots|
    ensures Count(slots[i := s]) == Count(slots) - (if slots[i].claimed then 1 else 0) + (if s.claimed then 1 else 0)
  {
    var n := |slots| - 1;
    if i == n {
      assert slots[i := s][..n] == slots[..n];
    } else {
      assert slots[i := s][..n] == slots[..n][i := s];
      CountUpdate(slots[..n], i, s);
    }
  }

  class Device {
    var slots: seq<Slot>
    var selected: nat
    var active: int
    var history: seq<int>
    var claimedCount: int

    ghost function View(): Fb
      reads this
    {
      Fb(Bases(slots), Rejections(slots), selected, active, history)
    }

    ghost predicate Tracked()
      reads this
    {
      && |slots| == SLOTS && claimedCount == Count(slots)
      && forall i :: 0 <= i < SLOTS ==> (slots[i].claimed <==> slots[i].base != 0)
    }

    ghost predicate Valid()
      reads this
    {
      Tracked() && Sound(View())
    }

    constructor ()
      ensures Valid() && View() == Start() && claimedCount == 0
    {
      slots := seq(SLOTS, _ => Slot(0, false, false));
      selected, active, history, claimedCount := 0, CONSOLE, [], 0;
      new;
      NoneClaimed(slots);
      assert Bases(slots) == Start().bases && Rejections(slots) == Start().rejected;
    }

    /** Drops earlier entries of the outgoing surface, then pushes it. */
    method ActivateLocked(surface: int)
      requires Valid() && Showable(View().bases, surface)
      modifies `active, `history
      ensures Valid() && View() == Activate(old(View()), surface)
    {
      ActivateSound(View(), surface);
      if surface == active {
        return;
      }
      var kept, i := [], 0;
      assert history[..|history|] == history;
      while i < |history|
        invariant 0 <= i <= |history| && kept == Without(history[..i], active)
      {
        assert history[..i + 1][..i] == history[..i];
        if history[i] != active {
          kept := kept + [history[i]];
        }
        i := i + 1;
      }
      history := kept + [active];
      active := surface;
    }

    method SetSlot(i: nat, s: Slot)
      requires |slots| == SLOTS && i < SLOTS
      modifies `slots
      ensures slots == old(slots)[i := s]
      ensures Bases(slots) == old(Bases(slots))[i := s.base]
      ensures Rejections(slots) == old(Rejections(slots))[i := s.rejected]
      ensures Count(slots)
        == old(Count(slots)) - (if old(slots)[i].claimed then 1 else 0) + (if s.claimed then 1 else 0)
    {
      ViewUpdate(slots, i, s);
      CountUpdate(slots, i, s);
      slots := slots[i := s];
    }

    /** The first claim from the console shows itself. */
    method ClaimLocked(base: Word)
      requires Valid() && !slots[selected].claimed && base != 0
      modifies this
      ensures Valid() && View() == Step(old(View()), Base(base, true))
    {
      StepSound(View(), Base(base, true));
      SetSlot(selected, Slot(base, true, false));
      claimedCount := claimedCount + 1;
      if active == CONSOLE {
        ActivateLocked(selected);
      }
    }

    /** Pops the history down to a surface that can still be shown. */
    method ReleaseLocked(slot: nat)
      requires Valid() && slot < SLOTS && slots[slot].claimed
      modifies this
      ensures Valid() && View() == Release(old(View()), slot) && selected == old(selected)
    {
      hide Count;
      BackSound(View().bases[slot := 0], history);
      SetSlot(slot, Slot(0, false, slots[slot].rejected));
      claimedCount := claimedCount - 1;
      if active != slot {
        return;
      }
      ghost var bases := Bases(slots);
      var next, h, found := CONSOLE, history, false;
      while h != [] && !found
        invariant if found then Back(bases, history) == (next, h)
                  else next == CONSOLE && Back(bases, history) == Back(bases, h)
        decreases |h|, found
      {
        var cand := h[|h| - 1];
        h := h[..|h| - 1];
        if cand == CONSOLE {
          next, found := CONSOLE, true;
        } else if 0 <= cand < |slots| && cand != slot && slots[cand].claimed {
          next, found := cand, true;
        }
      }
      active, history := next, h;
    }

    method PortWrite(e: Event)
      requires Valid()
      modifies this
      ensures Valid() && View() == Step(old(View()), e)
    {
      hide Count;
      StepSound(View(), e);
      match e
      case Select(w) =>
        if w < SLOTS { selected := w; }
      case Base(w, displayOk) =>
        var s := slots[selected];
        if w != 0 {
          if !s.claimed {
            if !displayOk {
              SetSlot(selected, s.(rejected := true));
            } else {
              ClaimLocked(w);
            }
          } else {
            SetSlot(selected, s.(base := w));
          }
        } else if s.claimed {
          ReleaseLocked(selected);
        }
      case Switch(w) =>
        if w == SENTINEL {
          ActivateLocked(CONSOLE);
        } else if w < SLOTS {
          if slots[w].claimed {
            ActivateLocked(w);
          }
        }
    }

    method Operate(events: seq<Event>)
      requires Valid()
      modifies this
      ensures Valid() && View() == Run(old(View()), events)
    {
      assert events[0..] == events;
      for n := 0 to |events|
        invariant Valid() && Run(old(View()), events) == Run(View(), events[n..])
      {
        hide Step;
        assert events[n..][1..] == events[n + 1..];
        PortWrite(events[n]);
      }
    }
  }

  lemma {:induction false} NoneClaimed(slots: seq<Slot>)
    requires forall i :: 0 <= i < |slots| ==> !slots[i].claimed
    ensures Count(slots) == 0
  {
    if slots != [] {
      NoneClaimed(slots[..|slots| - 1]);
    }
  }
}
