/** The interrupt controller: a pending vector set that survives handlers, a summary bit the
    run loop polls, and the enable bit of RF that gates delivery. */
module Interrupts {

  const FIRST: nat := 32
  const VECTORS: nat := 256

  datatype Option = None | Some(vector: nat)

  datatype Event =
    /** A device raises an external vector. */
    | Raise(v: nat)
    /** SETINT, CLRINT, an RF write or IRET puts new enable and mirror bits in RF. */
    | WriteRf(enabled: bool, mirror: bool)
    /** An instruction boundary, or a parked core looking for a deliverable interrupt. */
    | Boundary

  datatype Happening = Raised(v: nat) | Delivered(v: nat)

  // ---- the controller as a set ----------------------------------------------------------------------

  datatype Control = Control(pending: set<nat>, enabled: bool)

  ghost predicate IsLeast(s: set<nat>, m: nat) {
    m in s && forall x :: x in s ==> m <= x
  }

  lemma LeastExists(s: set<nat>)
    requires s != {}
    ensures exists m :: IsLeast(s, m)
  {
    var m :| m in s;
    var rest := s - {m};
    if rest == {} {
      assert s == {m};
      assert IsLeast(s, m);
    } else {
      LeastExists(rest);
      var k :| IsLeast(rest, k);
      assert forall x :: x in s ==> x == m || x in rest;
      assert IsLeast(s, if m <= k then m else k);
    }
  }

  ghost function Least(s: set<nat>): (m: nat)
    requires s != {}
    ensures m in s && forall x :: x in s ==> m <= x
  {
    LeastExists(s);
    var m :| IsLeast(s, m);
    m
  }

  /** Delivery takes the least pending vector, masks further interrupts and leaves the rest. */
  ghost function Step(c: Control, e: Event): (Control, seq<Happening>) {
    match e
    case Raise(v) => (c.(pending := c.pending + {v}), [Raised(v)])
    case WriteRf(on, _) => (c.(enabled := on), [])
    case Boundary =>
      if c.enabled && c.pending != {} then
        var v := Least(c.pending);
        (Control(c.pending - {v}, false), [Delivered(v)])
      else (c, [])
  }

  ghost function Run(c: Control, events: seq<Event>): (Control, seq<Happening>)
    decreases |events|
  {
    if events == [] then (c, [])
    else
      var (c1, l1) := Step(c, events[0]);
      var (c2, l2) := Run(c1, events[1..]);
      (c2, l1 + l2)
  }

  // ---- what the history says ---------------------------------------------------------------------------

  /** The vectors raised since their last delivery. */
  ghost function PendingOf(log: seq<Happening>): set<nat> {
    if log == [] then {}
    else
      var before := PendingOf(log[..|log| - 1]);
      match log[|log| - 1]
      case Raised(v) => before + {v}
      case Delivered(v) => before - {v}
  }

  lemma {:induction false} PendingMeans(log: seq<Happening>, v: nat)
    ensures v in PendingOf(log) <==>
      exists i :: 0 <= i < |log| && log[i] == Raised(v) && forall j :: i < j < |log| ==> log[j] != Delivered(v)
  {
    if log != [] {
      var n := |log| - 1;
      var before := log[..n];
      PendingMeans(before, v);
      if log[n] == Raised(v) {
        assert log[n] == Raised(v);
      } else if log[n] != Delivered(v) {
        if v in PendingOf(before) {
          var i :| 0 <= i < n && before[i] == Raised(v) && forall j :: i < j < n ==> before[j] != Delivered(v);
          assert log[i] == Raised(v) && forall j :: i < j < |log| ==> log[j] != Delivered(v);
        }
        if i :| 0 <= i < |log| && log[i] == Raised(v) && forall j :: i < j < |log| ==> log[j] != Delivered(v) {
          assert before[i] == Raised(v) && forall j :: i < j < n ==> before[j] != Delivered(v);
        }
      }
    }
  }

  /** Every delivery took the least vector pending at that moment. */
  ghost predicate InOrder(log: seq<Happening>) {
    forall i :: 0 <= i < |log| && log[i].Delivered? ==>
      log[i].v in PendingOf(log[..i]) && forall u :: u in PendingOf(log[..i]) ==> log[i].v <= u
  }

  lemma OneMore(log: seq<Happening>, h: Happening)
    ensures PendingOf(log + [h]) == if h.Raised? then PendingOf(log) + {h.v} else PendingOf(log) - {h.v}
  {
    assert (log + [h])[..|log|] == log;
  }

  lemma InOrderMore(log: seq<Happening>, h: Happening)
    requires InOrder(log)
    requires h.Delivered? ==> h.v in PendingOf(log) && forall u :: u in PendingOf(log) ==> h.v <= u
    ensures InOrder(log + [h])
  {
    var more := log + [h];
    forall i | 0 <= i < |more| && more[i].Delivered?
      ensures more[i].v in PendingOf(more[..i]) && forall u :: u in PendingOf(more[..i]) ==> more[i].v <= u
    {
      assert more[..i] == if i < |log| then log[..i] else log;
    }
  }

  /** Any interleaving, from any history: the pending set is exactly the vectors raised since
      their last delivery, and deliveries come lowest vector first. */
  lemma {:induction false} NothingLost(c: Control, log: seq<Happening>, events: seq<Event>)
    requires c.pending == PendingOf(log) && InOrder(log)
    ensures var (c', more) := Run(c, events); c'.pending == PendingOf(log + more) && InOrder(log + more)
    decreases |events|
  {
    if events == [] {
      assert log + [] == log;
    } else {
      var (c1, l1) := Step(c, events[0]);
      var (c2, l2) := Run(c1, events[1..]);
      if l1 == [] {
        assert log + l1 == log;
      } else {
        assert l1 == [l1[0]];
        OneMore(log, l1[0]);
        InOrderMore(log, l1[0]);
      }
      NothingLost(c1, log + l1, events[1..]);
      assert log + (l1 + l2) == log + l1 + l2;
    }
  }

  /** A raise stays pending until its own delivery, whatever else is raised, masked, delivered
      or returned from. */
  lemma RaiseSurvives(c: Control, log: seq<Happening>, v: nat, events: seq<Event>)
    requires c.pending == PendingOf(log) && InOrder(log)
    ensures var (c', more) := Run(c, [Raise(v)] + events);
      v in c'.pending || Delivered(v) in more
  {
    var program := [Raise(v)] + events;
    assert program[1..] == events;
    NothingLost(c, log, program);
    var (c', more) := Run(c, program);
    assert more[0] == Raised(v);
    if Delivered(v) !in more {
      PendingMeans(log + more, v);
      assert (log + more)[|log|] == Raised(v);
    }
  }

  /** While nothing turns interrupts on, nothing is delivered. */
  lemma {:induction false} MaskedDeliversNothing(c: Control, events: seq<Event>)
    requires !c.enabled && forall e :: e in events && e.WriteRf? ==> !e.enabled
    ensures var (c', log) := Run(c, events); !c'.enabled && forall h :: h in log ==> h.Raised?
    decreases |events|
  {
    if events != [] {
      assert events[0] in events;
      var (c1, l1) := Step(c, events[0]);
      MaskedDeliversNothing(c1, events[1..]);
    }
  }

  // ---- draining -----------------------------------------------------------------------------------------

  ghost function Ascending(s: set<nat>): seq<Happening>
    decreases |s|
  {
    if s == {} then [] else [Delivered(Least(s))] + Ascending(s - {Least(s)})
  }

  /** `n` handlers in a row, each returning with interrupts on. */
  function Handlers(n: nat): seq<Event> {
    if n == 0 then [] else [Boundary, WriteRf(true, false)] + Handlers(n - 1)
  }

  /** With no new raises, one handler per pending vector delivers each exactly once, in
      ascending order, and empties the controller. */
  lemma {:induction false} Drain(c: Control)
    requires c.enabled
    ensures Run(c, Handlers(|c.pending|)) == (Control({}, true), Ascending(c.pending))
    decreases |c.pending|
  {
    if c.pending != {} {
      var v, n := Least(c.pending), |c.pending|;
      var rest := c.pending - {v};
      var es, b, w := Handlers(n), Boundary, WriteRf(true, false);
      assert |rest| == n - 1;
      Drain(Control(rest, true));
      assert es[0] == b && es[1..] == [w] + Handlers(n - 1);
      assert es[1..][0] == w && es[1..][1..] == Handlers(n - 1);
      assert Step(c, b) == (Control(rest, false), [Delivered(v)]);
      assert Step(Control(rest, false), w) == (Control(rest, true), []);
      assert [] + Ascending(rest) == Ascending(rest);
      assert Run(Control(rest, false), es[1..]) == (Control({}, true), [] + Ascending(rest));
    }
  }

  // ---- the controller as shipped -----------------------------------------------------------------------

  class Controller {
    /** One bit per vector. */
    var mask: seq<bool>
    /** The summary bit the run loop polls. */
    var pending: bool
    /** RF's enable bit, and its advisory mirror of "an interrupt is set". */
    var enabled: bool
    var mirror: bool

    ghost function Set(): set<nat>
      reads this
    {
      set v | 0 <= v < |mask| && mask[v]
    }

    ghost predicate Valid()
      reads this
    {
      && |mask| == VECTORS && (forall v :: 0 <= v < FIRST ==> !mask[v])
      && (pending <==> Set() != {})
    }

    ghost function View(): Control
      reads this
    {
      Control(Set(), enabled)
    }

    constructor ()
      ensures Valid() && View() == Control({}, false)
    {
      mask := seq(VECTORS, _ => false);
      pending, enabled, mirror := false, false, false;
    }

    method RaiseIrq(v: nat)
      requires Valid() && FIRST <= v < VECTORS
      modifies `mask, `pending, `mirror
      ensures Valid() && mirror && View() == Step(old(View()), Raise(v)).0
    {
      mask := mask[v := true];
      pending, mirror := true, true;
      assert v in Set();
      assert Set() == old(Set()) + {v};
    }

    /** Lowest set bit from 32 up; the summary bit falls only with the last one. */
    method TakeNextPendingVector() returns (v: nat)
      requires Valid()
      modifies `mask, `pending, `mirror
      ensures Valid() && !mirror && Set() == old(Set()) - {v}
      ensures v == if old(Set()) == {} then 0 else Least(old(Set()))
    {
      v := FIRST;
      while v < VECTORS
        invariant FIRST <= v <= VECTORS && forall u :: 0 <= u < v ==> !mask[u]
        invariant mask == old(mask) && pending == old(pending)
      {
        if mask[v] {
          assert v in Set();
          mask := mask[v := false];
          mirror := false;
          pending := exists u | 0 <= u < VECTORS :: mask[u];
          assert Set() == old(Set()) - {v};
          assert forall u :: u in Set() <==> 0 <= u < VECTORS && mask[u];
          return;
        }
        v := v + 1;
      }
      mirror, pending, v := false, false, 0;
    }

    method TryDeliver() returns (r: Option)
      requires Valid()
      modifies `mask, `pending, `mirror, `enabled
      ensures Valid()
      ensures (View(), if r.None? then [] else [Delivered(r.vector)]) == Step(old(View()), Boundary)
    {
      if !enabled || !pending {
        return None;
      }
      var v := TakeNextPendingVector();
      enabled := false;
      return Some(v);
    }

    method Apply(e: Event) returns (log: seq<Happening>)
      requires Valid() && (e.Raise? ==> FIRST <= e.v < VECTORS)
      modifies this
      ensures Valid() && (View(), log) == Step(old(View()), e)
    {
      log := [];
      match e
      case Raise(v) =>
        RaiseIrq(v);
        log := [Raised(v)];
      case WriteRf(on, m) =>
        enabled, mirror := on, m;
      case Boundary =>
        var r := TryDeliver();
        if r.Some? {
          log := [Delivered(r.vector)];
        }
    }

    /** Any sequence of raises, RF writes and boundaries. */
    method Operate(events: seq<Event>) returns (log: seq<Happening>)
      requires Valid() && forall e :: e in events && e.Raise? ==> FIRST <= e.v < VECTORS
      modifies this
      ensures Valid() && (View(), log) == Run(old(View()), events)
    {
      log := [];
      assert events[0..] == events;
      assert [] + Run(View(), events).1 == Run(View(), events).1;
      for n := 0 to |events|
        invariant Valid()
        invariant Run(old(View()), events) == (Run(View(), events[n..]).0, log + Run(View(), events[n..]).1)
      {
        hide Step, Least;
        assert events[n..][0] == events[n] && events[n..][1..] == events[n + 1..];
        var l := Apply(events[n]);
        ghost var rest := Run(View(), events[n + 1..]).1;
        assert log + (l + rest) == log + l + rest;
        log := log + l;
      }
      assert events[|events|..] == [] && log + [] == log;
    }
  }
}
