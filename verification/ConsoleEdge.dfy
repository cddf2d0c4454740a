/** The console's readiness interrupt: raised on the rising edge of "host input is readable", and
    once more for the end of input. */
module ConsoleEdge {
  import Interrupts

  const CONSOLE_IRQ: nat := 33

  datatype Event =
    /** An input tick, with the host's readiness answer: positive readable, 0 not, negative end. */
    | Tick(ready: int)
    /** A data-port read, with whether the host still had a byte. */
    | DataRead(byte: bool)
    /** The bounded park expired and re-armed the edge. */
    | Relatch

  datatype State = State(eof: bool, signaled: bool)

  /** What one read of host input gives. */
  datatype HostRead = Byte(b: nat) | End

  datatype TickResult = Terminal | NotReady | IrqRaised | Latched

  /** The new latches, and whether the event raised the interrupt. */
  function Step(s: State, e: Event): (State, bool) {
    match e
    case Tick(r) =>
      if s.eof then (s, false)
      else if r == 0 then (s.(signaled := false), false)
      else if r < 0 then (State(true, true), true)
      else (s.(signaled := true), !s.signaled)
    case DataRead(byte) => (State(s.eof || !byte, false), false)
    case Relatch => (s.(signaled := false), false)
  }

  function Run(s: State, events: seq<Event>): State {
    if events == [] then s else Step(Run(s, events[..|events| - 1]), events[|events| - 1]).0
  }

  const FRESH: State := State(false, false)

  /** Whether event `k` of a run raises. */
  predicate Raises(s: State, events: seq<Event>, k: nat)
    requires k < |events|
  {
    Step(Run(s, events[..k]), events[k]).1
  }

  // ---- exactly when ---------------------------------------------------------------------------------------

  predicate Ends(e: Event) { e == DataRead(false) || (e.Tick? && e.ready < 0) }
  predicate Rearms(e: Event) { e.DataRead? || e.Relatch? || (e.Tick? && e.ready == 0) }
  predicate Readable(e: Event) { e.Tick? && e.ready > 0 }

  predicate Ended(events: seq<Event>, n: nat)
    requires n <= |events|
  {
    exists i :: 0 <= i < n && Ends(events[i])
  }

  /** A readable tick before `n` with nothing re-arming the edge since. */
  predicate Spent(events: seq<Event>, n: nat)
    requires n <= |events|
  {
    exists i :: 0 <= i < n && Readable(events[i]) && forall j :: i < j < n ==> !Rearms(events[j])
  }

  lemma EndedStep(events: seq<Event>, n: nat)
    requires n < |events|
    ensures Ended(events, n + 1) <==> Ended(events, n) || Ends(events[n])
  {
  }

  lemma SpentStep(events: seq<Event>, n: nat)
    requires n < |events|
    ensures Spent(events, n + 1) <==> Readable(events[n]) || (Spent(events, n) && !Rearms(events[n]))
  {
    if Spent(events, n) && !Rearms(events[n]) {
      var i :| 0 <= i < n && Readable(events[i]) && forall j :: i < j < n ==> !Rearms(events[j]);
      assert forall j :: i < j < n + 1 ==> !Rearms(events[j]);
    }
    if Spent(events, n + 1) && !Readable(events[n]) {
      var i :| 0 <= i < n + 1 && Readable(events[i]) && forall j :: i < j < n + 1 ==> !Rearms(events[j]);
      assert i < n && !Rearms(events[n]);
    }
  }

  lemma {:induction false} LatchesMean(events: seq<Event>, n: nat)
    requires n <= |events|
    ensures Run(FRESH, events[..n]).eof <==> Ended(events, n)
    ensures !Ended(events, n) ==> (Run(FRESH, events[..n]).signaled <==> Spent(events, n))
  {
    if n > 0 {
      LatchesMean(events, n - 1);
      EndedStep(events, n - 1);
      SpentStep(events, n - 1);
      assert events[..n][..n - 1] == events[..n - 1];
    }
  }

  /** A tick raises exactly when input has not ended before it, and it either finds the end of
      input or finds input readable with the edge armed. */
  lemma RaisesExactly(events: seq<Event>, k: nat)
    requires k < |events|
    ensures Raises(FRESH, events, k) <==>
      && events[k].Tick? && !Ended(events, k)
      && (events[k].ready < 0 || (events[k].ready > 0 && !Spent(events, k)))
  {
    LatchesMean(events, k);
  }

  /** The first tick to find input readable after a re-arm raises, unless input has ended. */
  lemma ReadableAfterRearmRaises(events: seq<Event>, i: nat, k: nat)
    requires i < k < |events| && Rearms(events[i]) && Readable(events[k]) && !Ended(events, k)
    requires forall j :: i < j < k ==> !Readable(events[j])
    ensures Raises(FRESH, events, k)
  {
    RaisesExactly(events, k);
  }

  /** A parked reader is never stranded: from any latches, readable input raises either now or,
      when the edge was already spent, at the first tick after the park's deadline. */
  lemma ReadableParkWakes(s: State, now: int, later: int)
    requires !s.eof && now > 0 && later > 0
    ensures Raises(s, [Tick(now), Relatch, Tick(later)], 0) || Raises(s, [Tick(now), Relatch, Tick(later)], 2)
  {
    var es := [Tick(now), Relatch, Tick(later)];
    assert es[..0] == [] && es[..2] == [Tick(now), Relatch];
    assert es[..2][..1] == [Tick(now)] && [Tick(now)][..0] == [];
    assert Run(s, [Tick(now)]) == Step(s, Tick(now)).0;
    assert Run(s, es[..2]) == Step(Run(s, [Tick(now)]), Relatch).0;
  }

  // ---- how often --------------------------------------------------------------------------------------------

  function CountRaises(s: State, events: seq<Event>): nat {
    if events == [] then 0
    else
      CountRaises(s, events[..|events| - 1])
      + (if Step(Run(s, events[..|events| - 1]), events[|events| - 1]).1 then 1 else 0)
  }

  function CountEndRaises(s: State, events: seq<Event>): nat {
    if events == [] then 0
    else
      var e := events[|events| - 1];
      CountEndRaises(s, events[..|events| - 1])
      + (if e.Tick? && e.ready < 0 && Step(Run(s, events[..|events| - 1]), e).1 then 1 else 0)
  }

  function CountRearms(events: seq<Event>): nat {
    if events == [] then 0
    else CountRearms(events[..|events| - 1]) + (if Rearms(events[|events| - 1]) then 1 else 0)
  }

  /** No storm: one raise per re-arming event, one to begin with, and one for the end. */
  lemma {:induction false} RaisesBounded(s: State, events: seq<Event>)
    ensures var t := Run(s, events);
      CountRaises(s, events) + (if t.signaled then 0 else 1) <= CountRearms(events) + CountEndRaises(s, events) + 1
    ensures CountEndRaises(s, events) <= (if s.eof || !Run(s, events).eof then 0 else 1)
    ensures s.eof ==> Run(s, events).eof
  {
    if events != [] {
      RaisesBounded(s, events[..|events| - 1]);
    }
  }

  // ---- the device ---------------------------------------------------------------------------------------------

  class ConsoleDevice {
    var eof: bool
    var readableSignaled: bool

    function View(): State
      reads this
    {
      State(eof, readableSignaled)
    }

    constructor ()
      ensures View() == FRESH
    {
      eof, readableSignaled := false, false;
    }

    method OnInputTick(irq: Interrupts.Controller, ready: int) returns (r: TickResult)
      requires irq.Valid()
      modifies this, irq
      ensures irq.Valid() && View() == Step(old(View()), Tick(ready)).0
      ensures irq.View() == if Step(old(View()), Tick(ready)).1
        then Interrupts.Step(old(irq.View()), Interrupts.Raise(CONSOLE_IRQ)).0 else old(irq.View())
      ensures r.IrqRaised? <==> Step(old(View()), Tick(ready)).1
      ensures r.Terminal? <==> old(eof)
      ensures r.NotReady? <==> !old(eof) && ready == 0
    {
      if eof {
        return Terminal;
      }
      if ready == 0 {
        readableSignaled := false;
        return NotReady;
      }
      if ready < 0 {
        eof, readableSignaled := true, true;
        irq.RaiseIrq(CONSOLE_IRQ);
        return IrqRaised;
      }
      if !readableSignaled {
        readableSignaled := true;
        irq.RaiseIrq(CONSOLE_IRQ);
        return IrqRaised;
      }
      return Latched;
    }

    method ReadData(host: HostRead) returns (b: nat)
      modifies this
      ensures View() == Step(old(View()), DataRead(host.Byte? || old(eof))).0
      ensures b == if host.Byte? && !old(eof) then host.b else 0
    {
      b := 0;
      if !eof {
        if host.End? {
          eof := true;
        } else {
          b := host.b;
        }
      }
      readableSignaled := false;
    }

    method RearmReadyEdge()
      modifies this
      ensures View() == Step(old(View()), Relatch).0
    {
      readableSignaled := false;
    }

    /** Any interleaving: the latches are the specified ones and the interrupt is pending again
        exactly when some event raised it. */
    method Operate(irq: Interrupts.Controller, events: seq<Event>) returns (raises: nat)
      requires irq.Valid()
      modifies this, irq
      ensures irq.Valid() && View() == Run(old(View()), events) && raises == CountRaises(old(View()), events)
      ensures irq.Set() == old(irq.Set()) + (if raises > 0 then {CONSOLE_IRQ} else {})
    {
      raises := 0;
      for n := 0 to |events|
        invariant irq.Valid() && View() == Run(old(View()), events[..n])
        invariant raises == CountRaises(old(View()), events[..n])
        invariant irq.Set() == old(irq.Set()) + (if raises > 0 then {CONSOLE_IRQ} else {})
      {
        assert events[..n + 1][..n] == events[..n];
        match events[n] {
          case Tick(ready) =>
            var r := OnInputTick(irq, ready);
            if r.IrqRaised? { raises := raises + 1; }
          case DataRead(byte) =>
            var b := ReadData(if byte then Byte(0) else End);
          case Relatch =>
            RearmReadyEdge();
        }
      }
      assert events[..|events|] == events;
    }
  }
}
