/** The instruction-tick timer: a bulk advance that must be exactly that many single ticks. */
module Timer {
  import opened Words
  import Interrupts

  /** `control`: bit 0 enable, bit 1 periodic. `status`: bit 0 tick pending. */
  datatype Regs = Regs(period: Word, control: Word, status: Word, counter: Word)

  predicate Enabled(t: Regs) { t.control % 2 == 1 }
  predicate Periodic(t: Regs) { t.control / 2 % 2 == 1 }
  predicate Waiting(t: Regs) { t.status % 2 == 1 }

  /** One retired instruction, and whether it raised the timer's vector. */
  function Tick(t: Regs): (Regs, bool) {
    if !Enabled(t) || Waiting(t) then (t, false)
    else
      var count := if t.counter == 0 then t.period else t.counter;
      if count == 0 then (t, false)
      else if count > 1 then (t.(counter := count - 1), false)
      else
        (t.(counter := 0, status := t.status + 1, control := if Periodic(t) then t.control else t.control - 1), true)
  }

  function Ticks(t: Regs, n: nat): (Regs, nat)
    decreases n
  {
    if n == 0 then (t, 0)
    else
      var (t1, raised) := Tick(t);
      var (t2, more) := Ticks(t1, n - 1);
      (t2, (if raised then 1 else 0) + more)
  }

  predicate Still(t: Regs) {
    !Enabled(t) || Waiting(t) || (t.counter == 0 && t.period == 0)
  }

  lemma {:induction false} StillStays(t: Regs, n: nat)
    requires Still(t)
    ensures Ticks(t, n) == (t, 0)
  {
    if n > 0 {
      StillStays(t, n - 1);
    }
  }

  /** What `n` single ticks come to: the countdown crosses zero at most once. */
  function Left(t: Regs): nat { if t.counter == 0 then t.period else t.counter }

  function Fired(t: Regs): Regs
    requires Enabled(t) && !Waiting(t)
  {
    Regs(t.period, if Periodic(t) then t.control else t.control - 1, t.status + 1, 0)
  }

  lemma {:induction false} TicksAre(t: Regs, n: nat)
    requires !Still(t) && n > 0
    ensures Ticks(t, n) == if n < Left(t) then (t.(counter := Left(t) - n), 0) else (Fired(t), 1)
    decreases n
  {
    var (t1, raised) := Tick(t);
    if raised {
      StillStays(t1, n - 1);
    } else if n > 1 {
      TicksAre(t1, n - 1);
    }
  }

  lemma {:induction false} TicksAdd(t: Regs, m: nat, n: nat)
    ensures var (t1, a) := Ticks(t, m); var (t2, b) := Ticks(t1, n); Ticks(t, m + n) == (t2, a + b)
    decreases m
  {
    if m > 0 {
      TicksAdd(Tick(t).0, m - 1, n);
    }
  }

  // ---- runs with guest writes ------------------------------------------------------------------------

  datatype Event =
    /** The CPU retires a batch of instructions and advances the timer once. */
    | Retire(n: Word)
    | WritePeriod(w: Word)
    | WriteControl(w: Word)
    /** The acknowledge: a value with bit 0 clear. Any value may be written. */
    | WriteStatus(w: Word)

  function Step(t: Regs, e: Event): (Regs, nat) {
    match e
    case Retire(n) => Ticks(t, n)
    case WritePeriod(w) => (t.(period := w), 0)
    case WriteControl(w) => (t.(control := w), 0)
    case WriteStatus(w) => (t.(status := w), 0)
  }

  function Run(t: Regs, events: seq<Event>): (Regs, nat)
    decreases |events|
  {
    if events == [] then (t, 0)
    else
      var (t1, a) := Step(t, events[0]);
      var (t2, b) := Run(t1, events[1..]);
      (t2, a + b)
  }

  function Acks(events: seq<Event>): nat
    decreases |events|
  {
    if events == [] then 0
    else (if events[0].WriteStatus? && events[0].w % 2 == 0 then 1 else 0) + Acks(events[1..])
  }

  lemma {:induction false} RaisesOnce(t: Regs, n: nat)
    ensures var (t', raised) := Ticks(t, n); raised <= 1 && (raised == 1 ==> !Waiting(t) && Waiting(t'))
    ensures Waiting(t) ==> Waiting(Ticks(t, n).0)
  {
    if Still(t) {
      StillStays(t, n);
    } else if n > 0 {
      TicksAre(t, n);
    }
  }

  /** Whatever the guest writes in between, a raise is never repeated before an acknowledge. */
  lemma {:induction false} RaisesNeedAcks(t: Regs, events: seq<Event>)
    ensures Run(t, events).1 <= Acks(events) + (if Waiting(t) then 0 else 1)
    decreases |events|
  {
    if events != [] {
      var e := events[0];
      if e.Retire? {
        RaisesOnce(t, e.n);
      }
      RaisesNeedAcks(Step(t, e).0, events[1..]);
    }
  }

  /** `k` periods of a periodic timer, each one acknowledged. */
  function Periods(p: Word, k: nat): seq<Event> {
    if k == 0 then [] else [Retire(p), WriteStatus(0)] + Periods(p, k - 1)
  }

  /** Armed and acknowledged each time, a periodic timer raises once per period, for ever. */
  lemma {:induction false} PeriodicRaises(t: Regs, k: nat)
    requires Enabled(t) && Periodic(t) && t.period > 0 && t.counter == 0 && t.status == 0
    ensures Run(t, Periods(t.period, k)) == (t, k)
  {
    if k > 0 {
      var p := t.period;
      var es := Periods(p, k);
      TicksAre(t, p);
      PeriodicRaises(t, k - 1);
      assert es[0] == Retire(p) && es[1..] == [WriteStatus(0)] + Periods(p, k - 1);
      assert es[1..][0] == WriteStatus(0) && es[1..][1..] == Periods(p, k - 1);
      assert Run(t.(status := 1), es[1..]) == (t, k - 1);
    }
  }

  // ---- the register bits -------------------------------------------------------------------------------

  /** Control bits 1:0. Off (even) never raises; one-shot (01) raises once, clears its own enable bit
      and stays quiet even after the acknowledge; periodic (11) keeps its control word and re-arms.
      A pending status bit or a zero period holds it still. */
  lemma ControlBits(t: Regs, n: nat, m: nat)
    ensures t.control % 2 == 0 || t.status % 2 == 1 || (t.counter == 0 && t.period == 0) ==> Ticks(t, n) == (t, 0)
    ensures t.control % 4 == 1 && t.status % 2 == 0 && t.counter == 0 && 0 < t.period <= n ==>
      var (u, raised) := Ticks(t, n);
      && raised == 1 && u == Regs(t.period, t.control - 1, t.status + 1, 0)
      && Ticks(u.(status := 0), m) == (u.(status := 0), 0)
    ensures t.control % 4 == 3 && t.status % 2 == 0 && t.counter == 0 && 0 < t.period <= n ==>
      Ticks(t, n) == (Regs(t.period, t.control, t.status + 1, 0), 1)
  {
    if Still(t) {
      StillStays(t, n);
    } else if n > 0 {
      TicksAre(t, n);
      var u := Ticks(t, n).0;
      if Still(u.(status := 0)) {
        StillStays(u.(status := 0), m);
      }
    }
  }

  /** Fewer ticks than remain only count down. */
  lemma Countdown(t: Regs, n: nat)
    requires t.control % 2 == 1 && t.status % 2 == 0 && 0 < n < t.counter
    ensures Ticks(t, n) == (t.(counter := t.counter - n), 0)
  {
    TicksAre(t, n);
  }

  // ---- batching ----------------------------------------------------------------------------------------

  /** The same run with every batch taken one instruction at a time. */
  function Singly(events: seq<Event>): seq<Event>
    decreases |events|
  {
    if events == [] then []
    else
      (if events[0].Retire? then seq(events[0].n, _ => Retire(1)) else [events[0]]) + Singly(events[1..])
  }

  lemma {:induction false} RunAppend(t: Regs, xs: seq<Event>, ys: seq<Event>)
    ensures var (t1, a) := Run(t, xs); var (t2, b) := Run(t1, ys); Run(t, xs + ys) == (t2, a + b)
    decreases |xs|
  {
    if xs == [] {
      assert xs + ys == ys;
    } else {
      assert (xs + ys)[1..] == xs[1..] + ys;
      RunAppend(Step(t, xs[0]).0, xs[1..], ys);
    }
  }

  lemma {:induction false} OneByOne(t: Regs, n: nat)
    ensures Run(t, seq(n, _ => Retire(1))) == Ticks(t, n)
    decreases n
  {
    if n > 0 {
      var es := seq(n, _ => Retire(1));
      assert es[1..] == seq(n - 1, _ => Retire(1));
      var (t1, raised) := Tick(t);
      assert Ticks(t1, 0) == (t1, 0);
      assert Step(t, es[0]) == (t1, if raised then 1 else 0);
      OneByOne(t1, n - 1);
    }
  }

  /** How retired instructions are grouped into batches between guest writes cannot be seen. */
  lemma {:induction false} BatchingInvisible(t: Regs, events: seq<Event>)
    ensures Run(t, events) == Run(t, Singly(events))
    decreases |events|
  {
    if events != [] {
      var e := events[0];
      var first := if e.Retire? then seq(e.n, _ => Retire(1)) else [e];
      RunAppend(t, first, Singly(events[1..]));
      if e.Retire? {
        OneByOne(t, e.n);
      } else {
        assert [e][1..] == [];
        assert Run(t, [e]) == Step(t, e);
      }
      BatchingInvisible(Step(t, e).0, events[1..]);
    }
  }

  // ---- the device ---------------------------------------------------------------------------------------

  class TimerDevice {
    var period: Word
    var control: Word
    var status: Word
    var counter: Word
    var irqVector: nat

    function View(): Regs
      reads this
    {
      Regs(period, control, status, counter)
    }

    constructor ()
      ensures View() == Regs(0, 0, 0, 0) && irqVector == 32
    {
      period, control, status, counter, irqVector := 0, 0, 0, 0, 32;
    }

    /** One subtraction for the whole batch. */
    method AdvanceActiveTimer(irq: Interrupts.Controller, n: Word)
      requires irq.Valid() && 32 <= irqVector < 256
      modifies `counter, `status, `control, irq
      ensures irq.Valid() && irq.enabled == old(irq.enabled)
      ensures View() == Ticks(old(View()), n).0
      ensures irq.Set() == old(irq.Set()) + (if Ticks(old(View()), n).1 == 1 then {irqVector} else {})
    {
      RaisesOnce(View(), n);
      if n == 0 {
        return;
      }
      if Still(View()) {
        StillStays(View(), n);
      } else {
        TicksAre(View(), n);
      }
      if control % 2 == 0 {
        return;
      }
      if status % 2 == 1 {
        return;
      }
      if counter == 0 {
        counter := period;
        if counter == 0 {
          return;
        }
      }
      if n < counter {
        counter := counter - n;
        return;
      }
      counter := 0;
      status := status + 1;
      irq.RaiseIrq(irqVector);
      if control / 2 % 2 == 0 {
        control := control - 1;
      }
    }
  }
}
