/** The shipped core: an ALU operation leaves a descriptor instead of flags, and whoever
    consumes flags resolves it first. */
module LazyCore {
  import opened Words
  import opened Alu
  import opened AluProofs
  import opened Registers
  import opened Core

  class Cpu {
    var regs: seq<Word>
    var rf: Rf
    var dirty: bool
    var pending: Pending

    ghost predicate Valid()
      reads this
    {
      |regs| == 16 && (dirty ==> Descriptor(pending))
    }

    /** The state an observer must see: the descriptor, if any, resolved into RF. */
    ghost function Settled(): State
      reads this
      requires Valid()
    {
      State(regs, if dirty then WithNzcv(rf, Resolve(pending)) else rf)
    }

    constructor (s: State)
      requires |s.regs| == 16
      ensures Valid() && Settled() == s
    {
      regs, rf, dirty := s.regs, s.rf, false;
      pending := Pending(Add, 1, 0, 0, 0);
    }

    /** Resolve a pending descriptor into RF. */
    method MaterializeFlags()
      requires Valid()
      modifies `rf, `dirty
      ensures Valid() && !dirty && Settled() == old(Settled())
    {
      if !dirty {
        return;
      }
      rf := WithNzcv(rf, Resolve(pending));
      dirty := false;
    }

    /** Naming RF as an operand resolves the flags first. */
    method Operand(r: RegIndex) returns (x: Word)
      requires Valid()
      modifies `rf, `dirty
      ensures Valid() && Settled() == old(Settled())
      ensures x == Value(Settled(), r) && (r == RF ==> !dirty) && (dirty ==> old(dirty))
    {
      if r == RF {
        MaterializeFlags();
        x := Encode(rf);
      } else {
        x := regs[r];
      }
    }

    method CommitReg(r: RegIndex, x: Word)
      requires Valid() && (r == RF ==> !dirty)
      modifies `regs, `rf
      ensures Valid() && Settled() == Write(old(Settled()), r, x)
    {
      if r == RF {
        rf := Commit(rf, x);
      } else {
        regs := regs[r := x];
      }
    }

    method WriteSub(f: Field, bits: nat)
      requires Valid()
      modifies `regs, `rf, `dirty
      ensures Valid() && Settled() == WriteField(old(Settled()), f, bits)
    {
      var x := Operand(f.reg);
      CommitReg(f.reg, WriteBits(x, f.sub, bits));
    }

    method ReadSub(f: Field) returns (v: nat)
      requires Valid()
      modifies `rf, `dirty
      ensures Valid() && Settled() == old(Settled()) && v == Bits(Settled(), f)
      ensures dirty ==> old(dirty)
    {
      var x := Operand(f.reg);
      v := ReadBits(x, f.sub);
    }

    method ReadSourceSigned(src: Source) returns (v: Word)
      requires Valid()
      modifies `rf, `dirty
      ensures Valid() && Settled() == old(Settled()) && v == SignedOf(Settled(), src)
    {
      match src
      case Reg(f) =>
        var x := Operand(f.reg);
        v := ReadSigned(x, f.sub);
      case Val(x) => v := x;
    }

    method ReadSourcePlain(src: Source) returns (v: Word)
      requires Valid()
      modifies `rf, `dirty
      ensures Valid() && Settled() == old(Settled()) && v == PlainOf(Settled(), src)
    {
      match src
      case Reg(f) =>
        var x := Operand(f.reg);
        v := ReadBits(x, f.sub);
      case Val(x) => v := x;
    }

    /** The ALU proper: the value now, a descriptor for the flags. ADC and SBB consume C, so
        they resolve what is pending before they stage their own. */
    method RunAlu(op: Op, w: nat, src: nat, dst: nat) returns (r: Computed)
      requires Valid() && Width(w) && src < Size(w) && dst < Size(w)
      modifies `rf, `dirty, `pending
      ensures Valid()
      ensures match Meaning(op, w, src, dst, old(Settled()).rf.c)
              case DivideError => r.Trap?
              case Quiet(v) => r == Unstaged(v) && Settled() == old(Settled())
              case Flagged(v, hi, f) =>
                r.Staged? && r.result == v && r.high == hi
                && Settled() == old(Settled()).(rf := WithNzcv(old(Settled()).rf, f))
    {
      hide Meaning, Compute, Resolve;
      DeferredFlagsExact(op, w, src, dst, Settled().rf.c);
      var carry := false;
      if op.Adc? || op.Sbb? {
        MaterializeFlags();
        carry := rf.c;
      }
      CarryIrrelevant(op, w, src, dst, carry, old(Settled()).rf.c);
      r := Compute(op, w, src, dst, carry);
      if r.Staged? {
        pending, dirty := r.pending, true;
      }
    }

    method Arithmetic(op: Op, src: Word, dst: Field) returns (trapped: bool)
      requires Valid()
      modifies `regs, `rf, `dirty, `pending
      ensures Valid()
      ensures match Arith(old(Settled()), op, src, dst)
              case Stop(c) => trapped && c == 2
              case Next(s, seen) => !trapped && Settled() == s && seen == []
    {
      hide Meaning, Resolve, WriteField;
      var w := SizeOf(dst.sub);
      var d := ReadSub(dst);
      var r := RunAlu(op, w, Trunc(src, w), d);
      if r.Trap? {
        return true;
      }
      if !(op.Cmp? || op.Test?) {
        WriteSub(dst, r.result);
      }
      return false;
    }

    method WideMultiply(op: Op, src: Word, dst: Field, hi: Field) returns (trapped: bool)
      requires Valid()
      modifies `regs, `rf, `dirty, `pending
      ensures Valid()
      ensures match Wide(old(Settled()), op, src, dst, hi)
              case Stop(c) => trapped && c == 2
              case Next(s, seen) => !trapped && Settled() == s && seen == []
    {
      hide Meaning, Resolve, WriteField;
      var w := SizeOf(dst.sub);
      var d := ReadSub(dst);
      var r := RunAlu(op, w, Trunc(src, w), d);
      if r.Trap? {
        return true;
      }
      WriteSub(dst, r.result);
      if r.Staged? {
        WriteSub(hi, r.high);
      }
      return false;
    }

    /** CMPXCHG writes Z alone, so everything pending is resolved first. */
    method CompareExchange(src: Source, dst: Field, expected: Field)
      requires Valid()
      modifies `regs, `rf, `dirty
      ensures Valid() && Next(Settled(), []) == Core.Step(old(Settled()), CmpXchg(src, dst, expected))
    {
      hide Resolve, WriteField, SignedOf, ReadBits;
      MaterializeFlags();
      var want := ReadSub(expected);
      var have := ReadSub(dst);
      if want == have {
        rf := rf.(z := true);
        var v := ReadSourceSigned(src);
        WriteSub(dst, v);
      } else {
        rf := rf.(z := false);
        var v := ReadSourceSigned(Reg(dst));
        WriteSub(expected, v);
      }
    }

    /** LEA adds through the ALU, which stages a descriptor of its own; the descriptor that
        was pending is put back. */
    method LoadEffectiveAddress(src: Source, base: Field, dst: Field)
      requires Valid()
      modifies `regs, `rf, `dirty, `pending
      ensures Valid() && Next(Settled(), []) == Core.Step(old(Settled()), Lea(src, base, dst))
    {
      hide Resolve, WriteField, SignedOf;
      var a := ReadSourceSigned(src);
      var b := ReadSourceSigned(Reg(base));
      var w := SizeOf(base.sub);
      var savedDirty, savedPending, savedRf := dirty, pending, rf;
      var sum := Compute(Add, w, Trunc(a, w), Trunc(b, w), false);
      pending, dirty := sum.pending, true;
      pending, dirty, rf := savedPending, savedDirty, savedRf;
      TruncSum(a, b, w);
      WriteSub(dst, sum.result);
    }

    method Exchange(a: Field, b: Field)
      requires Valid()
      modifies `regs, `rf, `dirty
      ensures Valid() && Next(Settled(), []) == Core.Step(old(Settled()), Xchg(a, b))
    {
      hide Resolve, WriteField, SignedOf;
      var x := ReadSourceSigned(Reg(a));
      var y := ReadSourceSigned(Reg(b));
      WriteSub(a, y);
      WriteSub(b, x);
    }

    /** Jcc and SETcc share one consumer. */
    method EvalCondition(cond: nat) returns (holds: bool)
      requires Valid()
      modifies `rf, `dirty
      ensures Valid() && Settled() == old(Settled()) && holds == Holds(Settled().rf, cond)
    {
      hide Resolve;
      MaterializeFlags();
      holds := Holds(rf, cond);
    }

    /** FCMP decides Z, C, P and clears N, V itself, and drops whatever was pending. */
    method FloatCompare(cmp: (nat, nat) -> Compared, dst: Field, src: Source)
      requires Valid()
      modifies `rf, `dirty
      ensures Valid() && Next(Settled(), []) == Core.Step(old(Settled()), FCmp(cmp, dst, src))
    {
      hide Resolve, PlainOf, ReadBits;
      var b := ReadSourcePlain(src);
      var a := ReadSub(dst);
      rf := Compare(rf, cmp(a, b));
      dirty := false;
    }

    /** Trap entry snapshots RF, so it resolves the flags before it does. */
    method EnterTrap() returns (saved: Word)
      requires Valid()
      modifies `rf, `dirty
      ensures Valid() && Next(Settled(), [Frame(saved)]) == Core.Step(old(Settled()), TrapEntry)
    {
      hide Resolve, Encode;
      saved := BeginTrap();
      MaskInterrupts();
    }

    /** The frame's RF word, and supervisor privilege for the pushes that follow. */
    method BeginTrap() returns (saved: Word)
      requires Valid()
      modifies `rf, `dirty
      ensures Valid() && !dirty && saved == Encode(old(Settled()).rf)
      ensures Settled() == old(Settled()).(rf := old(Settled()).rf.(privilege := true))
    {
      hide Resolve, Encode;
      MaterializeFlags();
      saved := Encode(rf);
      rf := rf.(privilege := true);
    }

    /** Once the frame is built the handler runs with interrupts off. */
    method MaskInterrupts()
      requires Valid() && !dirty
      modifies `rf
      ensures Valid() && Settled() == old(Settled()).(rf := old(Settled()).rf.(interruptEnabled := false))
    {
      rf := rf.(interruptEnabled := false);
    }

    /** One instruction. */
    method Step(i: Instr) returns (stopped: bool, cause: nat, seen: seq<Observation>)
      requires Valid()
      modifies `regs, `rf, `dirty, `pending
      ensures Valid()
      ensures match Core.Step(old(Settled()), i)
              case Stop(c) => stopped && cause == c
              case Next(s, o) => !stopped && Settled() == s && seen == o
    {
      hide Resolve, WriteField, SignedOf, PlainOf, Arith, Wide, ReadBits;
      stopped, cause, seen := false, 0, [];
      match i
      case Binary(op, src, dst) =>
        var v := ReadSourceSigned(src);
        stopped := Arithmetic(op, v, dst);
        cause := 2;
      case Unary(op, dst) =>
        stopped := Arithmetic(op, 0, dst);
        cause := 2;
      case WideMul(op, src, dst, hi) =>
        var v := ReadSourceSigned(src);
        stopped := WideMultiply(op, v, dst, hi);
        cause := 2;
      case CmpXchg(src, dst, expected) => CompareExchange(src, dst, expected);
      case Lea(src, base, dst) => LoadEffectiveAddress(src, base, dst);
      case Xchg(a, b) => Exchange(a, b);
      case FCmp(cmp, dst, src) => FloatCompare(cmp, dst, src);
      case TrapEntry =>
        var saved := EnterTrap();
        seen := [Frame(saved)];
      case SetCarry(on) => WriteCarry(on);
      case Iret(saved) =>
        stopped := ReturnFromInterrupt(saved);
        cause := 4;
      case SetInterrupts(_) =>
        stopped := StepSystem(i);
        cause := 4;
      case SetSyscallGuest(_) =>
        stopped := StepSystem(i);
        cause := 4;
      case Mirror(_) =>
        stopped := StepSystem(i);
        cause := 4;
      case _ => stopped, cause, seen := StepData(i);
    }

    /** Moves, SETcc, Jcc, ST and PUSH. */
    method StepData(i: Instr) returns (stopped: bool, cause: nat, seen: seq<Observation>)
      requires Valid() && (i.Move? || i.Clr? || i.SetCc? || i.Branch? || i.Emit?)
      modifies `regs, `rf, `dirty
      ensures Valid()
      ensures match Core.Step(old(Settled()), i)
              case Stop(c) => stopped && cause == c
              case Next(s, o) => !stopped && Settled() == s && seen == o
    {
      hide Resolve, WriteField, SignedOf, PlainOf, ReadBits, Holds;
      stopped, cause, seen := false, 0, [];
      match i
      case Move(src, signed, dst) =>
        var v;
        if signed { v := ReadSourceSigned(src); } else { v := ReadSourcePlain(src); }
        WriteSub(dst, v);
      case Clr(dst) => WriteSub(dst, 0);
      case SetCc(cond, dst) =>
        if cond > 10 { return true, 0, []; }
        var holds := EvalCondition(cond);
        WriteSub(dst, if holds then 1 else 0);
      case Branch(cond) =>
        if cond > 10 { return true, 0, []; }
        var holds := EvalCondition(cond);
        seen := [Condition(holds)];
      case Emit(f) =>
        var v := ReadSub(f);
        seen := [Stored(v)];
    }

    /** SETCRY and CLRCRY write C alone, so everything pending is resolved first. */
    method WriteCarry(on: bool)
      requires Valid()
      modifies `rf, `dirty
      ensures Valid() && Next(Settled(), []) == Core.Step(old(Settled()), SetCarry(on))
    {
      hide Resolve;
      MaterializeFlags();
      rf := rf.(c := on);
    }

    /** IRET replaces RF wholesale and drops whatever was pending. */
    method ReturnFromInterrupt(saved: Word) returns (stopped: bool)
      requires Valid()
      modifies `rf, `dirty
      ensures Valid()
      ensures match Core.Step(old(Settled()), Iret(saved))
              case Stop(c) => stopped && c == 4
              case Next(s, o) => !stopped && Settled() == s && o == []
    {
      hide Resolve, Decode;
      if !rf.privilege {
        return true;
      }
      rf := Decode(saved);
      dirty := false;
      return false;
    }

    /** Privileged bits of RF are written around a pending descriptor. */
    method StepSystem(i: Instr) returns (stopped: bool)
      requires Valid() && (i.SetInterrupts? || i.SetSyscallGuest? || i.Mirror?)
      modifies `rf
      ensures Valid()
      ensures match Core.Step(old(Settled()), i)
              case Stop(c) => stopped && c == 4
              case Next(s, o) => !stopped && Settled() == s && o == []
    {
      hide Resolve, WithNzcv, SystemBit;
      SystemBitCommutes(rf, if dirty then Resolve(pending) else Nzcv(false, false, false, false), i);
      stopped := !i.Mirror? && !rf.privilege;
      if !stopped {
        rf := SystemBit(rf, i);
      }
    }

    /** Any instruction sequence: the deferring core shows every observer exactly what the
        reference core shows, stops where it stops, and ends in its state. */
    method Execute(program: seq<Instr>) returns (stopped: bool, cause: nat, seen: seq<Observation>)
      requires Valid()
      modifies `regs, `rf, `dirty, `pending
      ensures Valid()
      ensures match Run(old(Settled()), program)
              case Stop(c) => stopped && cause == c
              case Next(s, o) => !stopped && Settled() == s && seen == o
    {
      hide Core.Step, Resolve;
      stopped, cause, seen := false, 0, [];
      var k := 0;
      ghost var start := Settled();
      while k < |program|
        invariant 0 <= k <= |program| && Valid() && !stopped
        invariant Run(start, program) == After(seen, Run(Settled(), program[k..]))
      {
        var o;
        stopped, cause, o := Step(program[k]);
        if stopped {
          return;
        }
        seen := seen + o;
        k := k + 1;
      }
    }
  }

  /** A run that continues after some observations were made. */
  ghost function After(seen: seq<Observation>, r: Result): Result {
    match r
    case Stop(c) => r
    case Next(s, o) => Next(s, seen + o)
  }

  lemma TruncSum(a: int, b: int, w: nat)
    requires Width(w)
    ensures Trunc(Trunc(a, w) + Trunc(b, w), w) == Trunc(a + b, w)
  {
    hide Size;
    var m := Size(w);
    var q := a / m + b / m;
    var c := Trunc(a, w) + Trunc(b, w);
    assert a == (a / m) * m + Trunc(a, w) && b == (b / m) * m + Trunc(b, w);
    assert q * m == (a / m) * m + (b / m) * m;
    assert c == (c / m) * m + Trunc(c, w);
    assert (q + c / m) * m == q * m + (c / m) * m;
    DivModUnique(a + b, m, q + c / m, Trunc(c, w));
  }

  /** Resolving the condition flags and writing a privileged bit can happen in either order. */
  lemma SystemBitCommutes(rf: Rf, x: Nzcv, i: Instr)
    requires i.SetInterrupts? || i.SetSyscallGuest? || i.Mirror?
    ensures WithNzcv(SystemBit(rf, i), x) == SystemBit(WithNzcv(rf, x), i)
    ensures WithNzcv(rf, x).privilege == rf.privilege
  {
  }

  /** Only ADC and SBB look at the carry. */
  lemma CarryIrrelevant(op: Op, w: nat, s: nat, d: nat, c1: bool, c2: bool)
    requires Width(w) && s < Size(w) && d < Size(w)
    requires op.Adc? || op.Sbb? ==> c1 == c2
    ensures Compute(op, w, s, d, c1) == Compute(op, w, s, d, c2)
  {
    hide Size, Trunc, ShiftValue;
  }
}
