/** The reference core: registers, flags and the instructions that read or write them, with
    every flag computed at the instruction that sets it. Memory operands arrive as values and
    stores leave as observations, so the machine is the same for every memory. */
module Core {
  import opened Words
  import opened Alu
  import opened Registers

  const RF: nat := 12

  type RegIndex = r: int | 0 <= r < 16

  /** RF lives in `rf`; slot 12 of `regs` is unused and holds 0. */
  datatype State = State(regs: seq<Word>, rf: Rf)

  datatype Field = Field(reg: RegIndex, sub: Subreg)

  /** A register field, or a value already fetched from the code stream or memory. */
  datatype Source = Reg(f: Field) | Val(x: Word)

  datatype Compared = Greater | Less | Equal | Unordered

  datatype Instr =
    | Binary(op: Op, src: Source, dst: Field)
    | Unary(uop: Op, dst: Field)
    | WideMul(wop: Op, src: Source, dst: Field, hi: Field)
    | CmpXchg(src: Source, dst: Field, expected: Field)
    | Lea(src: Source, base: Field, dst: Field)
    /** CP, LD, POP and IN when `signed`; CPZ and LDZ when not. */
    | Move(src: Source, signed: bool, dst: Field)
    | Xchg(a: Field, b: Field)
    | Clr(dst: Field)
    | SetCc(cond: nat, dst: Field)
    | Branch(cond: nat)
    /** ST and PUSH: the field leaves for memory. */
    | Emit(f: Field)
    | SetCarry(on: bool)
    | FCmp(cmp: (nat, nat) -> Compared, dst: Field, src: Source)
    | SetInterrupts(on: bool)
    | SetSyscallGuest(on: bool)
    | TrapEntry
    | Iret(saved: Word)
    /** Not an instruction: a device raises, or the controller acknowledges, an interrupt. */
    | Mirror(on: bool)

  datatype Observation =
    | Condition(holds: bool)
    | Stored(x: nat)
    /** The RF word pushed into a trap frame. */
    | Frame(rf: Word)

  datatype Result =
    | Next(s: State, seen: seq<Observation>)
    /** The VM stops: 0 illegal, 2 divide error, 4 privileged operation in user mode. */
    | Stop(cause: nat)

  // ---- operands ---------------------------------------------------------------------------------

  function Value(s: State, r: RegIndex): Word
    requires |s.regs| == 16
  {
    if r == RF then Encode(s.rf) else s.regs[r]
  }

  /** In user mode a write to RF keeps its five privileged bits. */
  function Commit(rf: Rf, x: Word): Rf {
    var f := Decode(x);
    if rf.privilege then f
    else f.(privilege := rf.privilege, interruptEnabled := rf.interruptEnabled,
            interruptSet := rf.interruptSet, running := rf.running, syscallGuest := rf.syscallGuest)
  }

  function Write(s: State, r: RegIndex, x: Word): (s': State)
    requires |s.regs| == 16
    ensures |s'.regs| == 16
  {
    if r == RF then s.(rf := Commit(s.rf, x)) else s.(regs := s.regs[r := x])
  }

  function WriteField(s: State, f: Field, bits: nat): (s': State)
    requires |s.regs| == 16
    ensures |s'.regs| == 16
  {
    Write(s, f.reg, WriteBits(Value(s, f.reg), f.sub, bits))
  }

  function SignedOf(s: State, src: Source): Word
    requires |s.regs| == 16
  {
    match src
    case Reg(f) => ReadSigned(Value(s, f.reg), f.sub)
    case Val(x) => x
  }

  function PlainOf(s: State, src: Source): Word
    requires |s.regs| == 16
  {
    match src
    case Reg(f) => ReadBits(Value(s, f.reg), f.sub)
    case Val(x) => x
  }

  function Bits(s: State, f: Field): nat
    requires |s.regs| == 16
  {
    ReadBits(Value(s, f.reg), f.sub)
  }

  // ---- flags --------------------------------------------------------------------------------------

  function WithNzcv(rf: Rf, x: Nzcv): Rf {
    rf.(n := x.n, z := x.z, c := x.c, v := x.v)
  }

  /** The shared condition table of Jcc and SETcc; an unallocated encoding decides nothing. */
  function Holds(rf: Rf, cond: nat): bool {
    match cond
    case 0 => rf.z
    case 1 => !rf.z
    case 2 => rf.n != rf.v
    case 3 => rf.c
    case 4 => !rf.z && rf.n == rf.v
    case 5 => !rf.c && !rf.z
    case 6 => rf.n == rf.v
    case 7 => rf.z || rf.n != rf.v
    case 8 => rf.c || rf.z
    case 9 => !rf.c
    case 10 => rf.p
    case _ => false
  }

  function Compare(rf: Rf, c: Compared): Rf {
    rf.(c := c.Less? || c.Unordered?, z := c.Equal? || c.Unordered?, p := c.Unordered?, n := false, v := false)
  }

  // ---- one instruction ------------------------------------------------------------------------------

  /** The ALU at the width of `dst`, flags first, then the result (CMP and TEST keep none). */
  function Arith(s: State, op: Op, src: Word, dst: Field): (r: Result)
    requires |s.regs| == 16
    ensures r.Next? ==> |r.s.regs| == 16
  {
    var w, keep := SizeOf(dst.sub), op.Cmp? || op.Test?;
    match Meaning(op, w, Trunc(src, w), Bits(s, dst), s.rf.c)
    case DivideError => Stop(2)
    case Quiet(r) => Next(if keep then s else WriteField(s, dst, r), [])
    case Flagged(r, _, f) =>
      var s1 := s.(rf := WithNzcv(s.rf, f));
      Next(if keep then s1 else WriteField(s1, dst, r), [])
  }

  function Wide(s: State, op: Op, src: Word, dst: Field, hi: Field): (r: Result)
    requires |s.regs| == 16
    ensures r.Next? ==> |r.s.regs| == 16
  {
    var w := SizeOf(dst.sub);
    match Meaning(op, w, Trunc(src, w), Bits(s, dst), s.rf.c)
    case DivideError => Stop(2)
    case Quiet(r) => Next(WriteField(s, dst, r), [])
    case Flagged(lo, high, f) =>
      var s1 := s.(rf := WithNzcv(s.rf, f));
      Next(WriteField(WriteField(s1, dst, lo), hi, high), [])
  }

  function SystemBit(rf: Rf, i: Instr): Rf
    requires i.SetInterrupts? || i.SetSyscallGuest? || i.Mirror?
  {
    if i.SetInterrupts? then rf.(interruptEnabled := i.on)
    else if i.SetSyscallGuest? then rf.(syscallGuest := i.on)
    else rf.(interruptSet := i.on)
  }

  function Privileged(s: State, s': State): Result {
    if s.rf.privilege then Next(s', []) else Stop(4)
  }

  function Step(s: State, i: Instr): (r: Result)
    requires |s.regs| == 16
    ensures r.Next? ==> |r.s.regs| == 16
  {
    match i
    case Binary(op, src, dst) => Arith(s, op, SignedOf(s, src), dst)
    case Unary(op, dst) => Arith(s, op, 0, dst)
    case WideMul(op, src, dst, hi) => Wide(s, op, SignedOf(s, src), dst, hi)
    case CmpXchg(src, dst, expected) =>
      if Bits(s, expected) == Bits(s, dst) then
        var s1 := s.(rf := s.rf.(z := true));
        Next(WriteField(s1, dst, SignedOf(s1, src)), [])
      else
        var s1 := s.(rf := s.rf.(z := false));
        Next(WriteField(s1, expected, SignedOf(s1, Reg(dst))), [])
    case Lea(src, base, dst) =>
      var w := SizeOf(base.sub);
      Next(WriteField(s, dst, Trunc(SignedOf(s, src) + SignedOf(s, Reg(base)), w)), [])
    case Move(src, signed, dst) =>
      Next(WriteField(s, dst, if signed then SignedOf(s, src) else PlainOf(s, src)), [])
    case Xchg(a, b) =>
      var x := SignedOf(s, Reg(a));
      Next(WriteField(WriteField(s, a, SignedOf(s, Reg(b))), b, x), [])
    case Clr(dst) => Next(WriteField(s, dst, 0), [])
    case SetCc(cond, dst) =>
      if cond > 10 then Stop(0)
      else Next(WriteField(s, dst, if Holds(s.rf, cond) then 1 else 0), [])
    case Branch(cond) =>
      if cond > 10 then Stop(0) else Next(s, [Condition(Holds(s.rf, cond))])
    case Emit(f) => Next(s, [Stored(Bits(s, f))])
    case SetCarry(on) => Next(s.(rf := s.rf.(c := on)), [])
    case FCmp(cmp, dst, src) => Next(s.(rf := Compare(s.rf, cmp(Bits(s, dst), PlainOf(s, src)))), [])
    case SetInterrupts(on) => Privileged(s, s.(rf := SystemBit(s.rf, i)))
    case SetSyscallGuest(on) => Privileged(s, s.(rf := SystemBit(s.rf, i)))
    case TrapEntry =>
      Next(s.(rf := s.rf.(privilege := true, interruptEnabled := false)), [Frame(Encode(s.rf))])
    case Iret(saved) => Privileged(s, s.(rf := Decode(saved)))
    case Mirror(on) => Next(s.(rf := SystemBit(s.rf, i)), [])
  }

  function Run(s: State, program: seq<Instr>): (r: Result)
    requires |s.regs| == 16
    ensures r.Next? ==> |r.s.regs| == 16
    decreases |program|
  {
    if program == [] then Next(s, [])
    else
      match Step(s, program[0])
      case Stop(c) => Stop(c)
      case Next(s1, o1) =>
        match Run(s1, program[1..])
        case Stop(c) => Stop(c)
        case Next(s2, o2) => Next(s2, o1 + o2)
  }
}
