/** The integer ALU: what each operation means at width 1, 2, 4 or 8 bytes, and the
    formulas that recover its flags later from a stored descriptor. */
module Alu {
  import opened Words

  // ---- widths -----------------------------------------------------------------------------

  predicate Width(w: nat) { w == 1 || w == 2 || w == 4 || w == 8 }

  /** 2^(8w) */
  function Size(w: nat): (m: nat)
    requires Width(w)
    ensures m >= 256
  {
    if w == 1 then 0x100 else if w == 2 then 0x1_0000 else if w == 4 then 0x1_0000_0000
    else 0x1_0000_0000_0000_0000
  }

  function Half(w: nat): (h: int)
    requires Width(w)
    ensures Size(w) == 2 * h && h > 0
  {
    Size(w) / 2
  }

  /** A value cast to the unsigned type of width `w`. */
  function Trunc(x: int, w: nat): (r: nat)
    requires Width(w)
    ensures r < Size(w)
  {
    x % Size(w)
  }

  /** The sign bit. */
  predicate Top(x: nat, w: nat)
    requires Width(w)
  {
    x >= Half(w)
  }

  /** Two's complement reading of the low `w` bytes. */
  function Signed(x: nat, w: nat): int
    requires Width(w)
  {
    if Top(x, w) then x - Size(w) else x
  }

  predicate FitsSigned(x: int, w: nat)
    requires Width(w)
  {
    -Half(w) <= x < Half(w)
  }

  function Pow2(n: nat): (p: nat)
    ensures p > 0
  {
    if n == 0 then 1 else 2 * Pow2(n - 1)
  }

  // ---- operations ----------------------------------------------------------------------------

  datatype Bitwise = And | Or | Nor | Nand | Xor

  /** SHL, SHR and SAR. */
  datatype Direction = Left | Right | Arithmetic

  datatype Op =
    | Add | Sub | Cmp | Adc | Sbb | Mul | Div | Mod | Udiv | Umod
    | Logic(f: Bitwise) | Test | Shift(dir: Direction)
    | Inc | Dec | Not | Neg | Mulw | Umulw

  datatype Nzcv = Nzcv(n: bool, z: bool, c: bool, v: bool)

  /** C's division of signed integers truncates toward zero. */
  function TruncDiv(a: int, b: int): int
    requires b != 0
  {
    if a >= 0 then a / b else -((-a) / b)
  }

  function TruncMod(a: int, b: int): int
    requires b != 0
  {
    a - b * TruncDiv(a, b)
  }

  predicate Truth(f: Bitwise, a: bool, b: bool) {
    match f
    case And => a && b
    case Or => a || b
    case Nor => !(a || b)
    case Nand => !(a && b)
    case Xor => a != b
  }

  /** `f` applied bit by bit to the low `n` bits. */
  function LogicBits(f: Bitwise, x: nat, y: nat, n: nat): (r: nat)
    ensures r < Pow2(n)
  {
    if n == 0 then 0
    else (if Truth(f, x % 2 == 1, y % 2 == 1) then 1 else 0) + 2 * LogicBits(f, x / 2, y / 2, n - 1)
  }

  function LogicValue(f: Bitwise, x: nat, y: nat, w: nat): nat {
    LogicBits(f, x, y, 8 * w)
  }

  function BitNot(x: nat, w: nat): int
    requires Width(w)
  {
    Size(w) - 1 - x
  }

  // ---- what an operation means ----------------------------------------------------------------

  datatype Shifted = Shifted(value: nat, out: bool)

  /** One-bit shifts at width `w`; `out` is the bit that fell off. */
  function ShiftOnce(dir: Direction, x: nat, w: nat): (s: Shifted)
    requires Width(w) && x < Size(w)
    ensures s.value < Size(w)
  {
    match dir
    case Left => Shifted(2 * x % Size(w), x >= Half(w))
    case Right => Shifted(x / 2, x % 2 == 1)
    case Arithmetic => Shifted(x / 2 + if Top(x, w) then Half(w) else 0, x % 2 == 1)
  }

  /** A shift by `n` is `n` one-bit shifts. */
  function ShiftBy(dir: Direction, x: nat, n: nat, w: nat): (s: Shifted)
    requires Width(w) && x < Size(w)
    ensures s.value < Size(w)
  {
    if n == 0 then Shifted(x, false)
    else ShiftOnce(dir, ShiftBy(dir, x, n - 1, w).value, w)
  }

  datatype Outcome =
    | DivideError
    /** Flags untouched: a shift by zero. */
    | Quiet(result: nat)
    | Flagged(result: nat, high: nat, flags: Nzcv)

  /** Z and N come from the result, C and V as given. */
  function WithFlags(r: nat, w: nat, c: bool, v: bool): Outcome
    requires Width(w)
  {
    Flagged(r, 0, Nzcv(Top(r, w), r == 0, c, v))
  }

  /** The meaning of an operation on width-`w` operands: results in exact integers cut to the
      width, C as the unsigned carry or borrow, V as a signed result that does not fit. */
  function Meaning(op: Op, w: nat, s: nat, d: nat, carry: bool): Outcome
    requires Width(w) && s < Size(w) && d < Size(w)
  {
    var k := if carry then 1 else 0;
    match op
    case Add => SumMeaning(w, d, s, 0)
    case Inc => SumMeaning(w, d, 1, 0)
    case Adc => SumMeaning(w, d, s, k)
    case Sub => DifferenceMeaning(w, d, s, 0)
    case Cmp => DifferenceMeaning(w, d, s, 0)
    case Dec => DifferenceMeaning(w, d, 1, 0)
    case Sbb => DifferenceMeaning(w, d, s, k)
    case Neg => DifferenceMeaning(w, 0, d, 0)
    case Mul => WithFlags(Trunc(d * s, w), w, d * s >= Size(w), d * s >= Size(w))
    case Mulw =>
      var p := Signed(d, w) * Signed(s, w);
      WideMeaning(w, p, p < 0, !FitsSigned(p, w))
    case Umulw => WideMeaning(w, d * s, 2 * (d * s) >= Size(w) * Size(w), d * s >= Size(w))
    case Udiv => if s == 0 then DivideError else WithFlags(Trunc(d / s, w), w, false, false)
    case Umod => if s == 0 then DivideError else WithFlags(Trunc(d % s, w), w, false, false)
    case Div =>
      if s == 0 || QuotientOverflows(d, s, w) then DivideError
      else WithFlags(Trunc(TruncDiv(Signed(d, w), Signed(s, w)), w), w, false, false)
    case Mod =>
      if s == 0 || QuotientOverflows(d, s, w) then DivideError
      else WithFlags(Trunc(TruncMod(Signed(d, w), Signed(s, w)), w), w, false, false)
    case Logic(f) => WithFlags(Trunc(LogicValue(f, d, s, w), w), w, false, false)
    case Test => WithFlags(Trunc(LogicValue(And, d, s, w), w), w, false, false)
    case Not => WithFlags(Trunc(BitNot(d, w), w), w, false, false)
    case Shift(dir) => ShiftMeaning(dir, w, d, s)
  }

  function SumMeaning(w: nat, d: nat, s: nat, k: nat): Outcome
    requires Width(w)
  {
    WithFlags(Trunc(d + s + k, w), w,
      d + s + k >= Size(w), !FitsSigned(Signed(d, w) + Signed(s, w) + k, w))
  }

  function DifferenceMeaning(w: nat, d: nat, s: nat, k: nat): Outcome
    requires Width(w)
  {
    WithFlags(Trunc(d - s - k, w), w,
      d < s + k, !FitsSigned(Signed(d, w) - Signed(s, w) - k, w))
  }

  /** The one signed quotient that does not fit. */
  predicate QuotientOverflows(d: nat, s: nat, w: nat)
    requires Width(w)
  {
    Signed(s, w) == -1 && Signed(d, w) == -Half(w)
  }

  /** The halves of a double-width two's complement product. */
  function LowHalf(p: int, w: nat): (lo: nat)
    requires Width(w)
    ensures lo < Size(w)
  {
    (p % (Size(w) * Size(w))) % Size(w)
  }

  function HighHalf(p: int, w: nat): (hi: nat)
    requires Width(w)
  {
    (p % (Size(w) * Size(w))) / Size(w)
  }

  /** Both halves of the double-width two's complement product `p`. */
  function WideMeaning(w: nat, p: int, negative: bool, v: bool): Outcome
    requires Width(w)
  {
    Flagged(LowHalf(p, w), HighHalf(p, w), Nzcv(negative, p == 0, !(0 <= p < Size(w)), v))
  }

  function ShiftMeaning(dir: Direction, w: nat, d: nat, n: nat): Outcome
    requires Width(w) && d < Size(w)
  {
    if n == 0 then Quiet(d)
    else
      var s := ShiftBy(dir, d, n, w);
      WithFlags(s.value, w, s.out, n == 1 && Top(d, w) != Top(s.value, w))
  }

  // ---- the computation and the deferred flags ----------------------------------------------------

  /** Operation kind, width, and the operands and result as they were at the operation. */
  datatype Pending = Pending(op: Op, w: nat, dst: nat, src: nat, result: nat)

  predicate Descriptor(p: Pending) {
    Width(p.w) && p.dst < Size(p.w) && p.src < Size(p.w) && p.result < Size(p.w)
  }

  /** Unsigned product overflow, by division. */
  predicate MulOverflows(a: nat, b: nat, w: nat)
    requires Width(w)
  {
    if b == 0 then false else a > (Size(w) - 1) / b
  }

  predicate Bit(x: nat, k: nat) {
    (x / Pow2(k)) % 2 == 1
  }

  /** The flags a descriptor stands for, by the formulas the machine resolves it with. No
      carry-in is stored: ADC and SBB recover their carry-out from operands and result. A
      shift by zero is never staged. */
  function Resolve(p: Pending): Nzcv
    requires Descriptor(p)
  {
    var w, d, s, r := p.w, p.dst, p.src, p.result;
    var bits := 8 * w;
    var z, n := r == 0, Top(r, w);
    var addV := Top(d, w) == Top(s, w) && Top(d, w) != Top(r, w);
    var subV := Top(d, w) != Top(s, w) && Top(d, w) != Top(r, w);
    match p.op
    case Add => Nzcv(n, z, r < d, addV)
    case Inc => Nzcv(n, z, r < d, addV)
    case Sub => Nzcv(n, z, r > d, subV)
    case Cmp => Nzcv(n, z, r > d, subV)
    case Dec => Nzcv(n, z, r > d, subV)
    case Adc => var sum1 := Trunc(d + s, w); Nzcv(n, z, sum1 < d || r < sum1, addV)
    case Sbb => var diff1 := Trunc(d - s, w); Nzcv(n, z, diff1 > d || r > diff1, subV)
    case Mul => var ovf := MulOverflows(s, d, w); Nzcv(n, z, ovf, ovf)
    case Mulw =>
      var prod := Signed(d, w) * Signed(s, w);
      var lo, hi := LowHalf(prod, w), HighHalf(prod, w);
      Nzcv(hi >= Half(w), lo == 0 && hi == 0, hi != 0, prod < -Half(w) || prod > Half(w) - 1)
    case Umulw =>
      var lo, hi := LowHalf(d * s, w), HighHalf(d * s, w);
      Nzcv(hi >= Half(w), lo == 0 && hi == 0, hi != 0, hi != 0)
    case Neg => Nzcv(n, z, r != 0, Top(d, w) && Top(r, w))
    case Shift(Left) =>
      if s <= bits then
        Nzcv(n, z, Bit(d, bits - s), s == 1 && Bit(d, bits - 1) != Bit(d, bits - 2))
      else Nzcv(false, true, false, false)
    case Shift(Right) =>
      if 0 < s <= bits then
        Nzcv(n, z, Bit(d, s - 1), s == 1 && Bit(d, bits - 1))
      else Nzcv(false, true, false, false)
    case Shift(Arithmetic) =>
      Nzcv(n, z, if 0 < s < bits then Bit(d, s - 1) else Bit(d, bits - 1), false)
    case _ => Nzcv(n, z, false, false)
  }

  /** What the ALU computes on the spot. */
  datatype Computed =
    | Trap
    | Unstaged(result: nat)
    | Staged(result: nat, high: nat, pending: Pending)

  function Stage(op: Op, w: nat, d: nat, s: nat, r: nat): (c: Computed)
    requires Width(w) && d < Size(w) && s < Size(w) && r < Size(w)
    ensures c.Staged? && Descriptor(c.pending) && c.result == c.pending.result
  {
    Staged(r, 0, Pending(op, w, d, s, r))
  }

  /** The value an operation leaves, and the descriptor it stages for its flags. */
  function Compute(op: Op, w: nat, s: nat, d: nat, carry: bool): (r: Computed)
    requires Width(w) && s < Size(w) && d < Size(w)
    ensures r.Staged? ==> Descriptor(r.pending) && r.result == r.pending.result
  {
    var k := if carry then 1 else 0;
    match op
    case Add => Stage(op, w, d, s, Trunc(d + s, w))
    case Inc => Stage(op, w, d, 1, Trunc(d + 1, w))
    case Adc => Stage(op, w, d, s, Trunc(Trunc(d + s, w) + k, w))
    case Sub => Stage(op, w, d, s, Trunc(d - s, w))
    case Cmp => Stage(op, w, d, s, Trunc(d - s, w))
    case Dec => Stage(op, w, d, 1, Trunc(d - 1, w))
    case Sbb => Stage(op, w, d, s, Trunc(Trunc(d - s, w) - k, w))
    case Neg => Stage(op, w, d, 0, Trunc(0 - d, w))
    case Mul => Stage(op, w, d, s, Trunc(d * s, w))
    case Mulw =>
      var p := Signed(d, w) * Signed(s, w);
      Staged(LowHalf(p, w), HighHalf(p, w), Pending(op, w, d, s, LowHalf(p, w)))
    case Umulw =>
      Staged(LowHalf(d * s, w), HighHalf(d * s, w), Pending(op, w, d, s, LowHalf(d * s, w)))
    case Udiv => if s == 0 then Trap else Stage(op, w, 0, 0, Trunc(d / s, w))
    case Umod => if s == 0 then Trap else Stage(op, w, 0, 0, Trunc(d % s, w))
    case Div =>
      if s == 0 || QuotientOverflows(d, s, w) then Trap
      else Stage(op, w, 0, 0, Trunc(TruncDiv(Signed(d, w), Signed(s, w)), w))
    case Mod =>
      if s == 0 || QuotientOverflows(d, s, w) then Trap
      else Stage(op, w, 0, 0, Trunc(TruncMod(Signed(d, w), Signed(s, w)), w))
    case Logic(f) => Stage(op, w, 0, 0, Trunc(LogicValue(f, d, s, w), w))
    case Test => Stage(op, w, 0, 0, Trunc(LogicValue(And, d, s, w), w))
    case Not => Stage(op, w, 0, 0, Trunc(BitNot(d, w), w))
    case Shift(dir) =>
      if s == 0 then Unstaged(d) else Stage(op, w, d, s, ShiftValue(dir, w, d, s))
  }

  /** The shifted value without ever shifting by the full width or more. */
  function ShiftValue(dir: Direction, w: nat, d: nat, n: nat): (r: nat)
    requires Width(w) && d < Size(w)
    ensures r < Size(w)
  {
    if n < 8 * w then
      match dir
      case Left => Trunc(d * Pow2(n), w)
      case Right => Trunc(d / Pow2(n), w)
      case Arithmetic => Trunc(FloorShift(Signed(d, w), n), w)
    else if dir == Arithmetic && Top(d, w) then Size(w) - 1
    else 0
  }

  /** `>>` on a negative integer rounds toward minus infinity. */
  function FloorShift(x: int, n: nat): int {
    x / Pow2(n)
  }
}
