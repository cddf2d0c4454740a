/** What the operations compute, as laws of numbers and bits: nothing here mentions how the model
    or the machine computes a result. */
module AluLaws {
  import opened Words
  import opened Alu
  import opened AluProofs

  // ---- bits --------------------------------------------------------------------------------------------

  lemma BitOfHalf(x: nat, k: nat)
    requires k > 0
    ensures Bit(x, k) == Bit(x / 2, k - 1)
  {
    DivOfDiv(x, 2, Pow2(k - 1));
  }

  lemma BitOfDouble(b: nat, y: nat, k: nat)
    requires b <= 1
    ensures Bit(b + 2 * y, k) == if k == 0 then b == 1 else Bit(y, k - 1)
  {
    if k > 0 {
      BitOfHalf(b + 2 * y, k);
      assert (b + 2 * y) / 2 == y;
    }
  }

  lemma {:induction false} LogicAt(f: Bitwise, x: nat, y: nat, n: nat, k: nat)
    requires k < n
    ensures Bit(LogicBits(f, x, y, n), k) == Truth(f, Bit(x, k), Bit(y, k))
    decreases n
  {
    hide Bit, Truth;
    var low := if Truth(f, x % 2 == 1, y % 2 == 1) then 1 else 0;
    BitOfDouble(low, LogicBits(f, x / 2, y / 2, n - 1), k);
    if k == 0 {
      LowBit(x);
      LowBit(y);
    } else {
      BitOfHalf(x, k);
      BitOfHalf(y, k);
      LogicAt(f, x / 2, y / 2, n - 1, k - 1);
    }
  }

  lemma LowBit(x: nat)
    ensures Bit(x, 0) == (x % 2 == 1)
  {
  }

  /** The result of an operation that leaves one. */
  ghost function ResultOf(o: Outcome): nat {
    match o
    case DivideError => 0
    case Quiet(r) => r
    case Flagged(r, _, _) => r
  }

  lemma LogicResult(f: Bitwise, w: nat, s: nat, d: nat, c: bool)
    requires Width(w) && s < Size(w) && d < Size(w)
    ensures ResultOf(Meaning(Logic(f), w, s, d, c)) == LogicBits(f, d, s, 8 * w) < Size(w)
  {
    hide Size, LogicBits;
    Pow2OfWidth(w);
    var r := LogicBits(f, d, s, 8 * w);
    DivModUnique(r, Size(w), 0, r);
  }

  /** AND, OR, NOR, NAND and XOR, bit by bit at every width. */
  lemma BitwiseOperations(w: nat, s: nat, d: nat, c: bool, k: nat)
    requires Width(w) && s < Size(w) && d < Size(w) && k < 8 * w
    ensures Bit(ResultOf(Meaning(Logic(And), w, s, d, c)), k) <==> Bit(d, k) && Bit(s, k)
    ensures Bit(ResultOf(Meaning(Logic(Or), w, s, d, c)), k) <==> Bit(d, k) || Bit(s, k)
    ensures Bit(ResultOf(Meaning(Logic(Nor), w, s, d, c)), k) <==> !Bit(d, k) && !Bit(s, k)
    ensures Bit(ResultOf(Meaning(Logic(Nand), w, s, d, c)), k) <==> !Bit(d, k) || !Bit(s, k)
    ensures Bit(ResultOf(Meaning(Logic(Xor), w, s, d, c)), k) <==> (Bit(d, k) != Bit(s, k))
  {
    hide Meaning, LogicBits, Bit, Size;
    LogicOperation(And, w, s, d, c, k);
    LogicOperation(Or, w, s, d, c, k);
    LogicOperation(Nor, w, s, d, c, k);
    LogicOperation(Nand, w, s, d, c, k);
    LogicOperation(Xor, w, s, d, c, k);
  }

  lemma LogicOperation(f: Bitwise, w: nat, s: nat, d: nat, c: bool, k: nat)
    requires Width(w) && s < Size(w) && d < Size(w) && k < 8 * w
    ensures Bit(ResultOf(Meaning(Logic(f), w, s, d, c)), k) == Truth(f, Bit(d, k), Bit(s, k))
  {
    hide Meaning, LogicBits, Bit, Size;
    LogicResult(f, w, s, d, c);
    LogicAt(f, d, s, 8 * w, k);
  }

  lemma {:induction false} AndPlusOr(x: nat, y: nat, n: nat)
    requires x < Pow2(n) && y < Pow2(n)
    ensures LogicBits(And, x, y, n) + LogicBits(Or, x, y, n) == x + y
    ensures LogicBits(Xor, x, y, n) + 2 * LogicBits(And, x, y, n) == x + y
    ensures LogicBits(Nor, x, y, n) + LogicBits(Or, x, y, n) == Pow2(n) - 1
    ensures LogicBits(Nand, x, y, n) + LogicBits(And, x, y, n) == Pow2(n) - 1
    decreases n
  {
    if n > 0 {
      AndPlusOr(x / 2, y / 2, n - 1);
    }
  }

  /** The same five as numbers: AND and OR share out the operands' ones, XOR is a sum without
      carries, NOR and NAND are complements. */
  lemma BitwiseNumbers(w: nat, s: nat, d: nat, c: bool)
    requires Width(w) && s < Size(w) && d < Size(w)
    ensures var a := ResultOf(Meaning(Logic(And), w, s, d, c)); var o := ResultOf(Meaning(Logic(Or), w, s, d, c));
      && a + o == d + s
      && ResultOf(Meaning(Logic(Xor), w, s, d, c)) + 2 * a == d + s
      && ResultOf(Meaning(Logic(Nor), w, s, d, c)) + o == Size(w) - 1
      && ResultOf(Meaning(Logic(Nand), w, s, d, c)) + a == Size(w) - 1
  {
    hide Meaning, LogicBits, Size;
    Pow2OfWidth(w);
    AndPlusOr(d, s, 8 * w);
    LogicResult(And, w, s, d, c);
    LogicResult(Or, w, s, d, c);
    LogicResult(Xor, w, s, d, c);
    LogicResult(Nor, w, s, d, c);
    LogicResult(Nand, w, s, d, c);
  }

  /** NOT complements every bit; TEST leaves the flags of AND. */
  lemma Complement(w: nat, s: nat, d: nat, c: bool)
    requires Width(w) && s < Size(w) && d < Size(w)
    ensures d + ResultOf(Meaning(Not, w, s, d, c)) == Size(w) - 1
    ensures Meaning(Test, w, s, d, c) == Meaning(Logic(And), w, s, d, c)
  {
    hide Size, LogicValue;
    DivModUnique(BitNot(d, w), Size(w), 0, BitNot(d, w));
  }

  /** Every operation that leaves one word sets N and Z by it, and the bitwise ones and divisions
      clear C and V. */
  lemma ResultFlags(op: Op, w: nat, s: nat, d: nat, c: bool)
    requires Width(w) && s < Size(w) && d < Size(w) && op != Mulw && op != Umulw
    ensures var o := Meaning(op, w, s, d, c); o.Flagged? ==>
      && (o.flags.n <==> 2 * o.result >= Size(w)) && (o.flags.z <==> o.result == 0)
      && (op.Logic? || op in {Test, Not, Div, Mod, Udiv, Umod} ==> !o.flags.c && !o.flags.v)
  {
    hide Size, LogicValue, TruncDiv, TruncMod, ShiftBy, Trunc;
  }

  // ---- division ----------------------------------------------------------------------------------------

  /** UDIV and UMOD: quotient and remainder, and an error exactly on a zero divisor. */
  lemma UnsignedDivision(w: nat, s: nat, d: nat, c: bool)
    requires Width(w) && s < Size(w) && d < Size(w)
    ensures Meaning(Udiv, w, s, d, c).DivideError? == Meaning(Umod, w, s, d, c).DivideError? == (s == 0)
    ensures s != 0 ==>
      var q, r := ResultOf(Meaning(Udiv, w, s, d, c)), ResultOf(Meaning(Umod, w, s, d, c));
      d == q * s + r && r < s
  {
    hide Size;
    if s != 0 {
      QuotientFits(d, s, w);
      DivModUnique(d % s, Size(w), 0, d % s);
    }
  }

  lemma TruncatedDivision(a: int, b: int)
    requires b != 0
    ensures var q, r := TruncDiv(a, b), TruncMod(a, b);
      && a == q * b + r && -Magnitude(b) < r < Magnitude(b)
      && (a >= 0 ==> r >= 0) && (a <= 0 ==> r <= 0)
      && Magnitude(q) <= Magnitude(a) && (Magnitude(q) == Magnitude(a) && a != 0 ==> Magnitude(b) == 1)
  {
    var m := Magnitude(a);
    var e, f := m / b, m % b;
    assert m == e * b + f && 0 <= f < Magnitude(b);
    EuclidSize(m, b, e, f);
    assert (-e) * b == -(e * b);
  }

  function Magnitude(x: int): (m: int)
    ensures m >= 0
  {
    if x < 0 then -x else x
  }

  lemma EuclidSize(m: nat, b: int, e: int, f: int)
    requires b != 0 && m == e * b + f && 0 <= f < Magnitude(b)
    ensures Magnitude(e) <= m && (Magnitude(e) == m && m > 0 ==> Magnitude(b) == 1)
  {
    var x, y, p := Magnitude(e), Magnitude(b), e * b;
    SignsOf(e, b);
    assert x * y == p || x * y == -p;
    if x > 0 {
      AtLeastOnce(x, y);
      assert x * y == p <= m;
      AtLeastOnce(y, x);
      if y >= 2 {
        AtLeastOnce(y - 1, x);
        assert (y - 1) * x == x * y - x;
      }
    }
  }

  /** A number that fits the width survives the cut. */
  lemma SignedOfCut(x: int, w: nat)
    requires Width(w) && FitsSigned(x, w)
    ensures Signed(Trunc(x, w), w) == x
  {
    hide Size;
    DifferenceCut(x, w);
  }

  /** DIV and MOD truncate toward zero: the remainder is smaller than the divisor and has the
      dividend's sign. The error cases are a zero divisor and the one quotient that does not fit. */
  lemma SignedDivision(w: nat, s: nat, d: nat, c: bool)
    requires Width(w) && s < Size(w) && d < Size(w)
    ensures Meaning(Div, w, s, d, c).DivideError? == Meaning(Mod, w, s, d, c).DivideError?
      == (s == 0 || (s == Size(w) - 1 && 2 * d == Size(w)))
    ensures !Meaning(Div, w, s, d, c).DivideError? ==>
      var q := Signed(ResultOf(Meaning(Div, w, s, d, c)), w); var r := Signed(ResultOf(Meaning(Mod, w, s, d, c)), w);
      var x, y := Signed(d, w), Signed(s, w);
      && x == q * y + r && -Magnitude(y) < r < Magnitude(y) && (x >= 0 ==> r >= 0) && (x <= 0 ==> r <= 0)
  {
    hide Size, TruncDiv, TruncMod, Trunc;
    assert Signed(s, w) == 0 <==> s == 0;
    if s != 0 && !(s == Size(w) - 1 && 2 * d == Size(w)) {
      var x, y := Signed(d, w), Signed(s, w);
      TruncatedDivision(x, y);
      QuotientInRange(x, y, TruncDiv(x, y), w);
      SignedOfCut(TruncDiv(x, y), w);
      SignedOfCut(TruncMod(x, y), w);
    }
  }

  lemma QuotientInRange(x: int, y: int, q: int, w: nat)
    requires Width(w) && FitsSigned(x, w) && FitsSigned(y, w) && y != 0 && !(x == -Half(w) && y == -1)
    requires Magnitude(q) <= Magnitude(x) && (Magnitude(q) == Magnitude(x) && x != 0 ==> Magnitude(y) == 1)
    requires q == TruncDiv(x, y)
    ensures FitsSigned(q, w)
  {
    if x == -Half(w) && Magnitude(q) == Magnitude(x) {
      assert y == 1;
    }
  }

  // ---- products ------------------------------------------------------------------------------------------

  lemma HalvesRejoin(p: int, w: nat)
    requires Width(w) && p < Size(w) * Size(w) && 2 * p >= 0 - Size(w) * Size(w)
    ensures LowHalf(p, w) + Size(w) * HighHalf(p, w) == if p < 0 then p + Size(w) * Size(w) else p
    ensures HighHalf(p, w) < Size(w)
  {
    hide Size;
    var m := Size(w);
    var up := if p < 0 then p + m * m else p;
    DivModUnique(p, m * m, if p < 0 then -1 else 0, up);
    assert up == (up / m) * m + up % m;
    QuotientAtLeast(up, m, m);
  }

  /** MUL keeps the product modulo the width, with C and V when it does not fit; MULW and UMULW keep
      all of it, signed and unsigned. */
  lemma Products(w: nat, s: nat, d: nat, c: bool)
    requires Width(w) && s < Size(w) && d < Size(w)
    ensures var o := Meaning(Mul, w, s, d, c);
      && o.Flagged? && o.result < Size(w) && o.result == (d * s) % Size(w)
      && (o.flags.c <==> o.result != d * s) && (o.flags.v <==> o.result != d * s)
    ensures var o := Meaning(Umulw, w, s, d, c); o.Flagged? && o.result + Size(w) * o.high == d * s
    ensures var o := Meaning(Mulw, w, s, d, c);
      o.Flagged? && o.high < Size(w) && o.result + Size(w) * Signed(o.high, w) == Signed(d, w) * Signed(s, w)
  {
    hide Size, LowHalf, HighHalf, Signed, Trunc;
    NarrowProduct(w, s, d);
    UnsignedProduct(w, s, d);
    SignedProduct(w, s, d);
  }

  lemma NarrowProduct(w: nat, s: nat, d: nat)
    requires Width(w) && s < Size(w) && d < Size(w)
    ensures Trunc(d * s, w) == (d * s) % Size(w) && (d * s >= Size(w) <==> Trunc(d * s, w) != d * s)
  {
    hide Size;
    if d * s < Size(w) {
      DivModUnique(d * s, Size(w), 0, d * s);
    }
  }

  lemma UnsignedProduct(w: nat, s: nat, d: nat)
    requires Width(w) && s < Size(w) && d < Size(w)
    ensures LowHalf(d * s, w) + Size(w) * HighHalf(d * s, w) == d * s
  {
    hide Size, LowHalf, HighHalf;
    var m := Size(w);
    ProductAtMost(d, s, m - 1, m - 1);
    assert (m - 1) * (m - 1) == m * m - 2 * m + 1;
    HalvesRejoin(d * s, w);
  }

  lemma SignedProduct(w: nat, s: nat, d: nat)
    requires Width(w) && s < Size(w) && d < Size(w)
    ensures var p := Signed(d, w) * Signed(s, w);
      HighHalf(p, w) < Size(w) && LowHalf(p, w) + Size(w) * Signed(HighHalf(p, w), w) == p
  {
    hide Size, LowHalf, HighHalf;
    var m, p := Size(w), Signed(d, w) * Signed(s, w);
    SignedProductFits(Signed(d, w), Signed(s, w), w);
    HalvesRejoin(p, w);
    HalvesTell(p, w);
    var hi: int := HighHalf(p, w);
    assert m * (hi - m) == m * hi - m * m;
  }

  // ---- sums ------------------------------------------------------------------------------------------------

  ghost function Exactly(op: Op, w: nat, s: nat, d: nat, c: bool): int
    requires Width(w) && op in {Add, Adc, Inc, Sub, Sbb, Cmp, Dec, Neg}
  {
    var x, y, k := Signed(d, w), Signed(s, w), if c then 1 else 0;
    match op
    case Add => x + y
    case Adc => x + y + k
    case Inc => x + 1
    case Sub => x - y
    case Cmp => x - y
    case Sbb => x - y - k
    case Dec => x - 1
    case _ => -x
  }

  /** V is set exactly when the signed result is not the exact one, and then the exact one does not
      fit the width. */
  lemma OverflowExact(op: Op, w: nat, s: nat, d: nat, c: bool)
    requires Width(w) && s < Size(w) && d < Size(w) && op in {Add, Adc, Inc, Sub, Sbb, Cmp, Dec, Neg}
    ensures var o := Meaning(op, w, s, d, c); var x := Exactly(op, w, s, d, c);
      && o.Flagged? && o.result < Size(w) && (!o.flags.v <==> Signed(o.result, w) == x)
      && (o.flags.v <==> 2 * x >= Size(w) || 2 * x < 0 - Size(w))
  {
    hide Size, SumMeaning, DifferenceMeaning, Signed;
    var k := if c && op in {Adc, Sbb} then 1 else 0;
    var b := if op in {Inc, Dec} then 1 else s;
    SumOverflow(w, d, b, k);
    DifferenceOverflow(w, d, b, k);
    DifferenceOverflow(w, 0, d, 0);
    SmallSigned(w);
  }

  lemma SmallSigned(w: nat)
    requires Width(w)
    ensures Signed(0, w) == 0 && Signed(1, w) == 1
  {
  }

  lemma SumOverflow(w: nat, d: nat, s: nat, k: nat)
    requires Width(w) && s < Size(w) && d < Size(w) && k <= 1
    ensures var o := SumMeaning(w, d, s, k); var x := Signed(d, w) + Signed(s, w) + k;
      && o.Flagged? && o.result < Size(w) && (!o.flags.v <==> Signed(o.result, w) == x)
      && (o.flags.v <==> 2 * x >= Size(w) || 2 * x < 0 - Size(w))
  {
    hide Size, Trunc;
    SumCut(d + s + k, w);
  }

  lemma DifferenceOverflow(w: nat, d: nat, s: nat, k: nat)
    requires Width(w) && s < Size(w) && d < Size(w) && k <= 1
    ensures var o := DifferenceMeaning(w, d, s, k); var x := Signed(d, w) - Signed(s, w) - k;
      && o.Flagged? && o.result < Size(w) && (!o.flags.v <==> Signed(o.result, w) == x)
      && (o.flags.v <==> 2 * x >= Size(w) || 2 * x < 0 - Size(w))
  {
    hide Size, Trunc;
    DifferenceCut(d - s - k, w);
  }

  /** C is the carry out of an addition and the borrow of a subtraction: with it the unsigned result
      is exact. NEG borrows unless its operand is zero. */
  lemma CarryExact(op: Op, w: nat, s: nat, d: nat, c: bool)
    requires Width(w) && s < Size(w) && d < Size(w) && op in {Add, Adc, Inc, Sub, Sbb, Cmp, Dec, Neg}
    ensures var o := Meaning(op, w, s, d, c); var k := if c then 1 else 0;
      && o.Flagged?
      && var carry := if o.flags.c then Size(w) else 0;
      && (op == Add ==> o.result + carry == d + s) && (op == Adc ==> o.result + carry == d + s + k)
      && (op == Inc ==> o.result + carry == d + 1) && (op in {Sub, Cmp} ==> o.result - carry == d - s)
      && (op == Sbb ==> o.result - carry == d - s - k) && (op == Dec ==> o.result - carry == d - 1)
      && (op == Neg ==> o.result - carry == 0 - d)
  {
    hide Size, SumMeaning, DifferenceMeaning;
    var k := if c && op in {Adc, Sbb} then 1 else 0;
    var b := if op in {Inc, Dec} then 1 else s;
    SumCarries(w, d, b, k);
    DifferenceBorrows(w, d, b, k);
    DifferenceBorrows(w, 0, d, 0);
  }

  lemma SumCarries(w: nat, d: nat, s: nat, k: nat)
    requires Width(w) && s < Size(w) && d < Size(w) && k <= 1
    ensures var o := SumMeaning(w, d, s, k);
      o.Flagged? && o.result + (if o.flags.c then Size(w) else 0) == d + s + k
  {
    hide Size, Trunc;
    SumCut(d + s + k, w);
  }

  lemma DifferenceBorrows(w: nat, d: nat, s: nat, k: nat)
    requires Width(w) && s < Size(w) && d < Size(w) && k <= 1
    ensures var o := DifferenceMeaning(w, d, s, k);
      o.Flagged? && o.result - (if o.flags.c then Size(w) else 0) == d - s - k
  {
    hide Size, Trunc;
    DifferenceCut(d - s - k, w);
  }

  /** The flags of the wide products: N and Z by the whole product, C by its high half, V when it does
      not fit one word. */
  lemma WideFlags(w: nat, s: nat, d: nat, c: bool)
    requires Width(w) && s < Size(w) && d < Size(w)
    ensures var o := Meaning(Mulw, w, s, d, c); var p := Signed(d, w) * Signed(s, w);
      && o.Flagged? && (o.flags.n <==> p < 0) && (o.flags.z <==> p == 0)
      && (o.flags.v <==> 2 * p >= Size(w) || 2 * p < 0 - Size(w)) && (o.flags.c <==> o.high != 0)
    ensures var o := Meaning(Umulw, w, s, d, c);
      && o.Flagged? && (o.flags.z <==> d * s == 0) && (o.flags.c <==> o.high != 0) && (o.flags.v <==> o.high != 0)
      && (o.flags.n <==> 2 * o.high >= Size(w))
  {
    hide Size, LowHalf, HighHalf;
    var m, p := Size(w), Signed(d, w) * Signed(s, w);
    SignedProductFits(Signed(d, w), Signed(s, w), w);
    HalvesTell(p, w);
    ProductAtMost(d, s, m - 1, m - 1);
    assert (m - 1) * (m - 1) == m * m - 2 * m + 1;
    HalvesTell(d * s, w);
  }

  // ---- shifts ----------------------------------------------------------------------------------------------

  /** SHL multiplies, SHR divides and SAR divides rounding down by 2^n, for every count; a zero count
      leaves value and flags. */
  lemma Shifts(w: nat, n: nat, d: nat, c: bool)
    requires Width(w) && n < Size(w) && d < Size(w)
    ensures n == 0 ==> forall dir :: Meaning(Shift(dir), w, n, d, c) == Quiet(d)
    ensures ResultOf(Meaning(Shift(Left), w, n, d, c)) == if n < 8 * w then (d * Pow2(n)) % Size(w) else 0
    ensures ResultOf(Meaning(Shift(Right), w, n, d, c)) == d / Pow2(n)
    ensures Signed(ResultOf(Meaning(Shift(Arithmetic), w, n, d, c)), w) == Signed(d, w) / Pow2(n)
  {
    hide Size, ShiftBy;
    if n > 0 {
      LeftShift(w, n, d);
      RightBy(d, n, w);
      ArithmeticBy(d, n, w);
    } else {
      DivModUnique(d, Size(w), 0, d);
    }
  }

  lemma LeftShift(w: nat, n: nat, d: nat)
    requires Width(w) && 0 < n && d < Size(w)
    ensures ShiftBy(Left, d, n, w).value == if n < 8 * w then (d * Pow2(n)) % Size(w) else 0
  {
    hide Size, ShiftBy;
    if n < 8 * w {
      LeftBy(d, n, w);
    } else {
      LeftTooFar(d, n, w);
    }
  }

  /** C is the last bit shifted out, and V tells whether a shift by one changed the sign. */
  lemma ShiftCarries(w: nat, n: nat, d: nat, c: bool)
    requires Width(w) && 0 < n < Size(w) && d < Size(w)
    ensures var o := Meaning(Shift(Left), w, n, d, c); o.Flagged? && (o.flags.c <==> n <= 8 * w && Bit(d, 8 * w - n))
    ensures var o := Meaning(Shift(Right), w, n, d, c); o.Flagged? && (o.flags.c <==> Bit(d, n - 1))
    ensures var o := Meaning(Shift(Arithmetic), w, n, d, c);
      o.Flagged? && (n <= 8 * w ==> (o.flags.c <==> Bit(d, n - 1)))
    ensures forall dir :: var o := Meaning(Shift(dir), w, n, d, c);
      o.flags.v <==> n == 1 && (2 * d >= Size(w)) != (2 * o.result >= Size(w))
  {
    hide Size, ShiftBy, Bit;
    if n <= 8 * w {
      LeftBy(d, n, w);
      ArithmeticOut(d, n, w);
    } else {
      LeftTooFar(d, n, w);
    }
    RightBy(d, n, w);
    ArithmeticBy(d, n, w);
  }
}
