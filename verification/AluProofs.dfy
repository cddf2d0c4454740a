/** The deferred-flag formulas agree with the meaning of every ALU operation. */
module AluProofs {
  import opened Words
  import opened Alu

  // ---- sums and differences ------------------------------------------------------------------

  /** Cutting a sum of two operands and a carry back to the width subtracts the width once or not at all. */
  lemma SumCut(x: int, w: nat)
    requires Width(w) && 0 <= x < 2 * Size(w)
    ensures Trunc(x, w) == if x >= Size(w) then x - Size(w) else x
  {
    var m := Size(w);
    if x >= m {
      DivModUnique(x, m, 1, x - m);
    } else {
      DivModUnique(x, m, 0, x);
    }
  }

  lemma DifferenceCut(x: int, w: nat)
    requires Width(w) && 0 - Size(w) <= x < Size(w)
    ensures Trunc(x, w) == if x < 0 then x + Size(w) else x
  {
    var m := Size(w);
    if x < 0 {
      DivModUnique(x, m, -1, x + m);
    } else {
      DivModUnique(x, m, 0, x);
    }
  }

  /** Signed overflow of a sum shows in the three sign bits. */
  lemma SumSigns(w: nat, s: nat, d: nat, k: nat)
    requires Width(w) && s < Size(w) && d < Size(w) && k <= 1
    ensures var r := Trunc(d + s + k, w);
      !FitsSigned(Signed(d, w) + Signed(s, w) + k, w) <==> Top(d, w) == Top(s, w) && Top(d, w) != Top(r, w)
  {
    hide Size, Trunc;
    SumCut(d + s + k, w);
  }

  lemma DifferenceSigns(w: nat, s: nat, d: nat, k: nat)
    requires Width(w) && s < Size(w) && d < Size(w) && k <= 1
    ensures var r := Trunc(d - s - k, w);
      !FitsSigned(Signed(d, w) - Signed(s, w) - k, w) <==> Top(d, w) != Top(s, w) && Top(d, w) != Top(r, w)
  {
    hide Size, Trunc;
    DifferenceCut(d - s - k, w);
  }

  lemma SumFlags(w: nat, s: nat, d: nat, k: nat)
    requires Width(w) && s < Size(w) && d < Size(w) && k <= 1
    ensures var r := Trunc(Trunc(d + s, w) + k, w);
      && SumMeaning(w, d, s, k) == Flagged(r, 0, Resolve(Pending(Adc, w, d, s, r)))
      && (k == 0 ==> SumMeaning(w, d, s, k) == Flagged(r, 0, Resolve(Pending(Add, w, d, s, r))))
      && (k == 0 ==> r == Trunc(d + s, w))
  {
    hide Size, Trunc, MulOverflows, Bit, LowHalf, HighHalf, FitsSigned, Signed, Top;
    SumSigns(w, s, d, k);
    SumCut(d + s + k, w);
    SumCut(d + s, w);
    SumCut(Trunc(d + s, w) + k, w);
  }

  lemma DifferenceFlags(w: nat, s: nat, d: nat, k: nat)
    requires Width(w) && s < Size(w) && d < Size(w) && k <= 1
    ensures var r := Trunc(Trunc(d - s, w) - k, w);
      && DifferenceMeaning(w, d, s, k) == Flagged(r, 0, Resolve(Pending(Sbb, w, d, s, r)))
      && (k == 0 ==> DifferenceMeaning(w, d, s, k) == Flagged(r, 0, Resolve(Pending(Sub, w, d, s, r))))
      && (k == 0 ==> r == Trunc(d - s, w))
  {
    hide Size, Trunc, MulOverflows, Bit, LowHalf, HighHalf, FitsSigned, Signed, Top;
    DifferenceSigns(w, s, d, k);
    DifferenceCut(d - s, w);
    DifferenceCut(Trunc(d - s, w) - k, w);
    DifferenceCut(d - s - k, w);
  }

  lemma NegationFlags(w: nat, d: nat)
    requires Width(w) && d < Size(w)
    ensures var r := Trunc(0 - d, w);
      DifferenceMeaning(w, 0, d, 0) == Flagged(r, 0, Resolve(Pending(Neg, w, d, 0, r)))
  {
    hide Size, Trunc;
    DifferenceCut(0 - d, w);
  }

  // ---- products ---------------------------------------------------------------------------------

  /** Comparing against a quotient decides the product without computing it. */
  lemma MulOverflowExact(a: nat, b: nat, w: nat)
    requires Width(w) && a < Size(w) && b < Size(w)
    ensures MulOverflows(a, b, w) <==> b * a >= Size(w)
  {
    hide Size;
    if b != 0 {
      QuotientBelow(a, b, Size(w) - 1);
    }
  }

  lemma QuotientBelow(a: nat, b: nat, m: nat)
    requires b > 0
    ensures a > m / b <==> b * a > m
  {
    var q, r := m / b, m % b;
    assert m == q * b + r;
    if a > q {
      AtLeastOnce(a - q, b);
      assert b * a == (a - q) * b + q * b;
    } else {
      ProductAtMost(a, b, q, b);
      assert b * a == a * b;
    }
  }

  lemma ProductAtMost(a: int, b: int, c: int, d: int)
    requires 0 <= a <= c && 0 <= b <= d
    ensures 0 <= a * b <= c * d
  {
    assert (c - a) * b >= 0;
    assert c * (d - b) >= 0;
    assert c * d - a * b == (c - a) * b + c * (d - b);
  }

  lemma QuotientAtLeast(p: int, m: int, b: int)
    requires m > 0
    ensures p / m >= b <==> p >= b * m
  {
    var q, r := p / m, p % m;
    assert p == q * m + r;
    if q >= b {
      assert (q - b) * m >= 0;
      assert (q - b) * m == q * m - b * m;
    } else {
      AtLeastOnce(b - q, m);
      assert (b - q) * m == b * m - q * m;
    }
  }

  /** Sign, zero and overflow of a double-width product, read off its halves. */
  lemma HalvesTell(p: int, w: nat)
    requires Width(w) && p < Size(w) * Size(w) && 2 * p >= 0 - Size(w) * Size(w)
    ensures HighHalf(p, w) >= Half(w) <==> p < 0 || 2 * p >= Size(w) * Size(w)
    ensures HighHalf(p, w) != 0 <==> !(0 <= p < Size(w))
    ensures LowHalf(p, w) == 0 && HighHalf(p, w) == 0 <==> p == 0
  {
    hide Size;
    var m, h := Size(w), Half(w);
    var up := if p < 0 then p + m * m else p;
    DivModUnique(p, m * m, if p < 0 then -1 else 0, up);
    assert m * m == 2 * (h * m);
    QuotientAtLeast(up, m, h);
    QuotientAtLeast(up, m, 1);
    assert up == (up / m) * m + up % m;
    assert h * m >= m by { AtLeastOnce(h, m); }
  }

  lemma WideSignedFlags(w: nat, s: nat, d: nat)
    requires Width(w) && s < Size(w) && d < Size(w)
    ensures var p := Signed(d, w) * Signed(s, w);
      WideMeaning(w, p, p < 0, !FitsSigned(p, w))
      == Flagged(LowHalf(p, w), HighHalf(p, w), Resolve(Pending(Mulw, w, d, s, LowHalf(p, w))))
  {
    SignedProductFits(Signed(d, w), Signed(s, w), w);
    HalvesTell(Signed(d, w) * Signed(s, w), w);
    hide Size, LowHalf, HighHalf;
  }

  lemma SignedProductFits(x: int, y: int, w: nat)
    requires Width(w) && FitsSigned(x, w) && FitsSigned(y, w)
    ensures 0 - Size(w) * Size(w) <= 2 * (x * y) < Size(w) * Size(w)
  {
    hide Size;
    var h := Half(w);
    var ax, ay := if x < 0 then -x else x, if y < 0 then -y else y;
    ProductAtMost(ax, ay, h, h);
    AtLeastOnce(h, h);
    assert Size(w) * Size(w) == 4 * (h * h);
    assert x * y == ax * ay || x * y == -(ax * ay) by { SignsOf(x, y); }
  }

  lemma SignsOf(x: int, y: int)
    ensures (-x) * y == -(x * y) && x * (-y) == -(x * y) && (-x) * (-y) == x * y
  {
  }

  lemma WideUnsignedFlags(w: nat, s: nat, d: nat)
    requires Width(w) && s < Size(w) && d < Size(w)
    ensures WideMeaning(w, d * s, 2 * (d * s) >= Size(w) * Size(w), d * s >= Size(w))
      == Flagged(LowHalf(d * s, w), HighHalf(d * s, w), Resolve(Pending(Umulw, w, d, s, LowHalf(d * s, w))))
  {
    ProductAtMost(d, s, Size(w) - 1, Size(w) - 1);
    assert (Size(w) - 1) * (Size(w) - 1) < Size(w) * Size(w);
    HalvesTell(d * s, w);
    hide Size, LowHalf, HighHalf;
  }

  // ---- shifts -------------------------------------------------------------------------------------

  lemma {:induction false} Pow2Sum(a: nat, b: nat)
    ensures Pow2(a) * Pow2(b) == Pow2(a + b)
  {
    if a > 0 {
      Pow2Sum(a - 1, b);
      Doubled(Pow2(a - 1), Pow2(b));
    }
  }

  lemma Doubled(p: nat, q: nat)
    ensures (2 * p) * q == 2 * (p * q)
  {
  }

  lemma SmallPow2()
    ensures Pow2(1) == 2 && Pow2(8) == 256
  {
  }

  lemma Pow2OfWidth(w: nat)
    requires Width(w)
    ensures Pow2(8 * w) == Size(w) && Pow2(8 * w - 1) == Half(w)
  {
    hide Pow2;
    SmallPow2();
    Pow2Sum(8, 8);
    Pow2Sum(16, 16);
    Pow2Sum(32, 32);
    Pow2Sum(1, 8 * w - 1);
  }

  lemma DoubleMod(x: int, m: int)
    requires m > 0
    ensures 2 * (x % m) % m == 2 * x % m
  {
    var q, r := x / m, x % m;
    assert x == q * m + r;
    var q', r' := 2 * r / m, 2 * r % m;
    assert 2 * r == q' * m + r';
    assert 2 * x == (2 * q + q') * m + r' by {
      assert (2 * q + q') * m == 2 * (q * m) + q' * m;
    }
    DivModUnique(2 * x, m, 2 * q + q', r');
  }

  /** The bit of `d` at weight `P` is the sign of `d` moved up so that it becomes the top bit. */
  lemma BitUnderShift(d: nat, P: nat, Q: nat, h: nat)
    requires P > 0 && Q > 0 && P * Q == h
    ensures (d * Q) % (2 * h) >= h <==> (d / P) % 2 == 1
  {
    var q, r := d / P, d % P;
    assert d == q * P + r;
    var t, b := q / 2, q % 2;
    var low := r * Q;
    assert 0 <= low < h by {
      AtLeastOnce(P - r, Q);
      assert (P - r) * Q == P * Q - r * Q;
      assert r * Q >= 0;
    }
    assert d * Q == t * (2 * h) + (b * h + low) by {
      assert d * Q == q * (P * Q) + r * Q;
      assert q * h == (2 * t + b) * h;
      assert (2 * t + b) * h == t * (2 * h) + b * h;
    }
    if b == 1 {
      DivModUnique(d * Q, 2 * h, t, h + low);
    } else {
      DivModUnique(d * Q, 2 * h, t, low);
    }
  }

  lemma LeftStep(d: nat, P: nat, Q: nat, w: nat)
    requires Width(w) && d < Size(w) && P > 0 && Q > 0 && P * Q == Half(w)
    ensures ShiftOnce(Left, Trunc(d * Q, w), w) == Shifted(Trunc(d * (2 * Q), w), (d / P) % 2 == 1)
  {
    hide Size;
    DoubleMod(d * Q, Size(w));
    assert 2 * (d * Q) == d * (2 * Q);
    BitUnderShift(d, P, Q, Half(w));
  }

  lemma {:induction false} LeftBy(d: nat, n: nat, w: nat)
    requires Width(w) && d < Size(w) && n <= 8 * w
    ensures ShiftBy(Left, d, n, w).value == Trunc(d * Pow2(n), w)
    ensures n > 0 ==> ShiftBy(Left, d, n, w).out == Bit(d, 8 * w - n)
  {
    if n == 0 {
      assert d * Pow2(0) == d;
    } else {
      LeftBy(d, n - 1, w);
      Pow2OfWidth(w);
      Pow2Sum(8 * w - n, n - 1);
      LeftStep(d, Pow2(8 * w - n), Pow2(n - 1), w);
      hide Size, Trunc, ShiftOnce;
    }
  }

  lemma LeftAll(d: nat, w: nat)
    requires Width(w) && d < Size(w)
    ensures Trunc(d * Pow2(8 * w), w) == 0
  {
    hide Size;
    Pow2OfWidth(w);
    DivModUnique(d * Size(w), Size(w), d, 0);
  }

  lemma {:induction false} LeftTooFar(d: nat, n: nat, w: nat)
    requires Width(w) && d < Size(w) && n >= 8 * w
    ensures ShiftBy(Left, d, n, w).value == 0
    ensures n > 8 * w ==> !ShiftBy(Left, d, n, w).out
  {
    if n == 8 * w {
      LeftBy(d, n, w);
      LeftAll(d, w);
    } else {
      LeftTooFar(d, n - 1, w);
    }
  }

  lemma HalveQuotient(x: int, p: int)
    requires p > 0
    ensures (x / p) / 2 == x / (2 * p)
  {
    var q, r := x / p, x % p;
    assert x == q * p + r;
    var t, b := q / 2, q % 2;
    assert 0 <= b * p + r < 2 * p by {
      if b == 1 { assert b * p == p; } else { assert b * p == 0; }
    }
    assert x == t * (2 * p) + (b * p + r) by {
      assert (2 * t + b) * p == t * (2 * p) + b * p;
    }
    DivModUnique(x, 2 * p, t, b * p + r);
  }

  lemma {:induction false} RightBy(d: nat, n: nat, w: nat)
    requires Width(w) && d < Size(w)
    ensures ShiftBy(Right, d, n, w).value == d / Pow2(n)
    ensures n > 0 ==> ShiftBy(Right, d, n, w).out == Bit(d, n - 1)
  {
    if n > 0 {
      RightBy(d, n - 1, w);
      HalveQuotient(d, Pow2(n - 1));
    }
  }

  /** Halving at width `w` with the sign kept is floor division of the signed value by two. */
  lemma {:induction false} ArithmeticBy(d: nat, n: nat, w: nat)
    requires Width(w) && d < Size(w)
    ensures Signed(ShiftBy(Arithmetic, d, n, w).value, w) == FloorShift(Signed(d, w), n)
    ensures n > 0 ==> (ShiftBy(Arithmetic, d, n, w).out <==> FloorShift(Signed(d, w), n - 1) % 2 == 1)
  {
    if n > 0 {
      ArithmeticBy(d, n - 1, w);
      var x := ShiftBy(Arithmetic, d, n - 1, w).value;
      HalveQuotient(Signed(d, w), Pow2(n - 1));
      HalfEven(w);
    }
  }

  lemma HalfEven(w: nat)
    requires Width(w)
    ensures Half(w) % 2 == 0
  {
  }

  lemma {:induction false} Pow2Grows(a: nat, b: nat)
    requires a <= b
    ensures Pow2(a) <= Pow2(b)
  {
    if a < b {
      Pow2Grows(a, b - 1);
    }
  }

  /** A signed value shifted right by its whole width is all sign. */
  lemma FloorShiftAll(x: int, n: nat, w: nat)
    requires Width(w) && FitsSigned(x, w) && n >= 8 * w - 1
    ensures FloorShift(x, n) == if x < 0 then -1 else 0
  {
    hide Size;
    Pow2OfWidth(w);
    Pow2Grows(8 * w - 1, n);
    DivModUnique(x, Pow2(n), if x < 0 then -1 else 0, if x < 0 then x + Pow2(n) else x);
  }

  /** Adding an even multiple of the divisor leaves the parity of the quotient. */
  lemma SameParity(x: int, p: int, k: int)
    requires p > 0
    ensures ((x + 2 * k * p) / p) % 2 == (x / p) % 2
  {
    var q, r := x / p, x % p;
    assert x == q * p + r;
    assert x + 2 * k * p == (q + 2 * k) * p + r by { assert (q + 2 * k) * p == q * p + 2 * k * p; }
    DivModUnique(x + 2 * k * p, p, q + 2 * k, r);
  }

  lemma ArithmeticOut(d: nat, n: nat, w: nat)
    requires Width(w) && d < Size(w) && 0 < n <= 8 * w
    ensures FloorShift(Signed(d, w), n - 1) % 2 == 1 <==> Bit(d, n - 1)
  {
    hide Size, Pow2;
    if Top(d, w) {
      var k, p := Pow2(8 * w - n), Pow2(n - 1);
      SplitSize(n, w);
      SameParity(Signed(d, w), p, k);
    }
  }

  lemma SplitSize(n: nat, w: nat)
    requires Width(w) && 0 < n <= 8 * w
    ensures Size(w) == 2 * Pow2(8 * w - n) * Pow2(n - 1)
  {
    hide Size, Pow2;
    Pow2OfWidth(w);
    Pow2Sum(8 * w - n, n - 1);
    var k, p := Pow2(8 * w - n), Pow2(n - 1);
    assert 2 * k * p == 2 * (k * p);
  }

  lemma TopIsBit(d: nat, w: nat)
    requires Width(w) && d < Size(w)
    ensures Bit(d, 8 * w - 1) == Top(d, w)
  {
    hide Size;
    Pow2OfWidth(w);
    var h := Half(w);
    DivModUnique(d, h, if d >= h then 1 else 0, if d >= h then d - h else d);
  }

  lemma SignedDetermines(x: nat, v: int, w: nat)
    requires Width(w) && x < Size(w) && Signed(x, w) == v
    ensures Trunc(v, w) == x
  {
    hide Size;
    DivModUnique(v, Size(w), if v < 0 then -1 else 0, x);
  }

  lemma LeftFlags(w: nat, n: nat, d: nat)
    requires Width(w) && n < Size(w) && d < Size(w) && n > 0
    ensures var r := ShiftValue(Left, w, d, n);
      ShiftMeaning(Left, w, d, n) == Flagged(r, 0, Resolve(Pending(Shift(Left), w, d, n, r)))
  {
    hide Size, Trunc;
    if n <= 8 * w {
      LeftBy(d, n, w);
      LeftAll(d, w);
      if n == 1 {
        TopIsBit(d, w);
        LeftBy(d, 2, w);
      }
    } else {
      LeftTooFar(d, n, w);
    }
  }

  lemma RightFlags(w: nat, n: nat, d: nat)
    requires Width(w) && n < Size(w) && d < Size(w) && n > 0
    ensures var r := ShiftValue(Right, w, d, n);
      ShiftMeaning(Right, w, d, n) == Flagged(r, 0, Resolve(Pending(Shift(Right), w, d, n, r)))
  {
    hide Size, Trunc, Pow2, ShiftBy, Bit;
    RightOf(d, n, w);
    TopIsBit(d, w);
  }

  lemma RightOf(d: nat, n: nat, w: nat)
    requires Width(w) && d < Size(w) && n > 0
    ensures ShiftBy(Right, d, n, w) == Shifted(ShiftValue(Right, w, d, n), Bit(d, n - 1))
    ensures n == 1 ==> !Top(ShiftValue(Right, w, d, n), w)
    ensures n > 8 * w ==> !Bit(d, n - 1)
  {
    hide Size, Trunc, Pow2, ShiftOnce;
    RightBy(d, n, w);
    if n >= 8 * w {
      RightAll(d, n, w);
      if n > 8 * w { RightAll(d, n - 1, w); }
    } else {
      QuotientFits(d, Pow2(n), w);
      HalvingClearsTop(d, w);
    }
  }

  lemma HalvingClearsTop(d: nat, w: nat)
    requires Width(w) && d < Size(w)
    ensures !Top(d / Pow2(1), w)
  {
    hide Size;
    assert Pow2(1) == 2;
  }

  lemma RightAll(d: nat, n: nat, w: nat)
    requires Width(w) && d < Size(w) && n >= 8 * w
    ensures d / Pow2(n) == 0
  {
    hide Size;
    Pow2OfWidth(w);
    Pow2Grows(8 * w, n);
    DivModUnique(d, Pow2(n), 0, d);
  }

  lemma QuotientFits(d: nat, p: nat, w: nat)
    requires Width(w) && d < Size(w) && p > 0
    ensures d / p < Size(w) && Trunc(d / p, w) == d / p
  {
    hide Size;
    var q, r := d / p, d % p;
    assert d == q * p + r;
    if q > 0 { assert q * p >= q by { AtLeastOnce(p, q); } }
    DivModUnique(q, Size(w), 0, q);
  }

  lemma ArithmeticValue(w: nat, n: nat, d: nat)
    requires Width(w) && n < Size(w) && d < Size(w) && n > 0
    ensures ShiftBy(Arithmetic, d, n, w).value == ShiftValue(Arithmetic, w, d, n)
  {
    hide Size, Trunc, ShiftBy, FloorShift;
    ArithmeticBy(d, n, w);
    SignedDetermines(ShiftBy(Arithmetic, d, n, w).value, FloorShift(Signed(d, w), n), w);
    if n >= 8 * w {
      FloorShiftAll(Signed(d, w), n, w);
    }
  }

  /** The last bit out is bit n - 1, or the sign once the count passes the width; the sign stays. */
  lemma ArithmeticBits(w: nat, n: nat, d: nat)
    requires Width(w) && d < Size(w) && n > 0
    ensures var s := ShiftBy(Arithmetic, d, n, w);
      && (s.out <==> Bit(d, if n < 8 * w then n - 1 else 8 * w - 1))
      && (n == 1 ==> Top(d, w) == Top(s.value, w))
  {
    hide Size, Bit, ShiftBy, FloorShift;
    ArithmeticBy(d, n, w);
    TopIsBit(d, w);
    if n <= 8 * w {
      ArithmeticOut(d, n, w);
    } else {
      FloorShiftAll(Signed(d, w), n - 1, w);
    }
    HalvedSign(Signed(d, w));
  }

  lemma HalvedSign(x: int)
    ensures FloorShift(x, 1) < 0 <==> x < 0
  {
    assert Pow2(1) == 2;
  }

  lemma ArithmeticFlags(w: nat, n: nat, d: nat)
    requires Width(w) && n < Size(w) && d < Size(w) && n > 0
    ensures var r := ShiftValue(Arithmetic, w, d, n);
      ShiftMeaning(Arithmetic, w, d, n) == Flagged(r, 0, Resolve(Pending(Shift(Arithmetic), w, d, n, r)))
  {
    hide Size, ShiftBy, ShiftValue, Bit;
    ArithmeticValue(w, n, d);
    ArithmeticBits(w, n, d);
  }

  // ---- every operation -----------------------------------------------------------------------------

  /** The machine's computation of an operation agrees with its meaning: the same traps, the
      same results, and a staged descriptor that resolves to the meaning's flags. */
  ghost predicate Exact(op: Op, w: nat, s: nat, d: nat, carry: bool)
    requires Width(w) && s < Size(w) && d < Size(w)
  {
    match Compute(op, w, s, d, carry)
    case Trap => Meaning(op, w, s, d, carry) == DivideError
    case Unstaged(r) => Meaning(op, w, s, d, carry) == Quiet(r)
    case Staged(r, hi, p) => Meaning(op, w, s, d, carry) == Flagged(r, hi, Resolve(p))
  }

  lemma SumExact(op: Op, w: nat, s: nat, d: nat, carry: bool)
    requires Width(w) && s < Size(w) && d < Size(w) && op in {Add, Inc, Adc}
    ensures Exact(op, w, s, d, carry)
  {
    hide Size, Trunc, SumMeaning;
    SumFlags(w, if op == Inc then 1 else s, d, if op == Adc && carry then 1 else 0);
  }

  lemma DifferenceExact(op: Op, w: nat, s: nat, d: nat, carry: bool)
    requires Width(w) && s < Size(w) && d < Size(w) && op in {Sub, Cmp, Dec, Sbb}
    ensures Exact(op, w, s, d, carry)
  {
    hide Size, Trunc, DifferenceMeaning;
    DifferenceFlags(w, if op == Dec then 1 else s, d, if op == Sbb && carry then 1 else 0);
  }

  lemma ProductExact(op: Op, w: nat, s: nat, d: nat, carry: bool)
    requires Width(w) && s < Size(w) && d < Size(w) && op in {Mul, Mulw, Umulw}
    ensures Exact(op, w, s, d, carry)
  {
    hide Size, Trunc, LowHalf, HighHalf, WideMeaning;
    MulOverflowExact(s, d, w);
    WideSignedFlags(w, s, d);
    WideUnsignedFlags(w, s, d);
  }

  lemma ShiftExact(dir: Direction, w: nat, s: nat, d: nat, carry: bool)
    requires Width(w) && s < Size(w) && d < Size(w)
    ensures Exact(Shift(dir), w, s, d, carry)
  {
    if s > 0 {
      match dir
      case Left => LeftFlags(w, s, d);
      case Right => RightFlags(w, s, d);
      case Arithmetic => ArithmeticFlags(w, s, d);
    }
    hide Size, Trunc, Resolve, ShiftValue, ShiftBy;
  }

  lemma PlainExact(op: Op, w: nat, s: nat, d: nat, carry: bool)
    requires Width(w) && s < Size(w) && d < Size(w)
    requires op in {Test, Not, Udiv, Umod, Div, Mod} || op.Logic?
    ensures Exact(op, w, s, d, carry)
  {
    hide Size, Trunc, LogicValue, TruncDiv, TruncMod, QuotientOverflows;
  }

  lemma NegationExact(w: nat, s: nat, d: nat, carry: bool)
    requires Width(w) && s < Size(w) && d < Size(w)
    ensures Exact(Neg, w, s, d, carry)
  {
    hide Size, Trunc, DifferenceMeaning;
    NegationFlags(w, d);
  }

  /** Every operation, width, operand pair and carry-in. */
  lemma DeferredFlagsExact(op: Op, w: nat, s: nat, d: nat, carry: bool)
    requires Width(w) && s < Size(w) && d < Size(w)
    ensures Exact(op, w, s, d, carry)
  {
    hide Exact, Size;
    if op in {Add, Inc, Adc} {
      SumExact(op, w, s, d, carry);
    } else if op in {Sub, Cmp, Dec, Sbb} {
      DifferenceExact(op, w, s, d, carry);
    } else if op in {Mul, Mulw, Umulw} {
      ProductExact(op, w, s, d, carry);
    } else if op == Neg {
      NegationExact(w, s, d, carry);
    } else if op.Shift? {
      ShiftExact(op.dir, w, s, d, carry);
    } else {
      PlainExact(op, w, s, d, carry);
    }
  }
}
