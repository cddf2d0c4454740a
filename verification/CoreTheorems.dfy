/** What programs can rely on: comparisons decide order, carry chains compute exact
    multi-word sums, and user code cannot touch the privileged bits of RF. */
module CoreTheorems {
  import opened Words
  import opened Alu
  import opened AluProofs
  import opened Registers
  import opened Core

  // ---- runs ------------------------------------------------------------------------------------

  lemma {:induction false} RunAppend(s: State, a: seq<Instr>, b: seq<Instr>)
    requires |s.regs| == 16
    ensures Run(s, a + b) ==
      match Run(s, a)
      case Stop(c) => Stop(c)
      case Next(s1, o1) =>
        match Run(s1, b)
        case Stop(c) => Stop(c)
        case Next(s2, o2) => Next(s2, o1 + o2)
    decreases |a|
  {
    hide Step;
    if a == [] {
      assert a + b == b;
    } else {
      assert (a + b)[0] == a[0] && (a + b)[1..] == a[1..] + b;
      var r := Step(s, a[0]);
      if r.Next? {
        RunAppend(r.s, a[1..], b);
      }
    }
  }

  // ---- CMP decides order -------------------------------------------------------------------------

  /** What each condition asks about the operands of the CMP before it. */
  ghost predicate Asked(cond: nat, x: nat, y: nat, w: nat)
    requires Width(w)
  {
    match cond
    case 0 => x == y
    case 1 => x != y
    case 2 => Signed(x, w) < Signed(y, w)
    case 3 => x < y
    case 4 => Signed(x, w) > Signed(y, w)
    case 5 => x > y
    case 6 => Signed(x, w) >= Signed(y, w)
    case 7 => Signed(x, w) <= Signed(y, w)
    case 8 => x <= y
    case _ => x >= y
  }

  lemma DifferenceDecides(w: nat, x: nat, y: nat)
    requires Width(w) && x < Size(w) && y < Size(w)
    ensures DifferenceMeaning(w, x, y, 0).Flagged?
    ensures var f := DifferenceMeaning(w, x, y, 0).flags;
      && (f.z <==> x == y) && (f.c <==> x < y) && (f.n != f.v <==> Signed(x, w) < Signed(y, w))
      && (Signed(x, w) == Signed(y, w) <==> x == y)
  {
    hide Size, Trunc;
    DifferenceCut(x - y, w);
  }

  /** CMP and then any of Z NZ LT B GT A GE LE BE AE, at any width, through RF and back. */
  lemma CompareDecides(s: State, src: Source, dst: Field, cond: nat)
    requires |s.regs| == 16 && cond <= 9
    ensures var w := SizeOf(dst.sub);
      var r := Run(s, [Binary(Cmp, src, dst), Branch(cond)]);
      && r.Next? && r.seen == [Condition(Asked(cond, Bits(s, dst), Trunc(SignedOf(s, src), w), w))]
      && r.s.regs == s.regs
  {
    var w := SizeOf(dst.sub);
    var x, y := Bits(s, dst), Trunc(SignedOf(s, src), w);
    DifferenceDecides(w, x, y);
    hide Size, Trunc, DifferenceMeaning, ReadBits, SignedOf, Resolve;
    var i, j := Binary(Cmp, src, dst), Branch(cond);
    var f := DifferenceMeaning(w, x, y, 0).flags;
    var s1 := s.(rf := WithNzcv(s.rf, f));
    assert Step(s, i) == Next(s1, []);
    assert Step(s1, j) == Next(s1, [Condition(Holds(s1.rf, cond))]);
    assert [i, j][1..] == [j] && [j][1..] == [];
    assert Run(s1, []) == Next(s1, []);
    assert Run(s1, [j]) == Next(s1, [Condition(Holds(s1.rf, cond))]);
  }

  // ---- carry chains --------------------------------------------------------------------------------

  /** Data movement that leaves RF alone, stops nothing and shows nothing. */
  ghost predicate Neutral(i: Instr) {
    match i
    case Move(_, _, dst) => dst.reg != RF
    case Lea(_, _, dst) => dst.reg != RF
    case Xchg(a, b) => a.reg != RF && b.reg != RF
    case Clr(dst) => dst.reg != RF
    case SetCc(cond, dst) => cond <= 10 && dst.reg != RF
    case _ => false
  }

  lemma {:induction false} NeutralRun(s: State, gap: seq<Instr>)
    requires |s.regs| == 16 && forall i :: i in gap ==> Neutral(i)
    ensures Run(s, gap).Next? && Run(s, gap).seen == [] && Run(s, gap).s.rf == s.rf
    decreases |gap|
  {
    hide WriteBits, ReadBits, SignedOf, PlainOf, Holds;
    if gap != [] {
      assert Neutral(gap[0]);
      var r := Step(s, gap[0]);
      assert r.Next? && r.seen == [] && r.s.rf == s.rf;
      NeutralRun(r.s, gap[1..]);
    }
  }

  /** One limb of a multi-word operation: anything flag-neutral, then the source combined into the
      destination field. */
  datatype Limb = Limb(gap: seq<Instr>, src: Source, dst: Field)

  function LimbCode(op: Op, l: Limb): seq<Instr> {
    l.gap + [Binary(op, l.src, l.dst)]
  }

  /** ADD then ADCs, or SUB then SBBs. */
  function ChainCode(first: Op, rest: Op, ls: seq<Limb>): seq<Instr>
    decreases |ls|
  {
    if ls == [] then [] else LimbCode(first, ls[0]) + ChainCode(rest, rest, ls[1..])
  }

  /** Limbs of one width, none of them in RF, with nothing between them that touches RF. */
  ghost predicate Formed(ls: seq<Limb>, w: nat) {
    forall l :: l in ls ==> FormedLimb(l, w)
  }

  ghost predicate FormedLimb(l: Limb, w: nat) {
    SizeOf(l.dst.sub) == w && l.dst.reg != RF && forall i :: i in l.gap ==> Neutral(i)
  }

  /** What each limb found in its two operands and left in its destination when it executed, and
      the state after the last. */
  datatype Trace = Trace(xs: seq<nat>, ys: seq<nat>, zs: seq<nat>, s: State)

  ghost function Traced(s: State, first: Op, rest: Op, ls: seq<Limb>): (t: Trace)
    requires |s.regs| == 16
    ensures |t.s.regs| == 16 && |t.xs| == |t.ys| == |t.zs|
    decreases |ls|
  {
    if ls == [] then Trace([], [], [], s)
    else
      var l := ls[0];
      match (Run(s, l.gap), Run(s, LimbCode(first, l)))
      case (Next(at, _), Next(after, _)) =>
        var t := Traced(after, rest, rest, ls[1..]);
        Trace([Bits(at, l.dst)] + t.xs, [Trunc(SignedOf(at, l.src), SizeOf(l.dst.sub))] + t.ys,
              [Bits(after, l.dst)] + t.zs, t.s)
      case _ => Trace([], [], [], s)
  }

  /** Little-endian value of a limb sequence. */
  ghost function Number(zs: seq<nat>, w: nat): nat
    requires Width(w)
  {
    if zs == [] then 0 else zs[0] + Size(w) * Number(zs[1..], w)
  }

  /** Size(w) to the n-th: the weight of the carry out of n limbs. */
  ghost function Weight(w: nat, n: nat): nat
    requires Width(w)
  {
    if n == 0 then 1 else Size(w) * Weight(w, n - 1)
  }

  datatype Chained = Chained(zs: seq<nat>, carry: bool)

  /** The limbs and final carry of a chain, one operation feeding C to the next. */
  ghost function Chain(first: Op, rest: Op, xs: seq<nat>, ys: seq<nat>, w: nat, carry: bool): (r: Chained)
    requires Width(w) && |xs| == |ys| && first in {Add, Adc, Sub, Sbb} && rest in {Add, Adc, Sub, Sbb}
    requires Limbs(xs, w) && Limbs(ys, w)
    ensures |r.zs| == |xs|
    decreases |xs|
  {
    if xs == [] then Chained([], carry)
    else
      var m := LimbMeaning(first, w, ys[0], xs[0], carry);
      var tail := Chain(rest, rest, xs[1..], ys[1..], w, m.flags.c);
      Chained([m.result] + tail.zs, tail.carry)
  }

  ghost function LimbMeaning(op: Op, w: nat, y: nat, x: nat, c: bool): (m: Outcome)
    requires Width(w) && y < Size(w) && x < Size(w) && op in {Add, Adc, Sub, Sbb}
    ensures m.Flagged? && m == Meaning(op, w, y, x, c)
  {
    Meaning(op, w, y, x, c)
  }

  ghost predicate Limbs(xs: seq<nat>, w: nat)
    requires Width(w)
  {
    forall i :: 0 <= i < |xs| ==> xs[i] < Size(w)
  }

  lemma RunOne(s: State, i: Instr)
    requires |s.regs| == 16
    ensures Run(s, [i]) == Step(s, i)
  {
    hide Step;
    assert [i][1..] == [];
    match Step(s, i)
    case Stop(_) =>
    case Next(s1, o) =>
      assert Run(s1, []) == Next(s1, []) && o + [] == o;
  }

  /** One combining instruction: the operation's result in the destination, its flags in RF. */
  lemma LimbBody(s: State, op: Op, src: Source, dst: Field)
    requires |s.regs| == 16 && op in {Add, Adc, Sub, Sbb} && dst.reg != RF
    ensures var w := SizeOf(dst.sub); var m := Meaning(op, w, Trunc(SignedOf(s, src), w), Bits(s, dst), s.rf.c);
      var r := Step(s, Binary(op, src, dst));
      && m.Flagged? && r.Next? && r.seen == [] && r.s.rf == WithNzcv(s.rf, m.flags) && Bits(r.s, dst) == m.result
      && forall i: RegIndex :: i != dst.reg ==> r.s.regs[i] == s.regs[i]
  {
    hide Meaning, WriteBits, ReadBits, Size, Trunc, SignedOf;
    var w := SizeOf(dst.sub);
    var x, y := Bits(s, dst), Trunc(SignedOf(s, src), w);
    FlaggedSum(op, w, y, x, s.rf.c);
    var m := Meaning(op, w, y, x, s.rf.c);
    WriteThenRead(s.regs[dst.reg], dst.sub, m.result, dst.sub);
  }

  /** A limb's code leaves the operation's result and flags, whatever flag-neutral code precedes. */
  lemma LimbRun(s: State, op: Op, l: Limb, w: nat)
    requires |s.regs| == 16 && FormedLimb(l, w) && op in {Add, Adc, Sub, Sbb}
    ensures Run(s, l.gap).Next?
    ensures var at := Run(s, l.gap).s;
      var m := Meaning(op, w, Trunc(SignedOf(at, l.src), w), Bits(at, l.dst), s.rf.c);
      var r := Run(s, LimbCode(op, l));
      && m.Flagged? && r.Next? && r.seen == [] && r.s.rf == WithNzcv(s.rf, m.flags) && Bits(r.s, l.dst) == m.result
  {
    hide Meaning, Trunc, Run, WithNzcv, Neutral, SignedOf, ReadBits;
    NeutralRun(s, l.gap);
    var i := Binary(op, l.src, l.dst);
    RunAppend(s, l.gap, [i]);
    RunOne(Run(s, l.gap).s, i);
    LimbBody(Run(s, l.gap).s, op, l.src, l.dst);
  }

  lemma FlaggedSum(op: Op, w: nat, y: nat, x: nat, c: bool)
    requires Width(w) && y < Size(w) && x < Size(w) && op in {Add, Adc, Sub, Sbb}
    ensures var m := Meaning(op, w, y, x, c);
      m.Flagged? && m.result < Size(w) && Trunc(m.result, w) == m.result
  {
    hide Size;
    var r := Meaning(op, w, y, x, c).result;
    DivModUnique(r, Size(w), 0, r);
  }

  /** One limb of exact arithmetic. */
  lemma LimbSum(op: Op, w: nat, y: nat, x: nat, c: bool)
    requires Width(w) && y < Size(w) && x < Size(w) && op in {Add, Adc, Sub, Sbb}
    ensures var m := LimbMeaning(op, w, y, x, c); var k := if op in {Adc, Sbb} then B(c) else 0;
      && (op in {Add, Adc} ==> m.result + Size(w) * B(m.flags.c) == x + y + k)
      && (op in {Sub, Sbb} ==> m.result - Size(w) * B(m.flags.c) == x - y - k)
  {
    hide Size, Trunc;
    var k := if op in {Adc, Sbb} then B(c) else 0;
    SumCut(x + y + k, w);
    DifferenceCut(x - y - k, w);
  }

  /** Running the chain's code leaves the chain's limbs and its carry in C, whatever flag-neutral
      code sits between the limbs. */
  lemma {:induction false} ChainRuns(s: State, first: Op, rest: Op, ls: seq<Limb>, w: nat)
    requires |s.regs| == 16 && Width(w) && Formed(ls, w)
    requires first in {Add, Adc, Sub, Sbb} && rest in {Add, Adc, Sub, Sbb}
    ensures var t := Traced(s, first, rest, ls);
      && |t.xs| == |ls| && Limbs(t.xs, w) && Limbs(t.ys, w)
      && Run(s, ChainCode(first, rest, ls)) == Next(t.s, [])
      && Chain(first, rest, t.xs, t.ys, w, s.rf.c) == Chained(t.zs, t.s.rf.c)
    decreases |ls|
  {
    hide Run, Size, Trunc, LimbCode, Neutral, Meaning, Chain, Limbs, ReadBits, SignedOf;
    if ls == [] {
      EmptyRun(s);
      EmptyChain(first, rest, w, s.rf.c);
    } else {
      var l, ls' := ls[0], ls[1..];
      assert l in ls && FormedLimb(l, w);
      LimbRun(s, first, l, w);
      var at, after := Run(s, l.gap).s, Run(s, LimbCode(first, l)).s;
      var x, y := Bits(at, l.dst), Trunc(SignedOf(at, l.src), w);
      ChainRuns(after, rest, rest, ls', w);
      RunAppend(s, LimbCode(first, l), ChainCode(rest, rest, ls'));
      var t := Traced(after, rest, rest, ls');
      ChainCons(first, rest, x, t.xs, y, t.ys, w, s.rf.c);
    }
  }

  lemma ChainCons(first: Op, rest: Op, x: nat, xs: seq<nat>, y: nat, ys: seq<nat>, w: nat, c: bool)
    requires Width(w) && |xs| == |ys| && first in {Add, Adc, Sub, Sbb} && rest in {Add, Adc, Sub, Sbb}
    requires x < Size(w) && y < Size(w) && Limbs(xs, w) && Limbs(ys, w)
    ensures Limbs([x] + xs, w) && Limbs([y] + ys, w)
    ensures var m := LimbMeaning(first, w, y, x, c); var t := Chain(rest, rest, xs, ys, w, m.flags.c);
      Chain(first, rest, [x] + xs, [y] + ys, w, c) == Chained([m.result] + t.zs, t.carry)
  {
    hide LimbMeaning, Size;
    LimbsCons(x, xs, w);
    LimbsCons(y, ys, w);
    assert ([x] + xs)[1..] == xs && ([y] + ys)[1..] == ys;
  }

  lemma EmptyChain(first: Op, rest: Op, w: nat, c: bool)
    requires Width(w) && first in {Add, Adc, Sub, Sbb} && rest in {Add, Adc, Sub, Sbb}
    ensures Limbs([], w) && Chain(first, rest, [], [], w, c) == Chained([], c)
  {
  }

  lemma LimbsCons(x: nat, xs: seq<nat>, w: nat)
    requires Width(w) && x < Size(w) && Limbs(xs, w)
    ensures Limbs([x] + xs, w)
  {
  }

  lemma EmptyRun(s: State)
    requires |s.regs| == 16
    ensures Run(s, []) == Next(s, [])
  {
  }

  /** ADD then ADCs, of any length and width: the limbs and the final carry are the exact sum. */
  lemma {:induction false} AdditionChain(first: Op, xs: seq<nat>, ys: seq<nat>, w: nat, c: bool)
    requires Width(w) && |xs| == |ys| && Limbs(xs, w) && Limbs(ys, w)
    requires first in {Add, Adc} && (xs != [] || first == Adc)
    ensures var t := Chain(first, Adc, xs, ys, w, c);
      Number(t.zs, w) + Weight(w, |xs|) * B(t.carry)
      == Number(xs, w) + Number(ys, w) + if first == Adc then B(c) else 0
    decreases |xs|
  {
    if xs != [] {
      hide Size, LimbMeaning, Limbs, B;
      LimbSum(first, w, ys[0], xs[0], c);
      var m, k := LimbMeaning(first, w, ys[0], xs[0], c), if first == Adc then B(c) else 0;
      AdditionChain(Adc, xs[1..], ys[1..], w, m.flags.c);
      var t := Chain(Adc, Adc, xs[1..], ys[1..], w, m.flags.c);
      assert Chain(first, Adc, xs, ys, w, c).zs[1..] == t.zs;
      ChainStep(Size(w), m.result, Number(t.zs, w), Weight(w, |xs| - 1), B(t.carry), B(m.flags.c),
        xs[0], Number(xs[1..], w), ys[0], Number(ys[1..], w), k);
    }
  }

  /** SUB then SBBs: the exact difference, C the final borrow. */
  lemma {:induction false} SubtractionChain(first: Op, xs: seq<nat>, ys: seq<nat>, w: nat, c: bool)
    requires Width(w) && |xs| == |ys| && Limbs(xs, w) && Limbs(ys, w)
    requires first in {Sub, Sbb} && (xs != [] || first == Sbb)
    ensures var t := Chain(first, Sbb, xs, ys, w, c);
      Number(t.zs, w) + Number(ys, w) + (if first == Sbb then B(c) else 0)
      == Number(xs, w) + Weight(w, |xs|) * B(t.carry)
    decreases |xs|
  {
    if xs != [] {
      hide Size, LimbMeaning, Limbs, B;
      LimbSum(first, w, ys[0], xs[0], c);
      var m, k := LimbMeaning(first, w, ys[0], xs[0], c), if first == Sbb then B(c) else 0;
      SubtractionChain(Sbb, xs[1..], ys[1..], w, m.flags.c);
      var t := Chain(Sbb, Sbb, xs[1..], ys[1..], w, m.flags.c);
      assert Chain(first, Sbb, xs, ys, w, c).zs[1..] == t.zs;
      BorrowStep(Size(w), m.result, Number(t.zs, w), Weight(w, |xs| - 1), B(t.carry), B(m.flags.c),
        xs[0], Number(xs[1..], w), ys[0], Number(ys[1..], w), k);
    }
  }

  lemma ChainStep(M: int, z: int, zs: int, weight: int, out: int, carry: int,
                  x: int, xs: int, y: int, ys: int, k: int)
    requires z + M * carry == x + y + k && zs + weight * out == xs + ys + carry
    ensures (z + M * zs) + (M * weight) * out == (x + M * xs) + (y + M * ys) + k
  {
    assert M * (zs + weight * out) == M * zs + (M * weight) * out;
    assert M * (xs + ys + carry) == M * xs + M * ys + M * carry;
  }

  lemma BorrowStep(M: int, z: int, zs: int, weight: int, out: int, borrow: int,
                   x: int, xs: int, y: int, ys: int, k: int)
    requires z - M * borrow == x - y - k && zs + ys + borrow == xs + weight * out
    ensures (z + M * zs) + (y + M * ys) + k == (x + M * xs) + (M * weight) * out
  {
    assert M * (xs + weight * out) == M * xs + (M * weight) * out;
    assert M * (zs + ys + borrow) == M * zs + M * ys + M * borrow;
  }

  /** The program, its run and the arithmetic in one statement, for ADD and ADC: any limbs, any
      sources, any destinations outside RF, operands as each limb finds them. */
  lemma MultiWordAdd(s: State, ls: seq<Limb>, w: nat)
    requires |s.regs| == 16 && Width(w) && Formed(ls, w) && ls != []
    ensures var t := Traced(s, Add, Adc, ls);
      && |t.zs| == |ls| && Run(s, ChainCode(Add, Adc, ls)) == Next(t.s, [])
      && Number(t.zs, w) + Weight(w, |ls|) * B(t.s.rf.c) == Number(t.xs, w) + Number(t.ys, w)
  {
    hide Run, Size, Chain, Limbs, Traced;
    ChainRuns(s, Add, Adc, ls, w);
    var t := Traced(s, Add, Adc, ls);
    AdditionChain(Add, t.xs, t.ys, w, s.rf.c);
  }

  /** And for SUB and SBB. */
  lemma MultiWordSubtract(s: State, ls: seq<Limb>, w: nat)
    requires |s.regs| == 16 && Width(w) && Formed(ls, w) && ls != []
    ensures var t := Traced(s, Sub, Sbb, ls);
      && |t.zs| == |ls| && Run(s, ChainCode(Sub, Sbb, ls)) == Next(t.s, [])
      && Number(t.zs, w) + Number(t.ys, w) == Number(t.xs, w) + Weight(w, |ls|) * B(t.s.rf.c)
  {
    hide Run, Size, Chain, Limbs, Traced;
    ChainRuns(s, Sub, Sbb, ls, w);
    var t := Traced(s, Sub, Sbb, ls);
    SubtractionChain(Sub, t.xs, t.ys, w, s.rf.c);
  }

  // ---- the register form -----------------------------------------------------------------------------

  /** Nothing between the limbs; every destination in its own register, and no source in a
      destination register or RF. */
  ghost predicate InRegisters(ls: seq<Limb>, w: nat) {
    && Formed(ls, w) && (forall l :: l in ls ==> l.gap == [])
    && (forall i, j :: 0 <= i < j < |ls| ==> ls[i].dst.reg != ls[j].dst.reg)
    && (forall k, l :: k in ls && l in ls && k.src.Reg? ==> k.src.f.reg != l.dst.reg && k.src.f.reg != RF)
  }

  ghost function Dests(s: State, ls: seq<Limb>): (xs: seq<nat>)
    requires |s.regs| == 16
    ensures |xs| == |ls|
  {
    seq(|ls|, i requires 0 <= i < |ls| => Bits(s, ls[i].dst))
  }

  ghost function Sources(s: State, ls: seq<Limb>, w: nat): (ys: seq<nat>)
    requires |s.regs| == 16 && Width(w)
    ensures |ys| == |ls|
  {
    seq(|ls|, i requires 0 <= i < |ls| => Trunc(SignedOf(s, ls[i].src), w))
  }

  lemma SameField(s: State, s': State, f: Field)
    requires |s.regs| == 16 && |s'.regs| == 16 && f.reg != RF && s.regs[f.reg] == s'.regs[f.reg]
    ensures Bits(s, f) == Bits(s', f) && SignedOf(s, Reg(f)) == SignedOf(s', Reg(f))
  {
  }

  /** Registers that are no limb's destination keep their values. */
  lemma {:induction false} OthersKept(s: State, first: Op, rest: Op, ls: seq<Limb>, w: nat, r: RegIndex)
    requires |s.regs| == 16 && Width(w) && InRegisters(ls, w) && (forall l :: l in ls ==> l.dst.reg != r)
    requires first in {Add, Adc, Sub, Sbb} && rest in {Add, Adc, Sub, Sbb}
    ensures Traced(s, first, rest, ls).s.regs[r] == s.regs[r]
    decreases |ls|
  {
    hide Step, Meaning, ReadBits, SignedOf, Trunc;
    if ls != [] {
      var l := ls[0];
      assert l in ls && l.gap == [] && FormedLimb(l, w);
      BareLimb(s, first, l);
      LimbBody(s, first, l.src, l.dst);
      assert forall k :: k in ls[1..] ==> k in ls;
      OthersKept(Step(s, Binary(first, l.src, l.dst)).s, rest, rest, ls[1..], w, r);
    }
  }

  lemma BareLimb(s: State, op: Op, l: Limb)
    requires |s.regs| == 16 && l.gap == []
    ensures Run(s, l.gap) == Next(s, []) && Run(s, LimbCode(op, l)) == Step(s, Binary(op, l.src, l.dst))
  {
    var i := Binary(op, l.src, l.dst);
    assert LimbCode(op, l) == [i];
    RunOne(s, i);
  }

  /** A limb's instruction leaves the operands of the limbs after it alone. */
  lemma OperandsKept(s: State, after: State, ls: seq<Limb>, w: nat)
    requires |s.regs| == 16 && |after.regs| == 16 && Width(w) && InRegisters(ls, w) && ls != []
    requires forall r: RegIndex :: r != ls[0].dst.reg ==> after.regs[r] == s.regs[r]
    ensures Dests(after, ls[1..]) == Dests(s, ls[1..]) && Sources(after, ls[1..], w) == Sources(s, ls[1..], w)
  {
    hide Bits, SignedOf, Trunc;
    var ls' := ls[1..];
    forall i | 0 <= i < |ls'|
      ensures Bits(after, ls'[i].dst) == Bits(s, ls'[i].dst)
      ensures SignedOf(after, ls'[i].src) == SignedOf(s, ls'[i].src)
    {
      var k := ls[i + 1];
      assert k in ls && ls[0] in ls && FormedLimb(k, w);
      SameField(s, after, k.dst);
      match k.src
      case Reg(f) => SameField(s, after, f);
      case Val(x) => ValueIsItself(s, after, x);
    }
  }

  lemma ValueIsItself(s: State, s': State, x: Word)
    requires |s.regs| == 16 && |s'.regs| == 16
    ensures SignedOf(s, Val(x)) == SignedOf(s', Val(x))
  {
  }

  lemma OperandsCons(s: State, ls: seq<Limb>, w: nat)
    requires |s.regs| == 16 && Width(w) && ls != []
    ensures Dests(s, ls) == [Bits(s, ls[0].dst)] + Dests(s, ls[1..])
    ensures Sources(s, ls, w) == [Trunc(SignedOf(s, ls[0].src), w)] + Sources(s, ls[1..], w)
  {
    hide Bits, SignedOf, Trunc;
  }

  lemma RestInRegisters(ls: seq<Limb>, w: nat)
    requires InRegisters(ls, w) && ls != []
    ensures InRegisters(ls[1..], w) && FormedLimb(ls[0], w) && ls[0].gap == []
    ensures forall k :: k in ls[1..] ==> k.dst.reg != ls[0].dst.reg
  {
    hide FormedLimb;
    var ls' := ls[1..];
    assert ls[0] in ls && forall k :: k in ls' ==> k in ls;
    forall k | k in ls'
      ensures k.dst.reg != ls[0].dst.reg
    {
      var i :| 0 <= i < |ls'| && ls'[i] == k;
      assert k == ls[i + 1];
    }
  }

  /** In the register form the operands are the initial values and the results the final ones. */
  lemma {:induction false} RegisterTrace(s: State, first: Op, rest: Op, ls: seq<Limb>, w: nat)
    requires |s.regs| == 16 && Width(w) && InRegisters(ls, w)
    requires first in {Add, Adc, Sub, Sbb} && rest in {Add, Adc, Sub, Sbb}
    ensures var t := Traced(s, first, rest, ls);
      t.xs == Dests(s, ls) && t.ys == Sources(s, ls, w) && t.zs == Dests(t.s, ls)
    decreases |ls|
  {
    hide Step, Meaning, Bits, SignedOf, Trunc, Run, WithNzcv, LimbCode, InRegisters, Dests, Sources;
    if ls == [] {
      NoOperands(s, w);
    } else {
      var l, ls' := ls[0], ls[1..];
      RestInRegisters(ls, w);
      BareLimb(s, first, l);
      LimbBody(s, first, l.src, l.dst);
      var after := Step(s, Binary(first, l.src, l.dst)).s;
      RegisterTrace(after, rest, rest, ls', w);
      OperandsKept(s, after, ls, w);
      OthersKept(after, rest, rest, ls', w, l.dst.reg);
      var t := Traced(s, first, rest, ls);
      SameField(after, t.s, l.dst);
      OperandsCons(s, ls, w);
      OperandsCons(t.s, ls, w);
    }
  }

  lemma NoOperands(s: State, w: nat)
    requires |s.regs| == 16 && Width(w)
    ensures Dests(s, []) == [] && Sources(s, [], w) == []
  {
  }

  /** ADD R0 R4; ADC R1 R5; ...: the destinations end up holding the sum of what they and the
      sources held, with C the carry out. */
  lemma RegistersAdd(s: State, ls: seq<Limb>, w: nat)
    requires |s.regs| == 16 && Width(w) && InRegisters(ls, w) && ls != []
    ensures var r := Run(s, ChainCode(Add, Adc, ls));
      && r.Next? && |r.s.regs| == 16
      && Number(Dests(r.s, ls), w) + Weight(w, |ls|) * B(r.s.rf.c)
           == Number(Dests(s, ls), w) + Number(Sources(s, ls, w), w)
  {
    hide Run, Size, Dests, Sources, Traced, Number;
    MultiWordAdd(s, ls, w);
    RegisterTrace(s, Add, Adc, ls, w);
  }

  lemma RegistersSubtract(s: State, ls: seq<Limb>, w: nat)
    requires |s.regs| == 16 && Width(w) && InRegisters(ls, w) && ls != []
    ensures var r := Run(s, ChainCode(Sub, Sbb, ls));
      && r.Next? && |r.s.regs| == 16
      && Number(Dests(r.s, ls), w) + Number(Sources(s, ls, w), w)
           == Number(Dests(s, ls), w) + Weight(w, |ls|) * B(r.s.rf.c)
  {
    hide Run, Size, Dests, Sources, Traced, Number;
    MultiWordSubtract(s, ls, w);
    RegisterTrace(s, Sub, Sbb, ls, w);
  }

  // ---- user mode and the privileged bits -------------------------------------------------------------

  ghost predicate SamePrivileged(f: Rf, g: Rf) {
    && f.privilege == g.privilege && f.interruptEnabled == g.interruptEnabled
    && f.interruptSet == g.interruptSet && f.running == g.running && f.syscallGuest == g.syscallGuest
  }

  lemma WriteKeepsPrivileged(s: State, f: Field, bits: nat)
    requires |s.regs| == 16 && !s.rf.privilege
    ensures SamePrivileged(WriteField(s, f, bits).rf, s.rf)
  {
    hide Decode, WriteBits, Encode;
  }

  lemma UserAlu(s: State, op: Op, src: Word, dst: Field, hi: Field)
    requires |s.regs| == 16 && !s.rf.privilege
    ensures var r := Arith(s, op, src, dst); r.Next? ==> SamePrivileged(r.s.rf, s.rf)
    ensures var r := Wide(s, op, src, dst, hi); r.Next? ==> SamePrivileged(r.s.rf, s.rf)
  {
    hide WriteField, Meaning, ReadBits, Trunc;
    var w := SizeOf(dst.sub);
    match Meaning(op, w, Trunc(src, w), Bits(s, dst), s.rf.c)
    case DivideError =>
    case Quiet(r) => WriteKeepsPrivileged(s, dst, r);
    case Flagged(r, high, f) =>
      var s1 := s.(rf := WithNzcv(s.rf, f));
      WriteKeepsPrivileged(s1, dst, r);
      WriteKeepsPrivileged(WriteField(s1, dst, r), hi, high);
  }

  lemma UserMove(s: State, i: Instr)
    requires |s.regs| == 16 && !s.rf.privilege && (i.CmpXchg? || i.Lea? || i.Move? || i.Xchg? || i.Clr? || i.SetCc?)
    ensures var r := Step(s, i); r.Next? ==> SamePrivileged(r.s.rf, s.rf)
  {
    hide WriteField, SignedOf, PlainOf, ReadBits, Holds, Trunc, Size;
    match i
    case CmpXchg(src, dst, expected) =>
      var t, f := s.(rf := s.rf.(z := true)), s.(rf := s.rf.(z := false));
      WriteKeepsPrivileged(t, dst, SignedOf(t, src));
      WriteKeepsPrivileged(f, expected, SignedOf(f, Reg(dst)));
    case Lea(src, base, dst) =>
      WriteKeepsPrivileged(s, dst, Trunc(SignedOf(s, src) + SignedOf(s, Reg(base)), SizeOf(base.sub)));
    case Move(src, signed, dst) =>
      WriteKeepsPrivileged(s, dst, if signed then SignedOf(s, src) else PlainOf(s, src));
    case Xchg(a, b) =>
      WriteKeepsPrivileged(s, a, SignedOf(s, Reg(b)));
      WriteKeepsPrivileged(WriteField(s, a, SignedOf(s, Reg(b))), b, SignedOf(s, Reg(a)));
    case Clr(dst) => WriteKeepsPrivileged(s, dst, 0);
    case SetCc(cond, dst) => WriteKeepsPrivileged(s, dst, if Holds(s.rf, cond) then 1 else 0);
  }

  lemma UserStep(s: State, i: Instr)
    requires |s.regs| == 16 && !s.rf.privilege && !i.TrapEntry? && !i.Mirror?
    ensures var r := Step(s, i); r.Next? ==> SamePrivileged(r.s.rf, s.rf)
  {
    hide WriteField, Arith, Wide, SignedOf, PlainOf, ReadBits, Holds, Trunc, Decode, Encode;
    match i
    case Binary(op, src, dst) => UserAlu(s, op, SignedOf(s, src), dst, dst);
    case Unary(op, dst) => UserAlu(s, op, 0, dst, dst);
    case WideMul(op, src, dst, hi) => UserAlu(s, op, SignedOf(s, src), dst, hi);
    case CmpXchg(_, _, _) => UserMove(s, i);
    case Lea(_, _, _) => UserMove(s, i);
    case Move(_, _, _) => UserMove(s, i);
    case Xchg(_, _) => UserMove(s, i);
    case Clr(_) => UserMove(s, i);
    case SetCc(_, _) => UserMove(s, i);
    case _ =>
  }

  /** User code of any length, naming RF at any subregister in any role, never changes the
      privilege, interrupt-enable, interrupt-set, running or syscall bit. */
  lemma {:induction false} UserRun(s: State, program: seq<Instr>)
    requires |s.regs| == 16 && !s.rf.privilege
    requires forall i :: i in program ==> !i.TrapEntry? && !i.Mirror?
    ensures var r := Run(s, program); r.Next? ==> SamePrivileged(r.s.rf, s.rf)
    decreases |program|
  {
    hide Step;
    if program != [] {
      UserStep(s, program[0]);
      var r := Step(s, program[0]);
      if r.Next? {
        UserRun(r.s, program[1..]);
      }
    }
  }
}
