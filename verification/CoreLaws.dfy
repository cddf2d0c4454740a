/** What single instructions do to fields and flags, and where fields and flags sit in a word. */
module CoreLaws {
  import opened Words
  import opened Alu
  import opened AluProofs
  import opened AluLaws
  import opened Registers
  import opened Core

  // ---- layout --------------------------------------------------------------------------------------------

  lemma {:induction false} BytesJoin(a: seq<Byte>, b: seq<Byte>)
    ensures FromBytes(a + b) == FromBytes(a) + Pow256(|a|) * FromBytes(b)
  {
    if a == [] {
      assert a + b == b;
    } else {
      assert (a + b)[1..] == a[1..] + b;
      BytesJoin(a[1..], b);
      assert 256 * (Pow256(|a| - 1) * FromBytes(b)) == Pow256(|a|) * FromBytes(b);
    }
  }

  /** Bytes b0 to b7, quarters q0 to q3 and halves h0 and h1 lie side by side from the low end; w0 is
      the whole word. */
  lemma FieldsTile(x: Word)
    ensures x == ReadBits(x, 0) + 0x100 * ReadBits(x, 1) + 0x1_0000 * ReadBits(x, 2) + 0x100_0000 * ReadBits(x, 3)
      + 0x1_0000_0000 * (ReadBits(x, 4) + 0x100 * ReadBits(x, 5)
                         + 0x1_0000 * ReadBits(x, 6) + 0x100_0000 * ReadBits(x, 7))
    ensures x == ReadBits(x, 8) + 0x1_0000 * ReadBits(x, 9)
      + 0x1_0000_0000 * (ReadBits(x, 10) + 0x1_0000 * ReadBits(x, 11))
    ensures x == ReadBits(x, 12) + 0x1_0000_0000 * ReadBits(x, 13) && x == ReadBits(x, 14)
  {
    hide ToBytes, FromBytes;
    var bs := ToBytes(x, 8);
    WordRoundTrip(x);
    assert bs[0..8] == bs && bs[0..4] + bs[4..8] == bs;
    Quarter(bs, 0);
    Quarter(bs, 2);
    Quarter(bs, 4);
    Quarter(bs, 6);
    HalfJoins(bs, 0);
    HalfJoins(bs, 4);
    BytesJoin(bs[0..4], bs[4..8]);
    FourBytes();
  }

  lemma FourBytes()
    ensures Pow256(4) == 0x1_0000_0000 && Pow256(2) == 0x1_0000
  {
  }

  lemma Quarter(bs: seq<Byte>, i: nat)
    requires i + 2 <= |bs|
    ensures FromBytes(bs[i..i + 2]) == FromBytes(bs[i..i + 1]) + 0x100 * FromBytes(bs[i + 1..i + 2])
  {
    assert bs[i..i + 2] == bs[i..i + 1] + bs[i + 1..i + 2];
    BytesJoin(bs[i..i + 1], bs[i + 1..i + 2]);
    assert Pow256(1) == 0x100;
  }

  lemma HalfJoins(bs: seq<Byte>, i: nat)
    requires i + 4 <= |bs|
    ensures FromBytes(bs[i..i + 4]) == FromBytes(bs[i..i + 2]) + 0x1_0000 * FromBytes(bs[i + 2..i + 4])
  {
    assert bs[i..i + 4] == bs[i..i + 2] + bs[i + 2..i + 4];
    BytesJoin(bs[i..i + 2], bs[i + 2..i + 4]);
    FourBytes();
  }

  /** RF: C N V P Z at bits 0 to 4; privilege, interrupt enable, interrupt set, running and syscall
      guest at bits 32 to 36. */
  lemma RfLayout(f: Rf)
    ensures var lo, hi := Encode(f) % 0x1_0000_0000, Encode(f) / 0x1_0000_0000;
      && (lo % 2 == 1) == f.c && (lo / 2 % 2 == 1) == f.n && (lo / 4 % 2 == 1) == f.v
      && (lo / 8 % 2 == 1) == f.p && (lo / 16 % 2 == 1) == f.z
      && (hi % 2 == 1) == f.privilege && (hi / 2 % 2 == 1) == f.interruptEnabled && (hi / 4 % 2 == 1) == f.interruptSet
      && (hi / 8 % 2 == 1) == f.running && (hi / 16 % 2 == 1) == f.syscallGuest
  {
    hide Pack;
    var lo := Pack(f.c, f.n, f.v, f.p, f.z, f.middle);
    var hi := Pack(f.privilege, f.interruptEnabled, f.interruptSet, f.running, f.syscallGuest, f.top);
    Halves(lo, hi);
    UnpackPack(f.c, f.n, f.v, f.p, f.z, f.middle);
    UnpackPack(f.privilege, f.interruptEnabled, f.interruptSet, f.running, f.syscallGuest, f.top);
    FourHalvings(lo);
    FourHalvings(hi);
  }

  lemma FourHalvings(x: nat)
    ensures x / 4 == x / 2 / 2 && x / 8 == x / 2 / 2 / 2 && x / 16 == x / 2 / 2 / 2 / 2
  {
  }

  // ---- writing fields and RF ---------------------------------------------------------------------------------

  /** Only this register may differ, and it holds `v` in the field. */
  ghost predicate Wrote(s: State, s': State, f: Field, v: nat)
    requires |s.regs| == 16 && |s'.regs| == 16 && f.reg != RF
  {
    && Bits(s', f) == v
    && (forall r: RegIndex :: r != f.reg ==> s'.regs[r] == s.regs[r])
    && forall t: Subreg :: IndexOf(t) + SizeOf(t) <= IndexOf(f.sub) || IndexOf(f.sub) + SizeOf(f.sub) <= IndexOf(t) ==>
         ReadBits(s'.regs[f.reg], t) == ReadBits(s.regs[f.reg], t)
  }

  lemma WriteFieldLaw(s: State, f: Field, bits: nat)
    requires |s.regs| == 16 && f.reg != RF
    ensures Wrote(s, WriteField(s, f, bits), f, Trunc(bits, SizeOf(f.sub))) && WriteField(s, f, bits).rf == s.rf
  {
    hide ReadBits, WriteBits, Trunc, IndexOf, SizeOf;
    forall t: Subreg
      ensures ReadBits(WriteBits(s.regs[f.reg], f.sub, bits), f.sub) == Trunc(bits, SizeOf(f.sub))
      ensures IndexOf(t) + SizeOf(t) <= IndexOf(f.sub) || IndexOf(f.sub) + SizeOf(f.sub) <= IndexOf(t) ==>
        ReadBits(WriteBits(s.regs[f.reg], f.sub, bits), t) == ReadBits(s.regs[f.reg], t)
    {
      WriteThenRead(s.regs[f.reg], f.sub, bits, t);
    }
  }

  /** A supervisor write of all of RF leaves exactly the word written; a user write leaves its
      condition flags and nothing of its privileged bits. */
  lemma RfWrites(s: State, x: Word)
    requires |s.regs| == 16
    ensures var f := WriteField(s, Field(RF, 14), x).rf;
      && (s.rf.privilege ==> Encode(f) == x)
      && (!s.rf.privilege ==>
            && f.c == Decode(x).c && f.n == Decode(x).n && f.v == Decode(x).v
            && f.p == Decode(x).p && f.z == Decode(x).z
            && f.privilege == s.rf.privilege && f.interruptEnabled == s.rf.interruptEnabled
            && f.interruptSet == s.rf.interruptSet && f.running == s.rf.running && f.syscallGuest == s.rf.syscallGuest)
  {
    hide Encode, Decode, ReadBits;
    var y := WriteBits(Value(s, RF), 14, x);
    WholeWord(Value(s, RF), x);
    EveryWordIsAnRf(x);
  }

  lemma WholeWord(y: Word, x: Word)
    ensures WriteBits(y, 14, x) == x
  {
    WriteThenRead(y, 14, x, 14);
    FieldsTile(WriteBits(y, 14, x));
    DivModUnique(x, SPACE, 0, x);
  }

  // ---- instructions ------------------------------------------------------------------------------------------

  lemma SignedCutsBack(x: Word, t: Subreg)
    ensures Trunc(ReadSigned(x, t), SizeOf(t)) == ReadBits(x, t)
  {
    hide Size, ReadBits;
    var v, m := ReadBits(x, t), Size(SizeOf(t));
    SpaceOverWidth(SizeOf(t));
    if ReadSigned(x, t) == v {
      DivModUnique(v, m, 0, v);
    } else {
      DivModUnique(v + (SPACE - m), m, SPACE / m - 1, v);
    }
  }

  lemma SpaceOverWidth(w: nat)
    requires Width(w)
    ensures SPACE == (SPACE / Size(w)) * Size(w)
  {
  }

  /** CMPXCHG: Z tells whether the field held what was expected; if so it takes the source and
      nothing else changes, if not the expected field takes what was found. */
  lemma CompareExchange(s: State, src: Source, dst: Field, expected: Field)
    requires |s.regs| == 16 && dst.reg != RF && expected.reg != RF && (src.Reg? ==> src.f.reg != RF)
    ensures var r := Step(s, CmpXchg(src, dst, expected)); var equal := Bits(s, expected) == Bits(s, dst);
      && r.Next? && r.seen == [] && r.s.rf == s.rf.(z := equal)
      && (equal ==> Wrote(s, r.s, dst, Trunc(SignedOf(s, src), SizeOf(dst.sub))))
      && (!equal ==> Wrote(s, r.s, expected, Trunc(SignedOf(s, Reg(dst)), SizeOf(expected.sub))))
  {
    hide WriteField, ReadBits, ReadSigned, Trunc, Wrote;
    var equal := Bits(s, expected) == Bits(s, dst);
    var s1 := s.(rf := s.rf.(z := equal));
    WriteFieldLaw(s1, dst, SignedOf(s, src));
    WriteFieldLaw(s1, expected, SignedOf(s, Reg(dst)));
    SameRegisters(s, s1, Step(s, CmpXchg(src, dst, expected)).s, dst, Trunc(SignedOf(s, src), SizeOf(dst.sub)));
    SameRegisters(s, s1, Step(s, CmpXchg(src, dst, expected)).s, expected,
      Trunc(SignedOf(s, Reg(dst)), SizeOf(expected.sub)));
  }

  lemma SameRegisters(s: State, s1: State, t: State, f: Field, v: nat)
    requires |s.regs| == 16 && |t.regs| == 16 && s1.regs == s.regs && f.reg != RF
    ensures Wrote(s1, t, f, v) == Wrote(s, t, f, v)
  {
    hide ReadBits, IndexOf, SizeOf;
  }

  /** LEA: the sum at the base's width, and no flag. */
  lemma EffectiveAddress(s: State, src: Source, base: Field, dst: Field)
    requires |s.regs| == 16 && dst.reg != RF
    ensures var r := Step(s, Lea(src, base, dst));
      && r.Next? && r.seen == [] && r.s.rf == s.rf
      && Wrote(s, r.s, dst,
               Trunc((SignedOf(s, src) + SignedOf(s, Reg(base))) % Size(SizeOf(base.sub)), SizeOf(dst.sub)))
  {
    hide WriteField, ReadBits, ReadSigned, Wrote, Size;
    WriteFieldLaw(s, dst, Trunc(SignedOf(s, src) + SignedOf(s, Reg(base)), SizeOf(base.sub)));
  }

  /** XCHG of two registers' fields of one width: each holds what the other held. */
  lemma Exchange(s: State, a: Field, b: Field)
    requires |s.regs| == 16 && a.reg != RF && b.reg != RF && a.reg != b.reg && SizeOf(a.sub) == SizeOf(b.sub)
    ensures var r := Step(s, Xchg(a, b));
      && r.Next? && r.seen == [] && r.s.rf == s.rf && Bits(r.s, a) == Bits(s, b) && Bits(r.s, b) == Bits(s, a)
      && forall i: RegIndex :: i != a.reg && i != b.reg ==> r.s.regs[i] == s.regs[i]
  {
    hide WriteField, ReadBits, ReadSigned, Trunc;
    var x, y := SignedOf(s, Reg(a)), SignedOf(s, Reg(b));
    var s1 := WriteField(s, a, y);
    WriteFieldLaw(s, a, y);
    WriteFieldLaw(s1, b, x);
    SignedCutsBack(s.regs[a.reg], a.sub);
    SignedCutsBack(s.regs[b.reg], b.sub);
  }

  /** CP and CPZ, CLR, SETcc: the field takes the value, RF stays. */
  lemma Moves(s: State, src: Source, dst: Field, cond: nat)
    requires |s.regs| == 16 && dst.reg != RF && cond <= 10
    ensures var r := Step(s, Move(src, true, dst));
      r.Next? && r.seen == [] && r.s.rf == s.rf && Wrote(s, r.s, dst, Trunc(SignedOf(s, src), SizeOf(dst.sub)))
    ensures var r := Step(s, Move(src, false, dst));
      r.Next? && r.seen == [] && r.s.rf == s.rf && Wrote(s, r.s, dst, Trunc(PlainOf(s, src), SizeOf(dst.sub)))
    ensures var r := Step(s, Clr(dst)); r.Next? && r.seen == [] && r.s.rf == s.rf && Wrote(s, r.s, dst, 0)
    ensures var r := Step(s, SetCc(cond, dst));
      r.Next? && r.seen == [] && r.s.rf == s.rf && Wrote(s, r.s, dst, if Holds(s.rf, cond) then 1 else 0)
  {
    hide WriteField, ReadBits, ReadSigned, Trunc, Wrote, Holds;
    WriteFieldLaw(s, dst, SignedOf(s, src));
    WriteFieldLaw(s, dst, PlainOf(s, src));
    WriteFieldLaw(s, dst, 0);
    WriteFieldLaw(s, dst, 1);
    BitFits(SizeOf(dst.sub));
  }

  lemma BitFits(w: nat)
    requires Width(w)
    ensures Trunc(0, w) == 0 && Trunc(1, w) == 1
  {
  }

  /** Between fields of one width both moves copy; into a wider one CP from the low end of a
      register sign-extends and CPZ zero-extends. */
  lemma Extension(s: State, f: Field)
    requires |s.regs| == 16
    ensures Trunc(SignedOf(s, Reg(f)), SizeOf(f.sub)) == Bits(s, f) == PlainOf(s, Reg(f))
    ensures IndexOf(f.sub) == 0 ==>
      var v, m := Bits(s, f), Size(SizeOf(f.sub));
      SignedOf(s, Reg(f)) == if 2 * v >= m then v + (SPACE - m) else v
  {
    hide ReadBits, Size;
    SignedCutsBack(Value(s, f.reg), f.sub);
    ReadSignedExact(Value(s, f.reg), f.sub);
  }

  /** SETCRY, CLRCRY, SETINT, CLRINT, SETSYSG and CLRSYSG write one bit each; the last four stop the
      VM with cause 4 in user mode. A device's raise or acknowledge writes the mirror bit in either
      mode. ST and PUSH send out the field. */
  lemma SingleBits(s: State, on: bool, f: Field)
    requires |s.regs| == 16
    ensures Step(s, SetCarry(on)) == Next(s.(rf := s.rf.(c := on)), [])
    ensures Step(s, SetInterrupts(on))
      == if s.rf.privilege then Next(s.(rf := s.rf.(interruptEnabled := on)), []) else Stop(4)
    ensures Step(s, SetSyscallGuest(on))
      == if s.rf.privilege then Next(s.(rf := s.rf.(syscallGuest := on)), []) else Stop(4)
    ensures Step(s, Mirror(on)) == Next(s.(rf := s.rf.(interruptSet := on)), [])
    ensures Step(s, Emit(f)) == Next(s, [Stored(Bits(s, f))])
  {
    hide ReadBits;
  }

  /** Any ALU instruction outside RF: the operation's result in the destination, except that CMP and
      TEST keep it, its flags in RF, a divide error as cause 2. */
  lemma Arithmetics(s: State, op: Op, src: Source, dst: Field)
    requires |s.regs| == 16 && dst.reg != RF
    ensures var w := SizeOf(dst.sub); var m := Meaning(op, w, Trunc(SignedOf(s, src), w), Bits(s, dst), s.rf.c);
      var r := Step(s, Binary(op, src, dst));
      && (m.DivideError? <==> r == Stop(2))
      && (!m.DivideError? ==> r.Next? && r.seen == [])
      && (m.Quiet? ==> r.s.rf == s.rf)
      && (m.Flagged? ==>
            && r.s.rf.n == m.flags.n && r.s.rf.z == m.flags.z && r.s.rf.c == m.flags.c && r.s.rf.v == m.flags.v
            && r.s.rf.p == s.rf.p && r.s.rf.privilege == s.rf.privilege)
      && (!m.DivideError? && op in {Cmp, Test} ==> r.s.regs == s.regs)
      && (!m.DivideError? && op !in {Cmp, Test} ==> Wrote(s, r.s, dst, Trunc(ResultOf(m), w)))
  {
    hide WriteField, ReadBits, ReadSigned, Trunc, Wrote, Meaning;
    var w := SizeOf(dst.sub);
    var m := Meaning(op, w, Trunc(SignedOf(s, src), w), Bits(s, dst), s.rf.c);
    if m.Flagged? {
      var s1 := s.(rf := WithNzcv(s.rf, m.flags));
      WriteFieldLaw(s1, dst, m.result);
      SameRegisters(s, s1, WriteField(s1, dst, m.result), dst, Trunc(m.result, w));
    } else {
      WriteFieldLaw(s, dst, ResultOf(m));
    }
  }

  /** INC, DEC, NOT and NEG run through the same path with no source, and an unallocated condition
      stops the VM with cause 0. */
  lemma UnaryAndConditions(s: State, op: Op, dst: Field, cond: nat)
    requires |s.regs| == 16
    ensures Step(s, Unary(op, dst)) == Step(s, Binary(op, Val(0), dst))
    ensures Step(s, Branch(cond)) == if cond > 10 then Stop(0) else Next(s, [Condition(Holds(s.rf, cond))])
    ensures cond > 10 ==> Step(s, SetCc(cond, dst)) == Stop(0)
  {
    hide Arith, Holds, WriteField;
  }

  /** UMULW and MULW spread the whole product over two registers. */
  lemma WideProduct(s: State, src: Source, dst: Field, hi: Field)
    requires |s.regs| == 16 && dst.reg != RF && hi.reg != RF && dst.reg != hi.reg && SizeOf(dst.sub) == SizeOf(hi.sub)
    ensures var w := SizeOf(dst.sub); var y := Trunc(SignedOf(s, src), w);
      var r := Step(s, WideMul(Umulw, src, dst, hi)); var q := Step(s, WideMul(Mulw, src, dst, hi));
      && r.Next? && Bits(r.s, dst) + Size(w) * Bits(r.s, hi) == Bits(s, dst) * y
      && q.Next? && Bits(q.s, dst) + Size(w) * Signed(Bits(q.s, hi), w) == Signed(Bits(s, dst), w) * Signed(y, w)
  {
    hide WriteField, ReadBits, ReadSigned, Trunc, Meaning, Size, Signed;
    var w := SizeOf(dst.sub);
    var x, y := Bits(s, dst), Trunc(SignedOf(s, src), w);
    Products(w, y, x, s.rf.c);
    WideWrites(s, Umulw, src, dst, hi);
    WideWrites(s, Mulw, src, dst, hi);
  }

  lemma WideWrites(s: State, op: Op, src: Source, dst: Field, hi: Field)
    requires |s.regs| == 16 && dst.reg != RF && hi.reg != RF && dst.reg != hi.reg && SizeOf(dst.sub) == SizeOf(hi.sub)
    requires op in {Mulw, Umulw}
    ensures var w := SizeOf(dst.sub); var m := Meaning(op, w, Trunc(SignedOf(s, src), w), Bits(s, dst), s.rf.c);
      var r := Step(s, WideMul(op, src, dst, hi));
      m.Flagged? && r.Next? && Bits(r.s, dst) == m.result && Bits(r.s, hi) == m.high
  {
    hide WriteField, ReadBits, ReadSigned, Trunc, LowHalf, HighHalf, Size;
    var w := SizeOf(dst.sub);
    var y := Trunc(SignedOf(s, src), w);
    var m := Meaning(op, w, y, Bits(s, dst), s.rf.c);
    HalvesFit(op, w, y, Bits(s, dst), s.rf.c);
    var s1 := s.(rf := WithNzcv(s.rf, m.flags));
    WriteFieldLaw(s1, dst, m.result);
    WriteFieldLaw(WriteField(s1, dst, m.result), hi, m.high);
  }

  lemma HalvesFit(op: Op, w: nat, y: nat, x: nat, c: bool)
    requires Width(w) && y < Size(w) && x < Size(w) && op in {Mulw, Umulw}
    ensures var m := Meaning(op, w, y, x, c); m.Flagged? && Trunc(m.result, w) == m.result && Trunc(m.high, w) == m.high
  {
    hide Size, LowHalf, HighHalf, Signed;
    UnsignedProduct(w, y, x);
    SignedProduct(w, y, x);
    HighFits(w, y, x);
    var m := Meaning(op, w, y, x, c);
    DivModUnique(m.result, Size(w), 0, m.result);
    DivModUnique(m.high, Size(w), 0, m.high);
  }

  lemma HighFits(w: nat, s: nat, d: nat)
    requires Width(w) && s < Size(w) && d < Size(w)
    ensures HighHalf(d * s, w) < Size(w)
  {
    hide Size, LowHalf, HighHalf;
    var m := Size(w);
    ProductAtMost(d, s, m - 1, m - 1);
    assert (m - 1) * (m - 1) == m * m - 2 * m + 1;
    HalvesRejoin(d * s, w);
  }

  // ---- floating-point compare ------------------------------------------------------------------------------

  /** After FCMP: A means greater, P unordered, B without P less, Z without P equal; N and V are
      clear and nothing else of RF moves. */
  lemma FloatCompareDecides(s: State, cmp: (nat, nat) -> Compared, dst: Field, src: Source)
    requires |s.regs| == 16
    ensures var r := Step(s, FCmp(cmp, dst, src)); var o := cmp(Bits(s, dst), PlainOf(s, src));
      && r.Next? && r.seen == [] && r.s.regs == s.regs
      && (Holds(r.s.rf, 5) <==> o == Greater)
      && (Holds(r.s.rf, 10) <==> o == Unordered)
      && (Holds(r.s.rf, 3) && !Holds(r.s.rf, 10) <==> o == Less)
      && (Holds(r.s.rf, 0) && !Holds(r.s.rf, 10) <==> o == Equal)
      && !r.s.rf.n && !r.s.rf.v && (o == Unordered ==> r.s.rf.c && r.s.rf.z)
      && r.s.rf == s.rf.(c := r.s.rf.c, n := r.s.rf.n, v := r.s.rf.v, p := r.s.rf.p, z := r.s.rf.z)
  {
    hide ReadBits;
  }

  /** Trap entry raises privilege and masks interrupts around the RF word it saves, and IRET puts
      exactly that word back. */
  lemma TrapAndReturn(s: State, saved: Word)
    requires |s.regs| == 16
    ensures Step(s, TrapEntry)
         == Next(s.(rf := s.rf.(privilege := true, interruptEnabled := false)), [Frame(Encode(s.rf))])
    ensures var r := Step(s, Iret(saved));
      if s.rf.privilege then r.Next? && r.seen == [] && Encode(r.s.rf) == saved && r.s.regs == s.regs else r == Stop(4)
  {
    hide Encode, Decode;
    EveryWordIsAnRf(saved);
  }
}
