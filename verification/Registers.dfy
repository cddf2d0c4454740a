/** The register file: sixteen operand-addressable registers, their subregisters, and the
    flags register RF with its five privileged bits. */
module Registers {
  import opened Words
  import opened Alu
  import opened Memory
  import opened AluProofs

  // ---- the flags register -------------------------------------------------------------------

  type Unnamed = x: int | 0 <= x < 0x800_0000

  /** RF: bits 0..4 are C N V P Z, bits 32..36 the privileged ones; 5..31 and 37..63 have no
      meaning to the machine but are storage. */
  datatype Rf = Rf(
    c: bool, n: bool, v: bool, p: bool, z: bool, middle: Unnamed,
    privilege: bool, interruptEnabled: bool, interruptSet: bool, running: bool, syscallGuest: bool, top: Unnamed)

  function B(b: bool): nat { if b then 1 else 0 }

  /** Five bits below a 27-bit field. */
  function Pack(b0: bool, b1: bool, b2: bool, b3: bool, b4: bool, rest: Unnamed): (r: nat)
    ensures r < 0x1_0000_0000
  {
    B(b0) + 2 * (B(b1) + 2 * (B(b2) + 2 * (B(b3) + 2 * (B(b4) + 2 * rest))))
  }

  /** RF as the 64-bit word it is. */
  function Encode(f: Rf): Word {
    Pack(f.c, f.n, f.v, f.p, f.z, f.middle)
    + 0x1_0000_0000
      * Pack(f.privilege, f.interruptEnabled, f.interruptSet, f.running, f.syscallGuest, f.top)
  }

  function Decode(x: Word): Rf {
    var l0, h0 := x % 0x1_0000_0000, x / 0x1_0000_0000;
    var l1, h1 := l0 / 2, h0 / 2;
    var l2, h2 := l1 / 2, h1 / 2;
    var l3, h3 := l2 / 2, h2 / 2;
    var l4, h4 := l3 / 2, h3 / 2;
    Rf(l0 % 2 == 1, l1 % 2 == 1, l2 % 2 == 1, l3 % 2 == 1, l4 % 2 == 1, l4 / 2,
       h0 % 2 == 1, h1 % 2 == 1, h2 % 2 == 1, h3 % 2 == 1, h4 % 2 == 1, h4 / 2)
  }

  lemma RfRoundTrip(f: Rf)
    ensures Decode(Encode(f)) == f
  {
    hide Pack;
    var lo := Pack(f.c, f.n, f.v, f.p, f.z, f.middle);
    var hi := Pack(f.privilege, f.interruptEnabled, f.interruptSet, f.running, f.syscallGuest, f.top);
    Halves(lo, hi);
    UnpackPack(f.c, f.n, f.v, f.p, f.z, f.middle);
    UnpackPack(f.privilege, f.interruptEnabled, f.interruptSet, f.running, f.syscallGuest, f.top);
  }

  lemma Halves(lo: nat, hi: nat)
    requires lo < 0x1_0000_0000
    ensures (lo + 0x1_0000_0000 * hi) % 0x1_0000_0000 == lo && (lo + 0x1_0000_0000 * hi) / 0x1_0000_0000 == hi
  {
  }

  lemma UnpackPack(b0: bool, b1: bool, b2: bool, b3: bool, b4: bool, rest: Unnamed)
    ensures var x0 := Pack(b0, b1, b2, b3, b4, rest); var x1 := x0 / 2; var x2 := x1 / 2;
      var x3 := x2 / 2; var x4 := x3 / 2;
      && (x0 % 2 == 1) == b0 && (x1 % 2 == 1) == b1 && (x2 % 2 == 1) == b2
      && (x3 % 2 == 1) == b3 && (x4 % 2 == 1) == b4 && x4 / 2 == rest
  {
    var y4 := B(b4) + 2 * rest;
    var y3 := B(b3) + 2 * y4;
    var y2 := B(b2) + 2 * y3;
    var y1 := B(b1) + 2 * y2;
    assert Pack(b0, b1, b2, b3, b4, rest) / 2 == y1;
    assert y1 / 2 == y2 && y2 / 2 == y3 && y3 / 2 == y4 && y4 / 2 == rest;
  }

  /** The record is a faithful view: every 64-bit word is some RF. */
  lemma EveryWordIsAnRf(x: Word)
    ensures Encode(Decode(x)) == x
  {
    PackUnpack(x % 0x1_0000_0000);
    PackUnpack(x / 0x1_0000_0000);
    hide Pack;
  }

  lemma PackUnpack(x0: nat)
    requires x0 < 0x1_0000_0000
    ensures var x1 := x0 / 2; var x2 := x1 / 2; var x3 := x2 / 2; var x4 := x3 / 2;
      Pack(x0 % 2 == 1, x1 % 2 == 1, x2 % 2 == 1, x3 % 2 == 1, x4 % 2 == 1, x4 / 2) == x0
  {
  }

  // ---- subregisters -----------------------------------------------------------------------------

  /** b0..b7, q0..q3, h0, h1, w0, in the encoding's order. */
  type Subreg = s: int | 0 <= s < 15

  function SizeOf(s: Subreg): (n: nat)
    ensures Width(n)
  {
    if s < 8 then 1 else if s < 12 then 2 else if s < 14 then 4 else 8
  }

  /** First byte of the field within the register. */
  function IndexOf(s: Subreg): (i: nat)
    ensures i + SizeOf(s) <= 8
  {
    if s < 8 then s else if s < 12 then 2 * (s - 8) else if s < 14 then 4 * (s - 12) else 0
  }

  /** The field's value, zero-extended. */
  function ReadBits(x: Word, s: Subreg): (v: nat)
    ensures v < Size(SizeOf(s))
  {
    var bs := ToBytes(x, 8)[IndexOf(s)..IndexOf(s) + SizeOf(s)];
    FromBytesBound(bs);
    Pow256OfWidth(SizeOf(s));
    FromBytes(bs)
  }

  /** The field replaced by the low bytes of `bits`, the rest of the register kept. */
  function WriteBits(x: Word, s: Subreg, bits: nat): Word {
    var bs := Splice(ToBytes(x, 8), IndexOf(s), ToBytes(bits, SizeOf(s)));
    FromBytesBound(bs);
    Pow256Of8();
    FromBytes(bs)
  }

  lemma Pow256OfWidth(w: nat)
    requires Width(w)
    ensures Pow256(w) == Size(w)
  {
    Pow256Of8();
  }

  /** Where the sign-bit table puts a subregister's sign bit: at its place in the whole
      register, not in the field. */
  function SignBitOf(s: Subreg): nat {
    8 * (IndexOf(s) + SizeOf(s)) - 1
  }

  /** The field's value with the table's sign bit tested after the field is moved down; when
      it is set, every bit above the field's width is filled. */
  function ReadSigned(x: Word, s: Subreg): Word {
    var v := ReadBits(x, s);
    if Bit(v, SignBitOf(s)) then v + (SPACE - Size(SizeOf(s))) else v
  }

  /** Two's complement widening of the field to a word. */
  function SignExtended(x: Word, s: Subreg): Word {
    var v := ReadBits(x, s);
    if Top(v, SizeOf(s)) then v + (SPACE - Size(SizeOf(s))) else v
  }

  lemma BitAbove(v: nat, w: nat, k: nat)
    requires Width(w) && v < Size(w) && k >= 8 * w
    ensures !Bit(v, k)
  {
    RightAll(v, k, w);
  }

  /** ReadSigned sign-extends from b0, q0, h0 and w0, and from any field whose top bit is
      clear; from every other field it zero-extends. */
  lemma ReadSignedExact(x: Word, s: Subreg)
    ensures ReadSigned(x, s) == SignExtended(x, s) <==> IndexOf(s) == 0 || !Top(ReadBits(x, s), SizeOf(s))
    ensures IndexOf(s) != 0 ==> ReadSigned(x, s) == ReadBits(x, s)
  {
    hide Size, ReadBits;
    var v, w := ReadBits(x, s), SizeOf(s);
    if IndexOf(s) == 0 {
      TopIsBit(v, w);
    } else {
      BitAbove(v, w, SignBitOf(s));
      SizeBelowSpace(s);
    }
  }

  lemma SizeBelowSpace(s: Subreg)
    requires IndexOf(s) != 0
    ensures Size(SizeOf(s)) < SPACE
  {
  }

  /** The smallest failure: 0x80 in b1 reads back as 0x80, not as a negative word. */
  lemma ReadSignedFailsOnB1()
    ensures ReadSigned(0x8000, 1) != SignExtended(0x8000, 1)
  {
    ReadSignedExact(0x8000, 1);
    hide ToBytes, ReadSigned;
    assert ToBytes(0x8000, 8)[1..2] == [0x80] by {
      ToBytesAt(0x8000, 8, 1);
      assert Pow256(1) == 256;
    }
    assert FromBytes([0x80]) == 0x80;
  }

  // ---- writing a field --------------------------------------------------------------------------

  lemma WriteBitsBytes(x: Word, s: Subreg, bits: nat)
    ensures ToBytes(WriteBits(x, s, bits), 8) == Splice(ToBytes(x, 8), IndexOf(s), ToBytes(bits, SizeOf(s)))
  {
    ToBytesOfFromBytes(Splice(ToBytes(x, 8), IndexOf(s), ToBytes(bits, SizeOf(s))));
  }

  lemma SpliceSlices(xs: seq<Byte>, i: nat, ys: seq<Byte>, j: nat, n: nat)
    requires i + |ys| <= |xs| && j + n <= |xs|
    ensures Splice(xs, i, ys)[i..i + |ys|] == ys
    ensures j + n <= i || i + |ys| <= j ==> Splice(xs, i, ys)[j..j + n] == xs[j..j + n]
  {
    var r := Splice(xs, i, ys);
    assert r[i..i + |ys|] == ys;
    if j + n <= i || i + |ys| <= j {
      var a, b := r[j..j + n], xs[j..j + n];
      forall k | 0 <= k < n
        ensures a[k] == b[k]
      {
        assert r[j + k] == xs[j + k];
      }
    }
  }

  /** A written field reads back as the value cut to its width, and every field that does not
      overlap it keeps its value. */
  lemma WriteThenRead(x: Word, s: Subreg, bits: nat, t: Subreg)
    ensures ReadBits(WriteBits(x, s, bits), s) == Trunc(bits, SizeOf(s))
    ensures IndexOf(t) + SizeOf(t) <= IndexOf(s) || IndexOf(s) + SizeOf(s) <= IndexOf(t) ==>
      ReadBits(WriteBits(x, s, bits), t) == ReadBits(x, t)
  {
    hide Size, WriteBits, IndexOf, SizeOf, Splice, ToBytes, FromBytes;
    WriteBitsBytes(x, s, bits);
    BytesRoundTrip(bits, SizeOf(s));
    Pow256OfWidth(SizeOf(s));
    SpliceSlices(ToBytes(x, 8), IndexOf(s), ToBytes(bits, SizeOf(s)), IndexOf(t), SizeOf(t));
  }
}
