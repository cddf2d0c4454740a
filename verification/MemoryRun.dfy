/** Whole runs of guest memory accesses, against the flat memory. */
module MemoryRun {
  import opened Words
  import opened Memory

  datatype Access =
    | LoadByte(a: Word)
    /** `count` bytes into bytes `dst` and up of a register. */
    | LoadReg(a: Word, reg: Word, count: nat, dst: nat)
    | LoadBulk(a: Word, count: nat)
    | SaveByte(a: Word, v: Byte)
    /** The low `count` bytes of a register. */
    | SaveReg(a: Word, reg: Word, count: nat)
    | SaveBulk(a: Word, bytes: seq<Byte>)

  predicate Formed(x: Access) {
    match x
    case LoadReg(_, _, count, dst) => dst + count <= 8
    case LoadBulk(_, count) => count < SPACE
    case SaveReg(_, _, count) => count <= 8
    case SaveBulk(_, bytes) => |bytes| < SPACE
    case _ => true
  }

  ghost function After(m: Flat, x: Access): Flat
    requires Formed(x)
  {
    match x
    case SaveByte(a, v) => Store(m, a, [v])
    case SaveReg(a, v, count) => Store(m, a, ToBytes(v, count))
    case SaveBulk(a, bytes) => Store(m, a, bytes)
    case _ => m
  }

  /** The bytes an access gives back. */
  ghost function Given(m: Flat, x: Access): seq<Byte>
    requires Formed(x)
  {
    match x
    case LoadByte(a) => Load(m, a, 1)
    case LoadReg(a, reg, count, dst) => Splice(ToBytes(reg, 8), dst, Load(m, a, count))
    case LoadBulk(a, count) => Load(m, a, count)
    case _ => []
  }

  ghost predicate AllFormed(xs: seq<Access>) {
    forall i :: 0 <= i < |xs| ==> Formed(xs[i])
  }

  ghost function AfterAll(m: Flat, xs: seq<Access>): Flat
    requires AllFormed(xs)
    decreases |xs|
  {
    if xs == [] then m else AfterAll(After(m, xs[0]), xs[1..])
  }

  ghost function AllGiven(m: Flat, xs: seq<Access>): (r: seq<seq<Byte>>)
    requires AllFormed(xs)
    ensures |r| == |xs|
    decreases |xs|
  {
    if xs == [] then [] else [Given(m, xs[0])] + AllGiven(After(m, xs[0]), xs[1..])
  }

  // ---- the last writer -------------------------------------------------------------------------------------

  /** How many bytes a store writes. */
  function Reach(x: Access): nat {
    match x
    case SaveByte(_, _) => 1
    case SaveReg(_, _, count) => count
    case SaveBulk(_, bytes) => |bytes|
    case _ => 0
  }

  /** The k-th byte of a store, registers low byte first. */
  function ByteOf(x: Access, k: nat): Byte
    requires k < Reach(x)
  {
    match x
    case SaveByte(_, v) => v
    case SaveReg(_, reg, _) => reg / Pow256(k) % 256
    case SaveBulk(_, bytes) => bytes[k]
  }

  lemma OneStore(m: Flat, x: Access, a: Word)
    requires Formed(x)
    ensures After(m, x)[a] == if Wrap(a - x.a) < Reach(x) then ByteOf(x, Wrap(a - x.a)) else m[a]
  {
    hide Wrap;
    if x.SaveReg? && Wrap(a - x.a) < x.count {
      ToBytesAt(x.reg, x.count, Wrap(a - x.a));
    }
  }

  /** The last of a sequence of accesses to store at `a`, or none. */
  function LastTo(xs: seq<Access>, a: Word): (i: int)
    ensures -1 <= i < |xs| && (i >= 0 ==> Wrap(a - xs[i].a) < Reach(xs[i]))
    ensures forall j :: i < j < |xs| ==> Wrap(a - xs[j].a) >= Reach(xs[j])
  {
    if xs == [] then -1
    else if Wrap(a - xs[|xs| - 1].a) < Reach(xs[|xs| - 1]) then |xs| - 1
    else LastTo(xs[..|xs| - 1], a)
  }

  lemma {:induction false} AfterLast(m: Flat, xs: seq<Access>)
    requires AllFormed(xs) && xs != []
    ensures AfterAll(m, xs) == After(AfterAll(m, xs[..|xs| - 1]), xs[|xs| - 1])
    decreases |xs|
  {
    hide After, Formed;
    var n := |xs| - 1;
    if n > 0 {
      AfterLast(After(m, xs[0]), xs[1..]);
      assert xs[1..][..n - 1] == xs[..n][1..] && xs[..n][0] == xs[0];
    } else {
      assert xs[..0] == [] && xs[1..] == [];
    }
  }

  /** After any run each byte is the one its last writer put there, or was there before. */
  lemma {:induction false} LastWriterWins(m: Flat, xs: seq<Access>, a: Word)
    requires AllFormed(xs)
    ensures var i := LastTo(xs, a); AfterAll(m, xs)[a] == if i < 0 then m[a] else ByteOf(xs[i], Wrap(a - xs[i].a))
    decreases |xs|
  {
    hide After, Formed, Reach, ByteOf, Wrap;
    if xs != [] {
      var n := |xs| - 1;
      LastWriterWins(m, xs[..n], a);
      AfterLast(m, xs);
      OneStore(AfterAll(m, xs[..n]), xs[n], a);
    }
  }

  /** Loads give the bytes in memory, in address order; a register load keeps its other bytes. */
  lemma LoadsSee(m: Flat, x: Access, k: nat)
    requires Formed(x)
    ensures x.LoadByte? ==> Given(m, x) == [m[x.a]]
    ensures x.LoadBulk? && k < x.count ==> |Given(m, x)| == x.count && Given(m, x)[k] == m[Wrap(x.a + k)]
    ensures x.LoadReg? && k < 8 ==>
      && |Given(m, x)| == 8
      && Given(m, x)[k] == if x.dst <= k < x.dst + x.count then m[Wrap(x.a + (k - x.dst))] else x.reg / Pow256(k) % 256
  {
    hide ToBytes, Splice;
    if x.LoadReg? && k < 8 {
      ToBytesAt(x.reg, 8, k);
      SpliceAt(ToBytes(x.reg, 8), x.dst, Load(m, x.a, x.count), k);
    }
  }

  method Perform(mm: MemoryModule, x: Access) returns (bytes: seq<Byte>)
    requires mm.Valid() && Formed(x)
    modifies mm
    ensures mm.Valid() && mm.Contents() == After(old(mm.Contents()), x)
    ensures bytes == Given(old(mm.Contents()), x)
  {
    hide FlatOf, Owned, Store, BaseOf;
    bytes := [];
    match x
    case LoadByte(a) =>
      var b := mm.ReadByte(a);
      bytes := [b];
    case LoadReg(a, reg, count, dst) =>
      var r := mm.ReadIntoReg(a, reg, count, dst);
      bytes := ToBytes(r, 8);
    case LoadBulk(a, count) =>
      bytes := mm.ReadInto(a, count);
    case SaveByte(a, v) =>
      var n := mm.WriteByte(a, v);
    case SaveReg(a, v, count) =>
      var n := mm.WriteBytes(a, v, count);
    case SaveBulk(a, data) =>
      mm.WriteFrom(a, data);
  }

  /** Any mix of accesses, in any order, from any state: the same answers and the same memory as
      the flat map. */
  method Serve(mm: MemoryModule, xs: seq<Access>) returns (answers: seq<seq<Byte>>)
    requires mm.Valid() && AllFormed(xs)
    modifies mm
    ensures mm.Valid() && mm.Contents() == AfterAll(old(mm.Contents()), xs)
    ensures answers == AllGiven(old(mm.Contents()), xs)
  {
    hide FlatOf, After, Given, Formed;
    answers := [];
    ghost var m := mm.Contents();
    assert xs[0..] == xs;
    for n := 0 to |xs|
      invariant mm.Valid()
      invariant AfterAll(m, xs) == AfterAll(mm.Contents(), xs[n..])
      invariant AllGiven(m, xs) == answers + AllGiven(mm.Contents(), xs[n..])
    {
      assert xs[n..][0] == xs[n] && xs[n..][1..] == xs[n + 1..];
      ghost var rest := AllGiven(After(mm.Contents(), xs[n]), xs[n + 1..]);
      var bytes := Perform(mm, xs[n]);
      assert answers + ([bytes] + rest) == answers + [bytes] + rest;
      answers := answers + [bytes];
    }
  }
}
