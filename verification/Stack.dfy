/** PUSHALL and POPALL against the thirteen PUSHes and POPs they replace, in Bare mode. */
module Stack {
  import opened Words
  import opened Core
  import opened Traps

  /** R0..R9, RT, RV, RB: ascending from the stack pointer after PUSHALL. */
  const CONTEXT: seq<RegIndex> := [0, 1, 2, 3, 4, 5, 6, 7, 8, 9, 10, 11, 13]

  ghost predicate Plain(r: RegIndex) {
    r != RF && r != PC && r != SP
  }

  lemma ContextIsPlain()
    ensures |CONTEXT| == 13 && forall r :: r in CONTEXT ==> Plain(r)
    ensures forall i, j :: 0 <= i < j < 13 ==> CONTEXT[i] != CONTEXT[j]
  {
  }

  function Bytes(ws: seq<Word>): (bs: seq<Byte>)
    ensures |bs| == 8 * |ws|
  {
    if ws == [] then [] else ToBytes(ws[0], 8) + Bytes(ws[1..])
  }

  function Values(s: State, rs: seq<RegIndex>): (ws: seq<Word>)
    requires |s.regs| == 16
    ensures |ws| == |rs|
  {
    if rs == [] then [] else [s.regs[rs[0]]] + Values(s, rs[1..])
  }

  // ---- single instructions -----------------------------------------------------------------------

  ghost function Push(m: Machine, r: RegIndex): (m': Machine)
    requires |m.s.regs| == 16 && Plain(r)
    ensures |m'.s.regs| == 16
  {
    var sp := Wrap(Sp(m) - 8);
    m.(s := m.s.(regs := m.s.regs[SP := sp]), mem := StoreWord(m.mem, sp, m.s.regs[r]))
  }

  ghost function Pop(m: Machine, r: RegIndex): (m': Machine)
    requires |m.s.regs| == 16 && Plain(r)
    ensures |m'.s.regs| == 16
  {
    m.(s := m.s.(regs := m.s.regs[r := LoadWord(m.mem, Sp(m))][SP := Wrap(Sp(m) + 8)]))
  }

  /** PUSH the registers of `rs` from the last to the first. */
  ghost function Pushes(m: Machine, rs: seq<RegIndex>): (m': Machine)
    requires |m.s.regs| == 16 && forall r :: r in rs ==> Plain(r)
    ensures |m'.s.regs| == 16
  {
    if rs == [] then m else Push(Pushes(m, rs[1..]), rs[0])
  }

  /** POP the registers of `rs` from the first to the last. */
  ghost function Pops(m: Machine, rs: seq<RegIndex>): (m': Machine)
    requires |m.s.regs| == 16 && forall r :: r in rs ==> Plain(r)
    ensures |m'.s.regs| == 16
    decreases |rs|
  {
    if rs == [] then m else Pops(Pop(m, rs[0]), rs[1..])
  }

  // ---- the block instructions --------------------------------------------------------------------

  /** One 104-byte block below the stack pointer; flags and the other registers stay. */
  ghost function PushAll(m: Machine): Machine
    requires |m.s.regs| == 16
  {
    var base := Wrap(Sp(m) - 104);
    m.(s := m.s.(regs := m.s.regs[SP := base]), mem := Store(m.mem, base, Bytes(Values(m.s, CONTEXT))))
  }

  /** The words from `a` up. */
  ghost function WordsAt(mem: Flat, a: Word, n: nat): (ws: seq<Word>)
    ensures |ws| == n
    decreases n
  {
    if n == 0 then [] else [LoadWord(mem, a)] + WordsAt(mem, Wrap(a + 8), n - 1)
  }

  function Assign(regs: seq<Word>, rs: seq<RegIndex>, ws: seq<Word>): (r: seq<Word>)
    requires |regs| == 16 && |rs| == |ws|
    ensures |r| == 16
    decreases |rs|
  {
    if rs == [] then regs else Assign(regs[rs[0] := ws[0]], rs[1..], ws[1..])
  }

  ghost function PopAll(m: Machine): Machine
    requires |m.s.regs| == 16
  {
    var ws := WordsAt(m.mem, Sp(m), 13);
    m.(s := m.s.(regs := Assign(m.s.regs, CONTEXT, ws)[SP := Wrap(Sp(m) + 104)]))
  }

  lemma OneDown(sp: Word, n: nat)
    requires 0 < n && 8 * n < SPACE
    ensures var base: int, up: int := Wrap(sp - 8 * n), Wrap(sp - 8 * (n - 1));
      up == Wrap(base + 8) && base == Wrap(up - 8)
  {
  }

  // ---- PUSHALL is thirteen PUSHes ------------------------------------------------------------------

  lemma {:induction false} PushesAre(m: Machine, rs: seq<RegIndex>)
    requires |m.s.regs| == 16 && (forall r :: r in rs ==> Plain(r)) && 8 * |rs| < SPACE
    ensures var base := Wrap(Sp(m) - 8 * |rs|);
      Pushes(m, rs) == m.(s := m.s.(regs := m.s.regs[SP := base]), mem := Store(m.mem, base, Bytes(Values(m.s, rs))))
  {
    if rs == [] {
      StoreNothing(m.mem, Sp(m));
      assert m.s.regs[SP := Sp(m)] == m.s.regs;
    } else {
      var tail := rs[1..];
      assert Plain(rs[0]) && forall r :: r in tail ==> r in rs;
      PushesAre(m, tail);
      OneDown(Sp(m), |rs|);
      OneMorePush(m, rs[0], Values(m.s, tail), Wrap(Sp(m) - 8 * |rs|), Wrap(Sp(m) - 8 * |tail|));
      hide Store, Wrap, Push, Bytes;
    }
  }

  lemma OneMorePush(m: Machine, r: RegIndex, ws: seq<Word>, base: Word, up: Word)
    requires |m.s.regs| == 16 && Plain(r) && |Bytes(ws)| + 8 < SPACE && up == Wrap(base + 8) && base == Wrap(up - 8)
    ensures Push(m.(s := m.s.(regs := m.s.regs[SP := up]), mem := Store(m.mem, up, Bytes(ws))), r)
      == m.(s := m.s.(regs := m.s.regs[SP := base]), mem := Store(m.mem, base, Bytes([m.s.regs[r]] + ws)))
  {
    hide Store, ToBytes, Wrap, Bytes;
    FirstStored(m.mem, base, m.s.regs[r], ws, up);
    assert m.s.regs[SP := up][SP := base] == m.s.regs[SP := base];
  }

  lemma FirstStored(mem: Flat, base: Word, w: Word, ws: seq<Word>, up: Word)
    requires |Bytes(ws)| + 8 < SPACE && up == Wrap(base + 8)
    ensures StoreWord(Store(mem, up, Bytes(ws)), base, w) == Store(mem, base, Bytes([w] + ws))
  {
    hide Store, ToBytes;
    StorePrepend(mem, base, ToBytes(w, 8), Bytes(ws));
    assert ([w] + ws)[1..] == ws;
  }

  /** For every stack pointer, wrapping ones included: the same memory, registers and flags. */
  lemma PushAllIsPushes(m: Machine)
    requires |m.s.regs| == 16
    ensures forall r :: r in CONTEXT ==> Plain(r)
    ensures PushAll(m) == Pushes(m, CONTEXT)
  {
    hide Store, Bytes, Values, Pushes, Wrap;
    ContextIsPlain();
    PushesAre(m, CONTEXT);
  }

  // ---- POPALL is thirteen POPs -------------------------------------------------------------------

  lemma {:induction false} PopsAre(m: Machine, rs: seq<RegIndex>)
    requires |m.s.regs| == 16 && (forall r :: r in rs ==> Plain(r)) && 8 * |rs| < SPACE
    ensures Pops(m, rs) == m.(s := m.s.(regs :=
      Assign(m.s.regs, rs, WordsAt(m.mem, Sp(m), |rs|))[SP := Wrap(Sp(m) + 8 * |rs|)]))
    decreases |rs|
  {
    if rs == [] {
      assert m.s.regs[SP := Sp(m)] == m.s.regs;
    } else {
      hide LoadWord, Wrap;
      assert Plain(rs[0]);
      var m1, sp1 := Pop(m, rs[0]), Wrap(Sp(m) + 8);
      PopsAre(m1, rs[1..]);
      var w, ws := LoadWord(m.mem, Sp(m)), WordsAt(m.mem, sp1, |rs| - 1);
      assert WordsAt(m.mem, Sp(m), |rs|)[1..] == ws;
      AssignKeepsSp(m.s.regs[rs[0] := w], rs[1..], ws, sp1, Wrap(Sp(m) + 8 * |rs|));
      WrapTwice(Sp(m), |rs[1..]|);
      assert 8 * |rs[1..]| + 8 == 8 * |rs|;
    }
  }

  lemma WrapTwice(a: Word, n: nat)
    requires 8 * n + 8 < SPACE
    ensures Wrap(Wrap(a + 8) + 8 * n) == Wrap(a + (8 * n + 8))
  {
  }

  lemma {:induction false} AssignKeepsSp(regs: seq<Word>, rs: seq<RegIndex>, ws: seq<Word>, a: Word, b: Word)
    requires |regs| == 16 && |rs| == |ws| && forall r :: r in rs ==> Plain(r)
    ensures Assign(regs[SP := a], rs, ws)[SP := b] == Assign(regs, rs, ws)[SP := b]
    decreases |rs|
  {
    if rs != [] {
      assert Plain(rs[0]);
      assert regs[SP := a][rs[0] := ws[0]] == regs[rs[0] := ws[0]][SP := a];
      AssignKeepsSp(regs[rs[0] := ws[0]], rs[1..], ws[1..], a, b);
    } else {
      assert regs[SP := a][SP := b] == regs[SP := b];
    }
  }

  lemma PopAllIsPops(m: Machine)
    requires |m.s.regs| == 16
    ensures forall r :: r in CONTEXT ==> Plain(r)
    ensures PopAll(m) == Pops(m, CONTEXT)
  {
    hide WordsAt, Assign, Pops, Wrap;
    ContextIsPlain();
    PopsAre(m, CONTEXT);
  }

  // ---- and they undo each other -----------------------------------------------------------------

  lemma {:induction false} WordsOfBytes(mem: Flat, a: Word, ws: seq<Word>)
    requires 8 * |ws| < SPACE
    ensures WordsAt(Store(mem, a, Bytes(ws)), a, |ws|) == ws
    decreases |ws|
  {
    if ws != [] {
      FirstWord(mem, a, ws);
      RestStored(mem, a, ws);
      WordsOfBytes(Store(mem, a, ToBytes(ws[0], 8)), Wrap(a + 8), ws[1..]);
      hide Store, LoadWord, Wrap;
    }
  }

  /** After PUSHALL the words from RS up are R0 to R9, RT, RV and RB, in that order. */
  lemma ContextInOrder(m: Machine)
    requires |m.s.regs| == 16
    ensures var p := PushAll(m); var r := m.s.regs;
      WordsAt(p.mem, Sp(p), 13) == [r[0], r[1], r[2], r[3], r[4], r[5], r[6], r[7], r[8], r[9], r[10], r[11], r[13]]
  {
    hide Store, Bytes, WordsAt, Values;
    WordsOfBytes(m.mem, Wrap(Sp(m) - 104), Values(m.s, CONTEXT));
    ValuesAre(m.s, CONTEXT);
  }

  lemma {:induction false} ValuesAre(s: State, rs: seq<RegIndex>)
    requires |s.regs| == 16
    ensures forall i :: 0 <= i < |rs| ==> Values(s, rs)[i] == s.regs[rs[i]]
  {
    if rs != [] {
      ValuesAre(s, rs[1..]);
    }
  }

  lemma RestStored(mem: Flat, a: Word, ws: seq<Word>)
    requires ws != [] && |Bytes(ws)| < SPACE
    ensures Store(mem, a, Bytes(ws)) == Store(Store(mem, a, ToBytes(ws[0], 8)), Wrap(a + 8), Bytes(ws[1..]))
  {
    hide Store, ToBytes;
    StoreAppend(mem, a, ToBytes(ws[0], 8), Bytes(ws[1..]));
  }

  lemma FirstWord(mem: Flat, a: Word, ws: seq<Word>)
    requires ws != [] && |Bytes(ws)| < SPACE
    ensures LoadWord(Store(mem, a, Bytes(ws)), a) == ws[0]
  {
    hide Store, LoadWord, ToBytes;
    StorePrepend(mem, a, ToBytes(ws[0], 8), Bytes(ws[1..]));
    LoadWordAfterStoreWord(Store(mem, Wrap(a + 8), Bytes(ws[1..])), a, ws[0]);
  }

  lemma {:induction false} AssignOwnValues(s: State, regs: seq<Word>, rs: seq<RegIndex>)
    requires |s.regs| == 16 && |regs| == 16 && forall r :: r in rs ==> Plain(r)
    requires forall r: RegIndex :: r !in rs && r != SP ==> regs[r] == s.regs[r]
    ensures forall r: RegIndex :: r != SP ==> Assign(regs, rs, Values(s, rs))[r] == s.regs[r]
    decreases |rs|
  {
    if rs != [] {
      assert Values(s, rs)[1..] == Values(s, rs[1..]);
      assert forall r :: r in rs[1..] ==> r in rs;
      assert forall r :: r in rs ==> r == rs[0] || r in rs[1..];
      AssignOwnValues(s, regs[rs[0] := s.regs[rs[0]]], rs[1..]);
    }
  }

  /** PUSHALL, anything that overwrites any of the thirteen registers, POPALL: all thirteen and
      the stack pointer are back, and memory is as PUSHALL left it. */
  lemma PopAllUndoesPushAll(m: Machine, regs: seq<Word>)
    requires |m.s.regs| == 16 && |regs| == 16 && regs[SP] == Sp(PushAll(m))
    requires forall r: RegIndex :: r !in CONTEXT && r != SP ==> regs[r] == m.s.regs[r]
    ensures var p := PushAll(m); PopAll(p.(s := p.s.(regs := regs))) == p.(s := m.s)
  {
    hide Store, Bytes, Values, WordsAt, Assign;
    var p := PushAll(m);
    ContextIsPlain();
    WordsOfBytes(m.mem, Wrap(Sp(m) - 104), Values(m.s, CONTEXT));
    AssignOwnValues(m.s, regs, CONTEXT);
    BackUp(Sp(m));
    var back := Assign(regs, CONTEXT, Values(m.s, CONTEXT))[SP := Sp(m)];
    assert back == m.s.regs by { SameRegisters(back, m.s.regs); }
  }

  lemma BackUp(sp: Word)
    ensures var base: int := Wrap(sp - 104); Wrap(base + 104) == sp
  {
  }

  lemma SameRegisters(a: seq<Word>, b: seq<Word>)
    requires |a| == 16 && |b| == 16 && forall r: RegIndex :: a[r] == b[r]
    ensures a == b
  {
    forall i | 0 <= i < 16 ensures a[i] == b[i] {
      var r: RegIndex := i;
    }
  }
}
