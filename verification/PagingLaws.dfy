/** Translation read off the words in memory: which words a walk visits, and when the last of them
    lets an access through. Addresses and bits are written out. */
module PagingLaws {
  import opened Words
  import opened Paging
  import opened Footprint
  import Mmu

  /** Pages mapped by a leaf found `level` steps above the last table. */
  function PagesAt(level: nat): (n: nat)
    requires level < 4
    ensures n > 0
  {
    if level == 0 then 1 else if level == 1 then 512 else if level == 2 then 512 * 512 else 512 * 512 * 512
  }

  /** Bit `k` of an entry, for the bits V R W X U. */
  predicate V(pte: Word) { pte % 2 == 1 }
  predicate R(pte: Word) { pte / 2 % 2 == 1 }
  predicate W(pte: Word) { pte / 4 % 2 == 1 }
  predicate X(pte: Word) { pte / 8 % 2 == 1 }
  predicate U(pte: Word) { pte / 16 % 2 == 1 }

  /** The word a walk stops at. */
  ghost function LastWord(m: Flat, satp: Word, va: Word): Word {
    var es := Entries(m, satp, va);
    LoadWord(m, es[|es| - 1])
  }

  /** A leaf at its level: valid, readable if writable, and its page number a multiple of its size. */
  predicate GoodLeaf(pte: Word, level: nat)
    requires level < 4
  {
    V(pte) && (R(pte) || W(pte) || X(pte)) && (W(pte) ==> R(pte)) && (pte / 4096) % PagesAt(level) == 0
  }

  /** R for a load, W for a store, X for a fetch; user mode also needs U. */
  predicate Lets(pte: Word, kind: Access, privilege: bool) {
    && (kind == Read ==> R(pte)) && (kind == Write ==> W(pte)) && (kind == Fetch ==> X(pte))
    && (privilege || U(pte))
  }

  lemma FlagBits(pte: Word)
    ensures Flag(pte, 0) == V(pte) && Flag(pte, 1) == R(pte) && Flag(pte, 2) == W(pte)
    ensures Flag(pte, 3) == X(pte) && Flag(pte, 4) == U(pte)
  {
  }

  lemma AlignedLeaf(pte: Word, level: nat)
    requires level < 4
    ensures Span(level) == 4096 * PagesAt(level)
    ensures PageBase(pte) % Span(level) == 0 <==> (pte / 4096) % PagesAt(level) == 0
  {
    var n, q := PagesAt(level), pte / 4096;
    InSpan(4096 * q, n);
    assert (4096 * q) / 4096 == q;
  }

  /** The last word read decides the walk. */
  lemma {:induction false} LastDecides(m: Flat, table: Word, va: Word, level: nat)
    requires level < 4
    ensures var es := Reads(m, table, va, level); var l := level + 1 - |es|; var pte := LoadWord(m, es[|es| - 1]);
      && !Descends(pte, l)
      && WalkFrom(m, table, va, level) ==
           if V(pte) && (R(pte) || W(pte) || X(pte)) then LeafPage(pte, va, l) else NoPage
    decreases level
  {
    hide LoadWord, EntryAt, Flag, LeafPage, PageBase, V, R, W, X;
    WalkUnfolds(m, table, va, level);
    var pte := LoadWord(m, EntryAt(table, va, level));
    FlagBits(pte);
    if Descends(pte, level) {
      LastDecides(m, PageBase(pte), va, level - 1);
      var rest := Reads(m, PageBase(pte), va, level - 1);
      assert Reads(m, table, va, level) == [EntryAt(table, va, level)] + rest;
    }
  }

  /** Under Sv48 an access goes through exactly when the walk ends in a good leaf that lets it
      through; it faults with a mapping present exactly when the leaf is good but does not, and
      with none present otherwise. The address is the leaf's page number and the offset in it. */
  lemma TranslateExactly(m: Flat, satp: Word, va: Word, kind: Access, privilege: bool)
    requires satp % 16 == 1
    ensures var pte, level := LastWord(m, satp, va), 4 - |Entries(m, satp, va)|;
      var good, lets := GoodLeaf(pte, level), Lets(pte, kind, privilege);
      var t := Translate(m, satp, va, kind, privilege);
      && (t.At? <==> good && lets)
      && (t == Fault(true) <==> good && !lets)
      && (t == Fault(false) <==> !good)
      && (t.At? ==> t.pa == 4096 * (pte / 4096) + va % (4096 * PagesAt(level)))
  {
    hide LoadWord, Reads, Flag, Span, PageBase, V, R, W, X, U, WalkFrom;
    var es := Entries(m, satp, va);
    var pte, level := LastWord(m, satp, va), 4 - |es|;
    LastDecides(m, PageBase(satp), va, 3);
    FlagBits(pte);
    AlignedLeaf(pte, level);
    if GoodLeaf(pte, level) {
      LeafLands(pte, va, level);
    }
  }

  lemma LeafLands(pte: Word, va: Word, level: nat)
    requires level < 4 && GoodLeaf(pte, level)
    ensures var p := LeafPage(pte, va, level);
      p.Page? && Wrap(p.base + va % 4096) == 4096 * (pte / 4096) + va % (4096 * PagesAt(level))
  {
    hide Flag, Span, V, R, W, X, U;
    FlagBits(pte);
    AlignedLeaf(pte, level);
    LeafInRange(PageBase(pte), va, level);
  }

  /** Sv48 is on exactly for MODE 1; otherwise addresses pass through. */
  lemma BareIsIdentity(m: Flat, satp: Word, va: Word, kind: Access, privilege: bool)
    requires satp % 16 != 1
    ensures Translate(m, satp, va, kind, privilege) == At(va)
  {
  }

  /** The n-th 9-bit index of an address, from the top: VA[47:39], VA[38:30], VA[29:21], VA[20:12]. */
  function Index(va: Word, n: nat): nat
    requires n < 4
  {
    var reach :=
      if n == 0 then 0x80_0000_0000 else if n == 1 then 0x4000_0000 else if n == 2 then 0x20_0000 else 0x1000;
    va / reach % 512
  }

  lemma EntryAddress(table: Word, va: Word, level: nat)
    requires level < 4 && table % 4096 == 0
    ensures EntryAt(table, va, level) == table + 8 * Index(va, 3 - level)
  {
    var i := Slot(va, level);
    assert i == Index(va, 3 - level);
    hide Slot, Index;
    RoomAbove(table, 4096, 0x10_0000_0000_0000);
  }

  /** From a table pointer to the entry it leads to: valid, no permission bits, next index. */
  ghost predicate StepsTo(m: Flat, e: Word, next: Word, index: nat) {
    var pte := LoadWord(m, e);
    V(pte) && !R(pte) && !W(pte) && !X(pte) && next == 4096 * (pte / 4096) + 8 * index
  }

  lemma {:induction false} ReadsAreIndexed(m: Flat, table: Word, va: Word, level: nat)
    requires level < 4 && table % 4096 == 0
    ensures var es := Reads(m, table, va, level);
      && es[0] == table + 8 * Index(va, 3 - level)
      && forall n :: 0 <= n < |es| - 1 ==> StepsTo(m, es[n], es[n + 1], Index(va, 3 - level + n + 1))
    decreases level
  {
    hide LoadWord, EntryAt, Flag, Index, V, R, W, X;
    EntryAddress(table, va, level);
    var pte := LoadWord(m, EntryAt(table, va, level));
    FlagBits(pte);
    var es := Reads(m, table, va, level);
    if Descends(pte, level) {
      BaseAligned(pte);
      ReadsAreIndexed(m, PageBase(pte), va, level - 1);
      var rest := Reads(m, PageBase(pte), va, level - 1);
      assert es == [EntryAt(table, va, level)] + rest;
      forall n | 0 <= n < |es| - 1
        ensures StepsTo(m, es[n], es[n + 1], Index(va, 3 - level + n + 1))
      {
        if n > 0 {
          assert StepsTo(m, rest[n - 1], rest[n - 1 + 1], Index(va, 3 - (level - 1) + (n - 1) + 1));
        }
      }
    }
  }

  /** The walk starts at SATP's page number and steps from table to table by the address's 9-bit
      indices, through valid entries with no permission bits. */
  lemma WalkVisits(m: Flat, satp: Word, va: Word)
    ensures var es := Entries(m, satp, va);
      && 1 <= |es| <= 4 && es[0] == 4096 * (satp / 4096) + 8 * Index(va, 0)
      && forall n :: 0 <= n < |es| - 1 ==> StepsTo(m, es[n], es[n + 1], Index(va, n + 1))
  {
    hide LoadWord, Reads, Index, StepsTo;
    BaseAligned(satp);
    ReadsAreIndexed(m, PageBase(satp), va, 3);
    var es := Entries(m, satp, va);
    forall n | 0 <= n < |es| - 1
      ensures StepsTo(m, es[n], es[n + 1], Index(va, n + 1))
    {
      assert StepsTo(m, es[n], es[n + 1], Index(va, 3 - 3 + n + 1));
    }
  }

  // ---- the fault and control registers --------------------------------------------------------------------

  /** CR2: bit 0 present, bits 2:1 fetch 0, load 1, store 2, bit 3 user, the rest zero. */
  lemma FaultWordLayout(present: bool, kind: Access, privilege: bool)
    ensures var x := Mmu.FaultWord(present, kind, privilege);
      && x < 16 && (x % 2 == 1 <==> present) && (x / 8 == 1 <==> !privilege)
      && (x / 2 % 4 == 0 <==> kind == Fetch) && (x / 2 % 4 == 1 <==> kind == Read)
      && (x / 2 % 4 == 2 <==> kind == Write)
  {
  }

  /** A CR0 write keeps MODE and the page number and clears the reserved bits 11:4. */
  lemma SatpLayout(value: Word)
    ensures var x := Mmu.SatpOf(value);
      x % 16 == value % 16 && x / 4096 == value / 4096 && x / 16 % 256 == 0
  {
    var v: int := value;
    var t, low := v / 16, v % 16;
    var q, r := t / 256, t % 256;
    DivModUnique(v, 4096, q, 16 * r + low);
    var x := 16 * (256 * q) + low;
    DivModUnique(x, 16, 256 * q, low);
    DivModUnique(x, 4096, q, low);
    DivModUnique(256 * q, 256, q, 0);
  }

  // ---- over runs ---------------------------------------------------------------------------------------------

  /** A run cut in two: the discipline, the answers and the states on either side. */
  lemma {:induction false} RunSplits(p: Mmu.Plain, xs: seq<Mmu.Event>, ys: seq<Mmu.Event>)
    requires Mmu.Disciplined(p, xs + ys)
    ensures Mmu.Disciplined(p, xs) && Mmu.Disciplined(Mmu.AfterAll(p, xs), ys)
    ensures Mmu.Answers(p, xs + ys) == Mmu.Answers(p, xs) + Mmu.Answers(Mmu.AfterAll(p, xs), ys)
    decreases |xs|
  {
    hide Mmu.After, Mmu.Allowed, Mmu.AnswerOf;
    if xs == [] {
      assert xs + ys == ys;
    } else {
      assert (xs + ys)[0] == xs[0] && (xs + ys)[1..] == xs[1..] + ys;
      var q := Mmu.After(p, xs[0]);
      RunSplits(q, xs[1..], ys);
    }
  }

  /** In any disciplined run, whatever the caches held, a user-mode access is answered with an
      address only if the leaf its walk ends in at that moment has U set and the kind's bit set. */
  lemma UserNeedsU(p: Mmu.Plain, xs: seq<Mmu.Event>, va: Word, kind: Access, ys: seq<Mmu.Event>)
    requires Mmu.Disciplined(p, xs + [Mmu.Access(va, kind, false)] + ys)
    ensures Mmu.Disciplined(p, xs)
    ensures var q := Mmu.AfterAll(p, xs); var k := |Mmu.Answers(p, xs)|;
      var answers := Mmu.Answers(p, xs + [Mmu.Access(va, kind, false)] + ys);
      && k < |answers|
      && (q.cr0 % 16 == 1 && answers[k].At? ==>
            var pte := LastWord(q.mem, q.cr0, va);
            U(pte) && (kind == Read ==> R(pte)) && (kind == Write ==> W(pte)) && (kind == Fetch ==> X(pte)))
  {
    hide Mmu.After, Mmu.Allowed, Translate, LastWord, U, R, W, X, GoodLeaf;
    var e := Mmu.Access(va, kind, false);
    assert xs + [e] + ys == xs + ([e] + ys);
    RunSplits(p, xs, [e] + ys);
    var q := Mmu.AfterAll(p, xs);
    assert ([e] + ys)[0] == e;
    if q.cr0 % 16 == 1 {
      TranslateExactly(q.mem, q.cr0, va, kind, false);
    }
  }

  /** A CR0 write takes effect at the next access: tables, or none, as the value written says. */
  lemma NewSpace(p: Mmu.Plain, value: Word, satp: Word, va: Word, kind: Access, privilege: bool)
    requires satp % 16 == value % 16 && satp / 4096 == value / 4096 && satp / 16 % 256 == 0
    requires Mmu.Disciplined(p, [Mmu.WriteCr(0, value), Mmu.Access(va, kind, privilege)])
    ensures Mmu.Answers(p, [Mmu.WriteCr(0, value), Mmu.Access(va, kind, privilege)])
      == [Translate(p.mem, satp, va, kind, privilege)]
  {
    hide Translate;
    var w, a := Mmu.WriteCr(0, value), Mmu.Access(va, kind, privilege);
    SatpLayout(value);
    assert satp == Mmu.SatpOf(value) by { OneSatp(satp, Mmu.SatpOf(value)); }
    assert [w, a][1..] == [a] && [a][1..] == [];
    var q := Mmu.After(p, w);
    assert Mmu.Answers(q, [a]) == Mmu.AnswerOf(q, a) + [];
  }

  lemma OneSatp(x: Word, y: Word)
    requires x % 16 == y % 16 && x / 4096 == y / 4096 && x / 16 % 256 == y / 16 % 256
    ensures x == y
  {
    DivOfDiv(x, 16, 256);
    DivOfDiv(y, 16, 256);
  }
}
