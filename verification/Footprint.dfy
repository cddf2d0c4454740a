/** Which words a page-table walk reads, and what a store does to a walk. */
module Footprint {
  import opened Words
  import opened Paging

  ghost function EntryAt(table: Word, va: Word, level: nat): Word
    requires level < 4
  {
    Wrap(table + 8 * Slot(va, level))
  }

  /** A valid entry that points at the next table. */
  predicate Descends(pte: Word, level: nat) {
    Flag(pte, 0) && !Flag(pte, 1) && !Flag(pte, 2) && !Flag(pte, 3) && level > 0
  }

  /** The entries a walk reads, first to last: at most four. */
  ghost function Reads(m: Flat, table: Word, va: Word, level: nat): (es: seq<Word>)
    requires level < 4
    ensures 1 <= |es| <= level + 1
    decreases level
  {
    var e := EntryAt(table, va, level);
    var pte := LoadWord(m, e);
    if Descends(pte, level) then [e] + Reads(m, PageBase(pte), va, level - 1) else [e]
  }

  ghost function Entries(m: Flat, satp: Word, va: Word): seq<Word> {
    Reads(m, PageBase(satp), va, 3)
  }

  lemma WordKept(mem: Flat, a: Word, bs: seq<Byte>, b: Word)
    requires Apart(a, |bs|, b, 8)
    ensures LoadWord(Store(mem, a, bs), b) == LoadWord(mem, b)
  {
    LoadAfterStoreApart(mem, a, bs, b, 8);
  }

  // ---- a store beside the entries ------------------------------------------------------------------

  ghost predicate Beside(a: Word, n: nat, es: seq<Word>) {
    forall e :: e in es ==> Apart(a, n, e, 8)
  }

  /** A store apart from every entry a walk reads leaves the walk and its entries as they were. */
  lemma {:induction false} StoreKeepsReads(m: Flat, a: Word, bs: seq<Byte>, table: Word, va: Word, level: nat)
    requires level < 4 && |bs| <= SPACE && Beside(a, |bs|, Reads(m, table, va, level))
    ensures WalkFrom(Store(m, a, bs), table, va, level) == WalkFrom(m, table, va, level)
    ensures Reads(Store(m, a, bs), table, va, level) == Reads(m, table, va, level)
    decreases level
  {
    hide Store, LoadWord, EntryAt, Apart, Flag, LeafPage, PageBase;
    var e, es := EntryAt(table, va, level), Reads(m, table, va, level);
    assert e == es[0] && e in es;
    WordKept(m, a, bs, e);
    var pte := LoadWord(m, e);
    if Descends(pte, level) {
      assert es[1..] == Reads(m, PageBase(pte), va, level - 1);
      StoreKeepsReads(m, a, bs, PageBase(pte), va, level - 1);
    }
    WalkUnfolds(m, table, va, level);
    WalkUnfolds(Store(m, a, bs), table, va, level);
  }

  lemma WalkUnfolds(m: Flat, table: Word, va: Word, level: nat)
    requires level < 4
    ensures var pte := LoadWord(m, EntryAt(table, va, level));
      WalkFrom(m, table, va, level) ==
        if Descends(pte, level) then WalkFrom(m, PageBase(pte), va, level - 1)
        else if Flag(pte, 0) && (Flag(pte, 1) || Flag(pte, 2) || Flag(pte, 3)) then LeafPage(pte, va, level)
        else NoPage
  {
    hide LoadWord, Flag, LeafPage, PageBase, Slot;
  }

  /** Walk and entries agree in two memories. */
  ghost predicate SameWalk(m: Flat, m': Flat, satp: Word, va: Word) {
    Walk(m', satp, va) == Walk(m, satp, va) && Entries(m', satp, va) == Entries(m, satp, va)
  }

  lemma StoreKeepsWalk(m: Flat, satp: Word, va: Word, a: Word, bs: seq<Byte>)
    requires |bs| <= SPACE && Beside(a, |bs|, Entries(m, satp, va))
    ensures SameWalk(m, Store(m, a, bs), satp, va)
  {
    StoreKeepsReads(m, a, bs, PageBase(satp), va, 3);
  }

  // ---- a zero word on an entry ---------------------------------------------------------------------

  /** The walk meets an invalid entry. */
  ghost predicate Dead(m: Flat, table: Word, va: Word, level: nat)
    requires level < 4
    decreases level
  {
    var pte := LoadWord(m, EntryAt(table, va, level));
    !Flag(pte, 0) || (Descends(pte, level) && Dead(m, PageBase(pte), va, level - 1))
  }

  lemma {:induction false} DeadFaults(m: Flat, table: Word, va: Word, level: nat)
    requires level < 4 && Dead(m, table, va, level)
    ensures WalkFrom(m, table, va, level) == NoPage
    decreases level
  {
    hide LoadWord, Flag, LeafPage, PageBase, EntryAt;
    WalkUnfolds(m, table, va, level);
    var pte := LoadWord(m, EntryAt(table, va, level));
    if Flag(pte, 0) {
      DeadFaults(m, PageBase(pte), va, level - 1);
    }
  }

  lemma AlignedApart(a: Word, b: Word)
    requires a % 8 == 0 && b % 8 == 0 && a != b
    ensures Apart(a, 8, b, 8)
  {
    var i, j := a / 8, b / 8;
    assert a == 8 * i && b == 8 * j && i != j;
  }

  lemma EntryAligned(table: Word, va: Word, level: nat)
    requires level < 4 && table % 4096 == 0
    ensures EntryAt(table, va, level) % 8 == 0
  {
    hide Slot;
    WrapAligned(512 * (table / 4096) + Slot(va, level));
  }

  lemma WrapAligned(k: nat)
    requires 8 * k < 2 * SPACE
    ensures Wrap(8 * k) % 8 == 0
  {
    assert SPACE == 8 * 0x2000_0000_0000_0000;
  }

  lemma BaseAligned(a: Word)
    ensures PageBase(a) % 4096 == 0
  {
  }

  lemma ZeroWord(m: Flat, a: Word, e: Word)
    requires a % 8 == 0 && e % 8 == 0
    ensures LoadWord(StoreWord(m, a, 0), e) == if e == a then 0 else LoadWord(m, e)
  {
    if e == a {
      LoadWordAfterStoreWord(m, a, 0);
    } else {
      AlignedApart(a, e);
      WordKept(m, a, ToBytes(0, 8), e);
    }
  }

  /** A zero word on an entry the walk reads ends the walk there. */
  lemma {:induction false} ZeroKills(m: Flat, a: Word, table: Word, va: Word, level: nat)
    requires level < 4 && table % 4096 == 0 && a % 8 == 0 && a in Reads(m, table, va, level)
    ensures Dead(StoreWord(m, a, 0), table, va, level)
    decreases level
  {
    hide StoreWord, LoadWord, EntryAt, PageBase;
    var e := EntryAt(table, va, level);
    EntryAligned(table, va, level);
    ZeroWord(m, a, e);
    if e != a {
      var pte := LoadWord(m, e);
      BaseAligned(pte);
      ZeroKills(m, a, PageBase(pte), va, level - 1);
    }
  }

  /** And no further zero word brings it back. */
  lemma {:induction false} ZeroKeepsDead(m: Flat, a: Word, table: Word, va: Word, level: nat)
    requires level < 4 && table % 4096 == 0 && a % 8 == 0 && Dead(m, table, va, level)
    ensures Dead(StoreWord(m, a, 0), table, va, level)
    decreases level
  {
    hide StoreWord, LoadWord, EntryAt, PageBase;
    var e := EntryAt(table, va, level);
    EntryAligned(table, va, level);
    ZeroWord(m, a, e);
    var pte := LoadWord(m, e);
    if e != a && Flag(pte, 0) {
      BaseAligned(pte);
      ZeroKeepsDead(m, a, PageBase(pte), va, level - 1);
    }
  }

  lemma {:induction false} ReadsAligned(m: Flat, table: Word, va: Word, level: nat)
    requires level < 4 && table % 4096 == 0
    ensures forall e :: e in Reads(m, table, va, level) ==> e % 8 == 0
    decreases level
  {
    hide LoadWord, EntryAt, PageBase, Flag;
    var pte := LoadWord(m, EntryAt(table, va, level));
    EntryAligned(table, va, level);
    BaseAligned(pte);
    if Descends(pte, level) {
      ReadsAligned(m, PageBase(pte), va, level - 1);
    }
  }
}
