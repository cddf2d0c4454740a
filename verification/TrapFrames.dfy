/** When a trap frame survives its own pushes: always in Bare mode; under Sv48 exactly when no
    frame word lands on a page-table entry that a later frame access reads. */
module TrapFrames {
  import opened Words
  import opened Registers
  import Core
  import opened Paging
  import opened Footprint
  import opened Traps

  // ---- Bare mode -----------------------------------------------------------------------------------

  /** In Bare mode the frame lands for every stack pointer, wrapping ones included. */
  lemma BareLands(mem: Flat, satp: Word, sp: Word)
    requires !Paged(satp)
    ensures Lands(mem, satp, sp)
  {
    forall n | 1 <= n <= 4
      ensures Spot(mem, satp, sp, n) == At(Below(sp, n))
    {
    }
    assert forall k, n :: 1 <= n <= 2 && n < k <= 4 ==> Apart(Below(sp, k), 8, Below(sp, n), 8);
  }

  /** Entry, any handler and IRET restore PC, SP and RF, for every stack pointer. */
  lemma BareRoundTrip(m: Machine, vector: Byte, subcode: Byte, aux: Word, done: Machine)
    requires |m.s.regs| == 16 && !Paged(m.satp) && Handler(m.mem, vector) != 0
    ensures Deliver(m, vector, subcode, aux, Pc(m)).Entered?
    ensures HandlerDone(Deliver(m, vector, subcode, aux, Pc(m)).m, done, Sp(m)) ==>
      var r := Iret(done);
      && r.Returned? && |r.m.s.regs| == 16
      && Pc(r.m) == Pc(m) && Sp(r.m) == Sp(m) && r.m.s.rf == m.s.rf
  {
    hide Lands, Deliver, Iret, HandlerDone, Handler;
    BareLands(m.mem, m.satp, Sp(m));
    TrapRoundTrip(m, vector, subcode, aux, done);
  }

  // ---- where the handler starts ----------------------------------------------------------------------

  /** A zero table word means no handler; otherwise a frame that lands enters at the table word of
      the memory on entry, privileged, with interrupts off, the stack four words down and every
      other register and RF bit as it was. */
  lemma EntryState(m: Machine, vector: Byte, subcode: Byte, aux: Word, savedPc: Word)
    requires |m.s.regs| == 16 && Lands(m.mem, m.satp, Sp(m))
    ensures var h := LoadWord(m.mem, 0x1000 + 8 * vector); var e := Deliver(m, vector, subcode, aux, savedPc);
      && (h == 0 <==> e.NoHandler?)
      && (h != 0 ==>
            && e.Entered? && |e.m.s.regs| == 16 && e.m.s.regs[14] == h && e.m.satp == m.satp
            && (var sp: int := m.s.regs[15]; e.m.s.regs[15] == Wrap(sp - 32))
            && (forall i :: 0 <= i < 14 ==> e.m.s.regs[i] == m.s.regs[i])
            && e.m.s.rf == m.s.rf.(privilege := true, interruptEnabled := false))
  {
    hide PushAt, LoadWord, Encode, Lands;
    FrameStands(m.mem, m.satp, Sp(m), [savedPc, Encode(m.s.rf), vector + 256 * subcode, aux]);
  }

  /** The words at `a`, a + 8 and so on. */
  ghost predicate WordsFrom(mem: Flat, a: int, ws: seq<Word>)
    requires -SPACE <= a && a + 8 * |ws| <= SPACE
  {
    forall i :: 0 <= i < |ws| ==> LoadWord(mem, Wrap(a + 8 * i)) == ws[i]
  }

  /** In Bare mode the frame reads, from the new stack pointer up: aux, vector + 256 * subcode, the
      RF word, the saved PC. */
  lemma BareFrame(m: Machine, vector: Byte, subcode: Byte, aux: Word, savedPc: Word)
    requires |m.s.regs| == 16 && m.satp % 16 != 1 && LoadWord(m.mem, 0x1000 + 8 * vector) != 0
    ensures var e := Deliver(m, vector, subcode, aux, savedPc); var sp: int := m.s.regs[15];
      e.Entered? && WordsFrom(e.m.mem, sp - 32, [aux, vector + 256 * subcode, Encode(m.s.rf), savedPc])
  {
    hide LoadWord, Encode, Lands, StoreWord, Below, Apart;
    BareLands(m.mem, m.satp, Sp(m));
    EntryState(m, vector, subcode, aux, savedPc);
    var sp, cause, rf := Sp(m), vector + 256 * subcode, Encode(m.s.rf);
    var a, b, c, d := Below(sp, 1), Below(sp, 2), Below(sp, 3), Below(sp, 4);
    BelowApart(sp);
    var m1 := StoreWord(m.mem, a, savedPc);
    var m2 := StoreWord(m1, b, rf);
    var m3 := StoreWord(m2, c, cause);
    var m4 := StoreWord(m3, d, aux);
    BarePushes(m.mem, m.satp, sp, savedPc, rf, cause, aux);
    Kept(m1, b, rf, a);
    Kept(m2, c, cause, a);
    Kept(m3, d, aux, a);
    Kept(m2, c, cause, b);
    Kept(m3, d, aux, b);
    Kept(m3, d, aux, c);
    LoadWordAfterStoreWord(m.mem, a, savedPc);
    LoadWordAfterStoreWord(m1, b, rf);
    LoadWordAfterStoreWord(m2, c, cause);
    LoadWordAfterStoreWord(m3, d, aux);
  }

  lemma Kept(mem: Flat, a: Word, v: Word, b: Word)
    requires Apart(a, 8, b, 8)
    ensures LoadWord(StoreWord(mem, a, v), b) == LoadWord(mem, b)
  {
    WordKept(mem, a, ToBytes(v, 8), b);
  }

  lemma BelowApart(sp: Word)
    ensures Below(sp, 1) == Wrap(sp as int - 8) && Below(sp, 2) == Wrap(sp as int - 16)
    ensures Below(sp, 3) == Wrap(sp as int - 24) && Below(sp, 4) == Wrap(sp as int - 32)
    ensures forall k, n :: 1 <= n < k <= 4 ==> Apart(Below(sp, k), 8, Below(sp, n), 8)
  {
  }

  lemma BarePushes(mem: Flat, satp: Word, sp: Word, w0: Word, w1: Word, w2: Word, w3: Word)
    requires !Paged(satp)
    ensures PushAt(mem, satp, sp, [w0, w1, w2, w3], 0) == Pushed(4,
      StoreWord(StoreWord(StoreWord(StoreWord(mem, Below(sp, 1), w0), Below(sp, 2), w1), Below(sp, 3), w2),
        Below(sp, 4), w3))
  {
    hide StoreWord, Below;
    var ws := [w0, w1, w2, w3];
    var m1 := StoreWord(mem, Below(sp, 1), w0);
    var m2 := StoreWord(m1, Below(sp, 2), w1);
    var m3 := StoreWord(m2, Below(sp, 3), w2);
    var m4 := StoreWord(m3, Below(sp, 4), w3);
    assert PushAt(m4, satp, sp, ws, 4) == Pushed(4, m4);
    assert PushAt(m3, satp, sp, ws, 3) == Pushed(4, m4);
    assert PushAt(m2, satp, sp, ws, 2) == Pushed(4, m4);
    assert PushAt(m1, satp, sp, ws, 1) == Pushed(4, m4);
  }

  // ---- aligned stacks ------------------------------------------------------------------------------

  lemma SlotAligned(sp: Word, n: nat)
    requires sp % 8 == 0 && n <= 4
    ensures Below(sp, n) % 8 == 0
  {
  }

  lemma SlotsDiffer(sp: Word, i: nat, j: nat)
    requires sp % 8 == 0 && 1 <= i < j <= 4
    ensures Below(sp, i) % 4096 != Below(sp, j) % 4096
  {
  }

  lemma AlignedAlike(a: Word, x: Word)
    requires a % 4096 == x % 4096 && x % 8 == 0
    ensures a % 8 == 0
  {
    assert a == 4096 * (a / 4096) + a % 4096 && x == 4096 * (x / 4096) + x % 4096;
  }

  /** A store to an aligned slot, through any tables, is to an aligned word at its page offset. */
  lemma SpotAligned(mem: Flat, satp: Word, sp: Word, n: nat)
    requires sp % 8 == 0 && n <= 4 && Spot(mem, satp, sp, n).At?
    ensures var pa := Spot(mem, satp, sp, n).pa; pa % 4096 == Below(sp, n) % 4096 && pa % 8 == 0
  {
    hide Translate, Below;
    StoredIsLoadable(mem, satp, Below(sp, n));
    SlotAligned(sp, n);
    AlignedAlike(Spot(mem, satp, sp, n).pa, Below(sp, n));
  }

  /** The four words of an aligned frame are four different words. */
  lemma AlignedSeparate(mem: Flat, satp: Word, sp: Word)
    requires sp % 8 == 0 && Mapped(mem, satp, sp)
    ensures Separate(mem, satp, sp)
  {
    hide Spot, Below, Apart;
    forall k, n | 1 <= n <= 2 && n < k <= 4
      ensures Apart(Spot(mem, satp, sp, k).pa, 8, Spot(mem, satp, sp, n).pa, 8)
    {
      SpotAligned(mem, satp, sp, k);
      SpotAligned(mem, satp, sp, n);
      SlotsDiffer(sp, n, k);
      AlignedApart(Spot(mem, satp, sp, k).pa, Spot(mem, satp, sp, n).pa);
    }
  }

  // ---- Sv48 ----------------------------------------------------------------------------------------

  /** What a caller can check before the trap: the four slots are writable, and no frame word
      lands on a page-table entry of a slot needed after it. */
  ghost predicate Undisturbed(mem: Flat, satp: Word, sp: Word) {
    Mapped(mem, satp, sp) && Clear(mem, satp, sp)
  }

  /** Under such tables, for every 8-aligned stack pointer, entry, any handler and IRET restore
      PC, SP and RF. */
  lemma PagedRoundTrip(m: Machine, vector: Byte, subcode: Byte, aux: Word, done: Machine)
    requires |m.s.regs| == 16 && Sp(m) % 8 == 0 && Undisturbed(m.mem, m.satp, Sp(m)) && Handler(m.mem, vector) != 0
    ensures Deliver(m, vector, subcode, aux, Pc(m)).Entered?
    ensures HandlerDone(Deliver(m, vector, subcode, aux, Pc(m)).m, done, Sp(m)) ==>
      var r := Iret(done);
      && r.Returned? && |r.m.s.regs| == 16
      && Pc(r.m) == Pc(m) && Sp(r.m) == Sp(m) && r.m.s.rf == m.s.rf
  {
    hide Clear, Separate, Deliver, Iret, HandlerDone, Handler;
    AlignedSeparate(m.mem, m.satp, Sp(m));
    TrapRoundTrip(m, vector, subcode, aux, done);
  }

  datatype Stroke = Stroke(a: Word, bytes: seq<Byte>)

  ghost function Wrote(mem: Flat, writes: seq<Stroke>): Flat
    requires forall w :: w in writes ==> |w.bytes| < SPACE
    decreases |writes|
  {
    if writes == [] then mem
    else
      assert writes[0] in writes;
      Wrote(Store(mem, writes[0].a, writes[0].bytes), writes[1..])
  }

  /** A write apart from a slot's word and from the entries of its walk. */
  ghost predicate Aside(mem: Flat, satp: Word, va: Word, w: Stroke)
    requires |w.bytes| < SPACE
  {
    && (Translate(mem, satp, va, Read, true).At? ==>
          Apart(w.a, |w.bytes|, Translate(mem, satp, va, Read, true).pa, 8))
    && (Paged(satp) ==> Beside(w.a, |w.bytes|, Entries(mem, satp, va)))
  }

  ghost predicate AllAside(mem: Flat, satp: Word, va: Word, writes: seq<Stroke>) {
    forall w :: w in writes ==> |w.bytes| < SPACE && Aside(mem, satp, va, w)
  }

  /** A store aside from a slot keeps the slot's walk and word, and every other store aside. */
  lemma OneAside(mem: Flat, satp: Word, va: Word, w: Stroke, writes: seq<Stroke>)
    requires w in writes && AllAside(mem, satp, va, writes)
    ensures var m := Store(mem, w.a, w.bytes);
      && ReadBack(m, satp, va) == ReadBack(mem, satp, va) && AllAside(m, satp, va, writes)
      && (Paged(satp) ==> SameWalk(mem, m, satp, va))
  {
    hide Apart, Beside, Store, LoadWord, Translate, Walk, Entries;
    assert Aside(mem, satp, va, w);
    var m := Store(mem, w.a, w.bytes);
    if Paged(satp) {
      StoreKeepsWalk(mem, satp, va, w.a, w.bytes);
    }
    TranslatesAlike(mem, m, satp, va, Read);
    var t := Translate(mem, satp, va, Read, true);
    if t.At? {
      WordKept(mem, w.a, w.bytes, t.pa);
    }
    forall x | x in writes
      ensures Aside(m, satp, va, x)
    {
      assert Aside(mem, satp, va, x);
    }
  }

  /** A handler's stores, as many as it likes, leave a frame word readable if they stay off the
      word and off the page-table entries that lead to it. */
  lemma {:induction false} StoresAside(mem: Flat, satp: Word, va: Word, writes: seq<Stroke>)
    requires AllAside(mem, satp, va, writes)
    ensures ReadBack(Wrote(mem, writes), satp, va) == ReadBack(mem, satp, va)
    decreases |writes|
  {
    hide Aside, ReadBack, SameWalk;
    if writes != [] {
      OneAside(mem, satp, va, writes[0], writes);
      assert forall x :: x in writes[1..] ==> x in writes;
      StoresAside(Store(mem, writes[0].a, writes[0].bytes), satp, va, writes[1..]);
    }
  }

  // ---- the condition is exact ------------------------------------------------------------------------

  /** A frame of these words is pushed whole and its first two words read back. */
  ghost predicate Returns(mem: Flat, satp: Word, sp: Word, words: seq<Word>)
    requires |words| == 4
  {
    var p := PushAt(mem, satp, sp, words, 0);
    && p.done == 4
    && ReadBack(p.mem, satp, Below(sp, 1)) == Got(words[0]) && ReadBack(p.mem, satp, Below(sp, 2)) == Got(words[1])
  }

  ghost predicate EveryFrameReturns(mem: Flat, satp: Word, sp: Word) {
    forall words: seq<Word> :: |words| == 4 ==> Returns(mem, satp, sp, words)
  }

  function ZeroFrame(): seq<Word> { [0, 0, 0, 0] }

  ghost predicate DeadSlot(m: Flat, satp: Word, sp: Word, n: nat)
    requires n <= 4
  {
    Dead(m, PageBase(satp), Below(sp, n), 3)
  }

  lemma DeadSlotFaults(m: Flat, satp: Word, sp: Word, n: nat)
    requires n <= 4 && Paged(satp) && DeadSlot(m, satp, sp, n)
    ensures Spot(m, satp, sp, n).Fault? && ReadBack(m, satp, Below(sp, n)) == Missed
  {
    hide Dead, WalkFrom;
    DeadFaults(m, PageBase(satp), Below(sp, n), 3);
  }

  /** Once a needed slot is dead, zero pushes either fault or end with it still dead. */
  lemma {:induction false} DeadStaysDead(m: Flat, satp: Word, sp: Word, j: nat, n: nat)
    requires sp % 8 == 0 && Paged(satp) && j <= 4 && 1 <= n <= 4 && DeadSlot(m, satp, sp, n)
    ensures var p := PushAt(m, satp, sp, ZeroFrame(), j);
      p.done == 4 ==> n <= j && DeadSlot(p.mem, satp, sp, n)
    decreases 4 - j
  {
    hide Dead, StoreWord, Translate, Below, PageBase;
    if j < 4 {
      var t := Spot(m, satp, sp, j + 1);
      if n == j + 1 {
        DeadSlotFaults(m, satp, sp, n);
      } else if t.At? {
        SpotAligned(m, satp, sp, j + 1);
        BaseAligned(satp);
        ZeroKeepsDead(m, t.pa, PageBase(satp), Below(sp, n), 3);
        DeadStaysDead(StoreWord(m, t.pa, 0), satp, sp, j + 1, n);
      }
    }
  }

  /** Conditions on the first j words only. */
  ghost predicate ClearTo(mem: Flat, satp: Word, sp: Word, j: nat)
    requires j <= 4
  {
    && (forall k :: 1 <= k <= j ==> Spot(mem, satp, sp, k).At?)
    && (forall k, n :: 1 <= k <= j && Needed(k, n) ==>
          Beside(Spot(mem, satp, sp, k).pa, 8, Entries(mem, satp, Below(sp, n))))
  }

  /** A zero word on a needed slot's entry makes the frame fail. */
  lemma OnEntryFails(mem: Flat, m: Flat, satp: Word, sp: Word, j: nat, n: nat)
    requires sp % 8 == 0 && Paged(satp) && j < 4 && Needed(j + 1, n) && OnTrack(mem, m, satp, sp, j)
    requires Spot(mem, satp, sp, j + 1).At?
    requires !Beside(Spot(mem, satp, sp, j + 1).pa, 8, Entries(mem, satp, Below(sp, n)))
    ensures var p := PushAt(m, satp, sp, ZeroFrame(), j);
      p.done == 4 ==> n <= 2 && DeadSlot(p.mem, satp, sp, n)
  {
    hide Dead, StoreWord, Translate, Below, PageBase, Walk, Reads, Apart;
    TranslatesAlike(mem, m, satp, Below(sp, j + 1), Write);
    var pa, va := Spot(mem, satp, sp, j + 1).pa, Below(sp, n);
    SpotAligned(mem, satp, sp, j + 1);
    BaseAligned(satp);
    ReadsAligned(mem, PageBase(satp), va, 3);
    var e :| e in Entries(mem, satp, va) && !Apart(pa, 8, e, 8);
    if e != pa {
      AlignedApart(pa, e);
    }
    assert SameWalk(mem, m, satp, va);
    ZeroKills(m, pa, PageBase(satp), va, 3);
    DeadStaysDead(StoreWord(m, pa, 0), satp, sp, j + 1, n);
  }

  /** If the frame of zeros returns, nothing was disturbed. */
  lemma {:induction false} ZeroFrameTells(mem: Flat, m: Flat, satp: Word, sp: Word, j: nat)
    requires sp % 8 == 0 && Paged(satp) && j <= 4 && OnTrack(mem, m, satp, sp, j) && ClearTo(mem, satp, sp, j)
    requires var p := PushAt(m, satp, sp, ZeroFrame(), j);
      && p.done == 4 && ReadBack(p.mem, satp, Below(sp, 1)) == Got(0) && ReadBack(p.mem, satp, Below(sp, 2)) == Got(0)
    ensures ClearTo(mem, satp, sp, 4)
    decreases 4 - j
  {
    hide Dead, StoreWord, Translate, Below, PageBase, Walk, Entries, Beside, ReadBack;
    if j < 4 {
      TranslatesAlike(mem, m, satp, Below(sp, j + 1), Write);
      assert Spot(mem, satp, sp, j + 1).At?;
      var pa := Spot(mem, satp, sp, j + 1).pa;
      forall n | Needed(j + 1, n)
        ensures Beside(pa, 8, Entries(mem, satp, Below(sp, n)))
      {
        if !Beside(pa, 8, Entries(mem, satp, Below(sp, n))) {
          OnEntryFails(mem, m, satp, sp, j, n);
          DeadSlotFaults(PushAt(m, satp, sp, ZeroFrame(), j).mem, satp, sp, n);
          assert false;
        }
      }
      OneOnTrack(mem, m, satp, sp, j, 0);
      ZeroFrameTells(mem, StoreWord(m, pa, 0), satp, sp, j + 1);
    }
  }

  /** Whatever PC, RF, cause and aux are: for an aligned stack pointer every frame is pushed
      whole and read back if and only if no frame word lands on a needed entry. */
  lemma FramesReturnExactly(mem: Flat, satp: Word, sp: Word)
    requires sp % 8 == 0
    ensures EveryFrameReturns(mem, satp, sp) <==> Undisturbed(mem, satp, sp)
  {
    hide Clear, Separate, Translate, Below, Entries, ReadBack, PushAt, OnTrack;
    if Undisturbed(mem, satp, sp) {
      AlignedSeparate(mem, satp, sp);
      forall words: seq<Word> | |words| == 4
        ensures Returns(mem, satp, sp, words)
      {
        FrameStands(mem, satp, sp, words);
      }
    }
    if EveryFrameReturns(mem, satp, sp) {
      assert Returns(mem, satp, sp, ZeroFrame());
      if Paged(satp) {
        SameOnTrack(mem, satp, sp);
        ZeroFrameTells(mem, mem, satp, sp, 0);
        ClearToAll(mem, satp, sp);
      } else {
        BareLands(mem, satp, sp);
      }
    }
  }

  lemma SameOnTrack(mem: Flat, satp: Word, sp: Word)
    ensures OnTrack(mem, mem, satp, sp, 0)
  {
  }

  lemma ClearToAll(mem: Flat, satp: Word, sp: Word)
    requires ClearTo(mem, satp, sp, 4)
    ensures Undisturbed(mem, satp, sp)
  {
    hide Translate, Below, Entries, Beside;
  }

  // ---- a frame that unmaps its own stack ---------------------------------------------------------------

  /** Page 0 is mapped at 0x20000 and page 1 onto the last-level table itself; vector 32 has a
      handler. */
  ghost function Looped(): Flat {
    var m := StoreWord(StoreWord(ZeroMemory(), 0x10000, 0x11001), 0x11000, 0x12001);
    StoreWord(StoreWord(StoreWord(StoreWord(m, 0x12000, 0x13001), 0x13000, 0x20007), 0x13008, 0x13007), 0x1100, 0x3000)
  }

  lemma Fresh(mem: Flat, a: Word, v: Word, b: Word)
    requires a % 8 == 0 && b % 8 == 0
    ensures LoadWord(StoreWord(mem, a, v), b) == if a == b then v else LoadWord(mem, b)
  {
    if a == b {
      LoadWordAfterStoreWord(mem, a, v);
    } else {
      AlignedApart(a, b);
      WordKept(mem, a, ToBytes(v, 8), b);
    }
  }

  lemma LoopedWords(e: Word)
    requires e in {0x10000, 0x11000, 0x12000, 0x13000, 0x13008, 0x1100}
    ensures LoadWord(Looped(), e) == if e == 0x10000 then 0x11001 else if e == 0x11000 then 0x12001
      else if e == 0x12000 then 0x13001 else if e == 0x13000 then 0x20007 else if e == 0x13008 then 0x13007 else 0x3000
  {
    hide StoreWord, LoadWord;
    var m1 := StoreWord(ZeroMemory(), 0x10000, 0x11001);
    var m2 := StoreWord(m1, 0x11000, 0x12001);
    var m3 := StoreWord(m2, 0x12000, 0x13001);
    var m4 := StoreWord(m3, 0x13000, 0x20007);
    var m5 := StoreWord(m4, 0x13008, 0x13007);
    Fresh(ZeroMemory(), 0x10000, 0x11001, e);
    Fresh(m1, 0x11000, 0x12001, e);
    Fresh(m2, 0x12000, 0x13001, e);
    Fresh(m3, 0x13000, 0x20007, e);
    Fresh(m4, 0x13008, 0x13007, e);
    Fresh(m5, 0x1100, 0x3000, e);
  }

  /** The walk of a low address whose first three entries are table pointers at slot 0. */
  lemma LowWalk(mem: Flat, va: Word, pte: Word)
    requires va < 0x2000
    requires LoadWord(mem, 0x10000) == 0x11001 && LoadWord(mem, 0x11000) == 0x12001 && LoadWord(mem, 0x12000) == 0x13001
    requires LoadWord(mem, 0x13000 + 8 * (va / 4096)) == pte
    ensures Walk(mem, 0x10001, va) ==
      if Flag(pte, 0) && (Flag(pte, 1) || Flag(pte, 2) || Flag(pte, 3)) then LeafPage(pte, va, 0) else NoPage
    ensures Entries(mem, 0x10001, va) == [0x10000, 0x11000, 0x12000, 0x13000 + 8 * (va / 4096)]
  {
    hide LoadWord, LeafPage, WalkFrom, Reads;
    assert EntryAt(0x10000, va, 3) == 0x10000 && EntryAt(0x11000, va, 2) == 0x11000;
    assert EntryAt(0x12000, va, 1) == 0x12000 && EntryAt(0x13000, va, 0) == 0x13000 + 8 * (va / 4096);
    assert PageBase(0x10001) == 0x10000 && PageBase(0x11001) == 0x11000;
    assert PageBase(0x12001) == 0x12000 && PageBase(0x13001) == 0x13000;
    assert Descends(0x11001, 3) && Descends(0x12001, 2) && Descends(0x13001, 1);
    WalkUnfolds(mem, 0x10000, va, 3);
    WalkUnfolds(mem, 0x11000, va, 2);
    WalkUnfolds(mem, 0x12000, va, 1);
    WalkUnfolds(mem, 0x13000, va, 0);
    ReadsUnfold(mem, 0x10000, va, 3);
    ReadsUnfold(mem, 0x11000, va, 2);
    ReadsUnfold(mem, 0x12000, va, 1);
    ReadsUnfold(mem, 0x13000, va, 0);
  }

  lemma ReadsUnfold(m: Flat, table: Word, va: Word, level: nat)
    requires level < 4
    ensures var e := EntryAt(table, va, level); var pte := LoadWord(m, e);
      Reads(m, table, va, level) == if Descends(pte, level) then [e] + Reads(m, PageBase(pte), va, level - 1) else [e]
  {
  }

  /** A last-level entry that maps its page readable and writable. */
  lemma PlainLeaf(pte: Word, va: Word)
    requires pte in {0x20007, 0x13007}
    ensures LeafPage(pte, va, 0) == Page(pte - 7, true, true, false, false)
    ensures Flag(pte, 0) && Flag(pte, 1)
  {
    assert Flag(pte, 0) && Flag(pte, 1) && Flag(pte, 2) && !Flag(pte, 3) && !Flag(pte, 4);
  }

  lemma LoopedSlots(va: Word)
    requires va < 0x2000
    ensures Translate(Looped(), 0x10001, va, Write, true)
      == At((if va < 0x1000 then 0x20000 else 0x13000) + va % 4096)
    ensures Entries(Looped(), 0x10001, va) == [0x10000, 0x11000, 0x12000, 0x13000 + 8 * (va / 4096)]
  {
    hide LoadWord, Looped, Walk, LeafPage, Flag, Entries;
    LoopedWords(0x10000);
    LoopedWords(0x11000);
    LoopedWords(0x12000);
    LoopedWords(0x13000);
    LoopedWords(0x13008);
    var pte := if va < 0x1000 then 0x20007 else 0x13007;
    assert 0x13000 + 8 * (va / 4096) == if va < 0x1000 then 0x13000 else 0x13008;
    LowWalk(Looped(), va, pte);
    PlainLeaf(pte, va);
  }

  lemma LoopedAfterPush(mem: Flat)
    requires mem == StoreWord(Looped(), 0x13000, 0x2000)
    ensures Translate(mem, 0x10001, 0xFF8, Write, true) == Fault(false)
  {
    hide LoadWord, Looped, Walk, LeafPage, Entries, StoreWord;
    LoopedWords(0x10000);
    LoopedWords(0x11000);
    LoopedWords(0x12000);
    Fresh(Looped(), 0x13000, 0x2000, 0x10000);
    Fresh(Looped(), 0x13000, 0x2000, 0x11000);
    Fresh(Looped(), 0x13000, 0x2000, 0x12000);
    Fresh(Looped(), 0x13000, 0x2000, 0x13000);
    LowWalk(mem, 0xFF8, 0x2000);
    assert !Flag(0x2000, 0);
  }

  lemma LoopedBelow()
    ensures Below(0x1008, 1) == 0x1000 && Below(0x1008, 2) == 0xFF8
    ensures Below(0x1008, 3) == 0xFF0 && Below(0x1008, 4) == 0xFE8
  {
  }

  /** All four slots are writable on entry, yet the pushed PC overwrites the entry of the next
      slot's page: delivery faults at the second push. */
  lemma FrameUnmapsItself(s: Core.State, subcode: Byte, aux: Word)
    requires |s.regs| == 16 && s.regs[SP] == 0x1008
    ensures Mapped(Looped(), 0x10001, 0x1008) && !Undisturbed(Looped(), 0x10001, 0x1008)
    ensures var e := Deliver(Machine(s, Looped(), 0x10001), 32, subcode, aux, 0x2000);
      e.FrameFault? && |e.m.s.regs| == 16 && Sp(e.m) == 0xFF8 && e.m.mem == StoreWord(Looped(), 0x13000, 0x2000)
  {
    hide LoadWord, Looped, Translate, Below, StoreWord, Entries, Encode, Clear;
    LoopedBelow();
    LoopedSlots(0x1000);
    LoopedSlots(0xFF8);
    LoopedSlots(0xFF0);
    LoopedSlots(0xFE8);
    LoopedWords(0x1100);
    var mem, after := Looped(), StoreWord(Looped(), 0x13000, 0x2000);
    LoopedAfterPush(after);
    LoopedDisturbed();
    var frame := [0x2000, Encode(s.rf), 32 + 256 * subcode, aux];
    assert PushAt(after, 0x10001, 0x1008, frame, 1) == Pushed(1, after);
    assert PushAt(mem, 0x10001, 0x1008, frame, 0) == Pushed(1, after);
  }

  lemma LoopedDisturbed()
    ensures !Undisturbed(Looped(), 0x10001, 0x1008)
  {
    hide Translate, Below, Entries, Looped;
    LoopedBelow();
    LoopedSlots(0x1000);
    LoopedSlots(0xFF8);
    assert 0x13000 in Entries(Looped(), 0x10001, 0xFF8);
    assert !Apart(0x13000, 8, 0x13000, 8);
    assert Needed(1, 2) && Paged(0x10001);
  }
}
