/** Trap entry, IRET and HALT over a machine's registers, memory and page tables. Every access
    of a frame is translated by the tables as they stand at that access. */
module Traps {
  import opened Words
  import opened Registers
  import opened Core
  import opened Paging
  import opened Footprint

  const PC: RegIndex := 14
  const SP: RegIndex := 15
  const VECTORS: Word := 0x1000

  datatype Machine = Machine(s: State, mem: Flat, satp: Word)

  function Pc(m: Machine): Word requires |m.s.regs| == 16 { m.s.regs[PC] }
  function Sp(m: Machine): Word requires |m.s.regs| == 16 { m.s.regs[SP] }

  /** The n-th word below the stack pointer. */
  function Below(sp: Word, n: nat): Word
    requires n <= 4
  {
    Wrap(sp - 8 * n)
  }

  ghost function Handler(mem: Flat, vector: Byte): Word {
    LoadWord(mem, VECTORS + 8 * vector)
  }

  /** How many words were pushed, and the memory they left. */
  datatype Pushed = Pushed(done: nat, mem: Flat)

  /** Supervisor stores of the frame words, first to last, each at the next word down. */
  ghost function PushAt(mem: Flat, satp: Word, sp: Word, words: seq<Word>, n: nat): (r: Pushed)
    requires n <= |words| <= 4
    ensures n <= r.done <= |words|
    decreases |words| - n
  {
    if n == |words| then Pushed(n, mem)
    else
      match Translate(mem, satp, Below(sp, n + 1), Write, true)
      case Fault(_) => Pushed(n, mem)
      case At(pa) => PushAt(StoreWord(mem, pa, words[n]), satp, sp, words, n + 1)
  }

  datatype Entry =
    | Entered(m: Machine)
    | NoHandler(vector: nat)
    /** A push of the frame faulted: the stack pointer has moved and privilege is up. */
    | FrameFault(m: Machine)

  /** deliver_vectored: PC, RF, cause and aux are pushed, the handler runs privileged with
      interrupts off. */
  ghost function Deliver(m: Machine, vector: Byte, subcode: Byte, aux: Word, savedPc: Word): Entry
    requires |m.s.regs| == 16
  {
    var h := Handler(m.mem, vector);
    if h == 0 then NoHandler(vector)
    else
      var frame := [savedPc, Encode(m.s.rf), vector + 256 * subcode, aux];
      var p := PushAt(m.mem, m.satp, Sp(m), frame, 0);
      var rf := m.s.rf.(privilege := true);
      if p.done < 4 then
        FrameFault(Machine(State(m.s.regs[SP := Below(Sp(m), p.done + 1)], rf), p.mem, m.satp))
      else
        var regs := m.s.regs[SP := Below(Sp(m), 4)][PC := h];
        Entered(Machine(State(regs, rf.(interruptEnabled := false)), p.mem, m.satp))
  }

  datatype Fetched = Got(x: Word) | Missed

  /** A supervisor load of one word. */
  ghost function ReadBack(mem: Flat, satp: Word, va: Word): Fetched {
    match Translate(mem, satp, va, Read, true)
    case At(pa) => Got(LoadWord(mem, pa))
    case Fault(_) => Missed
  }

  datatype Return = Returned(m: Machine) | NotPrivileged | StackFault

  /** IRET: both words are read before anything is restored. */
  ghost function Iret(m: Machine): Return
    requires |m.s.regs| == 16
  {
    if !m.s.rf.privilege then NotPrivileged
    else
      match (ReadBack(m.mem, m.satp, Sp(m)), ReadBack(m.mem, m.satp, Wrap(Sp(m) + 8)))
      case (Got(rf), Got(pc)) => Returned(m.(s := State(m.s.regs[SP := Wrap(Sp(m) + 16)][PC := pc], Decode(rf))))
      case _ => StackFault
  }

  // ---- where a frame lands --------------------------------------------------------------------------

  /** Where the n-th frame word goes by the tables on entry. */
  ghost function Spot(mem: Flat, satp: Word, sp: Word, n: nat): Translation
    requires n <= 4
  {
    Translate(mem, satp, Below(sp, n), Write, true)
  }

  ghost predicate Mapped(mem: Flat, satp: Word, sp: Word) {
    forall n :: 1 <= n <= 4 ==> Spot(mem, satp, sp, n).At?
  }

  /** Slot n is still to be pushed when word k is stored, or IRET will read it. */
  predicate Needed(k: nat, n: nat) {
    1 <= k <= 4 && 1 <= n <= 4 && (n <= 2 || k < n)
  }

  /** No frame word lands on a page-table entry of a slot that is needed after it. */
  ghost predicate Clear(mem: Flat, satp: Word, sp: Word)
    requires Mapped(mem, satp, sp)
  {
    Paged(satp) ==>
      forall k, n :: Needed(k, n) ==> Beside(Spot(mem, satp, sp, k).pa, 8, Entries(mem, satp, Below(sp, n)))
  }

  /** No later word overwrites PC or RF. */
  ghost predicate Separate(mem: Flat, satp: Word, sp: Word)
    requires Mapped(mem, satp, sp)
  {
    forall k, n :: 1 <= n <= 2 && n < k <= 4 ==>
      Apart(Spot(mem, satp, sp, k).pa, 8, Spot(mem, satp, sp, n).pa, 8)
  }

  ghost predicate Lands(mem: Flat, satp: Word, sp: Word) {
    Mapped(mem, satp, sp) && Clear(mem, satp, sp) && Separate(mem, satp, sp)
  }

  // ---- pushing through tables that stay put ----------------------------------------------------------

  /** After j pushes, every slot still needed walks as it did on entry. */
  ghost predicate OnTrack(mem: Flat, m: Flat, satp: Word, sp: Word, j: nat) {
    Paged(satp) ==> forall n :: 1 <= n <= 4 && (n <= 2 || j < n) ==> SameWalk(mem, m, satp, Below(sp, n))
  }

  lemma TranslatesAlike(mem: Flat, m: Flat, satp: Word, va: Word, kind: Access)
    requires Paged(satp) ==> SameWalk(mem, m, satp, va)
    ensures Translate(m, satp, va, kind, true) == Translate(mem, satp, va, kind, true)
  {
    hide Walk, Entries;
  }

  lemma OneOnTrack(mem: Flat, m: Flat, satp: Word, sp: Word, j: nat, w: Word)
    requires j < 4 && Spot(mem, satp, sp, j + 1).At? && OnTrack(mem, m, satp, sp, j)
    requires Paged(satp) ==> forall n :: Needed(j + 1, n) ==>
      Beside(Spot(mem, satp, sp, j + 1).pa, 8, Entries(mem, satp, Below(sp, n)))
    ensures Translate(m, satp, Below(sp, j + 1), Write, true) == Spot(mem, satp, sp, j + 1)
    ensures OnTrack(mem, StoreWord(m, Spot(mem, satp, sp, j + 1).pa, w), satp, sp, j + 1)
  {
    hide Translate, Below, Walk, Entries, Store, Beside;
    TranslatesAlike(mem, m, satp, Below(sp, j + 1), Write);
    var pa := Spot(mem, satp, sp, j + 1).pa;
    if Paged(satp) {
      forall n | 1 <= n <= 4 && (n <= 2 || j + 1 < n)
        ensures SameWalk(mem, StoreWord(m, pa, w), satp, Below(sp, n))
      {
        assert Needed(j + 1, n);
        StoreKeepsWalk(m, satp, Below(sp, n), pa, ToBytes(w, 8));
      }
    }
  }

  /** PC and RF, once stored, are where the entry tables put them. */
  ghost predicate Holding(mem: Flat, m: Flat, satp: Word, sp: Word, words: seq<Word>, j: nat)
    requires |words| == 4 && j <= 4 && Mapped(mem, satp, sp)
  {
    forall n :: 1 <= n <= 2 && n <= j ==> LoadWord(m, Spot(mem, satp, sp, n).pa) == words[n - 1]
  }

  lemma OneHolding(mem: Flat, m: Flat, satp: Word, sp: Word, words: seq<Word>, j: nat)
    requires |words| == 4 && j < 4 && Lands(mem, satp, sp) && Holding(mem, m, satp, sp, words, j)
    ensures Holding(mem, StoreWord(m, Spot(mem, satp, sp, j + 1).pa, words[j]), satp, sp, words, j + 1)
  {
    hide Spot, LoadWord, Store, Apart, Clear;
    var pa := Spot(mem, satp, sp, j + 1).pa;
    LoadWordAfterStoreWord(m, pa, words[j]);
    forall n | 1 <= n <= 2 && n <= j
      ensures LoadWord(StoreWord(m, pa, words[j]), Spot(mem, satp, sp, n).pa) == words[n - 1]
    {
      WordKept(m, pa, ToBytes(words[j], 8), Spot(mem, satp, sp, n).pa);
    }
  }

  lemma {:induction false} PushesLand(mem: Flat, m: Flat, satp: Word, sp: Word, words: seq<Word>, j: nat)
    requires |words| == 4 && j <= 4 && Lands(mem, satp, sp)
    requires OnTrack(mem, m, satp, sp, j) && Holding(mem, m, satp, sp, words, j)
    ensures var p := PushAt(m, satp, sp, words, j);
      p.done == 4 && OnTrack(mem, p.mem, satp, sp, 4) && Holding(mem, p.mem, satp, sp, words, 4)
    decreases 4 - j
  {
    hide Spot, OnTrack, Holding, Separate, StoreWord, Translate, Beside, Below;
    if j < 4 {
      OneOnTrack(mem, m, satp, sp, j, words[j]);
      OneHolding(mem, m, satp, sp, words, j);
      PushesLand(mem, StoreWord(m, Spot(mem, satp, sp, j + 1).pa, words[j]), satp, sp, words, j + 1);
    }
  }

  /** A frame that lands is pushed whole, and its PC and RF words read back through the tables
      the pushes leave. */
  lemma FrameStands(mem: Flat, satp: Word, sp: Word, words: seq<Word>)
    requires |words| == 4 && Lands(mem, satp, sp)
    ensures var p := PushAt(mem, satp, sp, words, 0);
      && p.done == 4 && ReadBack(p.mem, satp, Below(sp, 1)) == Got(words[0])
      && ReadBack(p.mem, satp, Below(sp, 2)) == Got(words[1])
  {
    hide PushAt, LoadWord, Below, Clear, Separate, Walk, Entries, Translate;
    PushesLand(mem, mem, satp, sp, words, 0);
    var m := PushAt(mem, satp, sp, words, 0).mem;
    forall n | 1 <= n <= 2
      ensures ReadBack(m, satp, Below(sp, n)) == Got(words[n - 1])
    {
      TranslatesAlike(mem, m, satp, Below(sp, n), Read);
      assert Spot(mem, satp, sp, n).At?;
      StoredIsLoadable(mem, satp, Below(sp, n));
    }
  }

  // ---- what the tables guarantee ---------------------------------------------------------------------

  lemma {:induction false} WritableIsReadable(m: Flat, table: Word, va: Word, level: nat)
    requires level < 4
    ensures var p := WalkFrom(m, table, va, level); p.Page? && p.w ==> p.r
    decreases level
  {
    hide Flag, PageBase, Span, Slot, LoadWord;
    var pte := LoadWord(m, Wrap(table + 8 * Slot(va, level)));
    if level > 0 {
      WritableIsReadable(m, PageBase(pte), va, level - 1);
    }
  }

  lemma {:induction false} PagesAligned(m: Flat, table: Word, va: Word, level: nat)
    requires level < 4
    ensures var p := WalkFrom(m, table, va, level); p.Page? ==> p.base % 4096 == 0
    decreases level
  {
    var pte := LoadWord(m, Wrap(table + 8 * Slot(va, level)));
    LeafAligned(pte, va, level);
    hide Flag, PageBase, Span, Slot, LoadWord, LeafPage;
    if level > 0 {
      PagesAligned(m, PageBase(pte), va, level - 1);
    }
  }

  lemma LeafAligned(pte: Word, va: Word, level: nat)
    requires level < 4
    ensures var p := LeafPage(pte, va, level); p.Page? ==> p.base % 4096 == 0
  {
    hide Flag, Span, Pages;
    InSpan(va, Pages(level));
    var t := (va / 4096) % Pages(level);
    assert va % Span(level) - va % 4096 == 4096 * t;
    var p := LeafPage(pte, va, level);
    if p.Page? {
      assert PageBase(pte) == 4096 * (pte / 4096);
      DivModUnique(p.base, 4096, pte / 4096 + t, 0);
    }
  }

  /** A supervisor store that succeeds reads back from the same address, which keeps the
      page offset. */
  lemma StoredIsLoadable(mem: Flat, satp: Word, va: Word)
    requires Translate(mem, satp, va, Write, true).At?
    ensures Translate(mem, satp, va, Read, true) == Translate(mem, satp, va, Write, true)
    ensures Translate(mem, satp, va, Write, true).pa % 4096 == va % 4096
  {
    hide WalkFrom, PageBase;
    WritableIsReadable(mem, PageBase(satp), va, 3);
    PagesAligned(mem, PageBase(satp), va, 3);
  }

  // ---- entry and return undo each other ------------------------------------------------------------

  /** A handler may do anything, its own SATP included, as long as it comes back privileged, with
      the stack pointer past the aux and cause words, and the two words above it read as before. */
  ghost predicate HandlerDone(entered: Machine, done: Machine, sp: Word) {
    && |entered.s.regs| == 16 && |done.s.regs| == 16
    && done.s.rf.privilege && Sp(done) == Below(sp, 2)
    && ReadBack(done.mem, done.satp, Below(sp, 1)) == ReadBack(entered.mem, entered.satp, Below(sp, 1))
    && ReadBack(done.mem, done.satp, Below(sp, 2)) == ReadBack(entered.mem, entered.satp, Below(sp, 2))
  }

  lemma UpAgain(sp: Word)
    ensures Wrap(Below(sp, 2) + 8) == Below(sp, 1) && Wrap(Below(sp, 2) + 16) == sp
  {
  }

  /** Trap entry, any handler, IRET: PC, SP and the whole of RF are what they were. */
  lemma TrapRoundTrip(m: Machine, vector: Byte, subcode: Byte, aux: Word, done: Machine)
    requires |m.s.regs| == 16 && Lands(m.mem, m.satp, Sp(m)) && Handler(m.mem, vector) != 0
    ensures Deliver(m, vector, subcode, aux, Pc(m)).Entered?
    ensures HandlerDone(Deliver(m, vector, subcode, aux, Pc(m)).m, done, Sp(m)) ==>
      var r := Iret(done);
      && r.Returned? && |r.m.s.regs| == 16
      && Pc(r.m) == Pc(m) && Sp(r.m) == Sp(m) && r.m.s.rf == m.s.rf
      && r.m.mem == done.mem && forall i :: 0 <= i < 14 ==> r.m.s.regs[i] == done.s.regs[i]
  {
    hide Lands, LoadWord, Encode, Decode, PushAt, Below, ReadBack, Wrap;
    var frame := [Pc(m), Encode(m.s.rf), vector + 256 * subcode, aux];
    FrameStands(m.mem, m.satp, Sp(m), frame);
    RfRoundTrip(m.s.rf);
    UpAgain(Sp(m));
  }

  // ---- HALT ----------------------------------------------------------------------------------------

  datatype Halted = Parked(m: Machine) | PoweredOff | HaltDenied

  /** With interrupts on HALT clears running and waits; with interrupts off nothing could wake
      it, so it powers off. */
  ghost function Halt(m: Machine): Halted {
    if !m.s.rf.privilege then HaltDenied
    else if m.s.rf.interruptEnabled then Parked(m.(s := m.s.(rf := m.s.rf.(running := false))))
    else PoweredOff
  }

  /** Leaving the park: acknowledge, mark the core running, and only then capture RF. */
  ghost function Wake(m: Machine, vector: Byte): Entry
    requires |m.s.regs| == 16
  {
    var m1 := m.(s := m.s.(rf := m.s.rf.(interruptSet := false, running := true)));
    Deliver(m1, vector, 0, 0, Pc(m))
  }

  /** A device raise sets the mirror bit, or leaves it clear, while the core is parked. */
  ghost function Raised(m: Machine, mirror: bool): Machine {
    m.(s := m.s.(rf := m.s.rf.(interruptSet := mirror)))
  }

  /** IRET from `done` comes back to where `m` stood, running and with the mirror bit clear. */
  ghost predicate BackRunning(m: Machine, done: Machine)
    requires |m.s.regs| == 16 && |done.s.regs| == 16
  {
    var r := Iret(done);
    && r.Returned? && |r.m.s.regs| == 16 && Pc(r.m) == Pc(m) && Sp(r.m) == Sp(m)
    && r.m.s.rf == m.s.rf.(running := true, interruptSet := false)
  }

  /** The guest resumes after HALT, running: HALT, a raise that sets the mirror bit, the wake,
      any handler and its IRET. */
  lemma HaltResumes(m: Machine, vector: Byte, mirror: bool, done: Machine)
    requires |m.s.regs| == 16 && m.s.rf.privilege && m.s.rf.interruptEnabled
    requires Lands(m.mem, m.satp, Sp(m)) && Handler(m.mem, vector) != 0
    ensures Halt(m).Parked? && !Halt(m).m.s.rf.running
    ensures var e := Wake(Raised(Halt(m).m, mirror), vector);
      e.Entered? && (HandlerDone(e.m, done, Sp(m)) ==> BackRunning(m, done))
  {
    hide Deliver, Lands, HandlerDone, Iret, Handler;
    var m1 := m.(s := m.s.(rf := m.s.rf.(interruptSet := false, running := true)));
    assert Wake(Raised(Halt(m).m, mirror), vector) == Deliver(m1, vector, 0, 0, Pc(m1));
    TrapRoundTrip(m1, vector, 0, 0, done);
  }

  /** Without interrupts enabled HALT ends the run; in user mode HALT and IRET are refused. */
  lemma HaltEnds(m: Machine)
    ensures m.s.rf.privilege && !m.s.rf.interruptEnabled ==> Halt(m) == PoweredOff
    ensures !m.s.rf.privilege ==> Halt(m) == HaltDenied
    ensures |m.s.regs| == 16 ==> (Iret(m) == NotPrivileged <==> !m.s.rf.privilege)
  {
  }
}
