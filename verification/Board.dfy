/** The processor, its translation unit and its memory together: trap frames, IRET and the stack
    instructions as the machine executes them. */
module Board {
  import opened Words
  import opened Memory
  import opened Registers
  import opened Core
  import opened Paging
  import opened Footprint
  import opened Traps
  import opened TrapFrames
  import LazyCore
  import Mmu
  import Stack

  /** The frame's slots are used only while their pages are not stale, counting what the frame's
      own stores change. */
  ghost predicate FrameFresh(mem: Flat, satp: Word, stale: iset<nat>, sp: Word, words: seq<Word>, n: nat)
    requires n <= |words| <= 4
    decreases |words| - n
  {
    n == |words|
    || ((Paged(satp) ==> Vpn(Below(sp, n + 1)) !in stale)
        && match Translate(mem, satp, Below(sp, n + 1), Write, true)
           case Fault(_) => true
           case At(pa) =>
             var mem' := StoreWord(mem, pa, words[n]);
             FrameFresh(mem', satp, stale + Mmu.Changed(mem, mem', satp), sp, words, n + 1))
  }

  /** What is stale once the frame is pushed. */
  ghost function StaleAfter(mem: Flat, satp: Word, stale: iset<nat>, sp: Word, words: seq<Word>, n: nat): iset<nat>
    requires n <= |words| <= 4
    decreases |words| - n
  {
    if n == |words| then stale
    else
      match Translate(mem, satp, Below(sp, n + 1), Write, true)
      case Fault(_) => stale
      case At(pa) =>
        var mem' := StoreWord(mem, pa, words[n]);
        StaleAfter(mem', satp, stale + Mmu.Changed(mem, mem', satp), sp, words, n + 1)
  }

  lemma SameWalkUnchanged(m: Flat, m': Flat, satp: Word, va: Word)
    requires SameWalk(m, m', satp, va)
    ensures Vpn(va) !in Mmu.Changed(m, m', satp)
  {
    hide Walk, Entries, Vpn, PageOf;
    WalkIsPerPage(m, satp, va);
    WalkIsPerPage(m', satp, va);
  }

  /** A frame that lands keeps the discipline if its pages were fresh to begin with. */
  lemma {:induction false} LandingIsFresh(mem: Flat, m: Flat, satp: Word, stale: iset<nat>, sp: Word,
                                          words: seq<Word>, j: nat)
    requires |words| == 4 && j <= 4 && Mapped(mem, satp, sp) && Clear(mem, satp, sp) && OnTrack(mem, m, satp, sp, j)
    requires Paged(satp) ==> forall n :: 1 <= n <= 4 && (n <= 2 || j < n) ==> Vpn(Below(sp, n)) !in stale
    ensures FrameFresh(m, satp, stale, sp, words, j)
    ensures Paged(satp) ==> forall n :: 1 <= n <= 2 ==> Vpn(Below(sp, n)) !in StaleAfter(m, satp, stale, sp, words, j)
    decreases 4 - j
  {
    hide Walk, Entries, Vpn, Below, Translate, StoreWord, Beside, Mmu.Changed;
    if j < 4 {
      OneOnTrack(mem, m, satp, sp, j, words[j]);
      var m' := StoreWord(m, Spot(mem, satp, sp, j + 1).pa, words[j]);
      if Paged(satp) {
        forall n | 1 <= n <= 4 && (n <= 2 || j + 1 < n)
          ensures Vpn(Below(sp, n)) !in Mmu.Changed(m, m', satp)
        {
          assert SameWalk(mem, m, satp, Below(sp, n)) && SameWalk(mem, m', satp, Below(sp, n));
          SameWalkUnchanged(m, m', satp, Below(sp, n));
        }
      }
      LandingIsFresh(mem, m', satp, stale + Mmu.Changed(m, m', satp), sp, words, j + 1);
    }
  }

  lemma StartFresh(mem: Flat, satp: Word, stale: iset<nat>, sp: Word, words: seq<Word>)
    requires |words| == 4 && Lands(mem, satp, sp)
    requires Paged(satp) ==> forall n :: 1 <= n <= 4 ==> Vpn(Below(sp, n)) !in stale
    ensures FrameFresh(mem, satp, stale, sp, words, 0)
    ensures Paged(satp) ==> forall n :: 1 <= n <= 2 ==> Vpn(Below(sp, n)) !in StaleAfter(mem, satp, stale, sp, words, 0)
  {
    hide Vpn, Below, FrameFresh, StaleAfter, Translate, Walk, Entries;
    LandingIsFresh(mem, mem, satp, stale, sp, words, 0);
  }

  /** Where a delivered handler starts, and where it stands once it has dropped aux and cause. */
  lemma EnteredAt(m: Machine, vector: Byte, subcode: Byte, aux: Word)
    requires |m.s.regs| == 16 && Deliver(m, vector, subcode, aux, Pc(m)).Entered?
    ensures var e := Deliver(m, vector, subcode, aux, Pc(m)).m;
      && |e.s.regs| == 16 && e.satp == m.satp && e.s.rf.privilege && Sp(e) == Below(Sp(m), 4)
      && var top: int := Sp(e); Wrap(top + 16) == Below(Sp(m), 2)
  {
    hide PushAt, Encode, LoadWord;
  }

  class Board {
    const cpu: LazyCore.Cpu
    const unit: Mmu.Unit

    ghost predicate Valid()
      reads this, cpu, unit, unit.mm
    {
      cpu.Valid() && unit.Valid()
    }

    /** What a guest can see. */
    ghost function View(): Machine
      reads this, cpu, unit, unit.mm
      requires Valid()
    {
      Machine(cpu.Settled(), unit.mm.Contents(), unit.cr0)
    }

    constructor (cpu: LazyCore.Cpu, unit: Mmu.Unit)
      requires cpu.Valid() && unit.Valid()
      ensures Valid() && this.cpu == cpu && this.unit == unit
    {
      this.cpu, this.unit := cpu, unit;
    }

    /** A page may be used: not stale, or translation is off. */
    ghost predicate Usable(va: Word)
      reads this, unit
    {
      Paged(unit.cr0) ==> Vpn(va) !in unit.stale
    }

    /** The vector table is read by physical address. */
    method ReadVectorEntry(vector: Byte) returns (h: Word)
      requires unit.Valid()
      modifies unit.mm
      ensures unit.Valid() && unit.mm.Contents() == old(unit.mm.Contents())
      ensures h == Handler(unit.mm.Contents(), vector)
    {
      h := unit.ReadPte(VECTORS + 8 * vector);
    }

    /** Pre-decrement, translate, store. */
    method PushWord(x: Word) returns (ok: bool)
      requires Valid() && cpu.rf.privilege && Usable(Below(cpu.regs[SP], 1))
      modifies cpu`regs, unit, unit.mm
      ensures Valid() && unit.cr0 == old(unit.cr0)
      ensures cpu.regs == old(cpu.regs)[SP := Below(old(cpu.regs)[SP], 1)]
      ensures var t := Translate(old(unit.mm.Contents()), unit.cr0, cpu.regs[SP], Write, true);
        && ok == t.At?
        && (ok ==> unit.mm.Contents() == StoreWord(old(unit.mm.Contents()), t.pa, x))
        && (!ok ==> unit.mm.Contents() == old(unit.mm.Contents()) && unit.cr1 == cpu.regs[SP])
        && (!ok ==> unit.cr2 == Mmu.FaultWord(t.present, Write, true))
      ensures unit.stale == old(unit.stale)
        + if ok then Mmu.Changed(old(unit.mm.Contents()), unit.mm.Contents(), unit.cr0) else iset{}
    {
      hide Translate, StoreWord, Mmu.Changed, Vpn, Mmu.TlbValid, Mmu.FastValid;
      var sp: int := cpu.regs[SP];
      cpu.regs := cpu.regs[SP := Wrap(sp - 8)];
      var t := unit.Translate(cpu.regs[SP], Write, cpu.rf.privilege);
      if t.Fault? {
        return false;
      }
      unit.EditWord(t.pa, x);
      return true;
    }

    /** The four words, stopping at the first push that faults. */
    method PushFrame(words: seq<Word>) returns (ok: bool)
      requires Valid() && |words| == 4 && cpu.rf.privilege
      requires FrameFresh(unit.mm.Contents(), unit.cr0, unit.stale, cpu.regs[SP], words, 0)
      modifies cpu`regs, unit, unit.mm
      ensures Valid() && unit.cr0 == old(unit.cr0)
      ensures var p := PushAt(old(unit.mm.Contents()), unit.cr0, old(cpu.regs)[SP], words, 0);
        && ok == (p.done == 4) && unit.mm.Contents() == p.mem
        && cpu.regs == old(cpu.regs)[SP := Below(old(cpu.regs)[SP], if ok then 4 else p.done + 1)]
      ensures unit.stale
        == StaleAfter(old(unit.mm.Contents()), unit.cr0, old(unit.stale), old(cpu.regs)[SP], words, 0)
    {
      hide StoreWord, Translate, Mmu.Changed, Vpn, Mmu.TlbValid, Mmu.FastValid;
      ghost var sp, start := cpu.regs[SP], cpu.regs;
      ghost var all := PushAt(unit.mm.Contents(), unit.cr0, sp, words, 0);
      ghost var left := StaleAfter(unit.mm.Contents(), unit.cr0, unit.stale, sp, words, 0);
      for n := 0 to 4
        invariant Valid() && unit.cr0 == old(unit.cr0) && cpu.regs == start[SP := Below(sp, n)]
        invariant PushAt(unit.mm.Contents(), unit.cr0, sp, words, n) == all
        invariant StaleAfter(unit.mm.Contents(), unit.cr0, unit.stale, sp, words, n) == left
        invariant FrameFresh(unit.mm.Contents(), unit.cr0, unit.stale, sp, words, n)
      {
        OneLower(sp, n);
        var done := PushWord(words[n]);
        if !done {
          return false;
        }
      }
      return true;
    }

    /** The four-word frame and the jump to the handler. Privilege goes up before the first push,
        and interrupts go off after the last. */
    method DeliverVectored(vector: Byte, subcode: Byte, aux: Word, savedPc: Word) returns (entered: bool)
      requires Valid()
      requires FrameFresh(View().mem, View().satp, unit.stale, Sp(View()),
        [savedPc, Encode(View().s.rf), vector + 256 * subcode, aux], 0)
      modifies cpu, unit, unit.mm
      ensures Valid()
      ensures match Deliver(old(View()), vector, subcode, aux, savedPc)
              case Entered(m) => entered && View() == m
              case NoHandler(_) => !entered && View() == old(View())
              case FrameFault(m) => !entered && View() == m
      ensures entered ==> unit.stale == StaleAfter(old(View()).mem, old(View()).satp, old(unit.stale), Sp(old(View())),
        [savedPc, Encode(old(View()).s.rf), vector + 256 * subcode, aux], 0)
    {
      hide Encode, LoadWord, PushAt, Below, FrameFresh, StaleAfter, Mmu.TlbValid, Mmu.FastValid;
      var h := ReadVectorEntry(vector);
      if h == 0 {
        return false;
      }
      var savedRf := cpu.BeginTrap();
      entered := PushFrame([savedPc, savedRf, vector + 256 * subcode, aux]);
      if entered {
        cpu.MaskInterrupts();
        cpu.regs := cpu.regs[PC := h];
      }
    }

    /** A supervisor load of one stack word. */
    method LoadWordAt(va: Word) returns (x: Fetched)
      requires Valid() && cpu.rf.privilege && Usable(va)
      modifies unit, unit.mm
      ensures Valid() && unit.cr0 == old(unit.cr0) && unit.stale == old(unit.stale)
      ensures unit.mm.Contents() == old(unit.mm.Contents()) && x == ReadBack(unit.mm.Contents(), unit.cr0, va)
    {
      hide Translate, LoadWord, Vpn, Mmu.TlbValid, Mmu.FastValid;
      var t := unit.Translate(va, Read, cpu.rf.privilege);
      if t.Fault? {
        return Missed;
      }
      var w := unit.ReadPte(t.pa);
      return Got(w);
    }

    /** Both words are read before RF, PC or SP changes. */
    method ReturnFromTrap() returns (r: bool)
      requires Valid() && var sp: int := cpu.regs[SP]; Usable(sp) && Usable(Wrap(sp + 8))
      modifies cpu, unit, unit.mm
      ensures Valid()
      ensures match Traps.Iret(old(View()))
              case Returned(m) => r && View() == m
              case _ => !r && View() == old(View())
    {
      hide ReadBack, Decode, Vpn, Mmu.TlbValid, Mmu.FastValid;
      if !cpu.rf.privilege {
        return false;
      }
      var sp: int := cpu.regs[SP];
      var rf := LoadWordAt(sp);
      if rf.Missed? {
        return false;
      }
      var pc := LoadWordAt(Wrap(sp + 8));
      if pc.Missed? {
        return false;
      }
      var denied := cpu.ReturnFromInterrupt(rf.x);
      cpu.regs := cpu.regs[SP := Wrap(sp + 16)][PC := pc.x];
      return true;
    }

    /** A handler's stores, none of them on the two words IRET will read or on the entries that
        lead to those words, so the words read as before and their pages stay fresh. */
    method HandlerStores(strokes: seq<Stroke>, ghost sp: Word)
      requires Valid() && Usable(Below(sp, 1)) && Usable(Below(sp, 2))
      requires AllAside(View().mem, View().satp, Below(sp, 1), strokes)
      requires AllAside(View().mem, View().satp, Below(sp, 2), strokes)
      modifies unit, unit.mm
      ensures Valid() && unit.cr0 == old(unit.cr0) && Usable(Below(sp, 1)) && Usable(Below(sp, 2))
      ensures unit.mm.Contents() == Wrote(old(unit.mm.Contents()), strokes)
      ensures ReadBack(unit.mm.Contents(), unit.cr0, Below(sp, 1))
        == ReadBack(old(unit.mm.Contents()), unit.cr0, Below(sp, 1))
      ensures ReadBack(unit.mm.Contents(), unit.cr0, Below(sp, 2))
        == ReadBack(old(unit.mm.Contents()), unit.cr0, Below(sp, 2))
    {
      hide Aside, ReadBack, Store, Mmu.Changed, Mmu.TlbValid, Mmu.FastValid, Vpn, Below, SameWalk;
      ghost var mem, v1, v2 := unit.mm.Contents(), Below(sp, 1), Below(sp, 2);
      assert strokes[0..] == strokes;
      for i := 0 to |strokes|
        invariant Valid() && unit.cr0 == old(unit.cr0) && Usable(v1) && Usable(v2)
        invariant AllAside(View().mem, View().satp, v1, strokes) && AllAside(View().mem, View().satp, v2, strokes)
        invariant Wrote(mem, strokes) == Wrote(unit.mm.Contents(), strokes[i..])
        invariant ReadBack(unit.mm.Contents(), unit.cr0, v1) == ReadBack(mem, unit.cr0, v1)
        invariant ReadBack(unit.mm.Contents(), unit.cr0, v2) == ReadBack(mem, unit.cr0, v2)
      {
        var w := strokes[i];
        assert w in strokes && strokes[i..][1..] == strokes[i + 1..];
        ghost var before := unit.mm.Contents();
        OneAside(before, unit.cr0, v1, w, strokes);
        OneAside(before, unit.cr0, v2, w, strokes);
        unit.Edit(w.a, w.bytes);
        if Paged(unit.cr0) {
          SameWalkUnchanged(before, unit.mm.Contents(), unit.cr0, v1);
          SameWalkUnchanged(before, unit.mm.Contents(), unit.cr0, v2);
        }
      }
    }

    /** Delivery of a frame that lands, with fresh pages: the handler is entered and the two words
        IRET will read are still usable. */
    method EnterHandler(vector: Byte, subcode: Byte, aux: Word)
      requires Valid()
      requires var m := View(); Lands(m.mem, m.satp, Sp(m)) && Handler(m.mem, vector) != 0
      requires forall n :: 1 <= n <= 4 ==> Usable(Below(Sp(View()), n))
      modifies cpu, unit, unit.mm
      ensures Valid() && Usable(Below(Sp(old(View())), 1)) && Usable(Below(Sp(old(View())), 2))
      ensures Deliver(old(View()), vector, subcode, aux, Pc(old(View()))) == Entered(View())
    {
      hide Lands, Deliver, Handler, FrameFresh, StaleAfter, Below, Vpn, Mmu.TlbValid, Mmu.FastValid, Encode;
      ghost var m := View();
      StartFresh(m.mem, m.satp, unit.stale, Sp(m), [Pc(m), Encode(m.s.rf), vector + 256 * subcode, aux]);
      TrapRoundTrip(m, vector, subcode, aux, m);
      EnteredAt(m, vector, subcode, aux);
      var entered := DeliverVectored(vector, subcode, aux, cpu.regs[PC]);
    }

    /** An interrupt from end to end, through both translation caches: delivery, a handler that
        overwrites any of the other registers and makes any stores that stay aside, and IRET.
        PC, SP and the whole of RF are what they were. */
    method Interrupted(vector: Byte, subcode: Byte, aux: Word, strokes: seq<Stroke>, scratch: seq<Word>)
      requires Valid() && |scratch| == 14
      requires var m := View(); Lands(m.mem, m.satp, Sp(m)) && Handler(m.mem, vector) != 0
      requires forall n :: 1 <= n <= 4 ==> Usable(Below(Sp(View()), n))
      requires var m := View(); var e := Deliver(m, vector, subcode, aux, Pc(m)); e.Entered? ==>
        AllAside(e.m.mem, m.satp, Below(Sp(m), 1), strokes) && AllAside(e.m.mem, m.satp, Below(Sp(m), 2), strokes)
      modifies cpu, unit, unit.mm
      ensures Valid() && cpu.Settled().rf == old(cpu.Settled().rf)
      ensures cpu.regs[PC] == old(cpu.regs[PC]) && cpu.regs[SP] == old(cpu.regs[SP]) && cpu.regs[..14] == scratch
    {
      hide Lands, Deliver, Traps.Iret, Handler, AllAside, ReadBack, Below, Vpn, Mmu.TlbValid, Mmu.FastValid;
      ghost var m := View();
      EnterHandler(vector, subcode, aux);
      ghost var e := View();
      EnteredAt(m, vector, subcode, aux);
      HandlerStores(strokes, Sp(m));
      var top: int := cpu.regs[SP];
      cpu.regs := scratch + [cpu.regs[PC], Wrap(top + 16)];
      ghost var done := View();
      assert HandlerDone(e, done, Sp(m));
      TrapRoundTrip(m, vector, subcode, aux, done);
      UpAgain(Sp(m));
      var back := ReturnFromTrap();
      assert cpu.regs[..14] == scratch;
    }

    /** Bare-mode translation, as the stack instructions call it. */
    method Probe(va: Word, kind: Access)
      requires Valid() && !Paged(unit.cr0)
      modifies unit, unit.mm
      ensures Valid() && unit.cr0 == old(unit.cr0) && unit.mm.Contents() == old(unit.mm.Contents())
    {
      hide Vpn, Mmu.TlbValid, Mmu.FastValid;
      var t := unit.Translate(va, kind, cpu.rf.privilege);
    }

    method StoreBare(va: Word, bytes: seq<Byte>)
      requires Valid() && !Paged(unit.cr0) && |bytes| < SPACE
      modifies unit, unit.mm
      ensures Valid() && unit.cr0 == old(unit.cr0)
      ensures unit.mm.Contents() == Store(old(unit.mm.Contents()), va, bytes)
    {
      hide Store, Mmu.TlbValid, Mmu.FastValid, Mmu.Changed, Vpn;
      var t := unit.Translate(va, Write, cpu.rf.privilege);
      unit.Edit(t.pa, bytes);
    }

    /** PUSHALL in Bare mode: the block is staged, both ends are probed, then it is stored word by
        word from its base up, and the stack pointer moves last. */
    method PushAll()
      requires Valid() && !Paged(unit.cr0)
      modifies cpu`regs, unit, unit.mm
      ensures Valid() && View() == Stack.PushAll(old(View()))
    {
      hide Store, ToBytes, Stack.Values, Stack.Bytes, Mmu.TlbValid, Mmu.FastValid, Mmu.Changed, Vpn;
      var words := Stack.Values(State(cpu.regs, cpu.rf), Stack.CONTEXT);
      SameValues(cpu.regs, cpu.rf, cpu.Settled().rf, Stack.CONTEXT);
      var buffer := Stack.Bytes(words);
      var sp: int := cpu.regs[SP];
      var base: int := Wrap(sp - 104);
      ghost var mem := unit.mm.Contents();
      Probe(base, Write);
      Probe(Wrap(base + 103), Write);
      StoreNothing(mem, base);
      for i := 0 to 13
        invariant Valid() && cpu.regs == old(cpu.regs) && unit.cr0 == old(unit.cr0)
        invariant unit.mm.Contents() == Store(mem, base, buffer[..8 * i])
      {
        StoreBare(Wrap(base + 8 * i), buffer[8 * i..8 * i + 8]);
        StoreAppend(mem, base, buffer[..8 * i], buffer[8 * i..8 * i + 8]);
        assert buffer[..8 * i] + buffer[8 * i..8 * i + 8] == buffer[..8 * (i + 1)];
      }
      assert buffer[..104] == buffer;
      cpu.regs := cpu.regs[SP := base];
    }

    method ReadWords(a: Word, n: nat) returns (words: seq<Word>)
      requires Valid() && !Paged(unit.cr0) && 8 * n < SPACE
      modifies unit, unit.mm
      ensures Valid() && unit.cr0 == old(unit.cr0) && unit.mm.Contents() == old(unit.mm.Contents())
      ensures words == Stack.WordsAt(unit.mm.Contents(), a, n)
    {
      hide LoadWord, Mmu.TlbValid, Mmu.FastValid, Vpn;
      words := [];
      ghost var mem := unit.mm.Contents();
      var at: int := a;
      for i := 0 to n
        invariant Valid() && unit.cr0 == old(unit.cr0) && unit.mm.Contents() == mem && |words| == i && 0 <= at < SPACE
        invariant Stack.WordsAt(mem, a, n) == words + Stack.WordsAt(mem, at, n - i)
      {
        var t := unit.Translate(at, Read, cpu.rf.privilege);
        var x := unit.ReadPte(t.pa);
        words := words + [x];
        at := Wrap(at + 8);
      }
    }

    /** POPALL in Bare mode: every word is read before any register is written. */
    method PopAll()
      requires Valid() && !Paged(unit.cr0)
      modifies cpu`regs, unit, unit.mm
      ensures Valid() && View() == Stack.PopAll(old(View()))
    {
      hide LoadWord, Stack.WordsAt, Stack.Assign, Mmu.TlbValid, Mmu.FastValid;
      var sp: int := cpu.regs[SP];
      Probe(sp, Read);
      Probe(Wrap(sp + 103), Read);
      var words := ReadWords(sp, 13);
      var regs := AssignAll(cpu.regs, Stack.CONTEXT, words);
      cpu.regs := regs[SP := Wrap(sp + 104)];
    }
  }

  lemma OneLower(sp: Word, n: nat)
    requires n < 4
    ensures Below(Below(sp, n), 1) == Below(sp, n + 1) && Below(sp, 0) == sp
  {
  }

  method AssignAll(regs: seq<Word>, rs: seq<RegIndex>, words: seq<Word>) returns (r: seq<Word>)
    requires |regs| == 16 && |rs| == |words|
    ensures r == Stack.Assign(regs, rs, words)
  {
    r := regs;
    for i := 0 to |rs|
      invariant |r| == 16
      invariant Stack.Assign(regs, rs, words) == Stack.Assign(r, rs[i..], words[i..])
    {
      assert rs[i..][1..] == rs[i + 1..] && words[i..][1..] == words[i + 1..];
      r := r[rs[i] := words[i]];
    }
  }

  lemma {:induction false} SameValues(regs: seq<Word>, f: Rf, g: Rf, rs: seq<RegIndex>)
    requires |regs| == 16
    ensures Stack.Values(State(regs, f), rs) == Stack.Values(State(regs, g), rs)
  {
    if rs != [] {
      SameValues(regs, f, g, rs[1..]);
    }
  }
}
