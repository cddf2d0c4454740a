/** Translation as shipped: a per-kind fast-page cache in front of a direct-mapped TLB in
    front of the walk, over the block memory. */
module Mmu {
  import opened Words
  import opened Memory
  import opened Paging
  import FastPages

  const TLB_SLOTS: int := 64

  datatype TlbEntry = TlbEntry(valid: bool, tag: nat, ppn: Word, r: bool, w: bool, x: bool, u: bool)
  datatype FastPage = FastPage(key: nat, page: Word)

  function Kind(k: Access): (i: nat)
    ensures i < 3
  {
    match k case Fetch => 0 case Read => 1 case Write => 2
  }

  /** Nonzero; carries the page number and the privilege bit. */
  function FastKey(vpn: nat, privilege: bool): (k: nat)
    ensures k > 0 && (k - 1) / 2 == vpn && ((k - 1) % 2 == 1) == privilege
  {
    2 * vpn + (if privilege then 1 else 0) + 1
  }

  function TlbIndex(vpn: nat): (i: nat)
    ensures i < TLB_SLOTS
  {
    vpn % 64
  }

  /** CR2: bit 0 present, bits 2:1 access kind, bit 3 user. */
  function FaultWord(present: bool, kind: Access, privilege: bool): Word {
    (if present then 1 else 0) + 2 * Kind(kind) + (if privilege then 0 else 8)
  }

  /** A cached leaf, unless stale, is what the walk finds. */
  ghost predicate TlbAgrees(e: TlbEntry, m: Flat, satp: Word, stale: iset<nat>) {
    e.valid && e.tag !in stale ==> e.tag < TAGS && PageOf(m, satp, e.tag) == Page(e.ppn, e.r, e.w, e.x, e.u)
  }

  ghost predicate TlbValid(tlb: seq<TlbEntry>, m: Flat, satp: Word, stale: iset<nat>) {
    && |tlb| == TLB_SLOTS
    && (forall i :: 0 <= i < |tlb| && tlb[i].valid ==> TlbIndex(tlb[i].tag) == i)
    && (forall i :: 0 <= i < |tlb| ==> TlbAgrees(tlb[i], m, satp, stale))
  }

  /** A fast page, unless stale, is a walk that succeeds for this kind and privilege. */
  ghost predicate FastAgrees(f: FastPage, kind: Access, m: Flat, satp: Word, stale: iset<nat>) {
    f.key > 0 && (f.key - 1) / 2 !in stale ==>
      && (f.key - 1) / 2 < TAGS
      && var p := PageOf(m, satp, (f.key - 1) / 2);
         p.Page? && p.base == f.page && Permits(kind, (f.key - 1) % 2 == 1, p.r, p.w, p.x, p.u)
  }

  ghost predicate RowValid(fs: seq<FastPage>, kind: Access, m: Flat, satp: Word, stale: iset<nat>) {
    |fs| == 3 && forall i :: 0 <= i < |fs| ==> FastAgrees(fs[i], kind, m, satp, stale)
  }

  ghost predicate FastValid(fast: seq<seq<FastPage>>, m: Flat, satp: Word, stale: iset<nat>) {
    |fast| == 3 && RowValid(fast[0], Fetch, m, satp, stale)
    && RowValid(fast[1], Read, m, satp, stale) && RowValid(fast[2], Write, m, satp, stale)
  }

  /** The fast-page cache of one kind, as keys and victim. */
  function WaysOf(fs: seq<FastPage>, victim: nat): (w: FastPages.Ways)
    requires |fs| == 3 && victim < 3
    ensures FastPages.Ok(w)
  {
    FastPages.Ways([fs[0].key, fs[1].key, fs[2].key], victim)
  }

  class Unit {
    const mm: MemoryModule
    var cr0: Word
    var cr1: Word
    var cr2: Word
    var tlb: seq<TlbEntry>
    var fast: seq<seq<FastPage>>
    var victim: seq<nat>
    var misses: seq<nat>

    /** Pages whose walk changed since they were last flushed. */
    ghost var stale: iset<nat>

    /** Every cached answer for a page that is not stale is the walk's own. */
    ghost predicate Valid()
      reads this, mm
    {
      && mm.Valid()
      && TlbValid(tlb, mm.Contents(), cr0, stale) && FastValid(fast, mm.Contents(), cr0, stale)
      && |victim| == 3 && victim[0] < 3 && victim[1] < 3 && victim[2] < 3 && |misses| == 3
    }

    ghost function Ways(kind: Access): FastPages.Ways
      reads this, mm
      requires Valid()
    {
      WaysOf(fast[Kind(kind)], victim[Kind(kind)])
    }

    constructor (mm: MemoryModule)
      requires mm.Valid()
      ensures Valid() && this.mm == mm && stale == iset{} && cr0 == 0
    {
      this.mm := mm;
      cr0, cr1, cr2 := 0, 0, 0;
      tlb := seq(TLB_SLOTS, _ => TlbEntry(false, 0, 0, false, false, false, false));
      fast := seq(3, _ => seq(3, _ => FastPage(0, 0)));
      victim, misses := [0, 0, 0], [0, 0, 0];
      stale := iset{};
    }

    method ReadPte(pa: Word) returns (pte: Word)
      requires mm.Valid()
      modifies mm
      ensures mm.Valid() && mm.Contents() == old(mm.Contents()) && pte == LoadWord(mm.Contents(), pa)
    {
      hide Load, ToBytes, FromBytes;
      pte := mm.ReadIntoReg(pa, 0, 8, 0);
      SpliceWhole(ToBytes(0, 8), Load(mm.Contents(), pa, 8));
      WordRoundTrip(pte);
    }

    /** Latch the fault registers. */
    method PageFault(va: Word, kind: Access, privilege: bool, present: bool) returns (r: Translation)
      modifies `cr1, `cr2
      ensures r == Fault(present) && cr1 == va && cr2 == FaultWord(present, kind, privilege)
    {
      cr1, cr2 := va, FaultWord(present, kind, privilege);
      r := Fault(present);
    }

    /** Install a page in the victim way of its kind and advance the victim. */
    method Refill(kind: Access, vpn: nat, privilege: bool, page: Word)
      requires Valid() && FastKey(vpn, privilege) !in Ways(kind).keys
      requires FastAgrees(FastPage(FastKey(vpn, privilege), page), kind, mm.Contents(), cr0, stale)
      modifies `fast, `victim
      ensures Valid() && Ways(kind) == FastPages.Touch(old(Ways(kind)), FastKey(vpn, privilege))
      ensures forall k: Access :: k != kind ==> Ways(k) == old(Ways(k))
    {
      hide TlbValid, FastAgrees;
      var k := Kind(kind);
      var v := victim[k];
      fast := fast[k := fast[k][v := FastPage(FastKey(vpn, privilege), page)]];
      victim := victim[k := (v + 1) % 3];
    }

    /** What one translation leaves: the walk's own answer; on success the fast-page cache of
        the kind touched and nothing latched, on a fault the reverse. */
    twostate predicate Answered(r: Translation, va: Word, kind: Access, privilege: bool)
      reads this, mm
    {
      && old(Valid()) && Valid() && stale == old(stale) && cr0 == old(cr0)
      && mm.Contents() == old(mm.Contents())
      && r == Paging.Translate(mm.Contents(), cr0, va, kind, privilege)
      && (r.At? ==> cr1 == old(cr1) && cr2 == old(cr2))
      && (r.Fault? ==> cr1 == va && cr2 == FaultWord(r.present, kind, privilege))
      && Ways(kind) == (if r.At? && Paged(cr0)
           then FastPages.Touch(old(Ways(kind)), FastKey(Vpn(va), privilege)) else old(Ways(kind)))
      && (forall k: Access :: k != kind ==> Ways(k) == old(Ways(k)))
    }

    /** A 4 KiB leaf takes its one TLB slot. */
    method FillTlb(e: TlbEntry)
      requires Valid() && TlbAgrees(e, mm.Contents(), cr0, stale)
      modifies `tlb
      ensures Valid() && forall k: Access :: Ways(k) == old(Ways(k))
    {
      hide TlbAgrees, FastValid;
      tlb := tlb[TlbIndex(e.tag) := e];
    }

    /** A permitted leaf: fill the fast page, and the TLB if it is a 4 KiB leaf. */
    method UseLeaf(va: Word, kind: Access, privilege: bool, pte: Word, level: nat) returns (pa: Word)
      requires Valid() && level < 4 && FastKey(Vpn(va), privilege) !in Ways(kind).keys
      requires LeafPage(pte, va, level).Page? && Walk(mm.Contents(), cr0, va) == LeafPage(pte, va, level)
      requires Permits(kind, privilege, Flag(pte, 1), Flag(pte, 2), Flag(pte, 3), Flag(pte, 4))
      modifies `fast, `victim, `tlb
      ensures Valid() && pa == Wrap(LeafPage(pte, va, level).base + va % 4096)
      ensures Ways(kind) == FastPages.Touch(old(Ways(kind)), FastKey(Vpn(va), privilege))
      ensures forall k: Access :: k != kind ==> Ways(k) == old(Ways(k))
    {
      hide Flag, PageBase, Span, Vpn, LeafPage, Walk, Permits;
      hide TlbValid, FastValid, TlbAgrees, FastAgrees, FastPages.Touch, WaysOf;
      LeafAddress(pte, va, level);
      LeafAgrees(mm.Contents(), cr0, stale, va, kind, privilege, pte, level);
      pa := PageBase(pte) + va % Span(level);
      Refill(kind, Vpn(va), privilege, PageBase(pa));
      if level == 0 {
        FillTlb(LeafEntry(pte, va));
      }
    }

    /** The four-level walk; every failure is a fault. */
    method Sv48Walk(va: Word, kind: Access, privilege: bool) returns (r: Translation)
      requires Valid() && Paged(cr0) && FastKey(Vpn(va), privilege) !in Ways(kind).keys
      modifies `cr1, `cr2, `fast, `victim, `tlb, mm
      ensures Answered(r, va, kind, privilege)
    {
      hide Flag, PageBase, Span, Vpn, LeafPage, Permits, TlbValid, FastValid, FastPages.Touch, WaysOf, LoadWord, Slot;
      ghost var m := mm.Contents();
      var table: Word, level: int := PageBase(cr0), 3;
      while level >= 0
        invariant -1 <= level <= 3 && (level >= 0 ==> WalkFrom(m, table, va, level) == Walk(m, cr0, va))
        invariant Valid() && mm.Contents() == m && Ways(kind) == old(Ways(kind))
        invariant forall k: Access :: Ways(k) == old(Ways(k))
        invariant level < 0 ==> Walk(m, cr0, va) == NoPage
        invariant cr1 == old(cr1) && cr2 == old(cr2)
      {
        var pte := ReadPte(Wrap(table + 8 * Slot(va, level)));
        if !Flag(pte, 0) {
          r := PageFault(va, kind, privilege, false);
          return;
        }
        if Flag(pte, 1) || Flag(pte, 2) || Flag(pte, 3) {
          r := TryLeaf(va, kind, privilege, pte, level);
          return;
        }
        table, level := PageBase(pte), level - 1;
      }
      r := PageFault(va, kind, privilege, false);
    }

    method TryLeaf(va: Word, kind: Access, privilege: bool, pte: Word, level: nat) returns (r: Translation)
      requires Valid() && Paged(cr0) && FastKey(Vpn(va), privilege) !in Ways(kind).keys
      requires level < 4 && Walk(mm.Contents(), cr0, va) == LeafPage(pte, va, level)
      modifies `cr1, `cr2, `fast, `victim, `tlb
      ensures Answered(r, va, kind, privilege)
    {
      hide Flag, PageBase, Span, Vpn, Walk, Permits, TlbValid, FastValid, FastPages.Touch, WaysOf;
      if Flag(pte, 2) && !Flag(pte, 1) {
        r := PageFault(va, kind, privilege, false);
        return;
      }
      if PageBase(pte) % Span(level) != 0 {
        r := PageFault(va, kind, privilege, false);
        return;
      }
      if !Permits(kind, privilege, Flag(pte, 1), Flag(pte, 2), Flag(pte, 3), Flag(pte, 4)) {
        r := PageFault(va, kind, privilege, true);
        return;
      }
      var pa := UseLeaf(va, kind, privilege, pte, level);
      r := At(pa);
    }

    /** TLB probe, then the walk. A hit checks permission against the cached bits. */
    method TranslateSlow(va: Word, kind: Access, privilege: bool) returns (r: Translation)
      requires Valid() && Paged(cr0) && FastKey(Vpn(va), privilege) !in Ways(kind).keys
      requires Vpn(va) !in stale
      modifies `cr1, `cr2, `fast, `victim, `tlb, mm
      ensures Answered(r, va, kind, privilege)
    {
      hide Vpn, Permits, FastValid, FastPages.Touch, WaysOf, Walk, PageOf;
      var e := tlb[TlbIndex(Vpn(va))];
      if e.valid && e.tag == Vpn(va) {
        HitIsWalk(e, mm.Contents(), cr0, stale, va);
        r := UseTlb(e, va, kind, privilege);
      } else {
        r := Sv48Walk(va, kind, privilege);
      }
    }

    /** A TLB hit: permission by the cached bits, and the fast page filled from the entry. */
    method UseTlb(e: TlbEntry, va: Word, kind: Access, privilege: bool) returns (r: Translation)
      requires Valid() && Paged(cr0) && FastKey(Vpn(va), privilege) !in Ways(kind).keys
      requires Walk(mm.Contents(), cr0, va) == Page(e.ppn, e.r, e.w, e.x, e.u)
      modifies `cr1, `cr2, `fast, `victim
      ensures Answered(r, va, kind, privilege)
    {
      hide Vpn, Permits, FastValid, TlbValid, FastPages.Touch, WaysOf, Walk, PageOf;
      if !Permits(kind, privilege, e.r, e.w, e.x, e.u) {
        r := PageFault(va, kind, privilege, true);
        return;
      }
      WalkIsPerPage(mm.Contents(), cr0, va);
      Refill(kind, Vpn(va), privilege, e.ppn);
      r := At(Wrap(e.ppn + va % 4096));
    }

    /** Bare mode is the identity; otherwise probe the kind's three ways before the slow path. */
    method Translate(va: Word, kind: Access, privilege: bool) returns (r: Translation)
      requires Valid() && (Paged(cr0) ==> Vpn(va) !in stale)
      modifies `cr1, `cr2, `fast, `victim, `tlb, `misses, mm
      ensures Answered(r, va, kind, privilege)
      ensures |misses| == 3 && misses[Kind(kind)] == old(misses[Kind(kind)])
        + if Paged(cr0) && FastKey(Vpn(va), privilege) !in old(Ways(kind)).keys then 1 else 0
    {
      hide Vpn, Permits, TlbValid, Walk;
      if !Paged(cr0) {
        return At(va);
      }
      var k, key := Kind(kind), FastKey(Vpn(va), privilege);
      var w := 0;
      while w < FastPages.WAYS
        invariant 0 <= w <= 3 && forall j :: 0 <= j < w ==> fast[k][j].key != key
      {
        if fast[k][w].key == key {
          assert FastAgrees(fast[k][w], kind, mm.Contents(), cr0, stale);
          WalkIsPerPage(mm.Contents(), cr0, va);
          assert key in Ways(kind).keys by { KeyAt(fast[k], victim[k], w); }
          return At(Wrap(fast[k][w].page + va % 4096));
        }
        w := w + 1;
      }
      assert key !in Ways(kind).keys;
      misses := misses[k := misses[k] + 1];
      r := TranslateSlow(va, kind, privilege);
    }

    method FlushAll()
      requires Valid()
      modifies `tlb, `fast, `stale
      ensures Valid() && stale == iset{}
      ensures forall k: Access :: Ways(k) == FastPages.Ways([0, 0, 0], old(Ways(k)).victim)
      ensures forall i :: 0 <= i < 64 ==> !tlb[i].valid
      ensures forall k, w :: 0 <= k < 3 && 0 <= w < 3 ==> fast[k][w].key == 0
    {
      hide PageOf, Permits;
      var entries, rows := tlb, fast;
      for i := 0 to TLB_SLOTS
        invariant |entries| == TLB_SLOTS && forall j :: 0 <= j < i ==> !entries[j].valid
      {
        entries := entries[i := entries[i].(valid := false)];
      }
      for k := 0 to 3
        invariant |rows| == 3 && forall j :: 0 <= j < k ==> rows[j] == ClearRow(fast[j])
        invariant forall j :: k <= j < 3 ==> rows[j] == fast[j]
      {
        rows := rows[k := ClearRow(rows[k])];
      }
      tlb, fast, stale := entries, rows, iset{};
    }

    /** Drop the page of `va` from the TLB and from every kind, way and privilege. */
    method FlushVa(va: Word)
      requires Valid()
      modifies `tlb, `fast, `stale
      ensures Valid() && stale == old(stale) - iset{Vpn(va)}
      ensures forall i :: 0 <= i < TLB_SLOTS && tlb[i].valid ==> tlb[i].tag != Vpn(va)
      ensures forall k, w :: 0 <= k < 3 && 0 <= w < 3 && fast[k][w].key != 0 ==> (fast[k][w].key - 1) / 2 != Vpn(va)
    {
      hide Vpn, FastAgrees, TlbAgrees, DropRow, RowValid, TlbValid;
      var vpn := Vpn(va);
      var i := TlbIndex(vpn);
      ghost var m, s := mm.Contents(), stale;
      TlbDropped(tlb, m, cr0, s, vpn);
      TlbHasOne(tlb, m, cr0, s, vpn);
      RowDropped(fast[0], Fetch, m, cr0, s, vpn);
      RowDropped(fast[1], Read, m, cr0, s, vpn);
      RowDropped(fast[2], Write, m, cr0, s, vpn);
      if tlb[i].valid && tlb[i].tag == vpn {
        tlb := tlb[i := tlb[i].(valid := false)];
      }
      fast := [DropRow(fast[0], vpn), DropRow(fast[1], vpn), DropRow(fast[2], vpn)];
      stale := stale - iset{vpn};
    }

    /** MOVTCR: CR0 keeps only MODE and PPN and flushes everything; an undefined register is
        ignored. */
    method CrWrite(crn: nat, value: Word)
      requires Valid()
      modifies `cr0, `cr1, `cr2, `tlb, `fast, `stale
      ensures Valid()
      ensures cr0 == (if crn == 0 then SatpOf(value) else old(cr0))
      ensures cr1 == (if crn == 1 then value else old(cr1))
      ensures cr2 == (if crn == 2 then value else old(cr2))
      ensures stale == if crn == 0 then iset{} else old(stale)
    {
      hide FastAgrees, TlbAgrees;
      if crn == 0 {
        FlushAll();
        cr0 := SatpOf(value);
        EmptyAgrees(tlb, fast, mm.Contents(), cr0);
      } else if crn == 1 {
        cr1 := value;
      } else if crn == 2 {
        cr2 := value;
      }
    }

    /** Any store to memory, page tables included. */
    method Edit(address: Word, bytes: seq<Byte>)
      requires Valid() && |bytes| < SPACE
      modifies `stale, mm
      ensures Valid() && mm.Contents() == Store(old(mm.Contents()), address, bytes)
      ensures stale == old(stale) + Changed(old(mm.Contents()), mm.Contents(), cr0)
    {
      hide RowValid, TlbValid, Changed;
      ghost var m := mm.Contents();
      mm.WriteFrom(address, bytes);
      Edited(m);
    }

    /** One word, as the stack pushes store it. */
    method EditWord(address: Word, x: Word)
      requires Valid()
      modifies `stale, mm
      ensures Valid() && mm.Contents() == StoreWord(old(mm.Contents()), address, x)
      ensures stale == old(stale) + Changed(old(mm.Contents()), mm.Contents(), cr0)
    {
      hide RowValid, TlbValid, Changed;
      ghost var m := mm.Contents();
      var n := mm.WriteBytes(address, x, 8);
      Edited(m);
    }

    /** Account for a store just made: a page whose walk changed is stale from now on. */
    ghost method Edited(m: Flat)
      requires mm.Valid() && TlbValid(tlb, m, cr0, stale) && FastValid(fast, m, cr0, stale)
      requires |victim| == 3 && victim[0] < 3 && victim[1] < 3 && victim[2] < 3 && |misses| == 3
      modifies `stale
      ensures Valid() && stale == old(stale) + Changed(m, mm.Contents(), cr0)
    {
      hide RowValid, TlbValid, Changed;
      ghost var m' := mm.Contents();
      TlbEdited(tlb, m, m', cr0, stale);
      RowEdited(fast[0], Fetch, m, m', cr0, stale);
      RowEdited(fast[1], Read, m, m', cr0, stale);
      RowEdited(fast[2], Write, m, m', cr0, stale);
      stale := stale + Changed(m, m', cr0);
    }

    /** The state without its caches. */
    ghost function View(): Plain
      reads this, mm
      requires Valid()
    {
      Plain(mm.Contents(), cr0, cr1, cr2, stale)
    }

    /** Any run of accesses, control-register writes, flushes and memory edits in which a page
        whose walk changed is flushed before it is used again: every answer, fault and latch is
        what the walk alone gives. */
    method Serve(events: seq<Event>) returns (answers: seq<Translation>)
      requires Valid() && Disciplined(View(), events)
      modifies this, mm
      ensures Valid() && answers == Answers(old(View()), events) && View() == AfterAll(old(View()), events)
    {
      hide Vpn, Walk, TlbValid, FastValid, FastPages.Touch, WaysOf, Changed, After, AnswerOf;
      answers := [];
      var n := 0;
      ghost var start := View();
      while n < |events|
        invariant 0 <= n <= |events| && Valid() && Disciplined(View(), events[n..])
        invariant Answers(start, events) == answers + Answers(View(), events[n..])
        invariant AfterAll(start, events) == AfterAll(View(), events[n..])
      {
        ghost var before := View();
        assert events[n..][1..] == events[n + 1..];
        var more := One(events[n]);
        answers := answers + more;
        n := n + 1;
      }
    }

    method One(e: Event) returns (answers: seq<Translation>)
      requires Valid() && Allowed(View(), e)
      modifies this, mm
      ensures Valid() && answers == AnswerOf(old(View()), e) && View() == After(old(View()), e)
    {
      hide Vpn, Walk, TlbValid, FastValid, FastPages.Touch, WaysOf, Changed, Paging.Translate;
      answers := [];
      match e
      case Access(va, kind, privilege) =>
        var r := Translate(va, kind, privilege);
        answers := [r];
      case WriteCr(crn, value) => CrWrite(crn, value);
      case Tlbinv => FlushAll();
      case Tlbinva(va) => FlushVa(va);
      case StoreBytes(address, bytes) => Edit(address, bytes);
    }

    /** A flush-free run of accesses of one kind under Sv48. When all succeed, the slow path is
        entered exactly as often as the page numbers alone predict, and at most once for each
        distinct page and privilege if there are no more than three. */
    method AccessRun(kind: Access, run: seq<(Word, bool)>) returns (answers: seq<Translation>)
      requires Valid() && Paged(cr0) && forall a :: a in run ==> Vpn(a.0) !in stale
      modifies `cr1, `cr2, `fast, `victim, `tlb, `misses, mm
      ensures Valid() && |answers| == |run| && mm.Contents() == old(mm.Contents()) && cr0 == old(cr0)
      ensures forall n :: 0 <= n < |run| ==>
        answers[n] == Paging.Translate(mm.Contents(), cr0, run[n].0, kind, run[n].1)
      ensures (forall n :: 0 <= n < |run| ==> answers[n].At?) ==>
        && misses[Kind(kind)] == old(misses[Kind(kind)]) + FastPages.Misses(old(Ways(kind)), KeysOf(run))
        && (|FastPages.Distinct(KeysOf(run))| <= 3 ==>
              misses[Kind(kind)] <= old(misses[Kind(kind)]) + |FastPages.Distinct(KeysOf(run))|)
    {
      hide Vpn, Walk, TlbValid, FastValid, FastPages.Touch, WaysOf, Paging.Translate, FastPages.Distinct;
      answers := [];
      ghost var w, hits := Ways(kind), true;
      ghost var keys, before := KeysOf(run), misses[Kind(kind)];
      while |answers| < |run|
        invariant |answers| <= |run| && Valid() && mm.Contents() == old(mm.Contents())
        invariant cr0 == old(cr0) && stale == old(stale)
        invariant forall n :: 0 <= n < |answers| ==>
          answers[n] == Paging.Translate(mm.Contents(), cr0, run[n].0, kind, run[n].1)
        invariant hits <==> forall n :: 0 <= n < |answers| ==> answers[n].At?
        invariant hits ==>
          before + FastPages.Misses(w, keys) == misses[Kind(kind)] + FastPages.Misses(Ways(kind), keys[|answers|..])
      {
        var a := run[|answers|];
        assert keys[|answers|..][1..] == keys[|answers| + 1..];
        var r := Translate(a.0, kind, a.1);
        hits := hits && r.At?;
        answers := answers + [r];
      }
      if |FastPages.Distinct(keys)| <= 3 {
        FastPages.MissBound(w, keys);
      }
    }
  }

  /** The fast-page keys of a run. */
  function KeysOf(run: seq<(Word, bool)>): seq<nat> {
    seq(|run|, i requires 0 <= i < |run| => FastKey(Vpn(run[i].0), run[i].1))
  }

  // ---- translation without caches, over runs ---------------------------------------------------

  datatype Event =
    | Access(va: Word, kind: Access, privilege: bool)
    | WriteCr(crn: nat, value: Word)
    | Tlbinv
    | Tlbinva(va: Word)
    | StoreBytes(address: Word, bytes: seq<Byte>)

  datatype Plain = Plain(mem: Flat, cr0: Word, cr1: Word, cr2: Word, stale: iset<nat>)

  ghost predicate Allowed(p: Plain, e: Event) {
    && (e.Access? && Paged(p.cr0) ==> Vpn(e.va) !in p.stale)
    && (e.StoreBytes? ==> |e.bytes| < SPACE)
  }

  ghost function AnswerOf(p: Plain, e: Event): seq<Translation> {
    if e.Access? then [Translate(p.mem, p.cr0, e.va, e.kind, e.privilege)] else []
  }

  ghost function After(p: Plain, e: Event): Plain
    requires Allowed(p, e)
  {
    match e
    case Access(va, kind, privilege) =>
      var r := Translate(p.mem, p.cr0, va, kind, privilege);
      if r.At? then p else p.(cr1 := va, cr2 := FaultWord(r.present, kind, privilege))
    case WriteCr(crn, value) =>
      if crn == 0 then p.(cr0 := SatpOf(value), stale := iset{})
      else if crn == 1 then p.(cr1 := value) else if crn == 2 then p.(cr2 := value) else p
    case Tlbinv => p.(stale := iset{})
    case Tlbinva(va) => p.(stale := p.stale - iset{Vpn(va)})
    case StoreBytes(address, bytes) =>
      var m := Store(p.mem, address, bytes);
      p.(mem := m, stale := p.stale + Changed(p.mem, m, p.cr0))
  }

  ghost predicate Disciplined(p: Plain, events: seq<Event>)
    decreases |events|
  {
    events == [] || (Allowed(p, events[0]) && Disciplined(After(p, events[0]), events[1..]))
  }

  ghost function Answers(p: Plain, events: seq<Event>): seq<Translation>
    requires Disciplined(p, events)
    decreases |events|
  {
    if events == [] then [] else AnswerOf(p, events[0]) + Answers(After(p, events[0]), events[1..])
  }

  ghost function AfterAll(p: Plain, events: seq<Event>): Plain
    requires Disciplined(p, events)
    decreases |events|
  {
    if events == [] then p else AfterAll(After(p, events[0]), events[1..])
  }

  // ---- supporting facts --------------------------------------------------------------------------

  /** Reserved SATP bits 11:4 are forced to zero. */
  function SatpOf(value: Word): Word {
    value - (value / 16 % 256) * 16
  }

  /** Pages whose walk differs between two memories. */
  ghost function Changed(m: Flat, m': Flat, satp: Word): iset<nat> {
    iset v: nat | v < TAGS && PageOf(m, satp, v) != PageOf(m', satp, v)
  }

  lemma TlbDropped(tlb: seq<TlbEntry>, m: Flat, satp: Word, stale: iset<nat>, vpn: nat)
    requires TlbValid(tlb, m, satp, stale)
    ensures |tlb| == TLB_SLOTS
    ensures var i := TlbIndex(vpn);
      TlbValid(if tlb[i].valid && tlb[i].tag == vpn then tlb[i := tlb[i].(valid := false)] else tlb,
               m, satp, stale - iset{vpn})
  {
    hide PageOf;
  }

  /** Only one slot of a direct-mapped TLB can hold a page. */
  lemma TlbHasOne(tlb: seq<TlbEntry>, m: Flat, satp: Word, stale: iset<nat>, vpn: nat)
    requires TlbValid(tlb, m, satp, stale)
    ensures |tlb| == TLB_SLOTS
    ensures forall i :: 0 <= i < TLB_SLOTS && tlb[i].valid && tlb[i].tag == vpn ==> i == TlbIndex(vpn)
  {
    hide TlbAgrees;
  }

  lemma RowDropped(fs: seq<FastPage>, kind: Access, m: Flat, satp: Word, stale: iset<nat>, vpn: nat)
    requires RowValid(fs, kind, m, satp, stale)
    ensures |fs| == 3 && RowValid(DropRow(fs, vpn), kind, m, satp, stale - iset{vpn})
    ensures |DropRow(fs, vpn)| == 3
    ensures forall w :: 0 <= w < 3 && DropRow(fs, vpn)[w].key != 0 ==> (DropRow(fs, vpn)[w].key - 1) / 2 != vpn
  {
    hide PageOf, Permits;
    forall i | 0 <= i < 3 ensures FastAgrees(Drop(fs[i], vpn), kind, m, satp, stale - iset{vpn}) {
      assert FastAgrees(fs[i], kind, m, satp, stale);
    }
  }

  lemma TlbEdited(tlb: seq<TlbEntry>, m: Flat, m': Flat, satp: Word, stale: iset<nat>)
    requires TlbValid(tlb, m, satp, stale)
    ensures TlbValid(tlb, m', satp, stale + Changed(m, m', satp))
  {
    hide PageOf;
  }

  lemma RowEdited(fs: seq<FastPage>, kind: Access, m: Flat, m': Flat, satp: Word, stale: iset<nat>)
    requires RowValid(fs, kind, m, satp, stale)
    ensures RowValid(fs, kind, m', satp, stale + Changed(m, m', satp))
  {
    hide PageOf, Permits;
    forall i | 0 <= i < 3 ensures FastAgrees(fs[i], kind, m', satp, stale + Changed(m, m', satp)) {
      assert FastAgrees(fs[i], kind, m, satp, stale);
    }
  }

  /** Caches that hold nothing agree with any page tables. */
  lemma EmptyAgrees(tlb: seq<TlbEntry>, fast: seq<seq<FastPage>>, m: Flat, satp: Word)
    requires |tlb| == TLB_SLOTS && (forall i :: 0 <= i < 64 ==> !tlb[i].valid)
    requires |fast| == 3 && |fast[0]| == 3 && |fast[1]| == 3 && |fast[2]| == 3
    requires forall k, w :: 0 <= k < 3 && 0 <= w < 3 ==> fast[k][w].key == 0
    ensures TlbValid(tlb, m, satp, iset{}) && FastValid(fast, m, satp, iset{})
  {
  }

  function ClearRow(fs: seq<FastPage>): seq<FastPage>
    requires |fs| == 3
  {
    [fs[0].(key := 0), fs[1].(key := 0), fs[2].(key := 0)]
  }

  function Drop(f: FastPage, vpn: nat): FastPage {
    if f.key != 0 && (f.key - 1) / 2 == vpn then f.(key := 0) else f
  }

  function DropRow(fs: seq<FastPage>, vpn: nat): seq<FastPage>
    requires |fs| == 3
  {
    [Drop(fs[0], vpn), Drop(fs[1], vpn), Drop(fs[2], vpn)]
  }

  lemma KeyAt(fs: seq<FastPage>, victim: nat, w: nat)
    requires |fs| == 3 && victim < 3 && w < 3
    ensures fs[w].key in WaysOf(fs, victim).keys
  {
    assert WaysOf(fs, victim).keys[w] == fs[w].key;
  }

  function LeafEntry(pte: Word, va: Word): TlbEntry {
    TlbEntry(true, Vpn(va), PageBase(pte), Flag(pte, 1), Flag(pte, 2), Flag(pte, 3), Flag(pte, 4))
  }

  /** What a permitted leaf puts in the caches is what the walk of its page says. */
  lemma LeafAgrees(m: Flat, satp: Word, stale: iset<nat>, va: Word, kind: Access, privilege: bool,
                   pte: Word, level: nat)
    requires level < 4 && LeafPage(pte, va, level).Page? && Walk(m, satp, va) == LeafPage(pte, va, level)
    requires Permits(kind, privilege, Flag(pte, 1), Flag(pte, 2), Flag(pte, 3), Flag(pte, 4))
    ensures PageBase(pte) + va % Span(level) < SPACE
    ensures var page := PageBase(PageBase(pte) + va % Span(level));
      FastAgrees(FastPage(FastKey(Vpn(va), privilege), page), kind, m, satp, stale)
    ensures level == 0 ==> TlbAgrees(LeafEntry(pte, va), m, satp, stale)
  {
    hide Flag, PageBase, Span, Vpn, LeafPage, Walk, Permits;
    LeafAddress(pte, va, level);
    WalkIsPerPage(m, satp, va);
  }

  /** A TLB entry for the page of `va` that is not stale is the walk of `va`. */
  lemma HitIsWalk(e: TlbEntry, m: Flat, satp: Word, stale: iset<nat>, va: Word)
    requires TlbAgrees(e, m, satp, stale) && e.valid && e.tag == Vpn(va) && Vpn(va) !in stale
    ensures Walk(m, satp, va) == Page(e.ppn, e.r, e.w, e.x, e.u)
  {
    hide Walk, Vpn, PageOf;
    WalkIsPerPage(m, satp, va);
  }

  /** Offset and base of a leaf's address meet without carrying. */
  lemma LeafAddress(pte: Word, va: Word, level: nat)
    requires level < 4 && LeafPage(pte, va, level).Page?
    ensures PageBase(pte) + va % Span(level) < SPACE
    ensures var p := LeafPage(pte, va, level);
      && PageBase(PageBase(pte) + va % Span(level)) == p.base
      && PageBase(pte) + va % Span(level) == Wrap(p.base + va % 4096)
      && (level == 0 ==> p.base == PageBase(pte))
      && p == Page(p.base, Flag(pte, 1), Flag(pte, 2), Flag(pte, 3), Flag(pte, 4))
  {
    hide Flag, Span, Pages;
    var base, n := PageBase(pte), Pages(level);
    LeafInRange(base, va, level);
    InSpan(va, n);
    OnePage(base, (va / 4096) % n, va % 4096);
    if level == 0 { SmallestSpan(); }
  }

  /** Pages and an offset within one, on top of a page base. */
  lemma OnePage(base: Word, t: nat, offset: nat)
    requires base % 4096 == 0 && offset < 4096 && base + 4096 * t + offset < SPACE
    ensures PageBase(base + 4096 * t + offset) == base + 4096 * t
  {
  }

  lemma SmallestSpan()
    ensures Span(0) == 4096
  {
  }
}
