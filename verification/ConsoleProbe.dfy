/** The Windows console reader: a pre-read byte buffer, and a readiness probe over the console's
    record queue that may flush only records no console mode can turn into a byte. */
module ConsoleProbe {

  const PEEK_CAP: nat := 256
  const PREREAD_CAP: nat := 8192

  /** A queued input record: a key event, or a mouse, resize, focus or menu event. */
  datatype Record = Key(down: bool, vk: nat, ch: nat) | Other

  datatype Mode = Mode(lineInput: bool, vtInput: bool)

  /** Arrows, Home to Delete, F1 to F12, Backspace, Tab and Return. */
  predicate VtTranslated(vk: nat) {
    0x21 <= vk <= 0x28 || vk == 0x2D || vk == 0x2E || 0x70 <= vk <= 0x7B || vk == 0x08 || vk == 0x09 || vk == 0x0D
  }

  /** Shift, Control, Alt, Windows, Apps and the lock keys. */
  predicate BareModifierOrLock(vk: nat) {
    0x10 <= vk <= 0x12 || vk == 0x14 || 0x5B <= vk <= 0x5D || vk == 0x90 || vk == 0x91 || 0xA0 <= vk <= 0xA5
  }

  predicate YieldsByte(r: Record, mode: Mode) {
    r.Key? && r.down && (r.ch != 0 || (mode.vtInput && VtTranslated(r.vk)))
  }

  predicate Unreadable(r: Record) {
    r.Other? || !r.down || (r.ch == 0 && BareModifierOrLock(r.vk))
  }

  /** The flush list is safe in every mode, and short of exact by precisely the key presses that
      carry no character and are neither translated nor modifiers. */
  lemma UnreadableExactly(r: Record)
    ensures Unreadable(r) <==>
      && (forall mode :: !YieldsByte(r, mode))
      && !(r.Key? && r.down && r.ch == 0 && !VtTranslated(r.vk) && !BareModifierOrLock(r.vk))
  {
    if r.Key? && r.down && !Unreadable(r) && VtTranslated(r.vk) {
      assert YieldsByte(r, Mode(false, true));
    }
    if r.Key? && r.down && r.ch != 0 {
      assert YieldsByte(r, Mode(false, false));
    }
  }

  /** A key press with no character yields bytes only in VT input mode, and only from Backspace, Tab,
      Return, Page Up and Down, End, Home, the arrows, Insert, Delete and F1 to F12. */
  lemma TranslatedKeys(vk: nat, mode: Mode)
    ensures YieldsByte(Key(true, vk, 0), mode) <==> mode.vtInput && vk in {
      0x08, 0x09, 0x0D, 0x21, 0x22, 0x23, 0x24, 0x25, 0x26, 0x27, 0x28, 0x2D, 0x2E,
      0x70, 0x71, 0x72, 0x73, 0x74, 0x75, 0x76, 0x77, 0x78, 0x79, 0x7A, 0x7B}
  {
  }

  /** A press that carries a character always yields; a key-up or any other event never does. */
  lemma CharactersYield(vk: nat, ch: nat, mode: Mode)
    ensures ch != 0 ==> YieldsByte(Key(true, vk, ch), mode)
    ensures !YieldsByte(Key(false, vk, ch), mode) && !YieldsByte(Other, mode)
  {
  }

  /** Characterless presses that may be flushed: Shift, Control, Alt, Caps Lock, the Windows and Apps
      keys, Num Lock, Scroll Lock and the left and right modifiers. */
  lemma FlushableKeys(vk: nat)
    ensures Unreadable(Key(true, vk, 0)) <==> vk in {
      0x10, 0x11, 0x12, 0x14, 0x5B, 0x5C, 0x5D, 0x90, 0x91, 0xA0, 0xA1, 0xA2, 0xA3, 0xA4, 0xA5}
  {
  }

  /** Length of the leading run of unreadable records. */
  function Lead(q: seq<Record>): (n: nat)
    ensures n <= |q| && forall i :: 0 <= i < n ==> Unreadable(q[i])
    ensures n < |q| ==> !Unreadable(q[n])
    decreases |q|
  {
    if q == [] || !Unreadable(q[0]) then 0 else 1 + Lead(q[1..])
  }

  lemma {:induction false} LeadIs(q: seq<Record>, n: nat)
    requires n <= |q| && (forall i :: 0 <= i < n ==> Unreadable(q[i])) && (n < |q| ==> !Unreadable(q[n]))
    ensures Lead(q) == n
    decreases |q|
  {
    if n > 0 {
      LeadIs(q[1..], n - 1);
    }
  }

  // ---- raw probes on a quiet host -----------------------------------------------------------------------

  function Window(q: seq<Record>): seq<Record> {
    if |q| < PEEK_CAP then q else q[..PEEK_CAP]
  }

  predicate AnyYields(rec: seq<Record>, mode: Mode) {
    exists i :: 0 <= i < |rec| && YieldsByte(rec[i], mode)
  }

  predicate Visible(q: seq<Record>, mode: Mode) {
    AnyYields(Window(q), mode)
  }

  /** A raw-mode probe that nothing races: the answer, and the queue it leaves. */
  function RawProbe(q: seq<Record>, mode: Mode): (int, seq<Record>) {
    if Visible(q, mode) then (1, q) else (0, q[Lead(Window(q))..])
  }

  /** The queue after `n` probes. */
  function RawProbes(q: seq<Record>, mode: Mode, n: nat): seq<Record>
    decreases n
  {
    if n == 0 then q else RawProbes(RawProbe(q, mode).1, mode, n - 1)
  }

  /** Some byte-yielding record lies within a window of the first record the flush keeps. */
  predicate Reachable(q: seq<Record>, mode: Mode) {
    exists j :: 0 <= j < |q| && YieldsByte(q[j], mode) && j - Lead(q) < PEEK_CAP
  }

  /** Dropping leading unreadable records moves every later record up and keeps its distance
      from the first one kept. */
  lemma DropKeepsReachable(q: seq<Record>, mode: Mode, d: nat)
    requires d <= Lead(q)
    ensures Reachable(q[d..], mode) <==> Reachable(q, mode)
  {
    hide Lead;
    var rest := q[d..];
    LeadDrops(q, d);
    if Reachable(rest, mode) {
      var j :| 0 <= j < |rest| && YieldsByte(rest[j], mode) && j - Lead(rest) < PEEK_CAP;
      assert YieldsByte(q[j + d], mode);
    }
    if Reachable(q, mode) {
      var j :| 0 <= j < |q| && YieldsByte(q[j], mode) && j - Lead(q) < PEEK_CAP;
      assert j >= Lead(q);
      assert YieldsByte(rest[j - d], mode);
    }
  }

  lemma WindowLead(q: seq<Record>)
    ensures Lead(Window(q)) <= Lead(q) && (Lead(Window(q)) == 0 ==> Lead(q) == 0)
  {
  }

  lemma NearIsVisible(q: seq<Record>, mode: Mode)
    requires Reachable(q, mode) && Lead(q) == 0
    ensures Visible(q, mode)
  {
    var j :| 0 <= j < |q| && YieldsByte(q[j], mode) && j - Lead(q) < PEEK_CAP;
    assert Window(q)[j] == q[j];
  }

  lemma ProbeKeepsReachable(q: seq<Record>, mode: Mode)
    ensures Reachable(RawProbe(q, mode).1, mode) <==> Reachable(q, mode)
    ensures Reachable(q, mode) && !Visible(q, mode) ==> |RawProbe(q, mode).1| < |q|
  {
    hide Lead, Reachable, Visible, Window;
    WindowLead(q);
    DropKeepsReachable(q, mode, Lead(Window(q)));
    if Reachable(q, mode) && Lead(q) == 0 {
      NearIsVisible(q, mode);
    }
  }

  lemma VisibleIsReachable(q: seq<Record>, mode: Mode)
    requires Visible(q, mode)
    ensures Reachable(q, mode)
  {
    var i :| 0 <= i < |Window(q)| && YieldsByte(Window(q)[i], mode);
    assert YieldsByte(q[i], mode) && i - Lead(q) < PEEK_CAP;
  }

  lemma {:induction false} ProbesReach(q: seq<Record>, mode: Mode) returns (n: nat)
    requires Reachable(q, mode)
    ensures Visible(RawProbes(q, mode, n), mode)
    decreases |q|
  {
    hide Reachable, Visible, RawProbe;
    if Visible(q, mode) {
      n := 0;
    } else {
      ProbeKeepsReachable(q, mode);
      var m := ProbesReach(RawProbe(q, mode).1, mode);
      n := m + 1;
    }
  }

  lemma {:induction false} ProbesStay(q: seq<Record>, mode: Mode, n: nat)
    ensures Reachable(RawProbes(q, mode, n), mode) ==> Reachable(q, mode)
    decreases n
  {
    if n > 0 {
      ProbeKeepsReachable(q, mode);
      ProbesStay(RawProbe(q, mode).1, mode, n - 1);
    }
  }

  /** Some number of probes ends with an answer of 1. */
  ghost predicate Found(q: seq<Record>, mode: Mode) {
    exists n: nat :: Visible(RawProbes(q, mode, n), mode)
  }

  /** Repeated raw probes find waiting input exactly when it lies within a window of the first
      record they may not flush: any run of unreadable records is seen through, of any length. */
  lemma HeldModifierHidesNothing(q: seq<Record>, mode: Mode)
    ensures Found(q, mode) <==> Reachable(q, mode)
  {
    if Reachable(q, mode) {
      var n := ProbesReach(q, mode);
      assert Visible(RawProbes(q, mode, n), mode);
    }
    if Found(q, mode) {
      var n: nat :| Visible(RawProbes(q, mode, n), mode);
      VisibleIsReachable(RawProbes(q, mode, n), mode);
      ProbesStay(q, mode, n);
    }
  }

  /** Input can stay hidden: 256 presses of a key that is neither translated nor flushable. */
  lemma EscapesHide(q: seq<Record>, mode: Mode)
    requires q == seq(PEEK_CAP, _ => Key(true, 0x1B, 0)) + [Key(true, 0x41, 0x61)]
    ensures YieldsByte(q[PEEK_CAP], mode) && !Found(q, mode)
  {
    LeadIs(q, 0);
    HeldModifierHidesNothing(q, mode);
  }

  // ---- the reader -------------------------------------------------------------------------------------------

  /** One answer of the host to a record read: how many it hands over, and what was queued
      behind the caller's back just before. */
  datatype Reply = Reply(taken: nat, arrivals: seq<Record>)

  /** One answer of the host to a byte read. */
  datatype Fill = Bytes(data: seq<nat>) | EndOfInput | Failed

  /** A record that has left the queue, and whether a probe flushed it or a read used it up. */
  datatype Removal = Removal(record: Record, byProbe: bool)

  function Records(removed: seq<Removal>): (rs: seq<Record>)
    ensures |rs| == |removed| && forall i :: 0 <= i < |rs| ==> rs[i] == removed[i].record
  {
    seq(|removed|, i requires 0 <= i < |removed| => removed[i].record)
  }

  function Marked(rs: seq<Record>, byProbe: bool): (removed: seq<Removal>)
    ensures |removed| == |rs| && forall i :: 0 <= i < |rs| ==> removed[i] == Removal(rs[i], byProbe)
  {
    seq(|rs|, i requires 0 <= i < |rs| => Removal(rs[i], byProbe))
  }

  predicate Harmless(removed: seq<Removal>) {
    forall i :: 0 <= i < |removed| && removed[i].byProbe ==> Unreadable(removed[i].record)
  }

  ghost predicate Quiet(host: nat -> Reply) {
    forall k :: host(k).arrivals == [] && host(k).taken >= 32
  }

  datatype Event =
    | Probe(mode: Mode, counted: bool, peeked: nat, host: nat -> Reply)
    /** A read of up to `count` bytes; a fill may use up any number of queued records. */
    | Read(count: nat, fill: Fill, used: nat)
    | Arrive(records: seq<Record>)

  function Fewer(a: int, b: int): int { if a < b then a else b }

  /** `after` extends `before` with records flushed by probes. */
  predicate FlushedOnly(before: seq<Removal>, after: seq<Removal>) {
    before <= after && forall i :: |before| <= i < |after| ==> after[i].byProbe
  }

  predicate Terminates(r: Record) {
    r.Key? && r.down && (r.ch == 0x0D || r.ch == 0x1A)
  }

  predicate AnyTerminates(rec: seq<Record>) {
    exists i :: 0 <= i < |rec| && Terminates(rec[i])
  }

  /** The records a peek sees when the host returns `peeked` of those asked for. */
  function Peek(q: seq<Record>, peeked: nat): seq<Record> {
    if peeked < |Window(q)| then q[..peeked] else Window(q)
  }

  /** The readiness answer. */
  function Answer(q: seq<Record>, pending: bool, mode: Mode, counted: bool, peeked: nat): int {
    var rec := Peek(q, peeked);
    if pending || !counted then 1
    else if mode.lineInput then
      if |rec| == PEEK_CAP || AnyTerminates(rec) then 1 else 0
    else if AnyYields(rec, mode) then 1 else 0
  }

  class Reader {
    const pre: array<nat>
    var len: nat
    var pos: nat
    var fillWasFull: bool
    /** The console's own record queue. */
    var queue: seq<Record>

    /** Everything ever queued, everything that left the queue, every byte the host filled in and
        every byte handed to the guest. */
    ghost var arrived: seq<Record>
    ghost var removed: seq<Removal>
    ghost var filled: seq<nat>
    ghost var handed: seq<nat>

    ghost predicate QueueKept()
      reads `queue, `removed, `arrived
    {
      Records(removed) + queue == arrived && Harmless(removed)
    }

    ghost predicate BytesKept()
      reads `pos, `len, `handed, `filled, pre
    {
      pre.Length == PREREAD_CAP && pos <= len <= PREREAD_CAP && handed + pre[pos..len] == filled
    }

    ghost predicate Valid()
      reads this, pre
    {
      QueueKept() && BytesKept()
    }

    constructor ()
      ensures Valid() && fresh(pre) && queue == [] && handed == [] && filled == []
    {
      pre := new nat[PREREAD_CAP];
      len, pos, fillWasFull, queue := 0, 0, false, [];
      arrived, removed, filled, handed := [], [], [], [];
    }

    method ArriveAtTail(records: seq<Record>)
      requires QueueKept()
      modifies `queue, `arrived
      ensures QueueKept() && queue == old(queue) + records && arrived == old(arrived) + records
    {
      queue := queue + records;
      arrived := arrived + records;
    }

    method TakeFromHead(n: nat, ghost byProbe: bool)
      requires QueueKept() && n <= |queue| && (byProbe ==> n <= Lead(queue))
      modifies `queue, `removed
      ensures QueueKept() && queue == old(queue)[n..]
      ensures removed == old(removed) + Marked(old(queue)[..n], byProbe)
    {
      ghost var out := Marked(queue[..n], byProbe);
      assert Records(removed + out) + queue[n..] == Records(removed) + queue;
      queue := queue[n..];
      removed := removed + out;
    }

    static method LeadingRun(rec: seq<Record>) returns (run: nat)
      ensures run == Lead(rec)
    {
      run := 0;
      while run < |rec| && Unreadable(rec[run])
        invariant run <= |rec| && forall i :: 0 <= i < run ==> Unreadable(rec[i])
      {
        run := run + 1;
      }
      LeadIs(rec, run);
    }

    /** One record read of at most `want`, during which more records may be queued. */
    method ReadRecords(want: nat, reply: Reply) returns (taken: nat)
      requires QueueKept() && want <= Lead(queue)
      modifies `queue, `arrived, `removed
      ensures QueueKept() && taken <= want && Lead(queue) >= old(Lead(queue)) - taken
      ensures taken == (if reply.taken < want then reply.taken else want)
      ensures reply.arrivals == [] ==> queue == old(queue)[taken..]
      ensures old(arrived) <= arrived && FlushedOnly(old(removed), removed)
    {
      hide QueueKept, Lead, FlushedOnly, Marked;
      LeadGrows(queue, reply.arrivals);
      ArriveAtTail(reply.arrivals);
      taken := if reply.taken < want then reply.taken else want;
      LeadDrops(queue, taken);
      MarkedFlushed(removed, queue[..taken]);
      TakeFromHead(taken, true);
    }

    /** Consumes the leading run in batches of 32, stopping if the host gives nothing. */
    method FlushLeadingUnreadable(rec: seq<Record>, host: nat -> Reply)
      requires QueueKept() && rec <= queue
      modifies `queue, `arrived, `removed
      ensures QueueKept()
      ensures Quiet(host) ==> queue == old(queue)[Lead(rec)..]
      ensures old(arrived) <= arrived && FlushedOnly(old(removed), removed)
    {
      hide QueueKept, Lead, FlushedOnly, Unreadable, Quiet;
      LeadOfPrefix(queue, rec);
      FlushedChain(removed, removed, removed);
      var run := LeadingRun(rec);
      ghost var lead := run;
      var calls := 0;
      while run > 0
        invariant 0 <= run <= lead && QueueKept() && run <= Lead(queue)
        invariant Quiet(host) ==> Dropped(old(queue), lead - run, queue)
        invariant old(arrived) <= arrived && FlushedOnly(old(removed), removed)
      {
        ghost var so, q := removed, queue;
        var taken := ReadRecords(if run < 32 then run else 32, host(calls));
        FlushedChain(old(removed), so, removed);
        QuietAt(host, calls);
        DropMore(old(queue), lead - run, q, taken);
        calls := calls + 1;
        if taken == 0 {
          return;
        }
        run := run - taken;
      }
    }

    predicate PreReadPending()
      reads this
    {
      pos < len || fillWasFull
    }

    /** Cooked mode: only a queued line terminator, or a full window, counts. */
    static method LineReady(rec: seq<Record>) returns (r: int)
      ensures r == if |rec| == PEEK_CAP || AnyTerminates(rec) then 1 else 0
    {
      for i := 0 to |rec|
        invariant forall j :: 0 <= j < i ==> !Terminates(rec[j])
      {
        if rec[i].Other? || !rec[i].down { continue; }
        if rec[i].ch == 0x0D || rec[i].ch == 0x1A { return 1; }
      }
      return if |rec| == PEEK_CAP then 1 else 0;
    }

    static method FindByte(rec: seq<Record>, mode: Mode) returns (some: bool)
      ensures some <==> AnyYields(rec, mode)
    {
      for i := 0 to |rec|
        invariant forall j :: 0 <= j < i ==> !YieldsByte(rec[j], mode)
      {
        if YieldsByte(rec[i], mode) { return true; }
      }
      return false;
    }

    /** `counted`: the event-count call succeeded; `peeked`: how many records the peek returned,
        at most those it asked for. */
    method ConsoleReady(mode: Mode, counted: bool, peeked: nat, host: nat -> Reply) returns (r: int)
      requires Valid()
      modifies `queue, `arrived, `removed
      ensures Valid() && r == Answer(old(queue), PreReadPending(), mode, counted, peeked)
      ensures PreReadPending() ==> queue == old(queue)
      ensures old(arrived) <= arrived && FlushedOnly(old(removed), removed)
      ensures mode.lineInput ==> queue == old(queue)
      ensures !PreReadPending() && counted && peeked >= PEEK_CAP && !mode.lineInput && Quiet(host) ==>
        queue == if r == 1 then old(queue) else old(queue)[Lead(Window(old(queue)))..]
    {
      hide QueueKept, BytesKept, Lead, AnyYields, AnyTerminates;
      NothingThere(mode);
      if PreReadPending() { return 1; }
      if !counted { return 1; }
      if |queue| == 0 {
        NothingToFlush(queue);
        return 0;
      }
      var want := if |queue| < PEEK_CAP then |queue| else PEEK_CAP;
      var got := if peeked < want then peeked else want;
      if got == 0 { return 0; }
      var rec := queue[..got];
      assert rec == Peek(queue, peeked);
      if mode.lineInput {
        r := LineReady(rec);
        return;
      }
      var some := FindByte(rec, mode);
      if some { return 1; }
      FlushLeadingUnreadable(rec, host);
      return 0;
    }

    /** The one place host bytes come in. */
    method FillBuffer(data: seq<nat>)
      requires Valid() && pos == len && |data| <= PREREAD_CAP
      modifies `pos, `len, `fillWasFull, `filled, pre
      ensures Valid() && pos == 0 && len == |data| && filled == old(filled) + data
      ensures fillWasFull == (|data| == PREREAD_CAP)
    {
      hide QueueKept;
      for i := 0 to |data|
        invariant pre[..i] == data[..i]
        modifies pre
      {
        pre[i] := data[i];
      }
      pos, len, fillWasFull := 0, |data|, |data| == PREREAD_CAP;
      filled := filled + data;
      assert pre[0..len] == data;
    }

    /** At most one fill per call; a failed fill hands out nothing. */
    method ReadConsole(count: nat, fill: Fill) returns (rc: int, buf: seq<nat>)
      requires Valid() && (fill.Bytes? ==> |fill.data| <= PREREAD_CAP)
      modifies `pos, `len, `fillWasFull, `filled, `handed, pre
      ensures Valid() && handed == old(handed) + buf
      ensures filled == old(filled) + (if count > 0 && old(pos == len) && fill.Bytes? then fill.data else [])
      ensures rc == (if count > 0 && old(pos == len) && fill.Failed? then -1 else |buf|)
      ensures |buf| == Fewer(count, if old(pos < len) then old(len - pos) else if fill.Bytes? then |fill.data| else 0)
    {
      hide QueueKept;
      buf := [];
      if count == 0 {
        return 0, [];
      }
      if pos == len {
        pos, len, fillWasFull := 0, 0, false;
        match fill
        case Failed => return -1, [];
        case EndOfInput => return 0, [];
        case Bytes(data) =>
          FillBuffer(data);
          if |data| == 0 { return 0, []; }
      }
      buf := HandOut(count);
      return |buf|, buf;
    }

    /** Up to `count` buffered bytes, in order. */
    method HandOut(count: nat) returns (buf: seq<nat>)
      requires Valid()
      modifies `pos, `handed
      ensures Valid() && handed == old(handed) + buf && |buf| == Fewer(count, old(len - pos))
    {
      hide QueueKept;
      var avail := len - pos;
      var n := if count < avail then count else avail;
      buf := pre[pos..pos + n];
      assert pre[pos..len] == buf + pre[pos + n..len];
      pos := pos + n;
      handed := handed + buf;
    }

    /** Any interleaving of probes in any mode, reads, and new input: no byte is lost, repeated or
        reordered, and no probe ever removed a record that some mode could turn into a byte. */
    method Operate(events: seq<Event>)
      requires Valid()
      modifies this, pre
      ensures Valid()
      ensures handed + pre[pos..len] == filled && old(handed) <= handed && old(filled) <= filled
      ensures Records(removed) + queue == arrived && old(removed) <= removed && old(arrived) <= arrived
      ensures Harmless(removed)
    {
      for n := 0 to |events|
        invariant Valid() && old(handed) <= handed && old(filled) <= filled
        invariant old(removed) <= removed && old(arrived) <= arrived
      {
        match events[n]
        case Probe(mode, counted, peeked, host) =>
          var r := ConsoleReady(mode, counted, peeked, host);
        case Arrive(records) =>
          ArriveAtTail(records);
        case Read(count, fill, used) =>
          if pos == len {
            TakeFromHead(if used < |queue| then used else |queue|, false);
          }
          var rc, buf := ReadConsole(count, match fill
            case Bytes(data) => Bytes(if |data| <= PREREAD_CAP then data else data[..PREREAD_CAP])
            case _ => fill);
      }
    }
  }

  lemma NothingThere(mode: Mode)
    ensures !AnyYields([], mode) && !AnyTerminates([])
  {
  }

  /** On a quiet host, with nothing buffered, a raw-mode answer is the one RawProbe gives. */
  lemma AnswerIsRawProbe(q: seq<Record>, mode: Mode, peeked: nat)
    requires !mode.lineInput && peeked >= PEEK_CAP
    ensures Answer(q, false, mode, true, peeked) == RawProbe(q, mode).0
  {
    assert Peek(q, peeked) == Window(q);
  }

  /** A key press that makes a read non-blocking: Enter or Ctrl-Z in cooked mode; in raw mode one that
      carries a character or that VT input mode translates. */
  predicate Completes(r: Record, mode: Mode) {
    && r.Key? && r.down
    && if mode.lineInput then r.ch == 13 || r.ch == 26 else r.ch != 0 || YieldsByte(Key(true, r.vk, 0), mode)
  }

  /** Ready exactly when bytes are in hand, the count failed, a completing press lies within what the
      peek returned, or a cooked peek came back full. */
  lemma ReadyExactly(q: seq<Record>, pending: bool, mode: Mode, counted: bool, peeked: nat)
    ensures Answer(q, pending, mode, counted, peeked) in {0, 1}
    ensures Answer(q, pending, mode, counted, peeked) == 1 <==>
      || pending || !counted || (mode.lineInput && |q| >= 256 && peeked >= 256)
      || exists i :: 0 <= i < |q| && i < 256 && i < peeked && Completes(q[i], mode)
  {
    var rec := Peek(q, peeked);
    assert |rec| <= 256 && |rec| <= peeked && rec == q[..|rec|];
    forall i | 0 <= i < |rec|
      ensures Completes(q[i], mode) <==> if mode.lineInput then Terminates(rec[i]) else YieldsByte(rec[i], mode)
    {
      assert rec[i] == q[i];
    }
    if i :| 0 <= i < |q| && i < 256 && i < peeked && Completes(q[i], mode) {
      assert i < |rec| && Completes(q[i], mode);
    }
  }

  lemma NothingToFlush(q: seq<Record>)
    requires q == []
    ensures Lead(Window(q)) == 0
  {
  }

  lemma LeadOfPrefix(q: seq<Record>, rec: seq<Record>)
    requires rec <= q
    ensures Lead(rec) <= Lead(q)
  {
  }

  predicate Dropped(q: seq<Record>, n: nat, rest: seq<Record>) {
    n <= |q| && rest == q[n..]
  }

  lemma DropMore(q: seq<Record>, n: nat, rest: seq<Record>, more: nat)
    ensures Dropped(q, n, rest) && more <= |rest| ==> Dropped(q, n + more, rest[more..])
  {
  }

  lemma QuietAt(host: nat -> Reply, k: nat)
    ensures Quiet(host) ==> host(k).arrivals == [] && host(k).taken >= 32
  {
  }

  lemma FlushedChain(a: seq<Removal>, b: seq<Removal>, c: seq<Removal>)
    ensures FlushedOnly(a, a)
    ensures FlushedOnly(a, b) && FlushedOnly(b, c) ==> FlushedOnly(a, c)
  {
  }

  lemma MarkedFlushed(removed: seq<Removal>, rs: seq<Record>)
    ensures FlushedOnly(removed, removed + Marked(rs, true))
  {
  }

  lemma LeadGrows(q: seq<Record>, more: seq<Record>)
    ensures Lead(q + more) >= Lead(q)
  {
  }

  lemma LeadDrops(q: seq<Record>, n: nat)
    requires n <= Lead(q)
    ensures Lead(q[n..]) == Lead(q) - n
  {
    LeadIs(q[n..], Lead(q) - n);
  }
}
