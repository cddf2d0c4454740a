/** Sv48 translation without any cache: the four-level walk over the flat memory. */
module Paging {
  import opened Words

  datatype Access = Fetch | Read | Write

  /** A 4 KiB window's physical base and permissions, or no valid mapping. */
  datatype Page = NoPage | Page(base: Word, r: bool, w: bool, x: bool, u: bool)

  datatype Translation = At(pa: Word) | Fault(present: bool)

  const TAGS: int := 0x10_0000_0000   // 2^36 virtual page numbers: VA[47:12]

  /** VA[63:48] is ignored. */
  function Vpn(va: Word): (v: nat)
    ensures v < TAGS
  {
    (va / 4096) % 0x10_0000_0000
  }

  function PageBase(a: Word): Word {
    a - a % 4096
  }

  /** Bytes mapped by one leaf at each level. */
  function Span(level: nat): (s: nat)
    requires level < 4
    ensures s >= 4096
  {
    if level == 0 then 0x1000 else if level == 1 then 0x20_0000
    else if level == 2 then 0x4000_0000 else 0x80_0000_0000
  }

  /** Where the 9-bit index of a level sits in the address. */
  function Slot(va: Word, level: nat): (i: nat)
    requires level < 4
    ensures i < 512
  {
    (va / Span(level)) % 512
  }

  function Flag(pte: Word, bit: nat): bool
    requires bit < 5
  {
    var below := if bit == 0 then 1 else if bit == 1 then 2 else if bit == 2 then 4 else if bit == 3 then 8 else 16;
    (pte / below) % 2 == 1
  }

  /** A leaf's window for `va`: rejected when write-only or when its low page number bits are
      not clear for its level. */
  function LeafPage(pte: Word, va: Word, level: nat): Page
    requires level < 4
  {
    var r, w := Flag(pte, 1), Flag(pte, 2);
    if w && !r then NoPage
    else if PageBase(pte) % Span(level) != 0 then NoPage
    else
      LeafInRange(PageBase(pte), va, level);
      Page(PageBase(pte) + (va % Span(level) - va % 4096), r, w, Flag(pte, 3), Flag(pte, 4))
  }

  lemma LeafInRange(base: Word, va: Word, level: nat)
    requires level < 4 && base % Span(level) == 0
    ensures 0 <= base + (va % Span(level) - va % 4096) && base + va % Span(level) < SPACE
  {
    var n := Pages(level);
    var k := if level == 0 then 0x10_0000_0000_0000 else if level == 1 then 0x800_0000_0000
             else if level == 2 then 0x4_0000_0000 else 0x200_0000;
    assert Span(level) * k == SPACE;
    hide Span, Pages;
    InSpan(va, n);
    RoomAbove(base, Span(level), k);
  }

  /** A multiple of `s` below k * s leaves room for s more. */
  lemma RoomAbove(base: nat, s: nat, k: nat)
    requires s > 0 && base % s == 0 && base < s * k
    ensures base + s <= s * k
  {
    var q := base / s;
    assert base == q * s;
    assert q >= k ==> (q - k) * s >= 0;
    AtLeastOnce(k - q, s);
    assert (k - q) * s == s * k - base;
  }

  ghost function WalkFrom(m: Flat, table: Word, va: Word, level: nat): Page
    requires level < 4
    decreases level
  {
    var pte := LoadWord(m, Wrap(table + 8 * Slot(va, level)));
    if !Flag(pte, 0) then NoPage
    else if Flag(pte, 1) || Flag(pte, 2) || Flag(pte, 3) then LeafPage(pte, va, level)
    else if level == 0 then NoPage
    else WalkFrom(m, PageBase(pte), va, level - 1)
  }

  ghost function Walk(m: Flat, satp: Word, va: Word): Page {
    WalkFrom(m, PageBase(satp), va, 3)
  }

  /** X for a fetch, R for a load, W for a store; user mode also needs U. */
  predicate Permits(kind: Access, privilege: bool, r: bool, w: bool, x: bool, u: bool) {
    (match kind case Fetch => x case Read => r case Write => w) && (privilege || u)
  }

  predicate Paged(satp: Word) {
    satp % 16 == 1
  }

  /** Translation as the page tables alone define it. */
  ghost function Translate(m: Flat, satp: Word, va: Word, kind: Access, privilege: bool): Translation {
    if !Paged(satp) then At(va)
    else
      match Walk(m, satp, va)
      case NoPage => Fault(false)
      case Page(base, r, w, x, u) =>
        if Permits(kind, privilege, r, w, x, u) then
          At(Wrap(base + va % 4096))
        else Fault(true)
  }

  /** The walk of a page number. */
  ghost function PageOf(m: Flat, satp: Word, vpn: nat): Page
    requires vpn < TAGS
  {
    Walk(m, satp, vpn * 4096)
  }

  // ---- one walk serves a whole page --------------------------------------------------------------

  /** Pages in one leaf of each level. */
  function Pages(level: nat): (n: nat)
    requires level < 4
    ensures n > 0 && Span(level) == 4096 * n
  {
    if level == 0 then 1 else if level == 1 then 0x200 else if level == 2 then 0x4_0000 else 0x800_0000
  }

  /** Dropping a multiple of 512n changes neither the index nor the remainder modulo n. */
  lemma DropHigh(q: nat, n: nat, k: nat, v: nat, h: nat)
    requires n > 0 && q == h * (n * 512 * k) + v
    ensures (q / n) % 512 == (v / n) % 512 && q % n == v % n
  {
    var a, b := v / n, v % n;
    assert v == a * n + b;
    var c := 512 * (h * k) + a;
    assert q == c * n + b by {
      assert h * (n * 512 * k) == 512 * (h * k) * n;
      assert c * n == 512 * (h * k) * n + a * n;
    }
    DivModUnique(q, n, c, b);
  }

  lemma SlotOfVpn(va: Word, level: nat)
    requires level < 4
    ensures Slot(va, level) == Slot(Vpn(va) * 4096, level)
    ensures va % Span(level) - va % 4096 == (Vpn(va) * 4096) % Span(level)
  {
    var q, n := va / 4096, Pages(level);
    var k := if level == 0 then 0x800_0000 else if level == 1 then 0x4_0000 else if level == 2 then 0x200 else 1;
    assert n * 512 * k == TAGS;
    DropHigh(q, n, k, Vpn(va), q / TAGS);
    DivOfDiv(va, 4096, n);
    DivOfDiv(Vpn(va) * 4096, 4096, n);
    hide Pages, Span;
    InSpan(va, n);
    InSpan(Vpn(va) * 4096, n);
  }

  lemma InSpan(x: nat, n: nat)
    requires n > 0
    ensures x % (4096 * n) == 4096 * ((x / 4096) % n) + x % 4096
  {
    var q := x / 4096;
    var t, s := q / n, q % n;
    assert q == t * n + s;
    assert x == t * (4096 * n) + (4096 * s + x % 4096) by { assert 4096 * (t * n) == t * (4096 * n); }
    DivModUnique(x, 4096 * n, t, 4096 * s + x % 4096);
  }

  lemma LeafIsPerPage(pte: Word, va: Word, level: nat)
    requires level < 4
    ensures LeafPage(pte, va, level) == LeafPage(pte, Vpn(va) * 4096, level)
  {
    SlotOfVpn(va, level);
    assert (Vpn(va) * 4096) % 4096 == 0;
    hide Flag, PageBase, Span, Vpn;
  }

  lemma {:induction false} WalkFromPage(m: Flat, table: Word, va: Word, level: nat)
    requires level < 4
    ensures WalkFrom(m, table, va, level) == WalkFrom(m, table, Vpn(va) * 4096, level)
    decreases level
  {
    hide Slot, Flag, PageBase, Span, Vpn, LeafPage, LoadWord;
    SlotOfVpn(va, level);
    var pte := LoadWord(m, Wrap(table + 8 * Slot(va, level)));
    LeafIsPerPage(pte, va, level);
    if level > 0 {
      WalkFromPage(m, PageBase(pte), va, level - 1);
    }
  }

  /** Every address of a page, and every alias in the ignored high half, walks alike. */
  lemma WalkIsPerPage(m: Flat, satp: Word, va: Word)
    ensures Walk(m, satp, va) == PageOf(m, satp, Vpn(va))
  {
    WalkFromPage(m, PageBase(satp), va, 3);
  }
}
