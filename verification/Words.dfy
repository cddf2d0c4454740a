/** Machine words, their little-endian bytes, and the flat byte memory that every
    memory-touching part of the machine is specified against. */
module Words {

  const SPACE: int := 0x1_0000_0000_0000_0000

  type Word = x: int | 0 <= x < 0x1_0000_0000_0000_0000
  type Byte = x: int | 0 <= x < 256

  /** Unsigned 64-bit wrap-around of one addition or subtraction. */
  function Wrap(x: int): Word
    requires -SPACE <= x < 2 * SPACE
  {
    if x < 0 then x + SPACE else if x < SPACE then x else x - SPACE
  }

  // ---- little-endian byte strings -------------------------------------------------

  /** The low `n` bytes of `v`, least significant first. */
  function ToBytes(v: nat, n: nat): (bs: seq<Byte>)
    ensures |bs| == n
  {
    if n == 0 then [] else [v % 256] + ToBytes(v / 256, n - 1)
  }

  function FromBytes(bs: seq<Byte>): (v: nat) {
    if bs == [] then 0 else bs[0] + 256 * FromBytes(bs[1..])
  }

  function Pow256(n: nat): (p: nat)
    ensures p > 0
  {
    if n == 0 then 1 else 256 * Pow256(n - 1)
  }

  /** Storing the low `n` bytes and loading them back yields the value modulo 256^n. */
  lemma {:induction false} BytesRoundTrip(v: nat, n: nat)
    ensures FromBytes(ToBytes(v, n)) == v % Pow256(n)
  {
    if n > 0 {
      BytesRoundTrip(v / 256, n - 1);
      assert ToBytes(v, n)[1..] == ToBytes(v / 256, n - 1);
      ModSplit(v, Pow256(n - 1));
    }
  }

  lemma ModSplit(v: nat, p: nat)
    requires p > 0
    ensures v % (256 * p) == v % 256 + 256 * ((v / 256) % p)
  {
    var q, r := (v / 256) / p, (v / 256) % p;
    assert v == 256 * (q * p + r) + v % 256;
    assert v == q * (256 * p) + (256 * r + v % 256) by {
      assert 256 * (q * p) == q * (256 * p);
    }
    DivModUnique(v, 256 * p, q, 256 * r + v % 256);
  }

  lemma AtLeastOnce(k: int, d: int)
    requires k >= 1 && d > 0
    ensures k * d >= d
  {
    assert k * d == (k - 1) * d + d;
  }

  lemma SubsetSize<T>(a: set<T>, b: set<T>)
    requires a <= b
    ensures |a| <= |b|
  {
    assert b == a + (b - a);
  }

  /** Division with remainder has one answer. */
  lemma DivModUnique(x: int, d: int, q: int, r: int)
    requires d > 0 && x == q * d + r && 0 <= r < d
    ensures x / d == q && x % d == r
  {
    var q', r' := x / d, x % d;
    assert (q' - q) * d == r - r' by {
      assert x == q' * d + r';
      assert (q' - q) * d == q' * d - q * d;
    }
    if q' > q {
      AtLeastOnce(q' - q, d);
      assert false;
    } else if q' < q {
      AtLeastOnce(q - q', d);
      assert false;
    }
  }

  lemma DivOfDiv(x: int, a: int, b: int)
    requires a > 0 && b > 0
    ensures (x / a) / b == x / (a * b)
  {
    var q, r := x / a, x % a;
    var t, s := q / b, q % b;
    assert x == q * a + r && q == t * b + s;
    assert x == t * (a * b) + (s * a + r) by {
      assert (t * b + s) * a == t * (a * b) + s * a;
    }
    assert 0 <= s * a + r < a * b by {
      AtLeastOnce(b - s, a);
      assert (b - s) * a == a * b - s * a;
      assert s * a >= 0;
    }
    DivModUnique(x, a * b, t, s * a + r);
  }

  lemma Pow256Of8()
    ensures Pow256(8) == SPACE
  {
    assert Pow256(4) == 0x1_0000_0000;
  }

  lemma WordRoundTrip(v: Word)
    ensures FromBytes(ToBytes(v, 8)) == v
  {
    BytesRoundTrip(v, 8);
    Pow256Of8();
  }

  /** Eight bytes always make a word. */
  lemma {:induction false} FromBytesBound(bs: seq<Byte>)
    ensures FromBytes(bs) < Pow256(|bs|)
  {
    if bs != [] {
      FromBytesBound(bs[1..]);
    }
  }

  lemma {:induction false} ToBytesOfFromBytes(bs: seq<Byte>)
    ensures ToBytes(FromBytes(bs), |bs|) == bs
  {
    if bs != [] {
      ToBytesOfFromBytes(bs[1..]);
      var v := FromBytes(bs[1..]);
      assert (bs[0] + 256 * v) % 256 == bs[0] && (bs[0] + 256 * v) / 256 == v;
    }
  }

  lemma {:induction false} ToBytesAt(v: nat, n: nat, k: nat)
    requires k < n
    ensures ToBytes(v, n)[k] == (v / Pow256(k)) % 256
  {
    if k > 0 {
      ToBytesAt(v / 256, n - 1, k - 1);
      DivOfDiv(v, 256, Pow256(k - 1));
    }
  }

  // ---- the flat 2^64-byte memory ----------------------------------------------------

  ghost predicate Total(m: imap<Word, Byte>) {
    forall a: Word {:trigger m[a]} {:trigger a in m} :: a in m
  }

  ghost predicate Cell(a: Word) { true }

  type Flat = m: imap<Word, Byte> | Total(m)
    ghost witness imap a: Word {:trigger Cell(a)} | Cell(a) :: 0

  ghost function ZeroMemory(): Flat {
    imap a: Word {:trigger Cell(a)} | Cell(a) :: 0
  }

  /** The `n` bytes from `a` on, wrapping past the top of the address space. */
  ghost function Load(m: Flat, a: Word, n: nat): (bs: seq<Byte>)
    requires n <= SPACE
    ensures |bs| == n
    ensures forall k | 0 <= k < n :: bs[k] == m[Wrap(a + k)]
  {
    seq(n, k requires 0 <= k < n => m[Wrap(a + k)])
  }

  /** `m` with `bs` laid down from `a` on, wrapping past the top of the address space. */
  ghost function Store(m: Flat, a: Word, bs: seq<Byte>): Flat
    requires |bs| <= SPACE
  {
    imap x: Word | x in m :: if Wrap(x - a) < |bs| then bs[Wrap(x - a)] else m[x]
  }

  ghost function LoadWord(m: Flat, a: Word): Word {
    var bs := Load(m, a, 8);
    FromBytesBound(bs);
    Pow256Of8();
    FromBytes(bs)
  }

  ghost function StoreWord(m: Flat, a: Word, v: Word): Flat {
    Store(m, a, ToBytes(v, 8))
  }

  /** Two byte ranges that do not meet, on the wrapping address circle. */
  ghost predicate Apart(a: Word, n: nat, b: Word, k: nat) {
    n + k <= SPACE && Wrap(b - a) >= n && Wrap(a - b) >= k
  }

  lemma LoadAfterStore(m: Flat, a: Word, bs: seq<Byte>)
    requires |bs| <= SPACE
    ensures Load(Store(m, a, bs), a, |bs|) == bs
  {
    forall k | 0 <= k < |bs| ensures Load(Store(m, a, bs), a, |bs|)[k] == bs[k] {
      assert Wrap(Wrap(a + k) - a) == k;
    }
  }

  lemma LoadAfterStoreApart(m: Flat, a: Word, bs: seq<Byte>, b: Word, n: nat)
    requires Apart(a, |bs|, b, n)
    ensures Load(Store(m, a, bs), b, n) == Load(m, b, n)
  {
    forall k | 0 <= k < n ensures Load(Store(m, a, bs), b, n)[k] == Load(m, b, n)[k] {
      assert Wrap(Wrap(b + k) - a) >= |bs|;
    }
  }

  /** Laying down two byte strings end to end is laying down their concatenation. */
  lemma StoreAppend(m: Flat, a: Word, xs: seq<Byte>, ys: seq<Byte>)
    requires |xs| + |ys| < SPACE
    ensures Store(Store(m, a, xs), Wrap(a + |xs|), ys) == Store(m, a, xs + ys)
  {
  }

  lemma StorePrepend(m: Flat, a: Word, xs: seq<Byte>, ys: seq<Byte>)
    requires |xs| + |ys| < SPACE
    ensures Store(Store(m, Wrap(a + |xs|), ys), a, xs) == Store(m, a, xs + ys)
  {
  }

  lemma StoreNothing(m: Flat, a: Word)
    ensures Store(m, a, []) == m
  {
  }

  lemma LoadAppend(m: Flat, a: Word, i: nat, j: nat)
    requires i + j < SPACE
    ensures Load(m, a, i + j) == Load(m, a, i) + Load(m, Wrap(a + i), j)
  {
  }

  lemma LoadWordAfterStoreWord(m: Flat, a: Word, v: Word)
    ensures LoadWord(StoreWord(m, a, v), a) == v
  {
    LoadAfterStore(m, a, ToBytes(v, 8));
    WordRoundTrip(v);
  }
}
