/** Guest memory: 4 KiB blocks allocated on first touch, found through a current-block
    register, a direct-mapped L1 of block pointers and a map. Every operation is specified
    on the flat 2^64-byte memory of module Words. */
module Memory {
  import opened Words

  const BLOCK: int := 4096
  const L1_SLOTS: int := 8192

  /** Base of the 4 KiB block that holds `a`. */
  function BaseOf(a: Word): (b: Word)
    ensures 0 <= a - b < BLOCK
  {
    a - a % 4096
  }

  /** Direct-mapped L1 slot of a block. */
  function SlotOf(base: Word): (s: nat)
    ensures s < L1_SLOTS
  {
    (base / 4096) % 8192
  }

  lemma BaseIdempotent(a: Word)
    ensures BaseOf(BaseOf(a)) == BaseOf(a)
  {
  }

  // ---- blocks ---------------------------------------------------------------------------

  /** `u_byte*`: the index of an allocation in the arena; Null is the null pointer. */
  datatype Ptr = Null | To(block: nat)

  function Splice(s: seq<Byte>, idx: nat, xs: seq<Byte>): (r: seq<Byte>)
    requires idx + |xs| <= |s|
    ensures |r| == |s|
  {
    s[..idx] + xs + s[idx + |xs|..]
  }

  lemma SpliceNothing(s: seq<Byte>, idx: nat, xs: seq<Byte>)
    requires idx <= |s| && |xs| == 0
    ensures Splice(s, idx, xs) == s
  {
  }

  /** Peeling the low byte of what is left advances the split point by one. */
  lemma NextByte(all: seq<Byte>, k: nat, v: Word, count: nat)
    requires k < count == |all| && ToBytes(v, count - k) == all[k..]
    ensures all[..k] + [v % 256] == all[..k + 1] && ToBytes(v / 256, count - (k + 1)) == all[k + 1..]
  {
    assert all[k] == v % 256 && all[k..][1..] == all[k + 1..];
  }

  lemma SpliceAt(s: seq<Byte>, idx: nat, xs: seq<Byte>, k: nat)
    requires idx + |xs| <= |s| && k < |s|
    ensures Splice(s, idx, xs)[k] == if idx <= k < idx + |xs| then xs[k - idx] else s[k]
  {
  }

  lemma SpliceWhole(s: seq<Byte>, xs: seq<Byte>)
    requires |xs| == |s|
    ensures Splice(s, 0, xs) == xs
  {
  }

  lemma SpliceOneMore(s: seq<Byte>, idx: nat, xs: seq<Byte>, x: Byte)
    requires idx + |xs| < |s|
    ensures Splice(s, idx, xs + [x]) == Splice(s, idx, xs)[idx + |xs| := x]
  {
  }

  /** Every mapped base is block-aligned and owns one whole arena block of its own. */
  ghost predicate Owned(mm: map<Word, nat>, arena: seq<seq<Byte>>, owner: seq<Word>) {
    && |owner| == |arena|
    && (forall i :: 0 <= i < |arena| ==> |arena[i]| == BLOCK)
    && (forall b :: b in mm ==> BaseOf(b) == b && mm[b] < |arena| && owner[mm[b]] == b)
  }

  /** The flat memory a block map stands for: a byte without a block reads zero. */
  ghost function FlatOf(mm: map<Word, nat>, arena: seq<seq<Byte>>, owner: seq<Word>): Flat
    requires Owned(mm, arena, owner)
  {
    imap a: Word {:trigger Cell(a)} | Cell(a) ::
      if BaseOf(a) in mm then arena[mm[BaseOf(a)]][a - BaseOf(a)] else 0
  }

  /** A run of bytes inside one block, seen from any address. */
  lemma InsideBlock(a: Word, b: Word, idx: nat, n: nat)
    requires BaseOf(b) == b && idx + n <= BLOCK && idx < BLOCK
    ensures b + idx < SPACE
    ensures Wrap(a - (b + idx)) < n <==> BaseOf(a) == b && idx <= a - b < idx + n
    ensures Wrap(a - (b + idx)) < n ==> Wrap(a - (b + idx)) == a - b - idx
  {
  }

  /** Allocating a zero-filled block changes no guest-visible byte. */
  lemma AllocationInvisible(mm: map<Word, nat>, arena: seq<seq<Byte>>, owner: seq<Word>, b: Word)
    requires Owned(mm, arena, owner) && BaseOf(b) == b && b !in mm
    ensures Owned(mm[b := |arena|], arena + [seq(BLOCK, _ => 0)], owner + [b])
    ensures FlatOf(mm[b := |arena|], arena + [seq(BLOCK, _ => 0)], owner + [b]) == FlatOf(mm, arena, owner)
  {
    hide BaseOf;
  }

  /** Overwriting inside one block is a store into the flat memory. */
  lemma SpliceIsStore(mm: map<Word, nat>, arena: seq<seq<Byte>>, owner: seq<Word>, b: Word, idx: nat, xs: seq<Byte>)
    requires Owned(mm, arena, owner) && b in mm && idx < BLOCK && idx + |xs| <= BLOCK
    ensures b + idx < SPACE
    ensures FlatOf(mm, arena[mm[b] := Splice(arena[mm[b]], idx, xs)], owner)
         == Store(FlatOf(mm, arena, owner), b + idx, xs)
  {
    hide BaseOf;
    InsideBlock(b, b, idx, |xs|);
    var arena' := arena[mm[b] := Splice(arena[mm[b]], idx, xs)];
    var l, r := FlatOf(mm, arena', owner), Store(FlatOf(mm, arena, owner), b + idx, xs);
    forall a: Word ensures l[a] == r[a] {
      InsideBlock(a, b, idx, |xs|);
    }
  }

  lemma SliceIsLoad(mm: map<Word, nat>, arena: seq<seq<Byte>>, owner: seq<Word>, b: Word, idx: nat, n: nat)
    requires Owned(mm, arena, owner) && b in mm && idx < BLOCK && idx + n <= BLOCK
    ensures b + idx < SPACE
    ensures arena[mm[b]][idx..idx + n] == Load(FlatOf(mm, arena, owner), b + idx, n)
  {
    InsideBlock(b, b, idx, n);
    hide BaseOf;
    var l, r := arena[mm[b]][idx..idx + n], Load(FlatOf(mm, arena, owner), b + idx, n);
    forall k | 0 <= k < n ensures l[k] == r[k] {
      InsideBlock(b + idx + k, b, idx, n);
    }
  }

  // ---- the block store -------------------------------------------------------------------

  class MemoryModule {
    /** Every block allocated so far; pointers index it, and blocks are never freed. */
    var arena: seq<seq<Byte>>
    var memoryMap: map<Word, nat>
    var l1Ptr: seq<Ptr>
    var l1Base: seq<Word>
    /** Base of the block `cache` points at; not block-aligned means none yet. */
    var cacheBase: Word
    var cache: Ptr
    var highestBlock: Word
    var anyBlock: bool

    /** The base each allocation was made for. */
    ghost var owner: seq<Word>

    /** The memory a guest sees. */
    ghost function Contents(): Flat
      reads this
      requires Owned(memoryMap, arena, owner)
    {
      FlatOf(memoryMap, arena, owner)
    }

    /** Every filled L1 slot points at its own map block. */
    ghost predicate L1Valid()
      reads this
    {
      && |l1Ptr| == L1_SLOTS && |l1Base| == L1_SLOTS
      && (forall s :: 0 <= s < L1_SLOTS && l1Ptr[s].To? ==>
            l1Base[s] in memoryMap && memoryMap[l1Base[s]] == l1Ptr[s].block && SlotOf(l1Base[s]) == s)
    }

    ghost predicate HighestValid()
      reads this
    {
      && (anyBlock <==> memoryMap != map[])
      && (anyBlock ==> highestBlock in memoryMap)
      && (forall b :: b in memoryMap ==> b <= highestBlock)
    }

    ghost predicate StoreValid()
      reads this
    {
      Owned(memoryMap, arena, owner) && L1Valid() && HighestValid()
    }

    /** The current-block register, once it names a block, points at that block too. */
    ghost predicate Valid()
      reads this
    {
      && StoreValid()
      && (BaseOf(cacheBase) == cacheBase ==> cacheBase in memoryMap && cache == To(memoryMap[cacheBase]))
    }

    constructor ()
      ensures Valid() && Contents() == ZeroMemory()
    {
      arena, owner, memoryMap := [], [], map[];
      l1Ptr, l1Base := seq(L1_SLOTS, _ => Null), seq(L1_SLOTS, _ => 0);
      cacheBase, cache := SPACE - 1, Null;
      highestBlock, anyBlock := 0, false;
    }

    /** First touch of a block: allocate it zero-filled. */
    method Allocate(base: Word)
      requires StoreValid() && BaseOf(base) == base && base !in memoryMap
      modifies `arena, `owner, `memoryMap, `highestBlock, `anyBlock
      ensures StoreValid() && base in memoryMap && Contents() == old(Contents())
    {
      hide BaseOf, SlotOf, FlatOf, Owned;
      AllocationInvisible(memoryMap, arena, owner, base);
      memoryMap := memoryMap[base := |arena|];
      arena, owner := arena + [seq(BLOCK, _ => 0)], owner + [base];
      if !anyBlock || base > highestBlock {
        highestBlock, anyBlock := base, true;
      }
    }

    /** L1 miss: find the block in the map, or create it, and refill the slot. */
    method ResolveBlockMiss(base: Word, slot: nat)
      requires StoreValid() && BaseOf(base) == base && slot == SlotOf(base) && cacheBase == base
      modifies this
      ensures Valid() && Contents() == old(Contents()) && cacheBase == base
      ensures base in memoryMap && cache == l1Ptr[slot] == To(memoryMap[base]) && l1Base[slot] == base
    {
      hide BaseOf, SlotOf, FlatOf, Owned;
      if base !in memoryMap {
        Allocate(base);
      }
      var blk := To(memoryMap[base]);
      l1Base := l1Base[slot := base];
      l1Ptr := l1Ptr[slot := blk];
      cache := blk;
    }

    /** Make the block of `address` current; the bytes left in it from `address` on. */
    method SetCacheAddress(address: Word) returns (rem: nat)
      requires Valid()
      modifies this
      ensures Valid() && Contents() == old(Contents())
      ensures cacheBase == BaseOf(address) && rem == BLOCK - (address - cacheBase)
    {
      hide SlotOf, FlatOf;
      var base := BaseOf(address);
      if cacheBase != base {
        cacheBase := base;
        var slot := SlotOf(base);
        if l1Ptr[slot] != Null && l1Base[slot] == base {
          cache := l1Ptr[slot];
        } else {
          ResolveBlockMiss(base, slot);
        }
      }
      rem := BLOCK - (address - base);
    }

    /** Copy `xs` into the current block at `idx`: the only place a guest byte changes. */
    method Put(idx: nat, xs: seq<Byte>)
      requires Valid() && BaseOf(cacheBase) == cacheBase && idx < BLOCK && idx + |xs| <= BLOCK
      modifies this
      ensures Valid() && cacheBase == old(cacheBase)
      ensures cacheBase + idx < SPACE && Contents() == Store(old(Contents()), cacheBase + idx, xs)
    {
      SpliceIsStore(memoryMap, arena, owner, cacheBase, idx, xs);
      hide FlatOf;
      arena := arena[cache.block := Splice(arena[cache.block], idx, xs)];
    }

    /** The `n` bytes of the current block from `idx` on. */
    method Get(idx: nat, n: nat) returns (bs: seq<Byte>)
      requires Valid() && BaseOf(cacheBase) == cacheBase && idx < BLOCK && idx + n <= BLOCK
      ensures cacheBase + idx < SPACE && bs == Load(Contents(), cacheBase + idx, n)
    {
      SliceIsLoad(memoryMap, arena, owner, cacheBase, idx, n);
      bs := arena[cache.block][idx..idx + n];
    }

    method WriteByte(address: Word, value: Byte) returns (written: nat)
      requires Valid()
      modifies this
      ensures Valid() && written == 1
      ensures Contents() == Store(old(Contents()), address, [value])
    {
      hide BaseOf, FlatOf, Store;
      var rem := SetCacheAddress(address);
      BaseIdempotent(address);
      Put(BLOCK - rem, [value]);
      written := 1;
    }

    /** Little-endian store of the low `count` bytes of `value`: one sized store when they
        fit in the block, else byte by byte, resolving the block again for each byte. */
    method WriteBytes(address: Word, value: Word, count: nat) returns (written: nat)
      requires Valid() && count < SPACE
      modifies this
      ensures Valid() && written == count
      ensures Contents() == Store(old(Contents()), address, ToBytes(value, count))
    {
      hide BaseOf, FlatOf, Store, ToBytes;
      BaseIdempotent(address);
      var rem := SetCacheAddress(address);
      var idx := BLOCK - rem;
      if rem >= count {
        Put(idx, ToBytes(value, count));
        return count;
      }
      var a, v := address, value;
      ghost var m := Contents();
      ghost var all := ToBytes(value, count);
      written := 0;
      assert Store(m, address, all[..0]) == m by { StoreNothing(m, address); }
      while written < count
        invariant written <= count && Valid() && a == Wrap(address + written)
        invariant cacheBase == BaseOf(a) && idx == a - cacheBase
        invariant ToBytes(v, count - written) == all[written..]
        invariant Contents() == Store(m, address, all[..written])
      {
        BaseIdempotent(a);
        Put(idx, [v % 256]);
        StoreAppend(m, address, all[..written], [v % 256]);
        NextByte(all, written, v, count);
        v := v / 256;
        a := Wrap(a + 1);
        rem := SetCacheAddress(a);
        idx := BLOCK - rem;
        written := written + 1;
      }
      assert all[..count] == all;
    }

    method ReadByte(address: Word) returns (value: Byte)
      requires Valid()
      modifies this
      ensures Valid() && Contents() == old(Contents())
      ensures value == Contents()[address]
    {
      hide BaseOf, FlatOf;
      BaseIdempotent(address);
      var rem := SetCacheAddress(address);
      var bs := Get(BLOCK - rem, 1);
      value := bs[0];
    }

    /** Load `count` bytes into `reg` from byte `dstIdx` up, keeping the register's other
        bytes: one sized load when they fit in the block, else byte by byte. */
    method ReadIntoReg(address: Word, reg: Word, count: nat, dstIdx: nat) returns (result: Word)
      requires Valid() && dstIdx + count <= 8
      modifies this
      ensures Valid() && Contents() == old(Contents())
      ensures ToBytes(result, 8) == Splice(ToBytes(reg, 8), dstIdx, Load(Contents(), address, count))
    {
      hide BaseOf, FlatOf, Load, Splice;
      var bytes := ToBytes(reg, 8);
      BaseIdempotent(address);
      var rem := SetCacheAddress(address);
      if rem >= count {
        var bs := Get(BLOCK - rem, count);
        bytes := Splice(bytes, dstIdx, bs);
      } else {
        bytes := ReadStraddling(address, bytes, count, dstIdx, BLOCK - rem);
      }
      FromBytesBound(bytes);
      Pow256Of8();
      result := FromBytes(bytes);
      ToBytesOfFromBytes(bytes);
    }

    method ReadStraddling(address: Word, bytes: seq<Byte>, count: nat, dstIdx: nat, start: nat)
      returns (result: seq<Byte>)
      requires Valid() && |bytes| == 8 && dstIdx + count <= 8
      requires cacheBase == BaseOf(address) && start == address - cacheBase
      modifies this
      ensures Valid() && Contents() == old(Contents())
      ensures result == Splice(bytes, dstIdx, Load(Contents(), address, count))
    {
      hide BaseOf, FlatOf, Load, Splice, Owned;
      ghost var m := Contents();
      SpliceNothing(bytes, dstIdx, Load(m, address, 0));
      var a, idx, done := address, start, 0;
      result := bytes;
      while done < count
        invariant done <= count && Valid() && Contents() == m && a == Wrap(address + done)
        invariant cacheBase == BaseOf(a) && idx == a - cacheBase
        invariant result == Splice(bytes, dstIdx, Load(m, address, done))
      {
        BaseIdempotent(a);
        var bs := Get(idx, 1);
        LoadAppend(m, address, done, 1);
        assert bs == [bs[0]] && Load(m, address, done + 1) == Load(m, address, done) + [bs[0]];
        SpliceOneMore(bytes, dstIdx, Load(m, address, done), bs[0]);
        result := result[dstIdx + done := bs[0]];
        a := Wrap(a + 1);
        var rem := SetCacheAddress(a);
        idx := BLOCK - rem;
        done := done + 1;
      }
    }

    /** Bulk copy out, a block's worth at a time. */
    method ReadInto(address: Word, count: nat) returns (dst: seq<Byte>)
      requires Valid() && count < SPACE
      modifies this
      ensures Valid() && Contents() == old(Contents())
      ensures dst == Load(Contents(), address, count)
    {
      hide BaseOf, FlatOf, Load;
      var a, left := address, count;
      dst := [];
      ghost var m := Contents();
      while left > 0
        invariant 0 <= left <= count && |dst| == count - left && Valid() && Contents() == m
        invariant a == Wrap(address + |dst|)
        invariant dst == Load(m, address, |dst|)
      {
        BaseIdempotent(a);
        var rem := SetCacheAddress(a);
        var n := if rem < left then rem else left;
        var bs := Get(BLOCK - rem, n);
        LoadAppend(m, address, |dst|, n);
        dst := dst + bs;
        a := Wrap(a + n);
        left := left - n;
      }
    }

    /** Bulk copy in, a block's worth at a time. */
    method WriteFrom(address: Word, src: seq<Byte>)
      requires Valid() && |src| < SPACE
      modifies this
      ensures Valid() && Contents() == Store(old(Contents()), address, src)
    {
      hide BaseOf, FlatOf, Store;
      var a, done := address, 0;
      ghost var m := Contents();
      StoreNothing(m, address);
      while done < |src|
        invariant done <= |src| && Valid()
        invariant a == Wrap(address + done)
        invariant Contents() == Store(m, address, src[..done])
      {
        BaseIdempotent(a);
        var rem := SetCacheAddress(a);
        var n := if rem < |src| - done then rem else |src| - done;
        Put(BLOCK - rem, src[done..done + n]);
        StoreAppend(m, address, src[..done], src[done..done + n]);
        assert src[..done] + src[done..done + n] == src[..done + n];
        a := Wrap(a + n);
        done := done + n;
      }
      assert src[..done] == src;
    }

    /** Highest allocated block base. */
    method LastBlock() returns (base: Word)
      requires Valid()
      ensures memoryMap != map[] ==> base in memoryMap && forall b :: b in memoryMap ==> b <= base
    {
      base := highestBlock;
    }
  }
}
