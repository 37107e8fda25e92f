/**
 The block-chained bump allocator and its translation between indices and addresses.
 Addresses are numbers; the address a new block gets is an argument.
 */
module Mempool {
  import opened Bytes

  const BLOCK: nat := 0x1000000
  const NONE: int := -1

  class Block {
    const id: nat
    const base: nat
    const mem: array<Byte>
    var next: Block?

    constructor (id: nat, base: nat)
      ensures this.id == id && this.base == base && next == null && fresh(mem)
      ensures mem.Length == BLOCK && forall i :: 0 <= i < BLOCK ==> mem[i] == 0
    {
      this.id, this.base, next := id, base, null;
      mem := new Byte[BLOCK](_ => 0);
    }
  }

  /** The address of index `i`. */
  function Addr(bases: seq<nat>, i: nat): (a: nat)
    requires i / BLOCK < |bases|
  {
    bases[i / BLOCK] + i % BLOCK
  }

  /** Blocks lie apart from each other and from address 0, below the end of the address space. */
  ghost predicate BasesOk(bases: seq<nat>)
  {
    && (forall k :: 0 <= k < |bases| ==> 0 < bases[k] && bases[k] + BLOCK <= WORD)
    && (forall j, k :: 0 <= j < k < |bases| ==> bases[j] + BLOCK <= bases[k] || bases[k] + BLOCK <= bases[j])
  }

  ghost predicate FreshBase(bases: seq<nat>, base: nat)
  {
    && 0 < base && base + BLOCK <= WORD
    && forall k :: 0 <= k < |bases| ==> bases[k] + BLOCK <= base || base + BLOCK <= bases[k]
  }

  lemma BasesMore(bases: seq<nat>, base: nat)
    requires BasesOk(bases) && FreshBase(bases, base)
    ensures BasesOk(bases + [base])
  {}

  /** Address `p` lies in block `k`. */
  predicate In(bases: seq<nat>, k: nat, p: nat)
    requires k < |bases|
  {
    bases[k] <= p && p - bases[k] < BLOCK
  }

  lemma AddrIn(bases: seq<nat>, i: nat, k: nat)
    requires BasesOk(bases) && i / BLOCK < |bases| && k < |bases|
    ensures In(bases, k, Addr(bases, i)) <==> k == i / BLOCK
  {
    var a := i / BLOCK;
    if a < k {
      assert bases[a] + BLOCK <= bases[k] || bases[k] + BLOCK <= bases[a];
    } else if k < a {
      assert bases[k] + BLOCK <= bases[a] || bases[a] + BLOCK <= bases[k];
    }
  }

  /** Different indices have different addresses. */
  lemma AddrInjective(bases: seq<nat>, i: nat, j: nat)
    requires BasesOk(bases) && i / BLOCK < |bases| && j / BLOCK < |bases| && Addr(bases, i) == Addr(bases, j)
    ensures i == j
  {
    AddrIn(bases, i, j / BLOCK);
  }

  /** What is in an arena: the bytes of all its blocks in a row, the blocks' addresses and how much is allocated. */
  datatype Image = Image(flat: seq<Byte>, bases: seq<nat>, len: nat)

  ghost predicate ImageOk(m: Image)
  {
    && |m.flat| == |m.bases| * BLOCK && m.len <= |m.flat| && BasesOk(m.bases)
    && (m.bases != [] ==> |m.flat| - BLOCK < m.len)
    && forall x :: m.len <= x < |m.flat| ==> m.flat[x] == 0
  }

  function Zeros(n: nat): (z: seq<Byte>)
    ensures |z| == n && forall i :: 0 <= i < n ==> z[i] == 0
  {
    seq(n, _ => 0)
  }

  /** The arena after an allocation: in the last block if there is room, else at the start of a new one. */
  function Allocated(m: Image, count: nat, base: nat): (r: Image)
  {
    if m.len + count > |m.flat| then Image(m.flat + Zeros(BLOCK), m.bases + [base], |m.flat| + count)
    else m.(len := m.len + count)
  }

  /**
   The allocation lies in one block, beyond everything allocated before. It follows the last one without a gap if it
   fits into the last block; else it starts the one block that is added, and what is skipped is less than its size.
   */
  lemma AllocatedOk(m: Image, count: nat, base: nat)
    requires ImageOk(m) && 1 <= count <= BLOCK && FreshBase(m.bases, base)
    ensures var r := Allocated(m, count, base);
            var start := r.len - count;
            && ImageOk(r) && m.flat <= r.flat && m.bases <= r.bases
            && m.len <= start && start / BLOCK == (start + count - 1) / BLOCK && start / BLOCK < |r.bases|
            && (m.len + count <= |m.flat| ==> start == m.len && r.flat == m.flat && r.bases == m.bases)
            && (m.len + count > |m.flat| ==>
                  start == |m.flat| && r.flat == m.flat + Zeros(BLOCK) && r.bases == m.bases + [base])
            && forall x :: m.len <= x < |r.flat| ==> r.flat[x] == 0
  {
    if m.len + count <= |m.flat| {
      var n := |m.bases|;
      assert m.len / BLOCK == n - 1 && (m.len + count - 1) / BLOCK == n - 1;
    }
  }

  ghost predicate Holds(mem: array<Byte>, flat: seq<Byte>, k: nat)
    reads mem
  {
    mem.Length == BLOCK && (k + 1) * BLOCK <= |flat| && mem[..] == flat[k * BLOCK..(k + 1) * BLOCK]
  }

  /** Each block holds its part of `flat`. */
  ghost predicate Stored(blocks: seq<Block>, flat: seq<Byte>)
    reads set k | 0 <= k < |blocks| :: blocks[k].mem
  {
    && |flat| == |blocks| * BLOCK
    && (forall k :: 0 <= k < |blocks| ==> Holds(blocks[k].mem, flat, k))
    && (forall j, k :: 0 <= j < k < |blocks| ==> blocks[j].mem != blocks[k].mem)
  }

  lemma StoredMore(blocks: seq<Block>, flat: seq<Byte>, b: Block)
    requires Stored(blocks, flat) && b.mem.Length == BLOCK && b.mem[..] == Zeros(BLOCK)
    requires forall k :: 0 <= k < |blocks| ==> blocks[k].mem != b.mem
    ensures Stored(blocks + [b], flat + Zeros(BLOCK))
  {
    forall k | 0 <= k < |blocks| ensures Holds(blocks[k].mem, flat + Zeros(BLOCK), k) {
      assert Holds(blocks[k].mem, flat, k);
      assert (flat + Zeros(BLOCK))[k * BLOCK..(k + 1) * BLOCK] == flat[k * BLOCK..(k + 1) * BLOCK];
    }
    var n := |blocks|;
    assert (flat + Zeros(BLOCK))[n * BLOCK..(n + 1) * BLOCK] == Zeros(BLOCK);
  }

  lemma PutImage(m: Image, i: nat, t: seq<Byte>)
    requires ImageOk(m) && i + |t| <= m.len
    ensures ImageOk(m.(flat := Blit(m.flat, i, t)))
  {
    forall x | m.len <= x < |m.flat| ensures Blit(m.flat, i, t)[x] == 0 {
      BlitAt(m.flat, i, t, x);
    }
  }

  lemma BlitSlice(flat: seq<Byte>, i: nat, t: seq<Byte>, k: nat)
    requires i % BLOCK + |t| <= BLOCK && i + |t| <= |flat| && (k + 1) * BLOCK <= |flat|
    ensures var s := flat[k * BLOCK..(k + 1) * BLOCK];
            Blit(flat, i, t)[k * BLOCK..(k + 1) * BLOCK] == if k == i / BLOCK then Blit(s, i % BLOCK, t) else s
  {
    var s, r := flat[k * BLOCK..(k + 1) * BLOCK], Blit(flat, i, t)[k * BLOCK..(k + 1) * BLOCK];
    forall x | 0 <= x < BLOCK ensures r[x] == (if k == i / BLOCK then Blit(s, i % BLOCK, t) else s)[x] {
      BlitAt(flat, i, t, k * BLOCK + x);
      if k == i / BLOCK {
        BlitAt(s, i % BLOCK, t, x);
      }
    }
  }

  class Arena {
    var first: Block?
    var last: Block?
    var current: nat
    /** The block the last translation ended in. */
    var cache: Block?
    ghost var blocks: seq<Block>
    ghost var flat: seq<Byte>
    ghost var bases: seq<nat>

    /** What is in the arena. */
    ghost function image(): Image
      reads this`flat, this`bases, this`current
    {
      Image(flat, bases, current)
    }

    ghost predicate CacheOk()
      reads this`cache, this`blocks
    {
      cache == null || cache in blocks
    }

    ghost predicate ChainAt(k: nat)
      reads this`blocks, this`bases, blocks
      requires k < |blocks| == |bases|
    {
      && blocks[k].id == k && blocks[k].base == bases[k]
      && blocks[k].next == if k + 1 < |blocks| then blocks[k + 1] else null
    }

    /** The chain of blocks. */
    ghost predicate Chain()
      reads this`first, this`last, this`blocks, this`bases, blocks
    {
      && |bases| == |blocks| && BasesOk(bases)
      && (if blocks == [] then first == last == null else first == blocks[0] && last == blocks[|blocks| - 1])
      && (forall k {:trigger blocks[k]} :: 0 <= k < |blocks| ==> ChainAt(k))
    }

    ghost predicate Contents()
      reads this`current, this`blocks, this`flat, this`bases, set k | 0 <= k < |blocks| :: blocks[k].mem
    {
      ImageOk(image()) && Stored(blocks, flat)
    }

    ghost predicate Valid()
      reads this, blocks, set k | 0 <= k < |blocks| :: blocks[k].mem
    {
      Chain() && Contents() && CacheOk()
    }

    constructor ()
      ensures Valid() && image() == Image([], [], 0) && cache == null && blocks == []
    {
      first, last, current, cache, blocks, flat, bases := null, null, 0, null, [], [], [];
    }

    lemma ChainFacts(k: nat)
      requires Chain() && k < |blocks|
      ensures first == blocks[0] && last == blocks[|blocks| - 1] && |bases| == |blocks| && ChainAt(k) && BasesOk(bases)
    {}

    lemma Cached()
      requires Chain() && CacheOk() && cache != null
      ensures |bases| == |blocks| && cache.id < |blocks| && cache == blocks[cache.id] && cache.base == bases[cache.id]
    {
      var k :| 0 <= k < |blocks| && blocks[k] == cache;
      assert ChainAt(k);
    }

    lemma NoBlocks()
      requires Chain()
      ensures |bases| == |blocks| && (first == null <==> blocks == []) && (first != null ==> first == blocks[0])
    {}

    /** Put a new block at the end of the chain. */
    method Append(b: Block)
      requires Chain() && b !in blocks && b.next == null && b.id == |blocks| && FreshBase(bases, b.base)
      modifies this`first, this`last, this`blocks, this`bases, last
      ensures Chain() && blocks == old(blocks) + [b] && bases == old(bases) + [b.base]
    {
      hide BasesOk;
      BasesMore(bases, b.base);
      if last == null {
        first := b;
      } else {
        last.next := b;
      }
      last := b;
      blocks, bases := blocks + [b], bases + [b.base];
      forall k | 0 <= k < |blocks| ensures ChainAt(k) {
        if k < |blocks| - 1 {
          assert old(ChainAt(k));
        }
      }
    }

    /** Add a zeroed block to the chain. */
    method Grow(id: nat, base: nat) returns (b: Block)
      requires Chain() && Stored(blocks, flat) && FreshBase(bases, base) && id == |blocks|
      modifies this`first, this`last, this`blocks, this`flat, this`bases, last
      ensures Chain() && blocks == old(blocks) + [b] && b.id == id && fresh(b) && fresh(b.mem)
      ensures flat == old(flat) + Zeros(BLOCK) && bases == old(bases) + [base] && Stored(blocks, flat)
      ensures b.mem.Length == BLOCK && b.mem[..] == Zeros(BLOCK)
    {
      hide Stored, Zeros, BasesOk, ChainAt;
      b := new Block(id, base);
      assert b.mem[..] == Zeros(BLOCK);
      StoredMore(blocks, flat, b);
      Append(b);
      flat := flat + Zeros(BLOCK);
    }

    lemma LastBlock()
      requires Valid()
      ensures last == null <==> blocks == []
      ensures last != null ==> last == blocks[|blocks| - 1] && last.id == |blocks| - 1
      ensures current <= |blocks| * BLOCK == |flat| && (blocks != [] ==> (|blocks| - 1) * BLOCK < current)
    {}

    /** __gs_mempool_alloc: `base` is the address of the new block if one is needed. */
    method Alloc(count: nat, base: nat) returns (b: Block, ofs: nat)
      requires Valid() && 1 <= count <= BLOCK && FreshBase(bases, base)
      modifies this`first, this`last, this`current, this`blocks, this`flat, this`bases, last
      ensures Valid() && image() == Allocated(old(image()), count, base) && old(blocks) <= blocks
      ensures var start := current - count;
              start / BLOCK < |blocks| && b == blocks[start / BLOCK] && ofs == start % BLOCK
      ensures if old(current) + count <= |old(flat)| then current == old(current) + count && blocks == old(blocks)
              else current == |old(flat)| + count && |blocks| == |old(blocks)| + 1
      ensures forall k :: |old(blocks)| <= k < |blocks| ==> fresh(blocks[k]) && fresh(blocks[k].mem)
    {
      hide Chain, ImageOk, BasesOk, FreshBase, Stored;
      AllocatedOk(image(), count, base);
      LastBlock();
      if last == null || current + count - 1 >= (last.id + 1) * BLOCK {
        b := Grow(if last == null then 0 else last.id + 1, base);
        if count > 1 {
          current := b.id * BLOCK;
        }
      } else {
        b := last;
      }
      ofs := current % BLOCK;
      current := current + count;
    }

    /** Store bytes at index `i`, which is at `ofs` in block `b`. */
    method Put(b: Block, ofs: nat, t: seq<Byte>, ghost i: nat)
      requires Valid() && i / BLOCK < |blocks| && b == blocks[i / BLOCK] && ofs == i % BLOCK && ofs + |t| <= BLOCK
      requires i + |t| <= current
      modifies b.mem, this`flat
      ensures Valid() && i + |t| <= |old(flat)| && flat == Blit(old(flat), i, t)
    {
      hide Chain, BasesOk, Blit;
      LastBlock();
      PutImage(image(), i, t);
      StoreBytes(b.mem, ofs, t);
      flat := Blit(flat, i, t);
      forall k | 0 <= k < |blocks| ensures Holds(blocks[k].mem, flat, k) {
        assert old(Holds(blocks[k].mem, flat, k));
        BlitSlice(old(flat), i, t, k);
      }
    }

    /** Follow the chain from the cached block, number `k0`, to block `id`. */
    method WalkTo(id: nat, ghost k0: nat)
      requires Chain() && CacheOk()
      requires if cache == null then blocks == [] else k0 < |blocks| && cache == blocks[k0] && k0 <= id
      modifies this`cache
      ensures CacheOk() && cache == if id < |blocks| then blocks[id] else null
    {
      hide Chain;
      ghost var k := k0;
      if cache != null {
        ChainFacts(k);
      }
      while cache != null && cache.id != id
        invariant CacheOk() && if cache == null then id >= |blocks|
                    else k < |blocks| && cache == blocks[k] && cache.id == k <= id
        decreases |blocks| - k
      {
        ChainFacts(k);
        if k + 1 < |blocks| {
          ChainFacts(k + 1);
        }
        cache := cache.next;
        k := k + 1;
      }
    }

    /** gs_mempool_idx2address: the block and the offset in it; no block if the index is past the last one. */
    method Idx2Address(i: nat) returns (b: Block?, ofs: nat)
      requires Valid()
      modifies this`cache
      ensures Valid() && ofs == i % BLOCK && b == if i / BLOCK < |blocks| then blocks[i / BLOCK] else null
    {
      hide Chain, Contents;
      ofs := i % BLOCK;
      NoBlocks();
      if cache != null {
        Cached();
      }
      ghost var k := if cache == null then 0 else cache.id;
      if cache == null || cache.id > i / BLOCK {
        cache := first;
        k := 0;
      }
      WalkTo(i / BLOCK, k);
      b := cache;
    }

    /** Address `p` lies in some block. */
    ghost predicate Held(p: nat)
      reads this`blocks, this`bases
    {
      exists k :: 0 <= k < |blocks| == |bases| && In(bases, k, p)
    }

    /** Follow the chain from its first block to the one that holds `p`. */
    method WalkToAddress(p: nat) returns (ghost k: nat)
      requires Chain() && CacheOk() && cache == first
      modifies this`cache
      ensures CacheOk() && |blocks| == |bases| && (cache == null <==> !Held(p))
      ensures cache != null ==> k < |blocks| && cache == blocks[k] && In(bases, k, p)
    {
      hide Chain;
      NoBlocks();
      k := 0;
      while cache != null && !(p >= cache.base && p - cache.base < BLOCK)
        invariant CacheOk() && |blocks| == |bases| && k <= |blocks| && cache == if k < |blocks| then blocks[k] else null
        invariant forall j :: 0 <= j < k ==> !In(bases, j, p)
        decreases |blocks| - k
      {
        ChainFacts(k);
        cache := cache.next;
        k := k + 1;
      }
      if cache != null {
        ChainFacts(k);
        assert In(bases, k, p);
      }
    }

    /** Make the block that holds `p` the cached one; the index of `p`, NONE if there is no such block. */
    method Locate(p: nat) returns (r: int)
      requires Valid()
      modifies this`cache
      ensures Valid() && (r == NONE <==> !Held(p))
      ensures r != NONE ==>
                0 <= r && r / BLOCK < |blocks| == |bases| && Addr(bases, r) == p && cache == blocks[r / BLOCK]
    {
      hide Chain, Contents;
      NoBlocks();
      if cache != null {
        Cached();
      }
      ghost var k := if cache == null then 0 else cache.id;
      if cache == null || !(p >= cache.base && p - cache.base < BLOCK) {
        cache := first;
        k := WalkToAddress(p);
      }
      if cache == null {
        return NONE;
      }
      ChainFacts(k);
      assert In(bases, k, p);
      r := cache.id * BLOCK + (p - cache.base);
    }

    /**
     gs_mempool_address2byteofst: the index of an address. An address in no block is taken to be in the mapped
     file at `memSeg` when the arena holds nodes; for strings the original aborts, and `ok` is false.
     */
    method Address2ByteOfst(p: nat, isNodes: bool, memSeg: nat) returns (r: int, ok: bool)
      requires Valid()
      modifies this`cache
      ensures Valid() && (ok <==> isNodes || Held(p))
      ensures Held(p) ==> 0 <= r && r / BLOCK < |blocks| == |bases| && Addr(bases, r) == p && cache == blocks[r / BLOCK]
      ensures !Held(p) && isNodes ==> r == p - memSeg
    {
      hide Chain, Contents, Held;
      r := Locate(p);
      ok := r != NONE || isNodes;
      if r == NONE {
        r := p - memSeg;
      }
    }

    /** From an index to its address and back, whatever block is cached. */
    method IndexTrip(i: nat, isNodes: bool, memSeg: nat) returns (r: int, ok: bool)
      requires Valid() && i / BLOCK < |blocks|
      modifies this`cache
      ensures Valid() && ok && r == i
    {
      hide Chain, Contents;
      var b, ofs := Idx2Address(i);
      ChainFacts(i / BLOCK);
      AddrIn(bases, i, i / BLOCK);
      r, ok := Address2ByteOfst(b.base + ofs, isNodes, memSeg);
      AddrInjective(bases, r, i);
    }

    /** From an address in some block to its index and back, whatever block is cached. */
    method AddressTrip(p: nat, isNodes: bool, memSeg: nat) returns (b: Block?, ofs: nat)
      requires Valid() && Held(p)
      modifies this`cache
      ensures Valid() && b != null && b in blocks && b.base + ofs == p
    {
      hide Chain, Contents;
      var r, ok := Address2ByteOfst(p, isNodes, memSeg);
      b, ofs := Idx2Address(r);
      ChainFacts(r / BLOCK);
    }
  }
}
