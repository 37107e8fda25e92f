/**
 Object pools: blocks cut into equal pieces, with an intrusive free list through the pieces that are not in use.
 Addresses are numbers; memory maps an address to the word stored there.
 */
module Pools {
  const NULL: nat := 0
  /** Aligned size of the header that links the blocks. */
  const HEADER: nat := 8
  /** Size of a link, the least an element must hold. */
  const LINK: nat := 8

  function BlockSize(size: nat, per: nat): (s: nat)
    ensures s >= HEADER
  {
    HEADER + size * per
  }

  function Total(blocks: nat, per: nat): nat { blocks * per }

  /** The pieces of a block: `n` addresses, `size` apart. */
  function Pieces(at: nat, size: nat, n: nat): (s: seq<nat>)
    ensures |s| == n
    decreases n
  {
    if n == 0 then [] else [at] + Pieces(at + size, size, n - 1)
  }

  /** Each piece lies in the block, and they do not overlap. */
  lemma {:induction false} PiecesApart(at: nat, size: nat, n: nat)
    requires size > 0
    ensures forall i :: 0 <= i < n ==> at <= Pieces(at, size, n)[i] && Pieces(at, size, n)[i] + size <= at + size * n
    ensures forall i, j :: 0 <= i < j < n ==> Pieces(at, size, n)[i] + size <= Pieces(at, size, n)[j]
    decreases n
  {
    if n > 0 {
      PiecesApart(at + size, size, n - 1);
      assert at + size + size * (n - 1) == at + size * n;
      assert size * n >= size;
    }
  }

  /** Blocks of `length` bytes at these addresses lie apart from each other and from NULL. */
  ghost predicate Apart(blocks: seq<nat>, length: nat)
  {
    && (forall i :: 0 <= i < |blocks| ==> blocks[i] > NULL)
    && (forall i, j :: 0 <= i < j < |blocks| ==> blocks[i] + length <= blocks[j] || blocks[j] + length <= blocks[i])
  }

  ghost function Elements(s: seq<nat>): set<nat> { set x | x in s }

  /** All pieces of all blocks. */
  ghost function Slots(blocks: seq<nat>, size: nat, per: nat): set<nat>
  {
    if blocks == [] then {} else Elements(Pieces(blocks[0] + HEADER, size, per)) + Slots(blocks[1..], size, per)
  }

  ghost predicate Distinct(s: seq<nat>) { forall i, j :: 0 <= i < j < |s| ==> s[i] != s[j] }

  lemma {:induction false} DistinctSize(s: seq<nat>)
    requires Distinct(s)
    ensures |Elements(s)| == |s|
  {
    if s != [] {
      DistinctSize(s[1..]);
      assert Elements(s) == Elements(s[1..]) + {s[0]};
      assert s[0] !in s[1..];
    }
  }

  /** A piece belongs to some block and lies within it. */
  lemma {:induction false} SlotInBlock(blocks: seq<nat>, size: nat, per: nat, x: nat) returns (i: nat)
    requires x in Slots(blocks, size, per) && size > 0
    ensures i < |blocks| && blocks[i] + HEADER <= x && x + size <= blocks[i] + BlockSize(size, per)
    ensures x in Pieces(blocks[i] + HEADER, size, per)
    decreases |blocks|
  {
    if x in Pieces(blocks[0] + HEADER, size, per) {
      PiecesApart(blocks[0] + HEADER, size, per);
      i := 0;
    } else {
      var j := SlotInBlock(blocks[1..], size, per, x);
      i := j + 1;
    }
  }

  lemma SameBlockApart(at: nat, size: nat, per: nat, x: nat, y: nat)
    requires size > 0 && x in Pieces(at, size, per) && y in Pieces(at, size, per) && x != y
    ensures x + size <= y || y + size <= x
  {
    var p := Pieces(at, size, per);
    PiecesApart(at, size, per);
    hide Pieces;
    var a :| 0 <= a < |p| && p[a] == x;
    var b :| 0 <= b < |p| && p[b] == y;
  }

  /** Any two pieces of the pool are disjoint. */
  lemma SlotsApart(blocks: seq<nat>, size: nat, per: nat, x: nat, y: nat)
    requires Apart(blocks, BlockSize(size, per)) && size > 0 && x in Slots(blocks, size, per)
    requires y in Slots(blocks, size, per) && x != y
    ensures x + size <= y || y + size <= x
  {
    hide Slots, Pieces;
    var i := SlotInBlock(blocks, size, per, x);
    var j := SlotInBlock(blocks, size, per, y);
    if i == j {
      SameBlockApart(blocks[i] + HEADER, size, per, x, y);
    } else {
      var a, b := if i < j then i else j, if i < j then j else i;
      assert blocks[a] + BlockSize(size, per) <= blocks[b] || blocks[b] + BlockSize(size, per) <= blocks[a];
    }
  }

  /** The pool has as many different pieces as its counters say. */
  lemma {:induction false} SlotCount(blocks: seq<nat>, size: nat, per: nat)
    requires Apart(blocks, BlockSize(size, per)) && size > 0
    ensures |Slots(blocks, size, per)| == Total(|blocks|, per)
    decreases |blocks|
  {
    if blocks != [] {
      var p, rest := Pieces(blocks[0] + HEADER, size, per), Slots(blocks[1..], size, per);
      SlotCount(blocks[1..], size, per);
      PiecesApart(blocks[0] + HEADER, size, per);
      DistinctSize(p);
      forall x | x in rest ensures x !in Elements(p) {
        var i := SlotInBlock(blocks[1..], size, per, x);
        assert blocks[1..][i] == blocks[i + 1];
      }
      assert |Elements(p) + rest| == |Elements(p)| + |rest|;
      assert |blocks| * per == per + (|blocks| - 1) * per;
    }
  }

  /** `mem` links the addresses of `s`, from `at` to NULL. */
  ghost predicate Chain(mem: map<nat, nat>, at: nat, s: seq<nat>)
    decreases |s|
  {
    if s == [] then at == NULL
    else at == s[0] && s[0] != NULL && s[0] in mem && Chain(mem, mem[s[0]], s[1..])
  }

  lemma {:induction false} ChainKept(mem: map<nat, nat>, at: nat, s: seq<nat>, x: nat, v: nat)
    requires Chain(mem, at, s) && x !in s
    ensures Chain(mem[x := v], at, s)
    decreases |s|
  {
    if s != [] {
      ChainKept(mem, mem[s[0]], s[1..], x, v);
    }
  }

  /** A piece is never the header of a block. */
  lemma NotHeader(blocks: seq<nat>, size: nat, per: nat, x: nat)
    requires Apart(blocks, BlockSize(size, per)) && size > 0 && x in Slots(blocks, size, per)
    ensures x !in blocks && x != NULL
  {
    var i := SlotInBlock(blocks, size, per, x);
    forall j | 0 <= j < |blocks| ensures blocks[j] != x {
      assert j < i ==>
          blocks[j] + (BlockSize(size, per)) <= blocks[i] || blocks[i] + (BlockSize(size, per)) <= blocks[j];
      assert i < j ==>
          blocks[i] + (BlockSize(size, per)) <= blocks[j] || blocks[j] + (BlockSize(size, per)) <= blocks[i];
    }
  }

  /** Pieces, stepping by the size. */
  lemma {:induction false} PieceAt(at: nat, size: nat, n: nat, i: nat)
    requires i < n
    ensures Pieces(at, size, n)[i] == at + size * i
    decreases n
  {
    if i > 0 {
      PieceAt(at + size, size, n - 1, i - 1);
      assert at + size + size * (i - 1) == at + size * i;
    }
  }

  /** Memory at a new block is not in use. */
  ghost predicate FreshBlock(blocks: seq<nat>, length: nat, base: nat)
  {
    base > NULL && forall i :: 0 <= i < |blocks| ==> blocks[i] + length <= base || base + length <= blocks[i]
  }

  lemma PiecesInside(base: nat, size: nat, per: nat, x: nat)
    requires size > 0 && x in Pieces(base + HEADER, size, per)
    ensures base < x && x + size <= base + BlockSize(size, per)
  {
    PiecesApart(base + HEADER, size, per);
  }

  /** The pieces of a new block are new. */
  lemma FreshPieces(blocks: seq<nat>, size: nat, per: nat, base: nat, live: set<nat>)
    requires Apart(blocks, BlockSize(size, per)) && size > 0 && FreshBlock(blocks, BlockSize(size, per), base)
    requires live <= Slots(blocks, size, per)
    ensures live !! Elements(Pieces(base + HEADER, size, per)) && base !in live
  {
    hide Slots, Pieces, Apart;
    forall x | x in live ensures x !in Pieces(base + HEADER, size, per) && x != base {
      var i := SlotInBlock(blocks, size, per, x);
      if x in Pieces(base + HEADER, size, per) {
        PiecesInside(base, size, per, x);
      }
    }
  }

  lemma SlotsMore(blocks: seq<nat>, base: nat, size: nat, per: nat)
    requires Apart(blocks, BlockSize(size, per)) && FreshBlock(blocks, BlockSize(size, per), base)
    ensures Apart([base] + blocks, BlockSize(size, per)) && base !in blocks
    ensures Slots([base] + blocks, size, per) == Elements(Pieces(base + HEADER, size, per)) + Slots(blocks, size, per)
  {
    hide Pieces, BlockSize, Elements;
    assert ([base] + blocks)[1..] == blocks;
  }

  /** The next piece is neither on the free list yet nor a block header. */
  lemma NewPiece(blocks: seq<nat>, size: nat, per: nat, base: nat, i: nat, free: seq<nat>)
    requires blocks != [] && blocks[0] == base && Apart(blocks, BlockSize(size, per)) && size > 0 && i < per
    requires Elements(free) == Elements(Pieces(base + HEADER, size, per)[..i])
    ensures var p := Pieces(base + HEADER, size, per)[i]; p !in free && p !in blocks && p != NULL
  {
    var s := Pieces(base + HEADER, size, per);
    PiecesApart(base + HEADER, size, per);
    NotHeader(blocks, size, per, s[i]);
    assert s[i] !in s[..i] && s[i] !in Elements(free);
  }

  /** Put an element in front of a free list. */
  lemma Push(mem: map<nat, nat>, at: nat, s: seq<nat>, x: nat)
    requires Chain(mem, at, s) && Distinct(s) && x !in s && x != NULL
    ensures Chain(mem[x := at], x, [x] + s) && Distinct([x] + s) && Elements([x] + s) == Elements(s) + {x}
    ensures Chain(mem[x := at], at, s)
  {
    ChainKept(mem, at, s, x, at);
    assert ([x] + s)[1..] == s;
  }

  /** Take the first element off a free list. */
  lemma Pop(mem: map<nat, nat>, at: nat, s: seq<nat>)
    requires Chain(mem, at, s) && Distinct(s) && s != []
    ensures at != NULL && at in mem && Chain(mem, mem[at], s[1..]) && Distinct(s[1..])
    ensures Elements(s) == Elements(s[1..]) + {at} && at !in Elements(s[1..])
  {
    assert s == [s[0]] + s[1..];
  }

  lemma EmptyList(mem: map<nat, nat>)
    ensures Chain(mem, NULL, []) && Distinct([])
  {}

  lemma NextPiece(at: nat, size: nat, i: nat)
    ensures at + size * (i + 1) == at + size * i + size
  {}

  lemma TotalMore(n: nat, per: nat)
    ensures Total(n + 1, per) == Total(n, per) + per
  {}

  /** Memory outside `s` is as it was. */
  ghost predicate KeptOn(mem: map<nat, nat>, mem': map<nat, nat>, s: set<nat>)
  {
    forall x :: x in mem && x !in s ==> x in mem' && mem'[x] == mem[x]
  }

  class Pool {
    const eltSize: nat
    const eltsPerBlock: nat
    var mem: map<nat, nat>
    var freeList: nat
    var eltsAllocated: nat
    var eltsFree: nat
    var blocksAllocated: nat
    var blockList: nat
    ghost var blocks: seq<nat>
    ghost var free: seq<nat>
    ghost var live: set<nat>

    ghost predicate Valid()
      reads this
    {
      && eltSize >= LINK && eltsPerBlock > 0 && Apart(blocks, BlockSize(eltSize, eltsPerBlock))
      && blocksAllocated == |blocks| && eltsAllocated == Total(blocksAllocated, eltsPerBlock) && eltsFree == |free|
      && Chain(mem, freeList, free) && Chain(mem, blockList, blocks)
      && Distinct(free) && live !! Elements(free) && live + Elements(free) == Slots(blocks, eltSize, eltsPerBlock)
    }

    /** create_alloc_pool: sizes are rounded up to hold a link and to a multiple of eight. */
    constructor (size: nat, num: nat)
      requires num > 0
      ensures Valid() && live == {} && blocks == [] && eltsPerBlock == num && eltSize >= size && eltSize >= LINK
      ensures eltSize % 8 == 0 && eltSize < (if size < LINK then LINK else size) + 8
    {
      var s := if size < LINK then LINK else size;
      eltSize, eltsPerBlock := (s + 7) / 8 * 8, num;
      mem, freeList, eltsAllocated, eltsFree, blocksAllocated, blockList := map[], NULL, 0, 0, 0, NULL;
      blocks, free, live := [], [], {};
    }

    /** Put the pieces of the new block at `base` on the free list. */
    method Thread(base: nat)
      requires eltSize > 0 && blocks != [] && blocks[0] == base && Apart(blocks, BlockSize(eltSize, eltsPerBlock))
      requires free == [] && freeList == NULL && Chain(mem, blockList, blocks)
      modifies this`mem, this`freeList, this`free
      ensures Chain(mem, freeList, free) && Chain(mem, blockList, blocks)
      ensures |free| == eltsPerBlock && Distinct(free)
      ensures Elements(free) == Elements(Pieces(base + HEADER, eltSize, eltsPerBlock))
      ensures forall i :: 0 <= i < eltsPerBlock ==>
                free[i] == Pieces(base + HEADER, eltSize, eltsPerBlock)[eltsPerBlock - 1 - i]
      ensures KeptOn(old(mem), mem, Elements(Pieces(base + HEADER, eltSize, eltsPerBlock)))
    {
      hide Slots, Pieces, Apart, Chain, BlockSize, Distinct;
      ghost var pieces := Pieces(base + HEADER, eltSize, eltsPerBlock);
      EmptyList(mem);
      var block := base + HEADER;
      for i := 0 to eltsPerBlock
        invariant block == base + HEADER + eltSize * i && Chain(mem, freeList, free) && Chain(mem, blockList, blocks)
        invariant |free| == i && Distinct(free) && Elements(free) == Elements(pieces[..i])
        invariant forall j :: 0 <= j < i ==> free[j] == pieces[i - 1 - j]
        invariant KeptOn(old(mem), mem, Elements(pieces))
      {
        PieceAt(base + HEADER, eltSize, eltsPerBlock, i);
        NewPiece(blocks, eltSize, eltsPerBlock, base, i, free);
        Push(mem, freeList, free, block);
        ChainKept(mem, blockList, blocks, block, freeList);
        assert pieces[..i + 1] == pieces[..i] + [block];
        mem := mem[block := freeList];
        freeList, free := block, [block] + free;
        NextPiece(base + HEADER, eltSize, i);
        block := block + eltSize;
      }
      assert pieces[..eltsPerBlock] == pieces;
    }

    /** Make a block at `base` and put its pieces on the free list. */
    method Refill(base: nat)
      requires Valid() && free == [] && FreshBlock(blocks, BlockSize(eltSize, eltsPerBlock), base)
      modifies this
      ensures Valid() && live == old(live) && blocks == [base] + old(blocks) && |free| == eltsPerBlock
      ensures forall i :: 0 <= i < eltsPerBlock ==>
                free[i] == Pieces(base + HEADER, eltSize, eltsPerBlock)[eltsPerBlock - 1 - i]
      ensures KeptOn(old(mem), mem, Elements(Pieces(base + HEADER, eltSize, eltsPerBlock)) + {base})
      ensures forall x :: x in live && x in old(mem) ==> x in mem && mem[x] == old(mem)[x]
    {
      hide Slots, Pieces, Apart, BlockSize, Distinct, Total;
      SlotsMore(blocks, base, eltSize, eltsPerBlock);
      FreshPieces(blocks, eltSize, eltsPerBlock, base, live);
      TotalMore(blocksAllocated, eltsPerBlock);
      ChainKept(mem, blockList, blocks, base, blockList);
      assert ([base] + blocks)[1..] == blocks;
      mem := mem[base := blockList];
      blockList, blocks := base, [base] + blocks;
      Thread(base);
      eltsAllocated := eltsAllocated + eltsPerBlock;
      eltsFree := eltsFree + eltsPerBlock;
      blocksAllocated := blocksAllocated + 1;
    }

    /** pool_alloc: an element that is not in use; `base` is the address of a new block if one is needed. */
    method Alloc(base: nat) returns (p: nat)
      requires Valid() && FreshBlock(blocks, BlockSize(eltSize, eltsPerBlock), base)
      modifies this
      ensures Valid() && p != NULL && p !in old(live) && live == old(live) + {p}
      ensures blocks == if old(free) == [] then [base] + old(blocks) else old(blocks)
      ensures old(free) != [] ==> p == old(free)[0] && free == old(free)[1..] && mem == old(mem)
      ensures old(free) == [] ==>
                p == Pieces(base + HEADER, eltSize, eltsPerBlock)[eltsPerBlock - 1] && |free| == eltsPerBlock - 1
      ensures forall x :: x in old(live) && x in old(mem) ==> x in mem && mem[x] == old(mem)[x]
    {
      hide Slots, Pieces, Apart, BlockSize, Distinct, Total;
      if freeList == NULL {
        Refill(base);
      }
      Pop(mem, freeList, free);
      p := freeList;
      freeList := mem[p];
      eltsFree := eltsFree - 1;
      live, free := live + {p}, free[1..];
    }

    /** pool_free: give back an element that is in use. */
    method Free(p: nat)
      requires Valid() && p in live
      modifies this
      ensures Valid() && live == old(live) - {p} && blocks == old(blocks) && free == [p] + old(free)
      ensures KeptOn(old(mem), mem, {p})
    {
      hide Slots, Pieces, Apart, BlockSize, Distinct, Total, Chain;
      NotHeader(blocks, eltSize, eltsPerBlock, p);
      assert p !in Elements(free);
      Push(mem, freeList, free, p);
      ChainKept(mem, blockList, blocks, p, freeList);
      mem := mem[p := freeList];
      freeList := p;
      eltsFree := eltsFree + 1;
      live, free := live - {p}, [p] + free;
    }

    /** The owner of an element may store anything in it. */
    method Store(p: nat, v: nat)
      requires Valid() && p in live
      modifies this`mem
      ensures Valid() && mem == old(mem)[p := v]
    {
      hide Slots, Pieces, Apart, BlockSize, Distinct, Total, Chain;
      NotHeader(blocks, eltSize, eltsPerBlock, p);
      ChainKept(mem, freeList, free, p, v);
      ChainKept(mem, blockList, blocks, p, v);
      mem := mem[p := v];
    }

    /** Every element is free or in use, and the counters tell how many. */
    lemma Counts()
      requires Valid()
      ensures |live| + eltsFree == eltsAllocated
    {
      SlotCount(blocks, eltSize, eltsPerBlock);
      DistinctSize(free);
      assert |live + Elements(free)| == |live| + |Elements(free)|;
    }

    /** free_alloc_pool_if_empty: the pool is released exactly when no element is in use. */
    method ReleasedIfEmpty() returns (released: bool)
      requires Valid()
      ensures released <==> live == {}
    {
      Counts();
      released := eltsFree == eltsAllocated;
    }
  }
}
