/**
 Single bits, clearing and copying of bitmaps.
 */
module BitOps {
  import opened Words
  import opened Cells
  import opened Bitmaps

  lemma SetMembers(s: seq<Cell>, t: seq<Cell>, bit: nat)
    requires forall n: nat :: Has(t, n) == (n == bit || Has(s, n))
    ensures Members(t) == Members(s) + {bit}
  {
    forall n: nat ensures n in Members(t) <==> n in Members(s) + {bit} { MembersHas(s, n); MembersHas(t, n); }
  }

  lemma ClearMembers(s: seq<Cell>, t: seq<Cell>, bit: nat)
    requires forall n: nat :: Has(t, n) == (n != bit && Has(s, n))
    ensures Members(t) == Members(s) - {bit}
  {
    forall n: nat ensures n in Members(t) <==> n in Members(s) - {bit} { MembersHas(s, n); MembersHas(t, n); }
  }

  lemma SplitBit(n: nat, bit: nat)
    ensures n == bit <==> Index(n) == Index(bit) && Offset(n) == Offset(bit)
  {}

  /** Setting a bit in the block that holds it. */
  lemma SetInBlock(s: seq<Cell>, k: nat, bit: nat)
    requires Canonical(s) && k < |s| && s[k].indx == Index(bit)
    ensures var t := s[k := Cell(Index(bit), BlockSet(s[k].bits, Offset(bit)))];
            Canonical(t) && Members(t) == Members(s) + {bit}
  {
    var b := BlockSet(s[k].bits, Offset(bit));
    var t := s[k := Cell(Index(bit), b)];
    forall n: nat ensures Has(t, n) == (n == bit || Has(s, n)) {
      UpdateHas(s, k, b, n);
      SplitBit(n, bit);
      BlockSetBit(s[k].bits, Offset(bit), Offset(n));
      if Index(n) == Index(bit) { HasAt(s, k, n); }
    }
    SetMembers(s, t, bit);
    BlockSetBit(s[k].bits, Offset(bit), Offset(bit));
    ZeroBlock(Offset(bit));
  }

  lemma InsertHas(s: seq<Cell>, k: nat, c: Cell, n: nat)
    requires k <= |s|
    ensures Has(Insert(s, k, c), n) <==> (c.indx == Index(n) && BlockBit(c.bits, Offset(n))) || Has(s, n)
  {
    hide BlockBit;
    var t := Insert(s, k, c);
    assert t[k] == c;
    if Has(s, n) {
      var i :| 0 <= i < |s| && s[i].indx == Index(n) && BlockBit(s[i].bits, Offset(n));
      assert t[if i < k then i else i + 1] == s[i];
    }
    if Has(t, n) {
      var i :| 0 <= i < |t| && t[i].indx == Index(n) && BlockBit(t[i].bits, Offset(n));
      assert i != k ==> t[i] == s[if i < k then i else i - 1];
    }
  }

  /** A new block holding only `bit`. */
  lemma SetNewBlock(s: seq<Cell>, k: nat, bit: nat)
    requires Canonical(s) && k <= |s| && forall i :: 0 <= i < |s| ==> s[i].indx != Index(bit)
    ensures Members(Insert(s, k, Cell(Index(bit), BlockSet(ZERO, Offset(bit))))) == Members(s) + {bit}
    ensures BlockSet(ZERO, Offset(bit)) != ZERO
  {
    var c := Cell(Index(bit), BlockSet(ZERO, Offset(bit)));
    var t := Insert(s, k, c);
    forall n: nat ensures Has(t, n) == (n == bit || Has(s, n)) {
      SplitBit(n, bit);
      BlockSetBit(ZERO, Offset(bit), Offset(n));
      ZeroBlock(Offset(n));
      InsertHas(s, k, c, n);
    }
    SetMembers(s, t, bit);
    BlockSetBit(ZERO, Offset(bit), Offset(bit));
    ZeroBlock(Offset(bit));
  }

  lemma DropHas(s: seq<Cell>, k: nat, n: nat)
    requires k < |s| && s[k].bits == ZERO
    ensures Has(Drop(s, k), n) <==> Has(s, n)
  {
    hide BlockBit;
    var t := Drop(s, k);
    ZeroBlock(Offset(n));
    if Has(s, n) {
      var i :| 0 <= i < |s| && s[i].indx == Index(n) && BlockBit(s[i].bits, Offset(n));
      assert t[if i < k then i else i - 1] == s[i];
    }
    if Has(t, n) {
      var i :| 0 <= i < |t| && t[i].indx == Index(n) && BlockBit(t[i].bits, Offset(n));
      assert t[i] == s[if i < k then i else i + 1];
    }
  }

  /** An all-zero block contributes nothing. */
  lemma DropZero(s: seq<Cell>, k: nat)
    requires k < |s| && s[k].bits == ZERO
    ensures Members(Drop(s, k)) == Members(s)
  {
    hide Members, Has;
    var t := Drop(s, k);
    forall n: nat ensures n in Members(t) <==> n in Members(s) {
      MembersHas(s, n);
      MembersHas(t, n);
      DropHas(s, k, n);
    }
  }

  /** Clearing a bit in the block that holds it, and dropping the block if it became zero. */
  lemma ClearInBlock(s: seq<Cell>, k: nat, bit: nat)
    requires Canonical(s) && k < |s| && s[k].indx == Index(bit)
    ensures var b := BlockClear(s[k].bits, Offset(bit));
            var t := if b == ZERO then Drop(s, k) else s[k := Cell(Index(bit), b)];
            Canonical(t) && Members(t) == Members(s) - {bit}
  {
    hide Members, Has, BlockBit, BlockClear;
    var b := BlockClear(s[k].bits, Offset(bit));
    var u := s[k := Cell(Index(bit), b)];
    forall n: nat ensures Has(u, n) == (n != bit && Has(s, n)) {
      UpdateHas(s, k, b, n);
      SplitBit(n, bit);
      BlockSetBit(s[k].bits, Offset(bit), Offset(n));
      if Index(n) == Index(bit) { HasAt(s, k, n); }
    }
    ClearMembers(s, u, bit);
    if b == ZERO { DropZero(u, k); assert Drop(u, k) == Drop(s, k); }
  }

  /** bitmap_bit_p. */
  method BitP(head: Head, bit: nat) returns (r: int)
    requires head.Valid() || (head.Listed() && Canonical(head.cells) && head.Stray() && head.indx < Index(bit))
    modifies head`current, head`indx
    ensures old(head.Valid()) ==> head.Valid() && r == if bit in Members(head.cells) then 1 else 0
    ensures !old(head.Valid()) ==> r == 0 && head.current == old(head.current) && head.indx == old(head.indx)
  {
    var ptr, k := head.FindBit(bit);
    MembersHas(head.cells, bit);
    if ptr == null {
      return 0;
    }
    HasAt(head.cells, k, bit);
    assert Node(head.elts, head.cells, k);
    TestBit(ptr.bits[Offset(bit) / WORD_BITS], Offset(bit) % WORD_BITS);
    r := WordOp(And, Shr(ptr.bits[Offset(bit) / WORD_BITS], Offset(bit) % WORD_BITS), 1);
  }

  /** Allocate a block that is not there yet and link it where it belongs. */
  method AddBlock(head: Head, ix: nat, bits: Block) returns (ghost k: nat)
    requires head.Valid() && bits != ZERO && forall i :: 0 <= i < |head.cells| ==> head.cells[i].indx != ix
    modifies head, head.elts, head.obstack, head.obstack.stack
    ensures head.Valid() && Conserves(head)
    ensures k <= |old(head.cells)| && head.cells == Insert(old(head.cells), k, Cell(ix, bits)) && head.indx == ix
  {
    var ptr := head.NewElement(ix, bits);
    k := head.Link(ptr, Cell(ix, bits));
  }

  /** bitmap_set_bit. */
  method SetBit(head: Head, bit: nat)
    requires head.Valid()
    modifies head, head.elts, head.obstack, head.obstack.stack
    ensures head.Valid() && Conserves(head)
    ensures Members(head.cells) == old(Members(head.cells)) + {bit} && head.indx == Index(bit)
  {
    hide Obstack.Valid, Canonical, Members, BlockSet;
    var ptr, k := head.FindBit(bit);
    if ptr == null {
      var bits := BlockSet(ZERO, Offset(bit));
      SetNewBlock(head.cells, 0, bit);
      k := AddBlock(head, Index(bit), bits);
      SetNewBlock(old(head.cells), k, bit);
    } else {
      assert Node(head.elts, head.cells, k);
      SetInBlock(head.cells, k, bit);
      var bits := BlockSet(ptr.bits, Offset(bit));
      head.Store(ptr, ptr.indx, bits, k);
    }
  }

  /** Overwrite the words of element `k`, and free it if they are all zero. */
  method Rewrite(head: Head, ptr: Element, bits: Block, ghost k: nat)
    requires head.Listed() && head.CursorOk() && k < |head.elts| && head.elts[k] == ptr
    modifies head, head.elts, head.obstack
    ensures head.Listed() && head.CursorOk() && head.Pool() == old(head.Pool())
    ensures head.obstack.created == old(head.obstack.created)
    ensures head.cells == if bits == ZERO then Drop(old(head.cells), k)
                          else old(head.cells)[k := Cell(old(head.cells)[k].indx, bits)]
    ensures head.elts == if bits == ZERO then Drop(old(head.elts), k) else old(head.elts)
  {
    assert Node(head.elts, head.cells, k);
    head.Store(ptr, ptr.indx, bits, k);
    if bits == ZERO {
      head.Free(ptr, k);
    }
  }

  /** bitmap_clear_bit. */
  method ClearBit(head: Head, bit: nat)
    requires head.Valid()
    modifies head, head.elts, head.obstack, head.obstack.stack
    ensures head.Valid() && Conserves(head)
    ensures Members(head.cells) == old(Members(head.cells)) - {bit}
  {
    hide Obstack.Valid, Canonical, Members, BlockClear;
    var ptr, k := head.FindBit(bit);
    if ptr != null {
      assert Node(head.elts, head.cells, k);
      ClearInBlock(head.cells, k, bit);
      var bits := BlockClear(ptr.bits, Offset(bit));
      Rewrite(head, ptr, bits, k);
    } else {
      MembersHas(head.cells, bit);
      assert bit !in Members(head.cells);
    }
  }

  /** Drop everything from position `i` on. */
  method CutRest(a: Head, aElt: Element?, ghost i: nat)
    requires a.Valid() && i <= |a.elts| && aElt == At(a.elts, i)
    modifies a, a.obstack, a.Pool()
    ensures a.Valid() && a.cells == old(a.cells)[..i]
    ensures Conserves(a)
  {
    if aElt != null {
      ghost var k :| 0 <= k < |a.elts| && a.elts[k] == a.current;
      assert Node(a.elts, a.cells, k);
      a.ClearFrom(aElt, i);
      if 0 < i {
        assert k < i ==> a.elts[k] == a.current;
        assert a.elts[i - 1] in a.elts;
        assert Node(a.elts, a.cells, i - 1);
      }
    }
  }

  /** bitmap_clear. */
  method Clear(head: Head)
    requires head.Valid()
    modifies head, head.obstack, head.Pool()
    ensures head.Valid() && Conserves(head)
    ensures head.cells == [] && Members(head.cells) == {}
  {
    CutRest(head, head.first, 0);
  }

  /** Insert a block while another bitmap is being read. */
  method InsertBeside(a: Head, elt: Element?, ix: nat, bits: Block, ghost k: nat, ghost b: Head) returns (node: Element)
    requires a.Listed() && a.CursorOk() && Source(b) && Apart(a, b)
    requires k <= |a.elts| && elt == PrevAt(a.elts, k)
    modifies a, a.obstack, a.Pool()
    ensures a.Listed() && a.CursorOk() && Source(b) && Apart(a, b) && Conserves(a)
    ensures a.elts == Insert(old(a.elts), k, node) && a.cells == Insert(old(a.cells), k, Cell(ix, bits))
    ensures b.elts == old(b.elts) && b.cells == old(b.cells)
  {
    hide Obstack.Valid, Canonical, Distinct;
    forall j | 0 <= j < |b.elts| ensures Node(b.elts, b.cells, j) && b.elts[j] !in a.Pool() {}
    node := a.InsertAfter(elt, ix, bits, k);
    forall j | 0 <= j < |b.elts| ensures Node(b.elts, b.cells, j) {
      assert old(Node(b.elts, b.cells, j));
    }
  }

  lemma CanonicalPrefix(s: seq<Cell>, k: nat)
    requires Canonical(s) && k <= |s|
    ensures Canonical(s[..k])
  {}

  /** One iteration of bitmap_copy: append a copy of the next block. */
  method CopyStep(to: Head, from: Head, toPtr: Element?, fromPtr: Element, ghost k: nat)
    returns (toElt: Element, next: Element?)
    requires to.Valid() && Source(from) && Apart(to, from) && to != from
    requires k < |from.elts| && to.cells == from.cells[..k] && fromPtr == from.elts[k] && toPtr == PrevAt(to.elts, k)
    modifies to, to.obstack, to.Pool()
    ensures to.Valid() && Source(from) && Apart(to, from) && Conserves(to)
    ensures to.cells == from.cells[..k + 1] && next == At(from.elts, k + 1) && toElt == PrevAt(to.elts, k + 1)
  {
    hide Obstack.Valid, Grew, Canonical, Apart;
    assert Node(from.elts, from.cells, k);
    CanonicalPrefix(from.cells, k + 1);
    toElt := InsertBeside(to, toPtr, fromPtr.indx, fromPtr.bits, k, from);
    assert Node(from.elts, from.cells, k);
    next := fromPtr.next;
    assert to.cells == from.cells[..k + 1];
  }

  method CopyOther(to: Head, from: Head)
    requires to.Valid() && Source(from) && Apart(to, from) && to != from
    modifies to, to.obstack, to.Pool()
    ensures to.Valid() && Source(from) && Conserves(to)
    ensures to.cells == from.cells
  {
    Clear(to);
    hide Head.Valid, Source, Apart, Grew, Head.Pool;
    var fromPtr, toPtr: Element? := from.first, null;
    ghost var k := 0;
    while fromPtr != null
      invariant to.Valid() && Source(from) && Apart(to, from) && Conserves(to)
      invariant k <= |from.elts| && fromPtr == At(from.elts, k) && toPtr == PrevAt(to.elts, k)
      invariant |from.elts| == |from.cells| && to.cells == from.cells[..k]
      decreases |from.elts| - k
    {
      ghost var p, c := to.Pool(), to.obstack.created;
      toPtr, fromPtr := CopyStep(to, from, toPtr, fromPtr, k);
      GrewTrans(old(to.Pool()), old(to.obstack.created), p, c, to.Pool(), to.obstack.created);
      k := k + 1;
    }
  }

  /** bitmap_copy: clearing the destination leaves nothing to copy when a bitmap is copied onto itself. */
  method Copy(to: Head, from: Head)
    requires to.Valid() && (to == from || (Source(from) && Apart(to, from)))
    modifies to, to.obstack, to.Pool()
    ensures to.Valid() && Conserves(to)
    ensures if to == from then to.cells == [] else Source(from) && to.cells == from.cells
  {
    hide Head.Valid, Source, Apart, Grew, Head.Pool;
    if to == from {
      Clear(to);
    } else {
      CopyOther(to, from);
    }
  }
}
