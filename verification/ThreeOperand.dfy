/**
 The boolean operations that build their result in a third bitmap, reusing its elements.
 */
module ThreeOperand {
  import opened Words
  import opened Cells
  import opened Bitmaps
  import opened BitOps
  import opened InPlace

  ghost predicate Apart3(dst: Head, a: Head, b: Head)
    reads dst, dst.obstack, a, a.elts, b, b.elts
  {
    Source(a) && Source(b) && Apart(dst, a) && Apart(dst, b)
  }

  ghost predicate Halfway(dst: Head)
    reads dst, dst.elts, dst.obstack, dst.obstack.stack
  {
    dst.Listed() && (dst.current == null <==> dst.elts == []) && (dst.current != null ==> dst.current in dst.elts)
  }

  /** Write a block into position `k` of the destination, reusing its element there or adding one at the end. */
  method Put(dst: Head, dstElt: Element?, dstPrev: Element?, ix: nat, bits: Block, ghost k: nat)
    returns (elt: Element)
    requires Halfway(dst)
    requires k <= |dst.elts| && dstElt == At(dst.elts, k) && dstPrev == PrevAt(dst.elts, k)
    modifies dst, dst.obstack, dst.Pool()
    ensures Halfway(dst) && Conserves(dst)
    ensures k < |dst.elts| == |dst.cells| && dst.elts[k] == elt
    ensures dst.elts == if k < |old(dst.elts)| then old(dst.elts) else old(dst.elts) + [elt]
    ensures |old(dst.cells)| == |old(dst.elts)|
    ensures dst.cells == if k < |old(dst.cells)| then old(dst.cells)[k := Cell(ix, bits)]
              else old(dst.cells) + [Cell(ix, bits)]
    ensures dst.current == if old(dst.current) == null then elt else old(dst.current)
  {
    hide Obstack.Valid, Canonical, Distinct;
    Same(dst.Pool(), dst.obstack.created);
    if dstElt == null {
      elt := dst.InsertAfter(dstPrev, ix, bits, k);
    } else {
      elt := dstElt;
      dst.Store(elt, ix, bits, k);
    }
  }

  /** Put, while two bitmaps are being read. */
  method PutBeside(dst: Head, dstElt: Element?, dstPrev: Element?, ix: nat, bits: Block, ghost k: nat, ghost a: Head,
                   ghost b: Head)
    returns (elt: Element)
    requires Halfway(dst) && Apart3(dst, a, b)
    requires k <= |dst.elts| && dstElt == At(dst.elts, k) && dstPrev == PrevAt(dst.elts, k)
    modifies dst, dst.obstack, dst.Pool()
    ensures Halfway(dst) && Apart3(dst, a, b) && Conserves(dst)
    ensures a.elts == old(a.elts) && a.cells == old(a.cells) && b.elts == old(b.elts) && b.cells == old(b.cells)
    ensures k < |dst.elts| == |dst.cells| && dst.elts[k] == elt
    ensures dst.elts == if k < |old(dst.elts)| then old(dst.elts) else old(dst.elts) + [elt]
    ensures |old(dst.cells)| == |old(dst.elts)|
    ensures dst.cells == if k < |old(dst.cells)| then old(dst.cells)[k := Cell(ix, bits)]
              else old(dst.cells) + [Cell(ix, bits)]
    ensures dst.current == if old(dst.current) == null then elt else old(dst.current)
  {
    hide Obstack.Valid, Canonical, Grew, Distinct, Halfway;
    forall j | 0 <= j < |a.elts| ensures Node(a.elts, a.cells, j) && a.elts[j] !in dst.Pool() {}
    forall j | 0 <= j < |b.elts| ensures Node(b.elts, b.cells, j) && b.elts[j] !in dst.Pool() {}
    elt := Put(dst, dstElt, dstPrev, ix, bits, k);
    forall j | 0 <= j < |a.elts| ensures Node(a.elts, a.cells, j) { assert old(Node(a.elts, a.cells, j)); }
    forall j | 0 <= j < |b.elts| ensures Node(b.elts, b.cells, j) { assert old(Node(b.elts, b.cells, j)); }
  }

  function Written(d: seq<Cell>, k: nat, c: Cell): seq<Cell>
    requires k <= |d|
  {
    if k < |d| then d[k := c] else d + [c]
  }

  /** Whether, in merging the rest, some pair of blocks cancels after the last block that is written. */
  ghost predicate Cancels(op: BoolOp, ra: seq<Cell>, rb: seq<Cell>, sofar: bool)
    decreases |ra| + |rb|
  {
    if ra == [] && rb == [] then sofar
    else if rb == [] || (ra != [] && ra[0].indx < rb[0].indx) then
      Cancels(op, ra[1..], rb, if KeepLeft(op) then false else sofar)
    else if ra == [] || rb[0].indx < ra[0].indx then
      Cancels(op, ra, rb[1..], if KeepRight(op) then false else sofar)
    else Cancels(op, ra[1..], rb[1..], BlockOp(op, ra[0].bits, rb[0].bits) == ZERO)
  }

  lemma {:induction false} CancelsRest(op: BoolOp, s: seq<Cell>, sofar: bool)
    ensures !KeepLeft(op) ==> Cancels(op, s, [], sofar) == sofar
    ensures !KeepRight(op) ==> Cancels(op, [], s, sofar) == sofar
  {
    if s != [] { CancelsRest(op, s[1..], sofar); }
  }

  /**
   How far a three-operand merge has come: `k` blocks of the destination `d` are final, the operands
   are read up to `i` and `j`, and the blocks of `d` from `k` on are what they were in `s0`, except that
   a cancelled block may have been written over position `k`.
   */
  ghost predicate Partial(op: BoolOp, d: seq<Cell>, k: nat, s: seq<Cell>, i: nat, t: seq<Cell>, j: nat,
                          m: seq<Cell>, z: bool, s0: seq<Cell>, cancelled: bool)
  {
    && k <= |d| && i <= |s| && j <= |t|
    && Merging(op, d[..k], s[i..], t[j..], m)
    && Cancels(op, s[i..], t[j..], cancelled) == z
    && (k > 0 && i < |s| ==> d[k - 1].indx < s[i].indx)
    && (k > 0 && j < |t| ==> d[k - 1].indx < t[j].indx)
    && (|d| == k || |d| == |s0| || (|d| == k + 1 && cancelled))
    && (forall p :: k < p < |d| && p < |s0| ==> d[p] == s0[p])
    && (k < |d| && !cancelled ==> d[k] == s0[k])
    && (0 < k < |d| && cancelled ==> d[k - 1].indx < d[k].indx)
  }

  lemma PartialLeft(op: BoolOp, d: seq<Cell>, k: nat, s: seq<Cell>, i: nat, t: seq<Cell>, j: nat,
                    m: seq<Cell>, z: bool, s0: seq<Cell>, cancelled: bool)
    requires Partial(op, d, k, s, i, t, j, m, z, s0, cancelled) && Sorted(s) && Sorted(t)
    requires i < |s| && (j == |t| || s[i].indx < t[j].indx)
    ensures KeepLeft(op) ==> Partial(op, Written(d, k, s[i]), k + 1, s, i + 1, t, j, m, z, s0, false)
    ensures !KeepLeft(op) ==> Partial(op, d, k, s, i + 1, t, j, m, z, s0, cancelled)
  {
    hide Merge;
    StepLeft(op, d[..k], s[i..], t[j..], m);
    assert s[i..][1..] == s[i + 1..];
    var d' := Written(d, k, s[i]);
    assert d'[..k + 1] == d[..k] + [s[i]];
  }

  lemma PartialRight(op: BoolOp, d: seq<Cell>, k: nat, s: seq<Cell>, i: nat, t: seq<Cell>, j: nat,
                     m: seq<Cell>, z: bool, s0: seq<Cell>, cancelled: bool)
    requires Partial(op, d, k, s, i, t, j, m, z, s0, cancelled) && Sorted(s) && Sorted(t)
    requires j < |t| && (i == |s| || t[j].indx < s[i].indx)
    ensures KeepRight(op) ==> Partial(op, Written(d, k, t[j]), k + 1, s, i, t, j + 1, m, z, s0, false)
    ensures !KeepRight(op) ==> Partial(op, d, k, s, i, t, j + 1, m, z, s0, cancelled)
  {
    hide Merge;
    StepRight(op, d[..k], s[i..], t[j..], m);
    assert t[j..][1..] == t[j + 1..];
    var d' := Written(d, k, t[j]);
    assert d'[..k + 1] == d[..k] + [t[j]];
  }

  lemma PartialBoth(op: BoolOp, d: seq<Cell>, k: nat, s: seq<Cell>, i: nat, t: seq<Cell>, j: nat,
                    m: seq<Cell>, z: bool, s0: seq<Cell>, cancelled: bool)
    requires Partial(op, d, k, s, i, t, j, m, z, s0, cancelled) && Sorted(s) && Sorted(t)
    requires i < |s| && j < |t| && s[i].indx == t[j].indx
    ensures var r := BlockOp(op, s[i].bits, t[j].bits);
            var d' := Written(d, k, Cell(s[i].indx, r));
            if r != ZERO then Partial(op, d', k + 1, s, i + 1, t, j + 1, m, z, s0, false)
            else Partial(op, d', k, s, i + 1, t, j + 1, m, z, s0, true)
  {
    hide Merge, BlockOp;
    StepBoth(op, d[..k], s[i..], t[j..], m);
    assert s[i..][1..] == s[i + 1..] && t[j..][1..] == t[j + 1..];
    var c := Cell(s[i].indx, BlockOp(op, s[i].bits, t[j].bits));
    var d' := Written(d, k, c);
    assert d'[..k + 1] == d[..k] + [c] && d'[..k] == d[..k];
  }

  /** The pointers a three-operand loop walks with. */
  datatype Walk = Walk(dstElt: Element?, dstPrev: Element?, aElt: Element?, bElt: Element?)

  /** Their positions, and whether the block at `k` was written by a cancelled pair. */
  datatype Mark = Mark(k: nat, i: nat, j: nat, cancelled: bool)

  /** The destination before the operation. */
  datatype Before = Before(elts: seq<Element>, cells: seq<Cell>, current: Element?)

  /** The destination still starts with its original elements and the cursor has not moved off them. */
  ghost predicate Held(dst: Head, o: Before)
    reads dst`elts, dst`current
  {
    && o.elts <= dst.elts && |o.elts| == |o.cells|
    && (o.elts != [] ==> dst.current == o.current)
    && (o.elts == [] && dst.elts != [] ==> dst.current == dst.elts[0])
  }

  ghost predicate Building(op: BoolOp, dst: Head, a: Head, b: Head, w: Walk, g: Mark, o: Before, m: seq<Cell>, z: bool)
    reads dst, dst.elts, dst.obstack, dst.obstack.stack, a, a.elts, b, b.elts
  {
    && Halfway(dst) && Apart3(dst, a, b) && Held(dst, o)
    && Partial(op, dst.cells, g.k, a.cells, g.i, b.cells, g.j, m, z, o.cells, g.cancelled)
    && |dst.elts| == |dst.cells| && |a.elts| == |a.cells| && |b.elts| == |b.cells|
    && w == Walk(At(dst.elts, g.k), PrevAt(dst.elts, g.k), At(a.elts, g.i), At(b.elts, g.j))
  }

  /** Put a block at `k` and look up what follows it. */
  method Emit(dst: Head, dstElt: Element?, dstPrev: Element?, ix: nat, bits: Block, ghost k: nat, ghost a: Head,
              ghost b: Head, ghost o: Before)
    returns (elt: Element, next: Element?)
    requires Halfway(dst) && Apart3(dst, a, b) && Held(dst, o)
    requires k <= |dst.elts| && dstElt == At(dst.elts, k) && dstPrev == PrevAt(dst.elts, k)
    modifies dst, dst.obstack, dst.Pool()
    ensures Halfway(dst) && Apart3(dst, a, b) && Held(dst, o) && Conserves(dst)
    ensures a.elts == old(a.elts) && a.cells == old(a.cells) && b.elts == old(b.elts) && b.cells == old(b.cells)
    ensures |dst.elts| == |dst.cells| && k <= |old(dst.cells)|
    ensures dst.cells == Written(old(dst.cells), k, Cell(ix, bits))
    ensures k < |dst.elts| && elt == At(dst.elts, k) == PrevAt(dst.elts, k + 1) && next == At(dst.elts, k + 1)
    ensures PrevAt(dst.elts, k) == dstPrev
  {
    hide Obstack.Valid, Canonical, Grew, Distinct, Apart3;
    elt := PutBeside(dst, dstElt, dstPrev, ix, bits, k, a, b);
    assert Node(dst.elts, dst.cells, k);
    next := elt.next;
  }

  ghost function Togo(a: Head, b: Head, g: Mark): int
    reads a`elts, b`elts
  {
    |a.elts| - g.i + |b.elts| - g.j
  }

  lemma SourceSorted(a: Head)
    requires Source(a)
    ensures Sorted(a.cells)
  {}

  lemma PartialBounds(op: BoolOp, d: seq<Cell>, k: nat, s: seq<Cell>, i: nat, t: seq<Cell>, j: nat,
                      m: seq<Cell>, z: bool, s0: seq<Cell>, cancelled: bool)
    requires Partial(op, d, k, s, i, t, j, m, z, s0, cancelled)
    ensures k <= |d| && i <= |s| && j <= |t|
  {}

  /** Copy an element that only `a` has. */
  method CopyLeft(op: BoolOp, dst: Head, a: Head, b: Head, w: Walk, ghost g: Mark, ghost o: Before, ghost m: seq<Cell>,
                  ghost z: bool)
    returns (w': Walk, ghost g': Mark)
    requires Building(op, dst, a, b, w, g, o, m, z) && KeepLeft(op)
    requires w.aElt != null && (w.bElt == null || w.aElt.indx < w.bElt.indx)
    modifies dst, dst.obstack, dst.Pool()
    ensures Building(op, dst, a, b, w', g', o, m, z) && Conserves(dst)
    ensures g.k <= |old(dst.cells)| && g'.k == g.k + 1
    ensures dst.cells == Written(old(dst.cells), g.k, Cell(old(w.aElt.indx), old(w.aElt.bits)))
    ensures 0 <= Togo(a, b, g') < old(Togo(a, b, g))
  {
    hide Obstack.Valid, Canonical, Grew, Distinct, Partial, Apart, Cancels, Held, PrevAt, Written;
    assert Node(a.elts, a.cells, g.i) && (w.bElt != null ==> Node(b.elts, b.cells, g.j));
    SourceSorted(a);
    SourceSorted(b);
    PartialBounds(op, dst.cells, g.k, a.cells, g.i, b.cells, g.j, m, z, o.cells, g.cancelled);
    PartialLeft(op, dst.cells, g.k, a.cells, g.i, b.cells, g.j, m, z, o.cells, g.cancelled);
    var aNext := w.aElt.next;
    var elt, next := Emit(dst, w.dstElt, w.dstPrev, w.aElt.indx, w.aElt.bits, g.k, a, b, o);
    w' := Walk(next, elt, aNext, w.bElt);
    g' := Mark(g.k + 1, g.i + 1, g.j, false);
  }

  /** Copy an element that only `b` has. */
  method CopyRight(op: BoolOp, dst: Head, a: Head, b: Head, w: Walk, ghost g: Mark, ghost o: Before, ghost m: seq<Cell>,
                   ghost z: bool)
    returns (w': Walk, ghost g': Mark)
    requires Building(op, dst, a, b, w, g, o, m, z) && KeepRight(op)
    requires w.bElt != null && (w.aElt == null || w.bElt.indx < w.aElt.indx)
    modifies dst, dst.obstack, dst.Pool()
    ensures Building(op, dst, a, b, w', g', o, m, z) && Conserves(dst)
    ensures g.k <= |old(dst.cells)| && g'.k == g.k + 1
    ensures dst.cells == Written(old(dst.cells), g.k, Cell(old(w.bElt.indx), old(w.bElt.bits)))
    ensures 0 <= Togo(a, b, g') < old(Togo(a, b, g))
  {
    hide Obstack.Valid, Canonical, Grew, Distinct, Partial, Apart, Cancels, Held, PrevAt, Written;
    assert Node(b.elts, b.cells, g.j) && (w.aElt != null ==> Node(a.elts, a.cells, g.i));
    SourceSorted(a);
    SourceSorted(b);
    PartialBounds(op, dst.cells, g.k, a.cells, g.i, b.cells, g.j, m, z, o.cells, g.cancelled);
    PartialRight(op, dst.cells, g.k, a.cells, g.i, b.cells, g.j, m, z, o.cells, g.cancelled);
    var bNext := w.bElt.next;
    var elt, next := Emit(dst, w.dstElt, w.dstPrev, w.bElt.indx, w.bElt.bits, g.k, a, b, o);
    w' := Walk(next, elt, w.aElt, bNext);
    g' := Mark(g.k + 1, g.i, g.j + 1, false);
  }

  /** Step over an element that only `a` has. */
  method PassLeft(op: BoolOp, dst: Head, a: Head, b: Head, w: Walk, ghost g: Mark, ghost o: Before, ghost m: seq<Cell>,
                  ghost z: bool)
    returns (w': Walk, ghost g': Mark)
    requires Building(op, dst, a, b, w, g, o, m, z) && !KeepLeft(op)
    requires w.aElt != null && (w.bElt == null || w.aElt.indx < w.bElt.indx)
    ensures Building(op, dst, a, b, w', g', o, m, z)
    ensures 0 <= Togo(a, b, g') < Togo(a, b, g)
  {
    hide Obstack.Valid, Distinct, Partial, Apart, Cancels;
    assert Node(a.elts, a.cells, g.i) && (w.bElt != null ==> Node(b.elts, b.cells, g.j));
    PartialBounds(op, dst.cells, g.k, a.cells, g.i, b.cells, g.j, m, z, o.cells, g.cancelled);
    PartialLeft(op, dst.cells, g.k, a.cells, g.i, b.cells, g.j, m, z, o.cells, g.cancelled);
    w', g' := w.(aElt := w.aElt.next), g.(i := g.i + 1);
  }

  /** Step over an element that only `b` has. */
  method PassRight(op: BoolOp, dst: Head, a: Head, b: Head, w: Walk, ghost g: Mark, ghost o: Before, ghost m: seq<Cell>,
                   ghost z: bool)
    returns (w': Walk, ghost g': Mark)
    requires Building(op, dst, a, b, w, g, o, m, z) && !KeepRight(op)
    requires w.bElt != null && (w.aElt == null || w.bElt.indx < w.aElt.indx)
    ensures Building(op, dst, a, b, w', g', o, m, z)
    ensures 0 <= Togo(a, b, g') < Togo(a, b, g)
  {
    hide Obstack.Valid, Distinct, Partial, Apart, Cancels;
    assert Node(b.elts, b.cells, g.j) && (w.aElt != null ==> Node(a.elts, a.cells, g.i));
    PartialBounds(op, dst.cells, g.k, a.cells, g.i, b.cells, g.j, m, z, o.cells, g.cancelled);
    PartialRight(op, dst.cells, g.k, a.cells, g.i, b.cells, g.j, m, z, o.cells, g.cancelled);
    w', g' := w.(bElt := w.bElt.next), g.(j := g.j + 1);
  }

  /** Write the combination `r` of two blocks with the same index; step past it unless it is zero. */
  method PutBoth(op: BoolOp, dst: Head, a: Head, b: Head, w: Walk, r: Block, ghost g: Mark, ghost o: Before,
                 ghost m: seq<Cell>, ghost z: bool)
    returns (w': Walk, ghost g': Mark)
    requires Building(op, dst, a, b, w, g, o, m, z)
    requires w.aElt != null && w.bElt != null && w.aElt.indx == w.bElt.indx
    requires r == BlockOp(op, w.aElt.bits, w.bElt.bits)
    modifies dst, dst.obstack, dst.Pool()
    ensures Building(op, dst, a, b, w', g', o, m, z) && Conserves(dst)
    ensures g.k <= |old(dst.cells)| && g'.k == if r != ZERO then g.k + 1 else g.k
    ensures dst.cells == Written(old(dst.cells), g.k, Cell(old(w.aElt.indx), r))
    ensures 0 <= Togo(a, b, g') < old(Togo(a, b, g))
  {
    hide Obstack.Valid, Canonical, Grew, Distinct, Partial, Apart, Cancels, BlockOp, Held, PrevAt, Written;
    assert Node(b.elts, b.cells, g.j) && Node(a.elts, a.cells, g.i);
    SourceSorted(a);
    SourceSorted(b);
    PartialBounds(op, dst.cells, g.k, a.cells, g.i, b.cells, g.j, m, z, o.cells, g.cancelled);
    PartialBoth(op, dst.cells, g.k, a.cells, g.i, b.cells, g.j, m, z, o.cells, g.cancelled);
    var aNext, bNext := w.aElt.next, w.bElt.next;
    var elt, next := Emit(dst, w.dstElt, w.dstPrev, w.aElt.indx, r, g.k, a, b, o);
    if r != ZERO {
      w' := Walk(next, elt, aNext, bNext);
      g' := Mark(g.k + 1, g.i + 1, g.j + 1, false);
    } else {
      w' := Walk(elt, w.dstPrev, aNext, bNext);
      g' := Mark(g.k, g.i + 1, g.j + 1, true);
    }
  }

  /**
   When the cursor of the destination survives a three-operand operation with result `m`: it was on one of
   the elements that are kept, or the index left in its element compares above the last kept one. `z` says
   that a cancelled pair wrote over the first element that is cut off.
   */
  ghost predicate CursorSafe(o: Before, m: seq<Cell>, z: bool)
    requires |o.cells| == |o.elts|
  {
    m == [] || forall p :: 0 <= p < |o.elts| && o.elts[p] == o.current ==>
      p < |m| || m[|m| - 1].indx < o.cells[p].indx || (p == |m| && z)
  }

  /**
   A cursor that does not survive: the destination has blocks 0 and 1 with the cursor on the second, and one
   block with a higher index is written over the first.
   */
  lemma StaleCursor(first: Element, second: Element, bits: Block)
    requires first != second
    ensures var o := Before([first, second], [Cell(0, bits), Cell(1, bits)], second);
            !CursorSafe(o, Merge(BoolOp.Ior, [Cell(5, bits)], []), Cancels(BoolOp.Ior, [Cell(5, bits)], [], false))
  {
    var a := [Cell(5, bits)];
    assert a[1..] == [];
    assert Merge(BoolOp.Ior, a, []) == a;
    assert !Cancels(BoolOp.Ior, a, [], false);
    var o := Before([first, second], [Cell(0, bits), Cell(1, bits)], second);
    assert o.elts[1] == o.current;
  }

  /**
   Where a cursor that does not survive is left: on an element that was cut off, with its index and its successor as
   they were.
   */
  ghost predicate Stranded(dst: Head, o: Before)
    requires |o.cells| == |o.elts|
    reads dst, dst.current
  {
    && dst.current == o.current != null && dst.current !in dst.elts && dst.indx == dst.current.indx
    && forall p :: 0 <= p < |o.elts| && o.elts[p] == o.current ==>
         dst.indx == o.cells[p].indx && dst.current.next == At(o.elts, p + 1)
  }

  /** Nothing is left to merge. */
  lemma PartialEnd(op: BoolOp, d: seq<Cell>, k: nat, s: seq<Cell>, i: nat, t: seq<Cell>, j: nat,
                   m: seq<Cell>, z: bool, s0: seq<Cell>, cancelled: bool)
    requires Partial(op, d, k, s, i, t, j, m, z, s0, cancelled)
    requires i == |s| || (j == |t| && !KeepLeft(op))
    requires j == |t| || (i == |s| && !KeepRight(op))
    ensures d[..k] == m && cancelled == z
  {
    MergeRest(op, s[i..]);
    MergeRest(op, t[j..]);
    CancelsRest(op, s[i..], cancelled);
    CancelsRest(op, t[j..], cancelled);
  }

  /** Cut the list at `k` and refresh the cursor's index. */
  method CutAt(dst: Head, dstElt: Element?, ghost k: nat)
    requires Halfway(dst) && k <= |dst.elts| && dstElt == At(dst.elts, k)
    modifies dst, dst.obstack, dst.Pool()
    ensures dst.Listed() && dst.cells == old(dst.cells)[..k] && Conserves(dst)
    ensures dst.CursorOk() <==>
      k == 0 || k == |old(dst.elts)| || old(dst.current.indx) > old(dst.cells)[k - 1].indx
          || old(dst.current) in old(dst.elts)[..k]
    ensures !dst.CursorOk() ==>
      && dst.current == old(dst.current) != null && dst.current !in dst.elts && dst.indx == dst.current.indx
      && dst.current.indx == old(dst.current.indx) && dst.current.next == old(dst.current.next)
  {
    hide Obstack.Valid, Grew, Distinct;
    Same(dst.Pool(), dst.obstack.created);
    if dstElt != null {
      dst.ClearFrom(dstElt, k);
      assert k > 0 ==> Node(dst.elts, dst.cells, k - 1) && dst.elts[k - 1] in dst.elts;
    }
    assert (dst.current == null) == (dst.first == null);
    if dst.current != null {
      dst.indx := dst.current.indx;
    }
  }

  lemma CursorKept(op: BoolOp, d: seq<Cell>, k: nat, s: seq<Cell>, i: nat, t: seq<Cell>, j: nat,
                   m: seq<Cell>, z: bool, o: Before, elts: seq<Element>, current: Element, p: nat)
    requires Partial(op, d, k, s, i, t, j, m, z, o.cells, z) && d[..k] == m && Sorted(m)
    requires |d| == |elts| && Distinct(elts) && p < |elts| && elts[p] == current
    requires o.elts <= elts && |o.elts| == |o.cells|
    requires if o.elts == [] then p == 0 else current == o.current && current in o.elts
    ensures (k == 0 || k == |elts| || d[p].indx > d[k - 1].indx || current in elts[..k]) <==> CursorSafe(o, m, z)
  {
    hide Merge, Cancels;
    if 0 < k < |elts| {
      assert p < k ==> elts[..k][p] == current;
      assert current in elts[..k] ==> p < k;
      assert m[k - 1] == d[k - 1];
      if o.elts != [] {
        assert p < |o.elts| by {
          var q :| 0 <= q < |o.elts| && o.elts[q] == current;
          assert elts[q] == current;
        }
        assert o.elts[p] == current;
        assert p < k ==> m[p] == d[p];
      }
    }
  }

  lemma Sealing(op: BoolOp, dst: Head, a: Head, b: Head, w: Walk, g: Mark, o: Before, m: seq<Cell>, z: bool)
    requires Building(op, dst, a, b, w, g, o, m, z)
    requires w.aElt == null || (w.bElt == null && !KeepLeft(op))
    requires w.bElt == null || (w.aElt == null && !KeepRight(op))
    requires Sorted(m) && (o.elts != [] ==> o.current in o.elts)
    ensures Halfway(dst) && Apart3(dst, a, b) && g.k <= |dst.elts| && w.dstElt == At(dst.elts, g.k)
    ensures |dst.cells| == |dst.elts|
    ensures dst.cells[..g.k] == m && |o.elts| == |o.cells| && (dst.current == null <==> dst.elts == [])
    ensures (g.k == 0 || g.k == |dst.elts| || dst.current.indx > dst.cells[g.k - 1].indx
              || dst.current in dst.elts[..g.k])
            <==> CursorSafe(o, m, z)
  {
    PartialEnd(op, dst.cells, g.k, a.cells, g.i, b.cells, g.j, m, z, o.cells, g.cancelled);
    if dst.elts != [] {
      var p :| 0 <= p < |dst.elts| && dst.elts[p] == dst.current;
      assert Node(dst.elts, dst.cells, p);
      CursorKept(op, dst.cells, g.k, a.cells, g.i, b.cells, g.j, m, z, o, dst.elts, dst.current, p);
    }
  }

  /** A cursor that will not survive is on an element that the merge has not touched. */
  lemma Untouched(op: BoolOp, dst: Head, a: Head, b: Head, w: Walk, g: Mark, o: Before, m: seq<Cell>, z: bool, p: nat)
    requires Building(op, dst, a, b, w, g, o, m, z)
    requires w.aElt == null || (w.bElt == null && !KeepLeft(op))
    requires w.bElt == null || (w.aElt == null && !KeepRight(op))
    requires !CursorSafe(o, m, z) && p < |o.elts| && o.elts[p] == o.current
    ensures dst.current == o.current && dst.current.indx == o.cells[p].indx && dst.current.next == At(o.elts, p + 1)
  {
    hide Merge, Cancels, Merging;
    PartialEnd(op, dst.cells, g.k, a.cells, g.i, b.cells, g.j, m, z, o.cells, g.cancelled);
    var q :| 0 <= q < |o.elts| && o.elts[q] == o.current && q >= |m| && !(q == |m| && z);
    assert dst.elts[p] == dst.elts[q];
    assert Node(dst.elts, dst.cells, p);
  }

  method CutBeside(dst: Head, dstElt: Element?, ghost k: nat, ghost a: Head, ghost b: Head)
    requires Halfway(dst) && Apart3(dst, a, b) && k <= |dst.elts| && dstElt == At(dst.elts, k)
    modifies dst, dst.obstack, dst.Pool()
    ensures dst.Listed() && dst.cells == old(dst.cells)[..k] && Conserves(dst) && Source(a) && Source(b)
    ensures a.cells == old(a.cells) && b.cells == old(b.cells)
    ensures dst.CursorOk() <==>
      k == 0 || k == |old(dst.elts)| || old(dst.current.indx) > old(dst.cells)[k - 1].indx
          || old(dst.current) in old(dst.elts)[..k]
    ensures !dst.CursorOk() ==>
      && dst.current == old(dst.current) != null && dst.current !in dst.elts && dst.indx == dst.current.indx
      && dst.current.indx == old(dst.current.indx) && dst.current.next == old(dst.current.next)
  {
    hide Obstack.Valid, Grew, Distinct, Halfway, Canonical;
    forall j | 0 <= j < |a.elts| ensures Node(a.elts, a.cells, j) && a.elts[j] !in dst.Pool() {}
    forall j | 0 <= j < |b.elts| ensures Node(b.elts, b.cells, j) && b.elts[j] !in dst.Pool() {}
    CutAt(dst, dstElt, k);
    forall j | 0 <= j < |a.elts| ensures Node(a.elts, a.cells, j) { assert old(Node(a.elts, a.cells, j)); }
    forall j | 0 <= j < |b.elts| ensures Node(b.elts, b.cells, j) { assert old(Node(b.elts, b.cells, j)); }
  }

  lemma LostSomewhere(o: Before, m: seq<Cell>, z: bool)
    requires |o.cells| == |o.elts|
    ensures !CursorSafe(o, m, z) ==> exists p :: 0 <= p < |o.elts| && o.elts[p] == o.current
  {}

  lemma IsStranded(dst: Head, o: Before)
    requires |o.cells| == |o.elts|
    requires dst.current == o.current != null && dst.current !in dst.elts && dst.indx == dst.current.indx
    requires forall p :: 0 <= p < |o.elts| && o.elts[p] == o.current ==>
               dst.indx == o.cells[p].indx && dst.current.next == At(o.elts, p + 1)
    ensures Stranded(dst, o)
  {}

  /** The end of every three-operand operation: cut off what was not rewritten. */
  method Seal(op: BoolOp, dst: Head, dstElt: Element?, ghost a: Head, ghost b: Head, ghost w: Walk, ghost g: Mark,
              ghost o: Before, ghost m: seq<Cell>, ghost z: bool)
    requires Building(op, dst, a, b, w, g, o, m, z) && dstElt == w.dstElt
    requires w.aElt == null || (w.bElt == null && !KeepLeft(op))
    requires w.bElt == null || (w.aElt == null && !KeepRight(op))
    requires Sorted(m) && (o.elts != [] ==> o.current in o.elts)
    modifies dst, dst.obstack, dst.Pool()
    ensures dst.Listed() && dst.cells == m && Source(a) && Source(b) && Conserves(dst)
    ensures a.cells == old(a.cells) && b.cells == old(b.cells)
    ensures |o.elts| == |o.cells| && (dst.CursorOk() <==> CursorSafe(o, m, z))
    ensures !dst.CursorOk() ==> Stranded(dst, o)
  {
    hide *;
    Sealing(op, dst, a, b, w, g, o, m, z);
    if !CursorSafe(o, m, z) {
      forall p | 0 <= p < |o.elts| && o.elts[p] == o.current
        ensures dst.current == o.current && dst.current.indx == o.cells[p].indx && dst.current.next == At(o.elts, p + 1)
      {
        Untouched(op, dst, a, b, w, g, o, m, z, p);
      }
    }
    LostSomewhere(o, m, z);
    CutBeside(dst, dstElt, g.k, a, b);
    if !dst.CursorOk() {
      IsStranded(dst, o);
    }
  }

  ghost function Snapshot(dst: Head): Before
    reads dst
  {
    Before(dst.elts, dst.cells, dst.current)
  }

  lemma Begin(op: BoolOp, dst: Head, a: Head, b: Head)
    requires dst.Valid() && Apart3(dst, a, b)
    ensures var m := Merge(op, a.cells, b.cells);
            && Building(op, dst, a, b, Walk(dst.first, null, a.first, b.first), Mark(0, 0, 0, false), Snapshot(dst), m,
                        Cancels(op, a.cells, b.cells, false))
            && Canonical(m) && Sorted(m)
    ensures dst.elts != [] ==> dst.current in dst.elts
  {
    hide Obstack.Valid, Merge, Cancels;
    MergeCanonical(op, a.cells, b.cells);
    assert a.cells[0..] == a.cells && b.cells[0..] == b.cells && dst.cells[..0] == [];
    assert dst.elts != [] ==> Node(dst.elts, dst.cells, 0);
  }

  /** A destination that is empty or whose cursor is on its first element keeps a good cursor. */
  lemma FirstIsSafe(dst: Head, m: seq<Cell>, z: bool)
    requires dst.Valid()
    ensures |dst.elts| == |dst.cells|
    ensures dst.current == dst.first ==> CursorSafe(Snapshot(dst), m, z)
  {}

  /** One iteration of bitmap_and. */
  method AndStep(dst: Head, a: Head, b: Head, w: Walk, ghost g: Mark, ghost o: Before, ghost m: seq<Cell>,
                 ghost z: bool)
    returns (w': Walk, ghost g': Mark)
    requires Building(BoolOp.And, dst, a, b, w, g, o, m, z) && w.aElt != null && w.bElt != null
    modifies dst, dst.obstack, dst.Pool()
    ensures Building(BoolOp.And, dst, a, b, w', g', o, m, z) && Conserves(dst)
    ensures 0 <= Togo(a, b, g') < old(Togo(a, b, g))
  {
    hide Building, BlockOp, Grew, Head.Pool, Togo;
    Same(dst.Pool(), dst.obstack.created);
    if w.aElt.indx < w.bElt.indx {
      w', g' := PassLeft(BoolOp.And, dst, a, b, w, g, o, m, z);
    } else if w.bElt.indx < w.aElt.indx {
      w', g' := PassRight(BoolOp.And, dst, a, b, w, g, o, m, z);
    } else {
      var r, _ := CombineWords(BoolOp.And, w.aElt.bits, w.bElt.bits);
      w', g' := PutBoth(BoolOp.And, dst, a, b, w, r, g, o, m, z);
    }
  }

  method AndOther(dst: Head, a: Head, b: Head)
    requires dst.Valid() && Apart3(dst, a, b)
    modifies dst, dst.obstack, dst.Pool()
    ensures dst.Listed() && Source(a) && Source(b) && Conserves(dst)
    ensures dst.cells == Merge(BoolOp.And, old(a.cells), old(b.cells))
    ensures |old(dst.elts)| == |old(dst.cells)|
    ensures dst.CursorOk() <==>
              CursorSafe(old(Snapshot(dst)), dst.cells, Cancels(BoolOp.And, old(a.cells), old(b.cells), false))
    ensures !dst.CursorOk() ==> Stranded(dst, old(Snapshot(dst)))
  {
    hide Building, Head.Valid, Apart3, Merge, Grew, Head.Pool, Canonical, Sorted, Cancels, CursorSafe;
    ghost var m, z := Merge(BoolOp.And, a.cells, b.cells), Cancels(BoolOp.And, a.cells, b.cells, false);
    ghost var o := Snapshot(dst);
    Begin(BoolOp.And, dst, a, b);
    Same(dst.Pool(), dst.obstack.created);
    var w := Walk(dst.first, null, a.first, b.first);
    ghost var g := Mark(0, 0, 0, false);
    while w.aElt != null && w.bElt != null
      invariant Building(BoolOp.And, dst, a, b, w, g, o, m, z) && Conserves(dst)
      decreases Togo(a, b, g)
    {
      ghost var p, c := dst.Pool(), dst.obstack.created;
      w, g := AndStep(dst, a, b, w, g, o, m, z);
      GrewTrans(old(dst.Pool()), old(dst.obstack.created), p, c, dst.Pool(), dst.obstack.created);
    }
    ghost var p, c := dst.Pool(), dst.obstack.created;
    Seal(BoolOp.And, dst, w.dstElt, a, b, w, g, o, m, z);
    GrewTrans(old(dst.Pool()), old(dst.obstack.created), p, c, dst.Pool(), dst.obstack.created);
  }

  /** The word loop of bitmap_and_compl: `a & ~b`. */
  method AndNotWords(x: Block, y: Block) returns (r: Block)
    ensures r == BlockOp(BoolOp.AndCompl, x, y)
  {
    r := ZERO;
    var ix := ELEMENT_WORDS;
    while ix > 0
      invariant 0 <= ix <= ELEMENT_WORDS
      invariant forall k :: ix <= k < ELEMENT_WORDS ==> r[k] == WordOp(BoolOp.AndCompl, x[k], y[k])
    {
      ix := ix - 1;
      AndNot(x[ix], y[ix]);
      r := r[ix := WordOp(BoolOp.And, x[ix], Not(y[ix]))];
    }
  }

  /** One iteration of bitmap_and_compl. */
  method AndComplStep(dst: Head, a: Head, b: Head, w: Walk, ghost g: Mark, ghost o: Before, ghost m: seq<Cell>,
                      ghost z: bool)
    returns (w': Walk, ghost g': Mark)
    requires Building(BoolOp.AndCompl, dst, a, b, w, g, o, m, z) && w.aElt != null
    modifies dst, dst.obstack, dst.Pool()
    ensures Building(BoolOp.AndCompl, dst, a, b, w', g', o, m, z) && Conserves(dst)
    ensures 0 <= Togo(a, b, g') < old(Togo(a, b, g))
  {
    hide Building, BlockOp, Grew, Head.Pool, Togo;
    Same(dst.Pool(), dst.obstack.created);
    if w.bElt == null || w.aElt.indx < w.bElt.indx {
      w', g' := CopyLeft(BoolOp.AndCompl, dst, a, b, w, g, o, m, z);
    } else if w.bElt.indx < w.aElt.indx {
      w', g' := PassRight(BoolOp.AndCompl, dst, a, b, w, g, o, m, z);
    } else {
      var r := AndNotWords(w.aElt.bits, w.bElt.bits);
      w', g' := PutBoth(BoolOp.AndCompl, dst, a, b, w, r, g, o, m, z);
    }
  }

  method AndComplOther(dst: Head, a: Head, b: Head)
    requires dst.Valid() && Apart3(dst, a, b)
    modifies dst, dst.obstack, dst.Pool()
    ensures dst.Listed() && Source(a) && Source(b) && Conserves(dst)
    ensures dst.cells == Merge(BoolOp.AndCompl, old(a.cells), old(b.cells))
    ensures |old(dst.elts)| == |old(dst.cells)|
    ensures dst.CursorOk() <==>
              CursorSafe(old(Snapshot(dst)), dst.cells, Cancels(BoolOp.AndCompl, old(a.cells), old(b.cells), false))
    ensures !dst.CursorOk() ==> Stranded(dst, old(Snapshot(dst)))
  {
    hide Building, Head.Valid, Apart3, Merge, Grew, Head.Pool, Canonical, Sorted, Cancels, CursorSafe;
    ghost var m, z := Merge(BoolOp.AndCompl, a.cells, b.cells), Cancels(BoolOp.AndCompl, a.cells, b.cells, false);
    ghost var o := Snapshot(dst);
    Begin(BoolOp.AndCompl, dst, a, b);
    Same(dst.Pool(), dst.obstack.created);
    var w := Walk(dst.first, null, a.first, b.first);
    ghost var g := Mark(0, 0, 0, false);
    while w.aElt != null
      invariant Building(BoolOp.AndCompl, dst, a, b, w, g, o, m, z) && Conserves(dst)
      decreases Togo(a, b, g)
    {
      ghost var p, c := dst.Pool(), dst.obstack.created;
      w, g := AndComplStep(dst, a, b, w, g, o, m, z);
      GrewTrans(old(dst.Pool()), old(dst.obstack.created), p, c, dst.Pool(), dst.obstack.created);
    }
    ghost var p, c := dst.Pool(), dst.obstack.created;
    Seal(BoolOp.AndCompl, dst, w.dstElt, a, b, w, g, o, m, z);
    GrewTrans(old(dst.Pool()), old(dst.obstack.created), p, c, dst.Pool(), dst.obstack.created);
  }

  /** One iteration of bitmap_xor. */
  method XorStep(dst: Head, a: Head, b: Head, w: Walk, ghost g: Mark, ghost o: Before, ghost m: seq<Cell>,
                 ghost z: bool)
    returns (w': Walk, ghost g': Mark)
    requires Building(BoolOp.Xor, dst, a, b, w, g, o, m, z) && (w.aElt != null || w.bElt != null)
    modifies dst, dst.obstack, dst.Pool()
    ensures Building(BoolOp.Xor, dst, a, b, w', g', o, m, z) && Conserves(dst)
    ensures 0 <= Togo(a, b, g') < old(Togo(a, b, g))
  {
    hide Building, BlockOp, Grew, Head.Pool, Togo;
    if w.aElt != null && w.bElt != null && w.aElt.indx == w.bElt.indx {
      var r, _ := CombineWords(BoolOp.Xor, w.aElt.bits, w.bElt.bits);
      w', g' := PutBoth(BoolOp.Xor, dst, a, b, w, r, g, o, m, z);
    } else if w.bElt == null || (w.aElt != null && w.aElt.indx < w.bElt.indx) {
      w', g' := CopyLeft(BoolOp.Xor, dst, a, b, w, g, o, m, z);
    } else {
      w', g' := CopyRight(BoolOp.Xor, dst, a, b, w, g, o, m, z);
    }
  }

  method XorOther(dst: Head, a: Head, b: Head)
    requires dst.Valid() && Apart3(dst, a, b)
    modifies dst, dst.obstack, dst.Pool()
    ensures dst.Listed() && Source(a) && Source(b) && Conserves(dst)
    ensures dst.cells == Merge(BoolOp.Xor, old(a.cells), old(b.cells))
    ensures |old(dst.elts)| == |old(dst.cells)|
    ensures dst.CursorOk() <==>
              CursorSafe(old(Snapshot(dst)), dst.cells, Cancels(BoolOp.Xor, old(a.cells), old(b.cells), false))
    ensures !dst.CursorOk() ==> Stranded(dst, old(Snapshot(dst)))
  {
    hide Building, Head.Valid, Apart3, Merge, Grew, Head.Pool, Canonical, Sorted, Cancels, CursorSafe;
    ghost var m, z := Merge(BoolOp.Xor, a.cells, b.cells), Cancels(BoolOp.Xor, a.cells, b.cells, false);
    ghost var o := Snapshot(dst);
    Begin(BoolOp.Xor, dst, a, b);
    Same(dst.Pool(), dst.obstack.created);
    var w := Walk(dst.first, null, a.first, b.first);
    ghost var g := Mark(0, 0, 0, false);
    while w.aElt != null || w.bElt != null
      invariant Building(BoolOp.Xor, dst, a, b, w, g, o, m, z) && Conserves(dst)
      decreases Togo(a, b, g)
    {
      ghost var p, c := dst.Pool(), dst.obstack.created;
      w, g := XorStep(dst, a, b, w, g, o, m, z);
      GrewTrans(old(dst.Pool()), old(dst.obstack.created), p, c, dst.Pool(), dst.obstack.created);
    }
    ghost var p, c := dst.Pool(), dst.obstack.created;
    Seal(BoolOp.Xor, dst, w.dstElt, a, b, w, g, o, m, z);
    GrewTrans(old(dst.Pool()), old(dst.obstack.created), p, c, dst.Pool(), dst.obstack.created);
  }

  /** How bitmap_ior keeps track of whether the destination changes. */
  ghost predicate Differs(s0: seq<Cell>, d: seq<Cell>, k: nat, changed: bool)
  {
    k <= |d| && (!changed ==> d == s0) && (changed ==> !(d[..k] <= s0))
  }

  lemma DiffersStart(s: seq<Cell>)
    ensures Differs(s, s, 0, false)
  {}

  lemma DiffersStep(s0: seq<Cell>, d: seq<Cell>, k: nat, changed: bool, c: Cell)
    requires Differs(s0, d, k, changed)
    ensures Differs(s0, Written(d, k, c), k + 1, changed || k == |d| || d[k] != c)
  {
    var d' := Written(d, k, c);
    assert d'[..k + 1][..k] == d[..k] && d'[..k + 1][k] == c;
  }

  /** Whether writing block (ix, r) over `dstElt` changes it, comparing words only while nothing has changed. */
  method Compare(dstElt: Element?, ix: nat, r: Block, changed: bool) returns (changed': bool)
    ensures changed' <==> changed || dstElt == null || dstElt.indx != ix || dstElt.bits != r
  {
    if changed || dstElt == null || dstElt.indx != ix {
      return true;
    }
    changed' := false;
    var n := ELEMENT_WORDS;
    while n > 0
      invariant 0 <= n <= ELEMENT_WORDS
      invariant changed' <==> exists k :: n <= k < ELEMENT_WORDS && r[k] != dstElt.bits[k]
    {
      n := n - 1;
      if r[n] != dstElt.bits[n] {
        changed' := true;
      }
    }
  }

  lemma AtK(op: BoolOp, dst: Head, a: Head, b: Head, w: Walk, g: Mark, o: Before, m: seq<Cell>, z: bool)
    requires Building(op, dst, a, b, w, g, o, m, z)
    ensures g.k <= |dst.cells| && (w.dstElt == null <==> g.k == |dst.cells|)
    ensures w.dstElt != null ==> dst.cells[g.k] == Cell(w.dstElt.indx, w.dstElt.bits)
    ensures w.aElt != null ==> w.aElt.bits != ZERO
  {
    assert g.k < |dst.elts| ==> Node(dst.elts, dst.cells, g.k);
    assert g.i < |a.elts| ==> Node(a.elts, a.cells, g.i);
  }

  /** Both operands have a block with this index: write their union. */
  method IorBoth(dst: Head, a: Head, b: Head, w: Walk, changed: bool, ghost g: Mark, ghost o: Before,
                 ghost m: seq<Cell>, ghost z: bool)
    returns (w': Walk, changed': bool, ghost g': Mark)
    requires Building(BoolOp.Ior, dst, a, b, w, g, o, m, z) && Differs(o.cells, dst.cells, g.k, changed)
    requires w.aElt != null && w.bElt != null && w.aElt.indx == w.bElt.indx
    modifies dst, dst.obstack, dst.Pool()
    ensures Building(BoolOp.Ior, dst, a, b, w', g', o, m, z) && Conserves(dst)
    ensures Differs(o.cells, dst.cells, g'.k, changed') && 0 <= Togo(a, b, g') < old(Togo(a, b, g))
  {
    hide Building, BlockOp, Grew, Head.Pool, Togo, Differs, Written;
    AtK(BoolOp.Ior, dst, a, b, w, g, o, m, z);
    var r, _ := CombineWords(BoolOp.Ior, w.aElt.bits, w.bElt.bits);
    IorNonzero(w.aElt.bits, w.bElt.bits);
    changed' := Compare(w.dstElt, w.aElt.indx, r, changed);
    DiffersStep(o.cells, dst.cells, g.k, changed, Cell(w.aElt.indx, r));
    w', g' := PutBoth(BoolOp.Ior, dst, a, b, w, r, g, o, m, z);
  }

  /** Only A has a block with this index: copy it. */
  method IorLeft(dst: Head, a: Head, b: Head, w: Walk, changed: bool, ghost g: Mark, ghost o: Before,
                 ghost m: seq<Cell>, ghost z: bool)
    returns (w': Walk, changed': bool, ghost g': Mark)
    requires Building(BoolOp.Ior, dst, a, b, w, g, o, m, z) && Differs(o.cells, dst.cells, g.k, changed)
    requires w.aElt != null && (w.bElt == null || w.aElt.indx < w.bElt.indx)
    modifies dst, dst.obstack, dst.Pool()
    ensures Building(BoolOp.Ior, dst, a, b, w', g', o, m, z) && Conserves(dst)
    ensures Differs(o.cells, dst.cells, g'.k, changed') && 0 <= Togo(a, b, g') < old(Togo(a, b, g))
  {
    hide Building, BlockOp, Grew, Head.Pool, Togo, Differs, Written;
    AtK(BoolOp.Ior, dst, a, b, w, g, o, m, z);
    changed' := Compare(w.dstElt, w.aElt.indx, w.aElt.bits, changed);
    DiffersStep(o.cells, dst.cells, g.k, changed, Cell(w.aElt.indx, w.aElt.bits));
    w', g' := CopyLeft(BoolOp.Ior, dst, a, b, w, g, o, m, z);
  }

  /** Only B has a block with this index: copy it. */
  method IorRight(dst: Head, a: Head, b: Head, w: Walk, changed: bool, ghost g: Mark, ghost o: Before,
                  ghost m: seq<Cell>, ghost z: bool)
    returns (w': Walk, changed': bool, ghost g': Mark)
    requires Building(BoolOp.Ior, dst, a, b, w, g, o, m, z) && Differs(o.cells, dst.cells, g.k, changed)
    requires w.bElt != null && (w.aElt == null || w.bElt.indx < w.aElt.indx)
    modifies dst, dst.obstack, dst.Pool()
    ensures Building(BoolOp.Ior, dst, a, b, w', g', o, m, z) && Conserves(dst)
    ensures Differs(o.cells, dst.cells, g'.k, changed') && 0 <= Togo(a, b, g') < old(Togo(a, b, g))
  {
    hide Building, BlockOp, Grew, Head.Pool, Togo, Differs, Written;
    AtK(BoolOp.Ior, dst, a, b, w, g, o, m, z);
    changed' := Compare(w.dstElt, w.bElt.indx, w.bElt.bits, changed);
    DiffersStep(o.cells, dst.cells, g.k, changed, Cell(w.bElt.indx, w.bElt.bits));
    w', g' := CopyRight(BoolOp.Ior, dst, a, b, w, g, o, m, z);
  }

  /** One iteration of bitmap_ior. */
  method IorStep(dst: Head, a: Head, b: Head, w: Walk, changed: bool, ghost g: Mark, ghost o: Before,
                 ghost m: seq<Cell>, ghost z: bool)
    returns (w': Walk, changed': bool, ghost g': Mark)
    requires Building(BoolOp.Ior, dst, a, b, w, g, o, m, z) && (w.aElt != null || w.bElt != null)
    requires Differs(o.cells, dst.cells, g.k, changed)
    modifies dst, dst.obstack, dst.Pool()
    ensures Building(BoolOp.Ior, dst, a, b, w', g', o, m, z) && Conserves(dst)
    ensures Differs(o.cells, dst.cells, g'.k, changed') && 0 <= Togo(a, b, g') < old(Togo(a, b, g))
  {
    hide Building, Grew, Head.Pool, Togo, Differs;
    if w.aElt != null && w.bElt != null && w.aElt.indx == w.bElt.indx {
      w', changed', g' := IorBoth(dst, a, b, w, changed, g, o, m, z);
    } else if w.bElt == null || (w.aElt != null && w.aElt.indx < w.bElt.indx) {
      w', changed', g' := IorLeft(dst, a, b, w, changed, g, o, m, z);
    } else {
      w', changed', g' := IorRight(dst, a, b, w, changed, g, o, m, z);
    }
  }

  lemma DiffersEnds(op: BoolOp, dst: Head, a: Head, b: Head, w: Walk, g: Mark, o: Before, m: seq<Cell>, z: bool,
                    changed: bool)
    requires Building(op, dst, a, b, w, g, o, m, z) && Differs(o.cells, dst.cells, g.k, changed)
    requires w.aElt == null && w.bElt == null
    ensures (changed || w.dstElt != null) <==> m != o.cells
  {
    hide Merge, Cancels;
    PartialEnd(op, dst.cells, g.k, a.cells, g.i, b.cells, g.j, m, z, o.cells, g.cancelled);
  }

  method IorOther(dst: Head, a: Head, b: Head) returns (changed: bool)
    requires dst.Valid() && Apart3(dst, a, b)
    modifies dst, dst.obstack, dst.Pool()
    ensures dst.Listed() && Source(a) && Source(b) && Conserves(dst)
    ensures dst.cells == Merge(BoolOp.Ior, old(a.cells), old(b.cells))
    ensures changed <==> dst.cells != old(dst.cells)
    ensures |old(dst.elts)| == |old(dst.cells)|
    ensures dst.CursorOk() <==>
              CursorSafe(old(Snapshot(dst)), dst.cells, Cancels(BoolOp.Ior, old(a.cells), old(b.cells), false))
    ensures !dst.CursorOk() ==> Stranded(dst, old(Snapshot(dst)))
  {
    hide Building, Head.Valid, Apart3, Merge, Grew, Head.Pool, Canonical, Sorted, Cancels, CursorSafe, Differs;
    ghost var m, z := Merge(BoolOp.Ior, a.cells, b.cells), Cancels(BoolOp.Ior, a.cells, b.cells, false);
    ghost var o := Snapshot(dst);
    changed := false;
    DiffersStart(dst.cells);
    Begin(BoolOp.Ior, dst, a, b);
    Same(dst.Pool(), dst.obstack.created);
    var w := Walk(dst.first, null, a.first, b.first);
    ghost var g := Mark(0, 0, 0, false);
    while w.aElt != null || w.bElt != null
      invariant Building(BoolOp.Ior, dst, a, b, w, g, o, m, z) && Conserves(dst)
      invariant Differs(o.cells, dst.cells, g.k, changed)
      decreases Togo(a, b, g)
    {
      ghost var p, c := dst.Pool(), dst.obstack.created;
      w, changed, g := IorStep(dst, a, b, w, changed, g, o, m, z);
      GrewTrans(old(dst.Pool()), old(dst.obstack.created), p, c, dst.Pool(), dst.obstack.created);
    }
    DiffersEnds(BoolOp.Ior, dst, a, b, w, g, o, m, z, changed);
    if w.dstElt != null {
      changed := true;
    }
    ghost var p, c := dst.Pool(), dst.obstack.created;
    Seal(BoolOp.Ior, dst, w.dstElt, a, b, w, g, o, m, z);
    GrewTrans(old(dst.Pool()), old(dst.obstack.created), p, c, dst.Pool(), dst.obstack.created);
  }

  /** Destination and operands as the three-operand operations require them. */
  ghost predicate Operands(dst: Head, a: Head, b: Head)
    reads dst, dst.elts, dst.obstack, dst.obstack.stack, dst.current, a, a.elts, b, b.elts
  {
    dst.Valid() && Apart3(dst, a, b)
  }

  /** When the cursor of the destination survives the operation, as seen before it. */
  ghost predicate CursorStays(op: BoolOp, dst: Head, a: Head, b: Head)
    reads dst, a, b
  {
    && |dst.cells| == |dst.elts|
    && ((a == b && op != BoolOp.Ior) ||
        CursorSafe(Snapshot(dst), Merge(op, a.cells, b.cells), Cancels(op, a.cells, b.cells, false)))
  }

  lemma FirstStays(op: BoolOp, dst: Head, a: Head, b: Head)
    requires dst.Valid() && dst.current == dst.first
    ensures CursorStays(op, dst, a, b)
  {
    FirstIsSafe(dst, Merge(op, a.cells, b.cells), Cancels(op, a.cells, b.cells, false));
  }

  /** What holds of the destination afterwards, whatever its cursor was. */
  ghost predicate Result(dst: Head, a: Head, b: Head)
    reads dst, dst.elts, dst.obstack, dst.obstack.stack, a, a.elts, b, b.elts
  {
    dst.Listed() && Canonical(dst.cells) && Source(a) && Source(b)
  }

  /** bitmap_and: DST = A & B. */
  method And(dst: Head, a: Head, b: Head)
    requires Operands(dst, a, b)
    modifies dst, dst.obstack, dst.Pool()
    ensures Result(dst, a, b) && Conserves(dst)
    ensures Members(dst.cells) == old(Members(a.cells)) * old(Members(b.cells))
    ensures dst.CursorOk() <==> old(CursorStays(BoolOp.And, dst, a, b))
    ensures !dst.CursorOk() ==> |old(dst.cells)| == |old(dst.elts)| && Stranded(dst, old(Snapshot(dst)))
    ensures old(dst.current == dst.first) ==> dst.Valid()
  {
    MergeMembers(BoolOp.And, a.cells, b.cells);
    FirstIsSafe(dst, Merge(BoolOp.And, a.cells, b.cells), Cancels(BoolOp.And, a.cells, b.cells, false));
    if a == b {
      Copy(dst, a);
      return;
    }
    hide Apart3, Merge, Members, Canonical, Cancels, CursorSafe;
    AndOther(dst, a, b);
  }

  /** bitmap_and_compl: DST = A & ~B. */
  method AndCompl(dst: Head, a: Head, b: Head)
    requires Operands(dst, a, b)
    modifies dst, dst.obstack, dst.Pool()
    ensures Result(dst, a, b) && Conserves(dst)
    ensures Members(dst.cells) == old(Members(a.cells)) - old(Members(b.cells))
    ensures dst.CursorOk() <==> old(CursorStays(BoolOp.AndCompl, dst, a, b))
    ensures !dst.CursorOk() ==> |old(dst.cells)| == |old(dst.elts)| && Stranded(dst, old(Snapshot(dst)))
    ensures old(dst.current == dst.first) ==> dst.Valid()
  {
    MergeMembers(BoolOp.AndCompl, a.cells, b.cells);
    FirstIsSafe(dst, Merge(BoolOp.AndCompl, a.cells, b.cells), Cancels(BoolOp.AndCompl, a.cells, b.cells, false));
    if a == b {
      ClearBeside(dst, a);
      return;
    }
    hide Apart3, Merge, Members, Canonical, Cancels, CursorSafe;
    AndComplOther(dst, a, b);
  }

  /** bitmap_ior: DST = A | B; true if DST changes. */
  method Ior(dst: Head, a: Head, b: Head) returns (changed: bool)
    requires Operands(dst, a, b)
    modifies dst, dst.obstack, dst.Pool()
    ensures Result(dst, a, b) && Conserves(dst)
    ensures Members(dst.cells) == old(Members(a.cells)) + old(Members(b.cells))
    ensures changed <==> Members(dst.cells) != old(Members(dst.cells))
    ensures dst.CursorOk() <==> old(CursorStays(BoolOp.Ior, dst, a, b))
    ensures !dst.CursorOk() ==> |old(dst.cells)| == |old(dst.elts)| && Stranded(dst, old(Snapshot(dst)))
    ensures old(dst.current == dst.first) ==> dst.Valid()
  {
    MergeMembers(BoolOp.Ior, a.cells, b.cells);
    MembersDetermine(dst.cells, Merge(BoolOp.Ior, a.cells, b.cells));
    FirstIsSafe(dst, Merge(BoolOp.Ior, a.cells, b.cells), Cancels(BoolOp.Ior, a.cells, b.cells, false));
    hide Apart3, Merge, Members, Canonical, Cancels, CursorSafe;
    changed := IorOther(dst, a, b);
  }

  /** bitmap_xor: DST = A ^ B. */
  method Xor(dst: Head, a: Head, b: Head)
    requires Operands(dst, a, b)
    modifies dst, dst.obstack, dst.Pool()
    ensures Result(dst, a, b) && Conserves(dst)
    ensures Members(dst.cells) ==
      (old(Members(a.cells)) - old(Members(b.cells))) + (old(Members(b.cells)) - old(Members(a.cells)))
    ensures dst.CursorOk() <==> old(CursorStays(BoolOp.Xor, dst, a, b))
    ensures !dst.CursorOk() ==> |old(dst.cells)| == |old(dst.elts)| && Stranded(dst, old(Snapshot(dst)))
    ensures old(dst.current == dst.first) ==> dst.Valid()
  {
    MergeMembers(BoolOp.Xor, a.cells, b.cells);
    FirstIsSafe(dst, Merge(BoolOp.Xor, a.cells, b.cells), Cancels(BoolOp.Xor, a.cells, b.cells, false));
    if a == b {
      ClearBeside(dst, a);
      return;
    }
    hide Apart3, Merge, Members, Canonical, Cancels, CursorSafe;
    XorOther(dst, a, b);
  }
}
