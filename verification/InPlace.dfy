/**
 The boolean operations that combine a second bitmap into the first, in place.
 */
module InPlace {
  import opened Words
  import opened Cells
  import opened Bitmaps
  import opened BitOps

  /** Merging `b` into a list in place: positions below `i` are done, `b` is read up to `j`. */
  ghost predicate Into(op: BoolOp, s: seq<Cell>, i: nat, b: seq<Cell>, j: nat, m: seq<Cell>)
  {
    i <= |s| && j <= |b| && Merging(op, s[..i], s[i..], b[j..], m)
  }

  lemma IntoLeft(op: BoolOp, s: seq<Cell>, i: nat, b: seq<Cell>, j: nat, m: seq<Cell>)
    requires Into(op, s, i, b, j, m) && i < |s| && (j == |b| || s[i].indx < b[j].indx)
    ensures KeepLeft(op) ==> Into(op, s, i + 1, b, j, m)
    ensures !KeepLeft(op) ==> Into(op, Drop(s, i), i, b, j, m)
  {
    StepLeft(op, s[..i], s[i..], b[j..], m);
    assert s[..i] + [s[i]] == s[..i + 1];
    var d := Drop(s, i);
    assert d[..i] == s[..i] && d[i..] == s[i..][1..] == s[i + 1..];
  }

  lemma IntoRight(op: BoolOp, s: seq<Cell>, i: nat, b: seq<Cell>, j: nat, m: seq<Cell>)
    requires Into(op, s, i, b, j, m) && j < |b| && (i == |s| || b[j].indx < s[i].indx)
    ensures KeepRight(op) ==> Into(op, Insert(s, i, b[j]), i + 1, b, j + 1, m)
    ensures !KeepRight(op) ==> Into(op, s, i, b, j + 1, m)
  {
    StepRight(op, s[..i], s[i..], b[j..], m);
    var d := Insert(s, i, b[j]);
    assert d[..i + 1] == s[..i] + [b[j]] && d[i + 1..] == s[i..];
    assert b[j..][1..] == b[j + 1..];
  }

  lemma IntoBoth(op: BoolOp, s: seq<Cell>, i: nat, b: seq<Cell>, j: nat, m: seq<Cell>)
    requires Into(op, s, i, b, j, m) && i < |s| && j < |b| && s[i].indx == b[j].indx
    ensures var r := BlockOp(op, s[i].bits, b[j].bits);
            if r == ZERO then Into(op, Drop(s, i), i, b, j + 1, m)
            else Into(op, s[i := Cell(s[i].indx, r)], i + 1, b, j + 1, m)
  {
    var r := BlockOp(op, s[i].bits, b[j].bits);
    StepBoth(op, s[..i], s[i..], b[j..], m);
    assert b[j..][1..] == b[j + 1..];
    var d, u := Drop(s, i), s[i := Cell(s[i].indx, r)];
    assert d[..i] == s[..i] && d[i..] == s[i..][1..];
    assert u[..i + 1] == s[..i] + [Cell(s[i].indx, r)] && u[i + 1..] == s[i..][1..];
  }

  lemma IntoEnd(op: BoolOp, s: seq<Cell>, i: nat, b: seq<Cell>, j: nat, m: seq<Cell>)
    requires Into(op, s, i, b, j, m)
    ensures i == |s| && j == |b| ==> s == m
    ensures j == |b| ==> m == if KeepLeft(op) then s else s[..i]
    ensures i == |s| && !KeepRight(op) ==> m == s
  {
    hide Merge;
    MergeRest(op, s[i..]);
    MergeRest(op, b[j..]);
    assert s[..i] + s[i..] == s;
    assert j == |b| ==> b[j..] == [];
    assert i == |s| ==> s[i..] == [] && s[..i] == s;
  }

  /** The word loop of every merge: combine two blocks and `ior` the results. */
  method CombineWords(op: BoolOp, x: Block, y: Block) returns (r: Block, ior: Word)
    ensures r == BlockOp(op, x, y)
    ensures ior == 0 <==> r == ZERO
  {
    r, ior := ZERO, 0;
    var ix := ELEMENT_WORDS;
    while ix > 0
      invariant 0 <= ix <= ELEMENT_WORDS
      invariant forall k :: ix <= k < ELEMENT_WORDS ==> r[k] == WordOp(op, x[k], y[k])
      invariant ior == 0 <==> forall k :: ix <= k < ELEMENT_WORDS ==> r[k] == 0
    {
      ix := ix - 1;
      var w := WordOp(op, x[ix], y[ix]);
      IorZero(ior, w);
      r := r[ix := w];
      ior := WordOp(Ior, ior, w);
    }
  }

  /** The state between two steps of an in-place merge of `b` into `a`. */
  ghost predicate Ready(op: BoolOp, a: Head, i: nat, aElt: Element?, b: Head, j: nat, bElt: Element?, m: seq<Cell>)
    reads a, a.elts, a.obstack, a.obstack.stack, a.current, b, b.elts
  {
    && a.Valid() && Source(b) && Apart(a, b) && Into(op, a.cells, i, b.cells, j, m)
    && aElt == At(a.elts, i) && bElt == At(b.elts, j)
  }

  /** Remove the element at `i`, which `b` has no block for; the next element takes its place. */
  method RemoveLeft(op: BoolOp, a: Head, aElt: Element, b: Head, bElt: Element?, ghost i: nat, ghost j: nat,
                    ghost m: seq<Cell>)
    returns (next: Element?)
    requires Ready(op, a, i, aElt, b, j, bElt, m) && !KeepLeft(op)
    requires bElt == null || aElt.indx < bElt.indx
    modifies a, a.obstack, a.Pool()
    ensures Ready(op, a, i, next, b, j, bElt, m) && i <= |a.elts| == |old(a.elts)| - 1
    ensures PrevAt(a.elts, i) == old(PrevAt(a.elts, i))
    ensures Conserves(a)
  {
    hide Merge, Canonical, Obstack.Valid, Grew;
    Same(a.Pool(), a.obstack.created);
    assert Node(a.elts, a.cells, i) && (bElt != null ==> Node(b.elts, b.cells, j));
    next := aElt.next;
    IntoLeft(op, a.cells, i, b.cells, j, m);
    CanonicalEdit(a.cells, i, ZERO);
    a.Free(aElt, i);
  }

  /** Step over an element of `a` that the operation keeps as it is. */
  method SkipLeft(op: BoolOp, a: Head, aElt: Element, b: Head, bElt: Element?, ghost i: nat, ghost j: nat,
                  ghost m: seq<Cell>)
    returns (next: Element?)
    requires Ready(op, a, i, aElt, b, j, bElt, m) && KeepLeft(op)
    requires bElt == null || aElt.indx < bElt.indx
    ensures i < |a.elts| && Ready(op, a, i + 1, next, b, j, bElt, m) && PrevAt(a.elts, i + 1) == aElt
  {
    assert Node(a.elts, a.cells, i) && (bElt != null ==> Node(b.elts, b.cells, j));
    IntoLeft(op, a.cells, i, b.cells, j, m);
    next := aElt.next;
  }

  /** Step over an element of `b` that the operation ignores. */
  method SkipRight(op: BoolOp, a: Head, aElt: Element?, b: Head, bElt: Element, ghost i: nat, ghost j: nat,
                   ghost m: seq<Cell>)
    returns (next: Element?)
    requires Ready(op, a, i, aElt, b, j, bElt, m) && !KeepRight(op)
    requires aElt == null || bElt.indx < aElt.indx
    ensures j < |b.elts| && Ready(op, a, i, aElt, b, j + 1, next, m)
  {
    assert Node(b.elts, b.cells, j) && (aElt != null ==> Node(a.elts, a.cells, i));
    IntoRight(op, a.cells, i, b.cells, j, m);
    next := bElt.next;
  }

  /** Rewrite the element at `i` with the combination `r`, dropping it if that is zero. */
  method CombineBoth(op: BoolOp, a: Head, aElt: Element, b: Head, bElt: Element, r: Block, ghost i: nat, ghost j: nat,
                     ghost m: seq<Cell>)
    returns (aNext: Element?, bNext: Element?, ghost i': nat)
    requires Ready(op, a, i, aElt, b, j, bElt, m) && aElt.indx == bElt.indx
    requires r == BlockOp(op, aElt.bits, bElt.bits)
    modifies a, a.obstack, a.Pool()
    ensures i' == (if r == ZERO then i else i + 1)
    ensures j < |b.elts| && Ready(op, a, i', aNext, b, j + 1, bNext, m)
    ensures 0 <= |a.elts| - i' == |old(a.elts)| - i - 1
    ensures |old(a.cells)| == |old(a.elts)|
    ensures PrevAt(a.elts, i') == if r == ZERO then old(PrevAt(a.elts, i)) else aElt
    ensures a.cells == if r == ZERO then Drop(old(a.cells), i) else old(a.cells)[i := Cell(old(aElt.indx), r)]
    ensures Conserves(a)
  {
    hide BlockOp, Merge, Canonical, Obstack.Valid, Grew;
    Same(a.Pool(), a.obstack.created);
    assert Node(a.elts, a.cells, i) && Node(b.elts, b.cells, j);
    aNext, bNext := aElt.next, bElt.next;
    IntoBoth(op, a.cells, i, b.cells, j, m);
    CanonicalEdit(a.cells, i, r);
    Rewrite(a, aElt, r, i);
    i' := if r == ZERO then i else i + 1;
  }

  lemma InsertOrder(op: BoolOp, s: seq<Cell>, i: nat, b: seq<Cell>, j: nat, m: seq<Cell>)
    requires Into(op, s, i, b, j, m) && Canonical(m) && KeepRight(op)
    requires j < |b| && (i == |s| || b[j].indx < s[i].indx)
    ensures 0 < i ==> s[i - 1].indx < b[j].indx
  {
    var rest := Merge(op, s[i..], b[j..]);
    assert m == s[..i] + rest && rest[0] == b[j];
    assert 0 < i ==> m[i - 1] == s[i - 1] && m[i] == b[j];
  }

  lemma CanonicalSource(b: Head, j: nat)
    requires Source(b) && j < |b.cells|
    ensures b.cells[j].bits != ZERO
  {}

  /** Insert a copy of the block at `j` of `b` before position `i`. */
  method InsertRight(op: BoolOp, a: Head, aPrev: Element?, aElt: Element?, b: Head, bElt: Element, ghost i: nat,
                     ghost j: nat, ghost m: seq<Cell>)
    returns (node: Element, bNext: Element?)
    requires Ready(op, a, i, aElt, b, j, bElt, m) && KeepRight(op) && Canonical(m)
    requires aElt == null || bElt.indx < aElt.indx
    requires aPrev == PrevAt(a.elts, i)
    modifies a, a.obstack, a.Pool()
    ensures j < |b.elts| && Ready(op, a, i + 1, aElt, b, j + 1, bNext, m)
    ensures i < |a.elts| == |old(a.elts)| + 1 && PrevAt(a.elts, i + 1) == node
    ensures i <= |old(a.cells)| && a.cells == Insert(old(a.cells), i, Cell(old(bElt.indx), old(bElt.bits)))
    ensures Conserves(a)
  {
    hide Merge, Canonical, Obstack.Valid, Grew, Apart;
    assert Node(b.elts, b.cells, j) && (aElt != null ==> Node(a.elts, a.cells, i));
    IntoRight(op, a.cells, i, b.cells, j, m);
    InsertOrder(op, a.cells, i, b.cells, j, m);
    CanonicalSource(b, j);
    CanonicalInsert(a.cells, i, b.cells[j]);
    node := InsertBeside(a, aPrev, bElt.indx, bElt.bits, i, b);
    assert Node(b.elts, b.cells, j);
    bNext := bElt.next;
  }

  lemma Start(op: BoolOp, a: Head, b: Head)
    requires a.Valid() && Source(b) && Apart(a, b)
    ensures Ready(op, a, 0, a.first, b, 0, b.first, Merge(op, a.cells, b.cells)) && PrevAt(a.elts, 0) == null
    ensures Canonical(Merge(op, a.cells, b.cells))
  {
    MergeCanonical(op, a.cells, b.cells);
    assert a.cells[..0] == [] && a.cells[0..] == a.cells && b.cells[0..] == b.cells;
  }

  lemma Bounds(op: BoolOp, a: Head, i: nat, aElt: Element?, b: Head, j: nat, bElt: Element?, m: seq<Cell>)
    requires Ready(op, a, i, aElt, b, j, bElt, m)
    ensures i <= |a.elts| && j <= |b.elts|
  {}

  lemma Here(op: BoolOp, a: Head, i: nat, aElt: Element?, b: Head, j: nat, bElt: Element?, m: seq<Cell>)
    requires Ready(op, a, i, aElt, b, j, bElt, m)
    ensures aElt != null ==> i < |a.cells| && a.cells[i] == Cell(aElt.indx, aElt.bits) && aElt.bits != ZERO
    ensures bElt != null ==> j < |b.cells| && b.cells[j] == Cell(bElt.indx, bElt.bits)
    ensures |a.cells| == |a.elts| && |b.cells| == |b.elts|
    ensures (aElt == null ==> i == |a.cells|) && (bElt == null ==> j == |b.cells|)
  {
    assert aElt != null ==> Node(a.elts, a.cells, i);
    assert bElt != null ==> Node(b.elts, b.cells, j);
  }

  lemma Finish(op: BoolOp, a: Head, i: nat, aElt: Element?, b: Head, j: nat, bElt: Element?, m: seq<Cell>)
    requires Ready(op, a, i, aElt, b, j, bElt, m)
    requires (bElt == null && (aElt == null || KeepLeft(op))) || (aElt == null && !KeepRight(op))
    ensures a.Valid() && Source(b) && a.cells == m
  {
    IntoEnd(op, a.cells, i, b.cells, j, m);
  }

  /** One iteration of bitmap_and_into. */
  method AndStep(a: Head, aElt: Element, b: Head, bElt: Element, ghost i: nat, ghost j: nat, ghost m: seq<Cell>)
    returns (aElt': Element?, bElt': Element?, ghost i': nat, ghost j': nat)
    requires Ready(And, a, i, aElt, b, j, bElt, m) && a != b
    modifies a, a.obstack, a.Pool()
    ensures Ready(And, a, i', aElt', b, j', bElt', m) && Conserves(a)
    ensures 0 <= |a.elts| - i' + |b.elts| - j' < |old(a.elts)| - i + |b.elts| - j
  {
    hide Ready, Head.Valid, Source, Apart, Merge, BlockOp, PrevAt, Insert, Drop, Grew, Head.Pool;
    Bounds(And, a, i, aElt, b, j, bElt, m);
    Same(a.Pool(), a.obstack.created);
    aElt', bElt', i', j' := aElt, bElt, i, j;
    if aElt.indx < bElt.indx {
      aElt' := RemoveLeft(And, a, aElt, b, bElt, i, j, m);
    } else if bElt.indx < aElt.indx {
      bElt' := SkipRight(And, a, aElt, b, bElt, i, j, m);
      j' := j + 1;
    } else {
      var r, _ := CombineWords(And, aElt.bits, bElt.bits);
      aElt', bElt', i' := CombineBoth(And, a, aElt, b, bElt, r, i, j, m);
      j' := j + 1;
    }
  }

  /** What is left of `a` after the shorter list ran out is not in the intersection. */
  method CutEnd(op: BoolOp, a: Head, aElt: Element?, ghost b: Head, ghost bElt: Element?, ghost i: nat, ghost j: nat,
                ghost m: seq<Cell>)
    requires Ready(op, a, i, aElt, b, j, bElt, m) && (aElt == null || bElt == null) && !KeepLeft(op) && !KeepRight(op)
    modifies a, a.obstack, a.Pool()
    ensures a.Valid() && Source(b) && a.cells == m && Conserves(a)
  {
    IntoEnd(op, a.cells, i, b.cells, j, m);
    CutRest(a, aElt, i);
  }

  method AndIntoOther(a: Head, b: Head)
    requires a.Valid() && Source(b) && Apart(a, b) && a != b
    modifies a, a.obstack, a.Pool()
    ensures a.Valid() && Source(b) && Conserves(a)
    ensures a.cells == Merge(And, old(a.cells), b.cells)
  {
    hide Ready, Head.Valid, Source, Apart, Merge, Grew, Head.Pool;
    ghost var m := Merge(And, a.cells, b.cells);
    Start(And, a, b);
    Same(a.Pool(), a.obstack.created);
    var aElt, bElt := a.first, b.first;
    ghost var i, j := 0, 0;
    while aElt != null && bElt != null
      invariant Ready(And, a, i, aElt, b, j, bElt, m) && Conserves(a)
      decreases |a.elts| - i + |b.elts| - j
    {
      ghost var p, c := a.Pool(), a.obstack.created;
      aElt, bElt, i, j := AndStep(a, aElt, b, bElt, i, j, m);
      GrewTrans(old(a.Pool()), old(a.obstack.created), p, c, a.Pool(), a.obstack.created);
    }
    ghost var p, c := a.Pool(), a.obstack.created;
    CutEnd(And, a, aElt, b, bElt, i, j, m);
    GrewTrans(old(a.Pool()), old(a.obstack.created), p, c, a.Pool(), a.obstack.created);
  }

  /** The word loop of bitmap_and_compl_into: clear the bits of `y` from `x`, noting in `changed` which were there. */
  method ClearWords(x: Block, y: Block, changed: Word) returns (r: Block, changed': Word)
    ensures r == BlockOp(AndCompl, x, y)
    ensures changed' == 0 <==> changed == 0 && BlockOp(And, x, y) == ZERO
  {
    r, changed' := ZERO, changed;
    var ix := ELEMENT_WORDS;
    while ix > 0
      invariant 0 <= ix <= ELEMENT_WORDS
      invariant forall k :: ix <= k < ELEMENT_WORDS ==> r[k] == WordOp(AndCompl, x[k], y[k])
      invariant changed' == 0 <==> changed == 0 && forall k :: ix <= k < ELEMENT_WORDS ==> WordOp(And, x[k], y[k]) == 0
    {
      ix := ix - 1;
      var cleared := WordOp(And, x[ix], y[ix]);
      XorCleared(x[ix], y[ix]);
      r := r[ix := WordOp(Xor, x[ix], cleared)];
      IorZero(changed', cleared);
      changed' := WordOp(Ior, changed', cleared);
    }
  }

  lemma NothingCleared(x: Block, y: Block)
    requires BlockOp(And, x, y) == ZERO
    ensures BlockOp(AndCompl, x, y) == x
  {
    forall i | 0 <= i < ALL_BITS ensures BlockBit(BlockOp(AndCompl, x, y), i) == BlockBit(x, i) {
      ApplyBlock(AndCompl, x, y, i);
      ApplyBlock(And, x, y, i);
      ZeroBlock(i);
    }
    SameBlock(BlockOp(AndCompl, x, y), x);
  }

  /** Two blocks with a bit in common give the two lists a member in common. */
  lemma CommonMember(s: seq<Cell>, i: nat, t: seq<Cell>, j: nat)
    requires i < |s| && j < |t| && s[i].indx == t[j].indx && BlockOp(And, s[i].bits, t[j].bits) != ZERO
    ensures Members(s) * Members(t) != {}
  {
    var k := BlockHasBit(BlockOp(And, s[i].bits, t[j].bits));
    ApplyBlock(And, s[i].bits, t[j].bits, k);
    var n := s[i].indx * ALL_BITS + k;
    Position(n, s[i].indx, k);
    assert Has(s, n) && Has(t, n);
    MembersHas(s, n);
    MembersHas(t, n);
    assert n in Members(s) * Members(t);
  }

  /** What bitmap_and_compl_into knows about the original list `s0`, of which `d` blocks are gone. */
  ghost predicate Clearing(s0: seq<Cell>, s: seq<Cell>, i: nat, d: nat, b: seq<Cell>, changed: Word)
  {
    && i <= |s| && i + d <= |s0| && s[i..] == s0[i + d..]
    && (changed == 0 ==> s == s0 && d == 0)
    && (changed != 0 ==> Members(s0) * Members(b) != {})
  }

  lemma ClearingStep(s0: seq<Cell>, s: seq<Cell>, i: nat, d: nat, b: seq<Cell>, j: nat, changed: Word, r: Block,
                     changed': Word)
    requires Clearing(s0, s, i, d, b, changed) && i < |s| && j < |b| && s[i].indx == b[j].indx && s[i].bits != ZERO
    requires r == BlockOp(AndCompl, s[i].bits, b[j].bits)
    requires changed' == 0 <==> changed == 0 && BlockOp(And, s[i].bits, b[j].bits) == ZERO
    ensures if r == ZERO then Clearing(s0, Drop(s, i), i, d + 1, b, changed')
            else Clearing(s0, s[i := Cell(s[i].indx, r)], i + 1, d, b, changed')
  {
    hide BlockOp, Members;
    assert s[i] == s[i..][0] == s0[i + d];
    var t, u := Drop(s, i), s[i := Cell(s[i].indx, r)];
    assert t[i..] == s[i..][1..] == s0[i + d..][1..] == s0[i + d + 1..];
    assert u[i + 1..] == s[i..][1..];
    if BlockOp(And, s[i].bits, b[j].bits) == ZERO {
      NothingCleared(s[i].bits, b[j].bits);
      assert u == s;
    } else {
      CommonMember(s0, i + d, b, j);
    }
  }

  lemma ClearingStart(s: seq<Cell>, b: seq<Cell>)
    ensures Clearing(s, s, 0, 0, b, 0)
  {}

  lemma ClearingSkip(s0: seq<Cell>, s: seq<Cell>, i: nat, d: nat, b: seq<Cell>, changed: Word)
    requires Clearing(s0, s, i, d, b, changed) && i < |s|
    ensures Clearing(s0, s, i + 1, d, b, changed)
  {
    assert s[i + 1..] == s[i..][1..] == s0[i + d..][1..] == s0[i + d + 1..];
  }

  lemma ClearingEnd(s0: seq<Cell>, s: seq<Cell>, i: nat, d: nat, b: seq<Cell>, changed: Word)
    requires Clearing(s0, s, i, d, b, changed)
    ensures changed == 0 ==> s == s0
    ensures changed != 0 ==> Members(s0) * Members(b) != {}
  {}

  /** One iteration of bitmap_and_compl_into. */
  method AndComplStep(a: Head, aElt: Element, b: Head, bElt: Element, changed: Word,
                      ghost s0: seq<Cell>, ghost d: nat, ghost i: nat, ghost j: nat, ghost m: seq<Cell>)
    returns (aElt': Element?, bElt': Element?, changed': Word, ghost d': nat, ghost i': nat, ghost j': nat)
    requires Ready(AndCompl, a, i, aElt, b, j, bElt, m) && a != b && Clearing(s0, a.cells, i, d, b.cells, changed)
    modifies a, a.obstack, a.Pool()
    ensures Ready(AndCompl, a, i', aElt', b, j', bElt', m) && Conserves(a)
    ensures Clearing(s0, a.cells, i', d', b.cells, changed')
    ensures 0 <= |a.elts| - i' + |b.elts| - j' < |old(a.elts)| - i + |b.elts| - j
  {
    hide Ready, Head.Valid, Source, Apart, Merge, BlockOp, PrevAt, Insert, Drop, Grew, Head.Pool, Clearing;
    Here(AndCompl, a, i, aElt, b, j, bElt, m);
    Same(a.Pool(), a.obstack.created);
    aElt', bElt', changed', d', i', j' := aElt, bElt, changed, d, i, j;
    if aElt.indx < bElt.indx {
      ClearingSkip(s0, a.cells, i, d, b.cells, changed);
      aElt' := SkipLeft(AndCompl, a, aElt, b, bElt, i, j, m);
      i' := i + 1;
    } else if bElt.indx < aElt.indx {
      bElt' := SkipRight(AndCompl, a, aElt, b, bElt, i, j, m);
      j' := j + 1;
    } else {
      var r;
      r, changed' := ClearWords(aElt.bits, bElt.bits, changed);
      ClearingStep(s0, a.cells, i, d, b.cells, j, changed, r, changed');
      aElt', bElt', i' := CombineBoth(AndCompl, a, aElt, b, bElt, r, i, j, m);
      j' := j + 1;
      d' := if r == ZERO then d + 1 else d;
    }
  }

  method AndComplIntoOther(a: Head, b: Head) returns (changed: Word)
    requires a.Valid() && Source(b) && Apart(a, b) && a != b
    modifies a, a.obstack, a.Pool()
    ensures a.Valid() && Source(b) && Conserves(a)
    ensures a.cells == Merge(AndCompl, old(a.cells), b.cells)
    ensures changed == 0 ==> a.cells == old(a.cells)
    ensures changed != 0 ==> Members(old(a.cells)) * Members(b.cells) != {}
  {
    hide Ready, Head.Valid, Source, Apart, Merge, BlockOp, Clearing, Members, Grew, Head.Pool;
    ghost var m, s0 := Merge(AndCompl, a.cells, b.cells), a.cells;
    Start(AndCompl, a, b);
    Same(a.Pool(), a.obstack.created);
    ClearingStart(a.cells, b.cells);
    changed := 0;
    var aElt, bElt := a.first, b.first;
    ghost var i, j, d := 0, 0, 0;
    while aElt != null && bElt != null
      invariant Ready(AndCompl, a, i, aElt, b, j, bElt, m) && Conserves(a)
      invariant Clearing(s0, a.cells, i, d, b.cells, changed)
      decreases |a.elts| - i + |b.elts| - j
    {
      ghost var p, c := a.Pool(), a.obstack.created;
      aElt, bElt, changed, d, i, j := AndComplStep(a, aElt, b, bElt, changed, s0, d, i, j, m);
      GrewTrans(old(a.Pool()), old(a.obstack.created), p, c, a.Pool(), a.obstack.created);
    }
    Finish(AndCompl, a, i, aElt, b, j, bElt, m);
    ClearingEnd(s0, a.cells, i, d, b.cells, changed);
  }

  /** The word loop of bitmap_compl_and_into: `b ^ (a & b)`. */
  method ComplWords(x: Block, y: Block) returns (r: Block, ior: Word)
    ensures r == BlockOp(ComplAnd, x, y)
    ensures ior == 0 <==> r == ZERO
  {
    r, ior := ZERO, 0;
    var ix := ELEMENT_WORDS;
    while ix > 0
      invariant 0 <= ix <= ELEMENT_WORDS
      invariant forall k :: ix <= k < ELEMENT_WORDS ==> r[k] == WordOp(ComplAnd, x[k], y[k])
      invariant ior == 0 <==> forall k :: ix <= k < ELEMENT_WORDS ==> r[k] == 0
    {
      ix := ix - 1;
      var cleared := WordOp(And, x[ix], y[ix]);
      XorClearedRight(x[ix], y[ix]);
      var w := WordOp(Xor, y[ix], cleared);
      IorZero(ior, w);
      r := r[ix := w];
      ior := WordOp(Ior, ior, w);
    }
  }

  /** One iteration of bitmap_compl_and_into. */
  method ComplAndStep(a: Head, aPrev: Element?, aElt: Element?, b: Head, bElt: Element?, ghost i: nat, ghost j: nat,
                      ghost m: seq<Cell>)
    returns (aPrev': Element?, aElt': Element?, bElt': Element?, ghost i': nat, ghost j': nat)
    requires Ready(ComplAnd, a, i, aElt, b, j, bElt, m) && Canonical(m) && aPrev == PrevAt(a.elts, i)
    requires (aElt != null || bElt != null) && a != b
    modifies a, a.obstack, a.Pool()
    ensures Ready(ComplAnd, a, i', aElt', b, j', bElt', m) && aPrev' == PrevAt(a.elts, i') && Conserves(a)
    ensures 0 <= |a.elts| - i' + |b.elts| - j' < |old(a.elts)| - i + |b.elts| - j
  {
    hide Ready, Head.Valid, Source, Apart, Merge, BlockOp, Canonical, PrevAt, Insert, Drop, Grew, Head.Pool;
    Bounds(ComplAnd, a, i, aElt, b, j, bElt, m);
    aPrev', aElt', bElt', i', j' := aPrev, aElt, bElt, i, j;
    if bElt == null || (aElt != null && aElt.indx < bElt.indx) {
      aElt' := RemoveLeft(ComplAnd, a, aElt, b, bElt, i, j, m);
    } else if aElt == null || bElt.indx < aElt.indx {
      aPrev', bElt' := InsertRight(ComplAnd, a, aPrev, aElt, b, bElt, i, j, m);
      i', j' := i + 1, j + 1;
    } else {
      var r, ior := ComplWords(aElt.bits, bElt.bits);
      if ior != 0 { aPrev' := aElt; }
      aElt', bElt', i' := CombineBoth(ComplAnd, a, aElt, b, bElt, r, i, j, m);
      j' := j + 1;
    }
  }

  method ComplAndIntoOther(a: Head, b: Head)
    requires a.Valid() && Source(b) && Apart(a, b) && a != b
    modifies a, a.obstack, a.Pool()
    ensures a.Valid() && Source(b) && Conserves(a)
    ensures a.cells == Merge(ComplAnd, old(a.cells), b.cells)
  {
    ghost var m := Merge(ComplAnd, a.cells, b.cells);
    hide Ready, Head.Valid, Source, Apart, Merge, Canonical, PrevAt, Grew, Head.Pool;
    Start(ComplAnd, a, b);
    Same(a.Pool(), a.obstack.created);
    var aElt, bElt, aPrev: Element? := a.first, b.first, null;
    ghost var i, j := 0, 0;
    while aElt != null || bElt != null
      invariant Ready(ComplAnd, a, i, aElt, b, j, bElt, m) && Conserves(a)
      invariant aPrev == PrevAt(a.elts, i)
      decreases |a.elts| - i + |b.elts| - j
    {
      ghost var p, c := a.Pool(), a.obstack.created;
      aPrev, aElt, bElt, i, j := ComplAndStep(a, aPrev, aElt, b, bElt, i, j, m);
      GrewTrans(old(a.Pool()), old(a.obstack.created), p, c, a.Pool(), a.obstack.created);
    }
    Finish(ComplAnd, a, i, aElt, b, j, bElt, m);
  }

  /** The word loop of bitmap_ior_into: `changed` is raised when a word of `x` gains a bit. */
  method IorWords(x: Block, y: Block, changed: bool) returns (r: Block, changed': bool)
    ensures r == BlockOp(Ior, x, y)
    ensures changed' <==> changed || r != x
  {
    r, changed' := x, changed;
    var ix := ELEMENT_WORDS;
    while ix > 0
      invariant 0 <= ix <= ELEMENT_WORDS
      invariant forall k :: ix <= k < ELEMENT_WORDS ==> r[k] == WordOp(Ior, x[k], y[k])
      invariant forall k :: 0 <= k < ix ==> r[k] == x[k]
      invariant changed' <==> changed || exists k :: ix <= k < ELEMENT_WORDS && r[k] != x[k]
    {
      ix := ix - 1;
      var w := WordOp(Ior, x[ix], y[ix]);
      if x[ix] != w {
        changed' := true;
      }
      r := r[ix := w];
    }
  }

  lemma IorNonzero(x: Block, y: Block)
    requires x != ZERO
    ensures BlockOp(Ior, x, y) != ZERO
  {
    IorZero(x[0], y[0]);
    IorZero(x[1], y[1]);
  }

  /** What bitmap_ior_into knows about the original list `s0`. */
  ghost predicate Growing(s0: seq<Cell>, s: seq<Cell>, i: nat, changed: bool)
  {
    && i <= |s|
    && (!changed ==> s == s0)
    && (changed ==> !(s[..i] <= s0))
  }

  lemma GrowingSteps(s0: seq<Cell>, s: seq<Cell>, i: nat, changed: bool, c: Cell, changed': bool)
    requires Growing(s0, s, i, changed)
    ensures i < |s| ==> Growing(s0, s, i + 1, changed)
    ensures (i < |s| ==> c.indx != s[i].indx) ==> Growing(s0, Insert(s, i, c), i + 1, true)
    ensures i < |s| && c.indx == s[i].indx && (changed' <==> changed || c.bits != s[i].bits) ==>
              Growing(s0, s[i := c], i + 1, changed')
  {
    var t := Insert(s, i, c);
    assert t[..i + 1][..i] == s[..i];
    assert t[..i + 1][i] == c;
    if i < |s| {
      var u := s[i := c];
      assert s[..i + 1][..i] == s[..i] && u[..i + 1][..i] == s[..i] && u[..i + 1][i] == c;
    }
  }

  /** One iteration of bitmap_ior_into. */
  method IorStep(a: Head, aPrev: Element?, aElt: Element?, b: Head, bElt: Element, changed: bool,
                 ghost s0: seq<Cell>, ghost i: nat, ghost j: nat, ghost m: seq<Cell>)
    returns (aPrev': Element?, aElt': Element?, bElt': Element?, changed': bool, ghost i': nat, ghost j': nat)
    requires Ready(Ior, a, i, aElt, b, j, bElt, m) && a != b && Canonical(m) && aPrev == PrevAt(a.elts, i)
    requires Growing(s0, a.cells, i, changed)
    modifies a, a.obstack, a.Pool()
    ensures Ready(Ior, a, i', aElt', b, j', bElt', m) && aPrev' == PrevAt(a.elts, i') && Conserves(a)
    ensures Growing(s0, a.cells, i', changed')
    ensures 0 <= |a.elts| - i' + |b.elts| - j' < |old(a.elts)| - i + |b.elts| - j
  {
    hide Ready, Head.Valid, Source, Apart, Merge, BlockOp, PrevAt, Insert, Drop, Grew, Head.Pool, Growing, Canonical;
    Here(Ior, a, i, aElt, b, j, bElt, m);
    Bounds(Ior, a, i, aElt, b, j, bElt, m);
    Same(a.Pool(), a.obstack.created);
    aPrev', aElt', bElt', changed', i', j' := aPrev, aElt, bElt, changed, i, j;
    if aElt == null || bElt.indx < aElt.indx {
      GrowingSteps(s0, a.cells, i, changed, Cell(bElt.indx, bElt.bits), true);
      aPrev', bElt' := InsertRight(Ior, a, aPrev, aElt, b, bElt, i, j, m);
      i', j', changed' := i + 1, j + 1, true;
    } else if aElt.indx < bElt.indx {
      GrowingSteps(s0, a.cells, i, changed, Cell(bElt.indx, bElt.bits), changed);
      aPrev' := aElt;
      aElt' := SkipLeft(Ior, a, aElt, b, bElt, i, j, m);
      i' := i + 1;
    } else {
      var r;
      r, changed' := IorWords(aElt.bits, bElt.bits, changed);
      IorNonzero(aElt.bits, bElt.bits);
      GrowingSteps(s0, a.cells, i, changed, Cell(aElt.indx, r), changed');
      aPrev' := aElt;
      aElt', bElt', i' := CombineBoth(Ior, a, aElt, b, bElt, r, i, j, m);
      j' := j + 1;
    }
  }

  lemma GrowingEnds(s0: seq<Cell>, s: seq<Cell>, i: nat, changed: bool)
    ensures Growing(s, s, 0, false)
    ensures Growing(s0, s, i, changed) ==> (changed <==> s != s0)
  {}

  method IorIntoOther(a: Head, b: Head) returns (changed: bool)
    requires a.Valid() && Source(b) && Apart(a, b) && a != b
    modifies a, a.obstack, a.Pool()
    ensures a.Valid() && Source(b) && Conserves(a)
    ensures a.cells == Merge(Ior, old(a.cells), b.cells)
    ensures changed <==> a.cells != old(a.cells)
  {
    hide Ready, Head.Valid, Source, Apart, Merge, Growing, PrevAt, Grew, Head.Pool, Canonical;
    ghost var m, s0 := Merge(Ior, a.cells, b.cells), a.cells;
    Start(Ior, a, b);
    Same(a.Pool(), a.obstack.created);
    GrowingEnds(s0, s0, 0, false);
    changed := false;
    var aElt, bElt, aPrev: Element? := a.first, b.first, null;
    ghost var i, j := 0, 0;
    while bElt != null
      invariant Ready(Ior, a, i, aElt, b, j, bElt, m) && Conserves(a)
      invariant aPrev == PrevAt(a.elts, i) && Growing(s0, a.cells, i, changed)
      decreases |a.elts| - i + |b.elts| - j
    {
      ghost var p, c := a.Pool(), a.obstack.created;
      aPrev, aElt, bElt, changed, i, j := IorStep(a, aPrev, aElt, b, bElt, changed, s0, i, j, m);
      GrewTrans(old(a.Pool()), old(a.obstack.created), p, c, a.Pool(), a.obstack.created);
    }
    Finish(Ior, a, i, aElt, b, j, bElt, m);
    GrowingEnds(s0, a.cells, i, changed);
  }

  /** One iteration of bitmap_xor_into. */
  method XorStep(a: Head, aPrev: Element?, aElt: Element?, b: Head, bElt: Element, ghost i: nat, ghost j: nat,
                 ghost m: seq<Cell>)
    returns (aPrev': Element?, aElt': Element?, bElt': Element?, ghost i': nat, ghost j': nat)
    requires Ready(Xor, a, i, aElt, b, j, bElt, m) && a != b && Canonical(m) && aPrev == PrevAt(a.elts, i)
    modifies a, a.obstack, a.Pool()
    ensures Ready(Xor, a, i', aElt', b, j', bElt', m) && aPrev' == PrevAt(a.elts, i') && Conserves(a)
    ensures 0 <= |a.elts| - i' + |b.elts| - j' < |old(a.elts)| - i + |b.elts| - j
  {
    hide Ready, Head.Valid, Source, Apart, Merge, BlockOp, PrevAt, Insert, Drop, Grew, Head.Pool, Canonical;
    Bounds(Xor, a, i, aElt, b, j, bElt, m);
    Same(a.Pool(), a.obstack.created);
    aPrev', aElt', bElt', i', j' := aPrev, aElt, bElt, i, j;
    if aElt == null || bElt.indx < aElt.indx {
      aPrev', bElt' := InsertRight(Xor, a, aPrev, aElt, b, bElt, i, j, m);
      i', j' := i + 1, j + 1;
    } else if aElt.indx < bElt.indx {
      aPrev' := aElt;
      aElt' := SkipLeft(Xor, a, aElt, b, bElt, i, j, m);
      i' := i + 1;
    } else {
      var r, ior := CombineWords(Xor, aElt.bits, bElt.bits);
      if ior != 0 { aPrev' := aElt; }
      aElt', bElt', i' := CombineBoth(Xor, a, aElt, b, bElt, r, i, j, m);
      j' := j + 1;
    }
  }

  method XorIntoOther(a: Head, b: Head)
    requires a.Valid() && Source(b) && Apart(a, b) && a != b
    modifies a, a.obstack, a.Pool()
    ensures a.Valid() && Source(b) && Conserves(a)
    ensures a.cells == Merge(Xor, old(a.cells), b.cells)
  {
    ghost var m := Merge(Xor, a.cells, b.cells);
    hide Ready, Head.Valid, Source, Apart, Merge, PrevAt, Grew, Head.Pool, Canonical;
    Start(Xor, a, b);
    Same(a.Pool(), a.obstack.created);
    var aElt, bElt, aPrev: Element? := a.first, b.first, null;
    ghost var i, j := 0, 0;
    while bElt != null
      invariant Ready(Xor, a, i, aElt, b, j, bElt, m) && Conserves(a)
      invariant aPrev == PrevAt(a.elts, i)
      decreases |a.elts| - i + |b.elts| - j
    {
      ghost var p, c := a.Pool(), a.obstack.created;
      aPrev, aElt, bElt, i, j := XorStep(a, aPrev, aElt, b, bElt, i, j, m);
      GrewTrans(old(a.Pool()), old(a.obstack.created), p, c, a.Pool(), a.obstack.created);
    }
    Finish(Xor, a, i, aElt, b, j, bElt, m);
  }

  /** bitmap_and_into: A &= B. */
  method AndInto(a: Head, b: Head)
    requires a.Valid() && Source(b) && (a == b || Apart(a, b))
    modifies a, a.obstack, a.Pool()
    ensures a.Valid() && Source(b) && Conserves(a)
    ensures Members(a.cells) == old(Members(a.cells)) * old(Members(b.cells))
  {
    MergeMembers(And, a.cells, b.cells);
    hide Head.Valid, Source, Apart, Merge, Members;
    if a == b {
      return;
    }
    AndIntoOther(a, b);
  }

  lemma EmptyOrNot(a: Head)
    requires Source(a)
    ensures a.first == null <==> Members(a.cells) == {}
    ensures a.first == null <==> a.cells == []
  {
    if a.cells != [] {
      var n := FirstMember(a.cells);
      MembersHas(a.cells, n);
    }
  }

  lemma SelfSource(a: Head)
    requires a.Valid()
    ensures Source(a)
  {}

  /** bitmap_and_compl_into: A &= ~B; true if A changes. */
  method AndComplInto(a: Head, b: Head) returns (changed: bool)
    requires a.Valid() && Source(b) && (a == b || Apart(a, b))
    modifies a, a.obstack, a.Pool()
    ensures a.Valid() && Source(b) && Conserves(a)
    ensures Members(a.cells) == old(Members(a.cells)) - old(Members(b.cells))
    ensures changed <==> Members(a.cells) != old(Members(a.cells))
  {
    MergeMembers(AndCompl, a.cells, b.cells);
    EmptyOrNot(a);
    hide Head.Valid, Source, Apart, Merge, Members;
    if a == b {
      if a.first == null {
        return false;
      }
      Clear(a);
      SelfSource(a);
      return true;
    }
    var w := AndComplIntoOther(a, b);
    return w != 0;
  }

  method ClearBeside(a: Head, ghost b: Head)
    requires a.Valid() && Source(b) && Apart(a, b)
    modifies a, a.obstack, a.Pool()
    ensures a.Valid() && Source(b) && Conserves(a)
    ensures a.cells == [] && Members(a.cells) == {}
  {
    forall j | 0 <= j < |b.elts| ensures Node(b.elts, b.cells, j) && b.elts[j] !in a.Pool() {}
    Clear(a);
    forall j | 0 <= j < |b.elts| ensures Node(b.elts, b.cells, j) {
      assert old(Node(b.elts, b.cells, j));
    }
  }

  /** bitmap_compl_and_into: A = ~A & B. */
  method ComplAndInto(a: Head, b: Head)
    requires a.Valid() && Source(b) && Apart(a, b) && a != b
    modifies a, a.obstack, a.Pool()
    ensures a.Valid() && Source(b) && Conserves(a)
    ensures Members(a.cells) == old(Members(b.cells)) - old(Members(a.cells))
  {
    MergeMembers(ComplAnd, a.cells, b.cells);
    EmptyOrNot(a);
    EmptyOrNot(b);
    hide Head.Valid, Source, Apart, Merge, Members;
    if a.first == null {
      Copy(a, b);
      return;
    }
    if b.first == null {
      ClearBeside(a, b);
      return;
    }
    ComplAndIntoOther(a, b);
  }

  /** bitmap_ior_into: A |= B; true if A changes. */
  method IorInto(a: Head, b: Head) returns (changed: bool)
    requires a.Valid() && Source(b) && (a == b || Apart(a, b))
    modifies a, a.obstack, a.Pool()
    ensures a.Valid() && Source(b) && Conserves(a)
    ensures Members(a.cells) == old(Members(a.cells)) + old(Members(b.cells))
    ensures changed <==> Members(a.cells) != old(Members(a.cells))
  {
    MergeMembers(Ior, a.cells, b.cells);
    MembersDetermine(a.cells, Merge(Ior, a.cells, b.cells));
    hide Head.Valid, Source, Apart, Merge, Members, Canonical;
    if a == b {
      return false;
    }
    changed := IorIntoOther(a, b);
  }

  /** bitmap_xor_into: A ^= B. */
  method XorInto(a: Head, b: Head)
    requires a.Valid() && Source(b) && (a == b || Apart(a, b))
    modifies a, a.obstack, a.Pool()
    ensures a.Valid() && Source(b) && Conserves(a)
    ensures Members(a.cells) ==
              (old(Members(a.cells)) - old(Members(b.cells))) + (old(Members(b.cells)) - old(Members(a.cells)))
  {
    MergeMembers(Xor, a.cells, b.cells);
    hide Head.Valid, Source, Apart, Merge, Members, Canonical;
    if a == b {
      Clear(a);
      SelfSource(a);
      return;
    }
    XorIntoOther(a, b);
  }
}
