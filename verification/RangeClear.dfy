/** bitmap_clear_range. */
module RangeClear {
  import opened Words
  import opened Cells
  import opened Bitmaps
  import opened BitOps

  ghost predicate InRange(n: nat, lo: nat, hi: nat) { lo <= n < hi }

  ghost function Interval(lo: nat, hi: nat): set<nat> { set n | lo <= n < hi && InRange(n, lo, hi) }

  /** Block `r` is block `b` of index `ix` without the bits in [lo, hi). */
  ghost predicate CutBlock(b: Block, r: Block, ix: nat, lo: nat, hi: nat)
  {
    forall k :: 0 <= k < ALL_BITS ==> (BlockBit(r, k) <==> BlockBit(b, k) && !InRange(ix * ALL_BITS + k, lo, hi))
  }

  /** Mask with the bits in [p, q). */
  ghost predicate Mask(m: Word, p: nat, q: nat)
  {
    forall k :: 0 <= k < WORD_BITS ==> (Bit(m, k) <==> p <= k < q)
  }

  /** `(1 << n) - 1`, its complement, and a mask of all ones. */
  lemma LowMask(n: nat)
    requires n < WORD_BITS
    ensures Mask(OneBit(n) - 1, 0, n)
  {
    var m: Word := OneBit(n) - 1;
    forall k | 0 <= k < WORD_BITS ensures Bit(m, k) == (k < n) { LowMaskBit(n, k); }
  }

  lemma HighMask(n: nat)
    requires n < WORD_BITS
    ensures Mask(Not(OneBit(n) - 1), n, WORD_BITS)
  {
    var m: Word := Not(OneBit(n) - 1);
    forall k | 0 <= k < WORD_BITS ensures Bit(m, k) == (n <= k) {
      LowMaskBit(n, k);
      NotBit'(OneBit(n) - 1, WORD_BITS, k);
    }
  }

  lemma FullMask()
    ensures Mask(Not(0), 0, WORD_BITS)
  {
    var m: Word := Not(0);
    forall k | 0 <= k < WORD_BITS ensures Bit(m, k) {
      ZeroBit(k);
      NotBit'(0, WORD_BITS, k);
    }
  }

  lemma MaskBoth(f: Word, p: nat, l: Word, q: nat)
    requires Mask(f, p, WORD_BITS) && Mask(l, 0, q)
    ensures Mask(WordOp(And, f, l), p, q)
  {
    forall k | 0 <= k < WORD_BITS ensures Bit(WordOp(And, f, l), k) == (p <= k < q) {
      CombineBit(And, f, l, k);
    }
  }

  /** `w & ~m` has the bits of `w` outside the mask. */
  lemma MaskOff(w: Word, m: Word, p: nat, q: nat, k: nat)
    requires Mask(m, p, q) && k < WORD_BITS
    ensures Bit(WordOp(And, w, Not(m)), k) == (Bit(w, k) && !(p <= k < q))
  {
    AndNot(w, m);
    CombineBit(AndCompl, w, m, k);
  }

  /** Clear from bit `p` of word `fw` up to bit `q` of word `lw`. */
  method MaskWords(bits: Block, fw: nat, first: Word, ghost p: nat, lw: nat, last: Word, ghost q: nat)
    returns (r: Block)
    requires fw <= lw < ELEMENT_WORDS && p < WORD_BITS && q <= WORD_BITS
    requires Mask(first, p, WORD_BITS) && Mask(last, 0, q)
    ensures forall v, k :: 0 <= v < ELEMENT_WORDS && 0 <= k < WORD_BITS ==>
      (Bit(r[v], k) <==> Bit(bits[v], k) && !(fw * WORD_BITS + p <= v * WORD_BITS + k < lw * WORD_BITS + q))
  {
    r := bits;
    if fw == lw {
      var mask := WordOp(And, first, last);
      MaskBoth(first, p, last, q);
      r := r[fw := WordOp(And, r[fw], Not(mask))];
      forall k | 0 <= k < WORD_BITS ensures Bit(r[fw], k) == (Bit(bits[fw], k) && !(p <= k < q)) {
        MaskOff(bits[fw], mask, p, q, k);
      }
    } else {
      // An element has two words, so there is no word strictly between the first and the last to zero.
      r := r[fw := WordOp(And, r[fw], Not(first))];
      r := r[lw := WordOp(And, r[lw], Not(last))];
      forall k | 0 <= k < WORD_BITS
        ensures Bit(r[fw], k) == (Bit(bits[fw], k) && k < p) && Bit(r[lw], k) == (Bit(bits[lw], k) && k >= q)
      {
        MaskOff(bits[fw], first, p, WORD_BITS, k);
        MaskOff(bits[lw], last, 0, q, k);
      }
    }
  }

  /** Where clearing begins in the block: word, mask and (ghost) bit in the word. */
  method FirstMask(ix: nat, start: nat) returns (fw: nat, first: Word, ghost p: nat)
    requires start < ix * ALL_BITS + ALL_BITS
    ensures fw < ELEMENT_WORDS && p < WORD_BITS && Mask(first, p, WORD_BITS)
    ensures fw * WORD_BITS + p == if ix * ALL_BITS <= start then start - ix * ALL_BITS else 0
  {
    hide Mask;
    if ix * ALL_BITS <= start {
      HighMask(start % WORD_BITS);
      return (start - ix * ALL_BITS) / WORD_BITS, Not(OneBit(start % WORD_BITS) - 1), start % WORD_BITS;
    }
    FullMask();
    return 0, Not(0), 0;
  }

  /** Where clearing ends in the block. */
  lemma LastWord(ix: nat, end: nat)
    requires ix * ALL_BITS < end < ix * ALL_BITS + ALL_BITS
    ensures 0 <= (end - ix * ALL_BITS) / WORD_BITS < ELEMENT_WORDS
    ensures (end - ix * ALL_BITS) / WORD_BITS * WORD_BITS + end % WORD_BITS == end - ix * ALL_BITS
  {
    var d := end - ix * ALL_BITS;
    assert end == (ix * ELEMENT_WORDS) * WORD_BITS + d;
  }

  method LastMask(ix: nat, end: nat) returns (lw: nat, last: Word, ghost q: nat)
    requires ix * ALL_BITS < end
    ensures lw < ELEMENT_WORDS && q <= WORD_BITS && Mask(last, 0, q)
    ensures lw * WORD_BITS + q == if end < ix * ALL_BITS + ALL_BITS then end - ix * ALL_BITS else ALL_BITS
  {
    hide Mask;
    if ix * ALL_BITS + ALL_BITS <= end {
      FullMask();
      return ELEMENT_WORDS - 1, Not(0), WORD_BITS;
    }
    LowMask(end % WORD_BITS);
    LastWord(ix, end);
    return (end - ix * ALL_BITS) / WORD_BITS, OneBit(end % WORD_BITS) - 1, end % WORD_BITS;
  }

  lemma Spread(bits: Block, r: Block, ix: nat, start: nat, end: nat, fw: nat, p: nat, lw: nat, q: nat)
    requires ix * ALL_BITS < end && start < ix * ALL_BITS + ALL_BITS && start < end
    requires fw * WORD_BITS + p == (if ix * ALL_BITS <= start then start - ix * ALL_BITS else 0)
    requires lw * WORD_BITS + q == (if end < ix * ALL_BITS + ALL_BITS then end - ix * ALL_BITS else ALL_BITS)
    requires forall v, k :: 0 <= v < ELEMENT_WORDS && 0 <= k < WORD_BITS ==>
      (Bit(r[v], k) <==> Bit(bits[v], k) && !(fw * WORD_BITS + p <= v * WORD_BITS + k < lw * WORD_BITS + q))
    ensures CutBlock(bits, r, ix, start, end)
  {
    forall o | 0 <= o < ALL_BITS
      ensures BlockBit(r, o) <==> BlockBit(bits, o) && !InRange(ix * ALL_BITS + o, start, end)
    {
      var v, k := o / WORD_BITS, o % WORD_BITS;
      assert Bit(r[v], k) <==> Bit(bits[v], k) && !(fw * WORD_BITS + p <= v * WORD_BITS + k < lw * WORD_BITS + q);
      assert v * WORD_BITS + k == o;
    }
  }

  /** Knock out the bits of [start, end) in a block. */
  method CutWords(bits: Block, ix: nat, start: nat, end: nat) returns (r: Block)
    requires ix * ALL_BITS < end && start < ix * ALL_BITS + ALL_BITS && start < end
    ensures CutBlock(bits, r, ix, start, end)
  {
    hide Mask, CutBlock;
    var fw, first, p := FirstMask(ix, start);
    var lw, last, q := LastMask(ix, end);
    r := MaskWords(bits, fw, first, p, lw, last, q);
    Spread(bits, r, ix, start, end, fw, p, lw, q);
  }

  lemma HasSnoc(u: seq<Cell>, c: Cell, n: nat)
    ensures Has(u + [c], n) <==> Has(u, n) || (c.indx == Index(n) && BlockBit(c.bits, Offset(n)))
  {
    var v := u + [c];
    assert v[|u|] == c;
    assert forall k :: 0 <= k < |u| ==> v[k] == u[k];
  }

  /** The first `i` blocks are the first `i + d` original ones without the range, the others are untouched. */
  ghost predicate Clearing(s0: seq<Cell>, s: seq<Cell>, i: nat, d: nat, lo: nat, hi: nat)
  {
    && i <= |s| && i + d <= |s0| && s[i..] == s0[i + d..]
    && forall n: nat :: Has(s[..i], n) <==> Has(s0[..i + d], n) && !InRange(n, lo, hi)
  }

  lemma ClearingStart(s: seq<Cell>, i: nat, lo: nat, hi: nat)
    requires i <= |s| && forall k :: 0 <= k < i ==> s[k].indx < Index(lo)
    ensures Clearing(s, s, i, 0, lo, hi)
  {
    forall n: nat ensures Has(s[..i], n) ==> !InRange(n, lo, hi) {}
  }

  lemma ClearingStep(s0: seq<Cell>, s: seq<Cell>, i: nat, d: nat, lo: nat, hi: nat, r: Block)
    requires Clearing(s0, s, i, d, lo, hi) && i < |s| && CutBlock(s[i].bits, r, s[i].indx, lo, hi)
    ensures if r == ZERO then Clearing(s0, Drop(s, i), i, d + 1, lo, hi)
            else Clearing(s0, s[i := Cell(s[i].indx, r)], i + 1, d, lo, hi)
  {
    var c := s[i];
    assert c == s[i..][0] == s0[i + d];
    var t, u := Drop(s, i), s[i := Cell(c.indx, r)];
    assert s0[..i + d + 1] == s0[..i + d] + [c];
    assert t[i..] == s[i..][1..] == s0[i + d..][1..] == s0[i + d + 1..] && t[..i] == s[..i];
    assert u[i + 1..] == s[i..][1..] && u[..i + 1] == s[..i] + [Cell(c.indx, r)];
    forall n: nat
      ensures Has(s0[..i + d + 1], n) && !InRange(n, lo, hi) <==> Has(s[..i] + [Cell(c.indx, r)], n)
      ensures r == ZERO ==> (Has(s[..i] + [Cell(c.indx, r)], n) <==> Has(s[..i], n))
    {
      HasSnoc(s0[..i + d], c, n);
      HasSnoc(s[..i], Cell(c.indx, r), n);
      ZeroBlock(Offset(n));
      if c.indx == Index(n) {
        Position(n, c.indx, Offset(n));
      }
    }
  }

  lemma HasConcat(u: seq<Cell>, v: seq<Cell>, n: nat)
    ensures Has(u + v, n) <==> Has(u, n) || Has(v, n)
  {
    var w := u + v;
    assert forall k :: 0 <= k < |u| ==> w[k] == u[k];
    assert forall k :: 0 <= k < |v| ==> w[|u| + k] == v[k];
  }

  lemma ClearingEnd(s0: seq<Cell>, s: seq<Cell>, i: nat, d: nat, lo: nat, hi: nat)
    requires Clearing(s0, s, i, d, lo, hi) && Sorted(s0) && lo < hi
    requires i < |s| ==> Index(hi - 1) < s[i].indx
    ensures Members(s) == Members(s0) - Interval(lo, hi)
  {
    hide Members;
    assert s == s[..i] + s[i..] && s0 == s0[..i + d] + s0[i + d..];
    forall n: nat ensures n in Members(s) <==> n in Members(s0) && !InRange(n, lo, hi) {
      MembersHas(s, n);
      MembersHas(s0, n);
      HasConcat(s[..i], s[i..], n);
      HasConcat(s0[..i + d], s0[i + d..], n);
      if InRange(n, lo, hi) && i < |s| {
        assert s[i] == s[i..][0] == s0[i + d];
        assert Sorted(s0[i + d..]);
        HasBelow(s0[i + d..], n);
      }
    }
  }

  /** The first element that may hold a bit at or after `start`, found from the cursor. */
  method RangeFirst(head: Head, start: nat) returns (elt: Element?, ghost i: nat)
    requires head.Valid()
    modifies head`current, head`indx
    ensures head.Valid()
    ensures i <= |head.elts| == |head.cells| && elt == At(head.elts, i)
    ensures forall k :: 0 <= k < i ==> head.cells[k].indx < Index(start)
    ensures i < |head.elts| ==> Index(start) <= head.cells[i].indx
  {
    hide Obstack.Valid, Distinct;
    var found, k := head.FindBit(start);
    if found != null {
      return found, k;
    }
    if head.current == null {
      return null, 0;
    }
    assert Node(head.elts, head.cells, k);
    if head.indx < Index(start) {
      return head.current.next, k + 1;
    }
    return head.current, k;
  }

  lemma RangeOrder(s: seq<Cell>, i: nat)
    requires Canonical(s)
    ensures i + 1 < |s| ==> s[i].indx < s[i + 1].indx
  {}

  lemma WholeBlock(b: Block, ix: nat, lo: nat, hi: nat)
    requires ix * ALL_BITS >= lo && ix * ALL_BITS + ALL_BITS <= hi
    ensures CutBlock(b, ZERO, ix, lo, hi)
  {
    forall k | 0 <= k < ALL_BITS ensures !BlockBit(ZERO, k) { ZeroBlock(k); }
  }

  /** One iteration of bitmap_clear_range. */
  method RangeStep(head: Head, elt: Element, start: nat, end: nat, ghost s0: seq<Cell>, ghost i: nat, ghost d: nat)
    returns (next: Element?, ghost i': nat, ghost d': nat)
    requires head.Valid() && i < |head.elts| && elt == head.elts[i] && start < end
    requires Index(start) <= head.cells[i].indx && head.cells[i].indx <= Index(end - 1)
    requires Clearing(s0, head.cells, i, d, start, end)
    modifies head, head.obstack, head.Pool()
    ensures head.Valid() && Conserves(head)
    ensures i' <= |head.elts| == |head.cells| && next == At(head.elts, i')
    ensures Clearing(s0, head.cells, i', d', start, end)
    ensures |head.elts| - i' < |old(head.elts)| - i
    ensures i' < |head.elts| ==> Index(start) <= head.cells[i'].indx
  {
    hide Obstack.Valid, Distinct, Canonical, Clearing, CutBlock, Grew;
    Same(head.Pool(), head.obstack.created);
    assert Node(head.elts, head.cells, i);
    RangeOrder(head.cells, i);
    next := elt.next;
    var r := ZERO;
    if !(elt.indx * ALL_BITS >= start && elt.indx * ALL_BITS + ALL_BITS <= end) {
      r := CutWords(elt.bits, elt.indx, start, end);
    } else {
      WholeBlock(elt.bits, elt.indx, start, end);
    }
    ClearingStep(s0, head.cells, i, d, start, end, r);
    CanonicalEdit(head.cells, i, r);
    Rewrite(head, elt, r, i);
    i', d' := if r == ZERO then i else i + 1, if r == ZERO then d + 1 else d;
  }

  lemma CanonicalList(head: Head)
    requires head.Valid()
    ensures Sorted(head.cells)
  {}

  lemma IndexAt(head: Head, i: nat)
    requires head.Valid()
    ensures i < |head.elts| ==> i < |head.cells| && head.elts[i].indx == head.cells[i].indx
  {
    assert i < |head.elts| ==> Node(head.elts, head.cells, i);
  }

  method MoveCursor(head: Head, elt: Element, ghost i: nat)
    requires head.Valid() && i < |head.elts| && elt == head.elts[i]
    modifies head`current, head`indx
    ensures head.Valid()
  {
    head.current := elt;
    head.indx := head.current.indx;
  }

  /** bitmap_clear_range: clear `count` bits from `start`. */
  method ClearRange(head: Head, start: nat, count: nat)
    requires head.Valid() && count >= 1
    modifies head, head.obstack, head.Pool()
    ensures head.Valid() && Conserves(head)
    ensures Members(head.cells) == old(Members(head.cells)) - Interval(start, start + count)
  {
    hide Head.Valid, Clearing, Members, Grew, Head.Pool, Interval, Canonical, Sorted;
    var end := start + count;
    Same(head.Pool(), head.obstack.created);
    ghost var s0 := head.cells;
    CanonicalList(head);
    var elt: Element?;
    ghost var i: nat, d: nat;
    elt, i := RangeFirst(head, start);
    d := 0;
    ClearingStart(head.cells, i, start, end);
    while elt != null && elt.indx <= Index(end - 1)
      invariant head.Valid() && Conserves(head)
      invariant i <= |head.elts| == |head.cells| && elt == At(head.elts, i)
      invariant Clearing(s0, head.cells, i, d, start, end)
      invariant i < |head.elts| ==> Index(start) <= head.cells[i].indx
      decreases |head.elts| - i
    {
      ghost var p, c := head.Pool(), head.obstack.created;
      IndexAt(head, i);
      elt, i, d := RangeStep(head, elt, start, end, s0, i, d);
      GrewTrans(old(head.Pool()), old(head.obstack.created), p, c, head.Pool(), head.obstack.created);
    }
    IndexAt(head, i);
    ClearingEnd(s0, head.cells, i, d, start, end);
    if elt != null {
      MoveCursor(head, elt, i);
    }
  }
}
