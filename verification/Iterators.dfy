/** The bitmap iterators: every member from a start bit on, in increasing order. */
module Iterators {
  import opened Words
  import opened Cells
  import opened Bitmaps

  /** Which bits an iteration visits: of A, of A & B, of A & ~B. */
  datatype Kind = OfSet | OfAnd | OfAndCompl

  ghost predicate Target(kind: Kind, s: seq<Cell>, t: seq<Cell>, n: nat)
  {
    Has(s, n) && match kind case OfSet => true case OfAnd => Has(t, n) case OfAndCompl => !Has(t, n)
  }

  /** The targets from word `w` of block `i` on. */
  ghost predicate From(kind: Kind, s: seq<Cell>, t: seq<Cell>, i: nat, w: nat, n: nat)
  {
    && i < |s| && Target(kind, s, t, n)
    && (s[i].indx < Index(n) || (s[i].indx == Index(n) && w <= Offset(n) / WORD_BITS))
  }

  /** The bits still to be visited are the targets from word `w` of block `i` on. */
  ghost predicate Remains(kind: Kind, s: seq<Cell>, t: seq<Cell>, i: nat, w: nat, rem: set<nat>)
  {
    forall n: nat :: n in rem <==> From(kind, s, t, i, w, n)
  }

  /** `elt2` is at or past the block of `elt1`. */
  ghost predicate Beside(s: seq<Cell>, i: nat, t: seq<Cell>, j: nat)
  {
    && j <= |t|
    && (i < |s| ==> (forall k :: 0 <= k < j ==> t[k].indx < s[i].indx) && (j < |t| ==> s[i].indx <= t[j].indx))
  }

  /** The word the iteration looks at in block `i`. */
  ghost function Combined(kind: Kind, s: seq<Cell>, i: nat, t: seq<Cell>, j: nat, w: nat): Word
    requires i < |s| && w < ELEMENT_WORDS
  {
    var same := j < |t| && t[j].indx == s[i].indx;
    match kind
    case OfSet => s[i].bits[w]
    case OfAnd => if same then WordOp(And, s[i].bits[w], t[j].bits[w]) else 0
    case OfAndCompl => if same then WordOp(And, s[i].bits[w], Not(t[j].bits[w])) else s[i].bits[w]
  }

  lemma Unlocate(ix: nat, w: nat, n: nat)
    requires Index(n) == ix && Offset(n) / WORD_BITS == w
    ensures w < ELEMENT_WORDS && n == ix * ALL_BITS + w * WORD_BITS + Offset(n) % WORD_BITS
  {}

  lemma Absent(t: seq<Cell>, n: nat)
    requires forall k :: 0 <= k < |t| ==> t[k].indx != Index(n)
    ensures !Has(t, n)
  {}

  /** Bit `k` of the combined word says whether the bit there is a target. */
  lemma CombinedBit(kind: Kind, s: seq<Cell>, i: nat, t: seq<Cell>, j: nat, w: nat, n: nat)
    requires Sorted(s) && Sorted(t) && i < |s| && (kind.OfSet? || Beside(s, i, t, j))
    requires Index(n) == s[i].indx && Offset(n) / WORD_BITS == w
    ensures w < ELEMENT_WORDS
    ensures Bit(Combined(kind, s, i, t, j, w), Offset(n) % WORD_BITS) == Target(kind, s, t, n)
  {
    Unlocate(s[i].indx, w, n);
    HasAt(s, i, n);
    var k := Offset(n) % WORD_BITS;
    if kind.OfSet? {
    } else if j < |t| && t[j].indx == s[i].indx {
      HasAt(t, j, n);
      CombineBit(And, s[i].bits[w], t[j].bits[w], k);
      AndNot(s[i].bits[w], t[j].bits[w]);
      CombineBit(AndCompl, s[i].bits[w], t[j].bits[w], k);
    } else {
      Absent(t, n);
      ZeroBit(k);
    }
  }

  /** Bit `n`, when bit 0 of `bits` stands for `bitNo`. */
  predicate Coming(bits: Word, bitNo: nat, n: nat)
  {
    n >= bitNo && Bit(bits, n - bitNo)
  }

  /** The targets from word `w` on are those in the word and those from the next word on. */
  lemma FromSplit(kind: Kind, s: seq<Cell>, i: nat, t: seq<Cell>, j: nat, w: nat, n: nat)
    requires Sorted(s) && Sorted(t) && i < |s| && (kind.OfSet? || Beside(s, i, t, j)) && w < ELEMENT_WORDS
    ensures var base := s[i].indx * ALL_BITS + w * WORD_BITS;
            From(kind, s, t, i, w, n) <==>
              Coming(Combined(kind, s, i, t, j, w), base, n) || From(kind, s, t, i, w + 1, n)
  {
    var base, c := s[i].indx * ALL_BITS + w * WORD_BITS, Combined(kind, s, i, t, j, w);
    if Index(n) == s[i].indx && Offset(n) / WORD_BITS == w {
      CombinedBit(kind, s, i, t, j, w, n);
      Unlocate(s[i].indx, w, n);
    } else if n >= base + WORD_BITS {
      HighBitsZero(c, WORD_BITS, n - base);
    }
  }

  lemma NoneComing(bitNo: nat, n: nat)
    ensures !Coming(0, bitNo, n)
  {
    if n >= bitNo {
      ZeroBit(n - bitNo);
    }
  }

  /** `bitNo` lies in word `wordNo` of block `ix`, or just behind it, and `bits` is what is left of that word. */
  ghost predicate Aligned(ix: nat, wordNo: nat, bits: Word, bitNo: nat)
  {
    var base := ix * ALL_BITS + wordNo * WORD_BITS;
    && base <= bitNo <= base + WORD_BITS
    && bits < Pow2(base + WORD_BITS - bitNo)
    && (bits == 0 ==> base < bitNo)
  }

  lemma AlignedStart(ix: nat, w: nat, bits: Word)
    requires w < ELEMENT_WORDS && bits != 0
    ensures Aligned(ix, w, bits, ix * ALL_BITS + w * WORD_BITS)
  {}

  /** Bits of the current word that are still to come, at `bitNo` and above, and the targets after that word. */
  ghost predicate Pending(kind: Kind, s: seq<Cell>, t: seq<Cell>, i: nat, wordNo: nat, bits: Word, bitNo: nat,
                          rem: set<nat>)
  {
    forall n: nat :: n in rem <==> Coming(bits, bitNo, n) || From(kind, s, t, i, wordNo + 1, n)
  }

  /** Looking at word `w` splits what remains into its bits and what comes after. */
  lemma LoadPending(kind: Kind, s: seq<Cell>, i: nat, t: seq<Cell>, j: nat, w: nat, bits: Word, bitNo: nat,
                    rem: set<nat>)
    requires Sorted(s) && Sorted(t) && i < |s| && (kind.OfSet? || Beside(s, i, t, j)) && w < ELEMENT_WORDS
    requires bits == Combined(kind, s, i, t, j, w) && bitNo == s[i].indx * ALL_BITS + w * WORD_BITS
    requires Remains(kind, s, t, i, w, rem)
    ensures Pending(kind, s, t, i, w, bits, bitNo, rem)
    ensures bits == 0 ==> Remains(kind, s, t, i, w + 1, rem)
  {
    hide From, Coming, Combined, Beside, Sorted;
    forall n: nat
      ensures n in rem <==> Coming(bits, bitNo, n) || From(kind, s, t, i, w + 1, n)
      ensures !Coming(0, bitNo, n)
    {
      FromSplit(kind, s, i, t, j, w, n);
      NoneComing(bitNo, n);
    }
  }

  lemma LoadNothing(kind: Kind, s: seq<Cell>, t: seq<Cell>, i: nat, w: nat, bitNo: nat, rem: set<nat>)
    requires i >= |s| && Remains(kind, s, t, i, w, rem)
    ensures Pending(kind, s, t, i, w, 0, bitNo, rem) && Remains(kind, s, t, i, w + 1, rem)
  {
    hide Coming;
    forall n: nat ensures !Coming(0, bitNo, n) {
      NoneComing(bitNo, n);
    }
  }

  /** Past the last word of a block come the targets of the next block. */
  lemma FromNext(kind: Kind, s: seq<Cell>, t: seq<Cell>, i: nat, i': nat, n: nat)
    requires Sorted(s) && i < |s| && i < i' <= |s|
    requires forall k :: i < k < i' ==> !Target(kind, s, t, n) || s[k].indx != Index(n)
    ensures From(kind, s, t, i, ELEMENT_WORDS, n) <==> From(kind, s, t, i', 0, n)
  {
    if From(kind, s, t, i, ELEMENT_WORDS, n) {
      var k :| 0 <= k < |s| && s[k].indx == Index(n) && BlockBit(s[k].bits, Offset(n));
      assert k >= i';
    }
  }

  lemma ShiftPending(kind: Kind, s: seq<Cell>, t: seq<Cell>, i: nat, wordNo: nat, bits: Word, bitNo: nat, rem: set<nat>)
    requires Pending(kind, s, t, i, wordNo, bits, bitNo, rem)
    ensures bits % 2 == 0 ==> Pending(kind, s, t, i, wordNo, bits / 2, bitNo + 1, rem)
    ensures bits % 2 == 1 ==> bitNo in rem
    ensures bits % 2 == 1 && !From(kind, s, t, i, wordNo + 1, bitNo) ==>
              Pending(kind, s, t, i, wordNo, bits / 2, bitNo + 1, rem - {bitNo})
  {
    assert Bit(bits, 0) == (bits % 2 == 1);
    forall n: nat ensures n != bitNo ==> Coming(bits, bitNo, n) == Coming(bits / 2, bitNo + 1, n) {}
  }

  lemma AlignedShift(ix: nat, w: nat, bits: Word, bitNo: nat)
    requires Aligned(ix, w, bits, bitNo) && bits != 0 && bits % 2 == 0
    ensures Aligned(ix, w, bits / 2, bitNo + 1) && bits / 2 != 0
  {}

  lemma LaterWord(ix: nat, w: nat, n: nat)
    requires w < ELEMENT_WORDS && (ix < Index(n) || (ix == Index(n) && w + 1 <= Offset(n) / WORD_BITS))
    ensures ix * ALL_BITS + w * WORD_BITS + WORD_BITS <= n
  {}

  /** Nothing is to be visited before the lowest bit of the current word. */
  lemma PendingLeast(kind: Kind, s: seq<Cell>, t: seq<Cell>, i: nat, wordNo: nat, bits: Word, bitNo: nat, rem: set<nat>)
    requires Pending(kind, s, t, i, wordNo, bits, bitNo, rem)
    requires i < |s| && wordNo < ELEMENT_WORDS && Aligned(s[i].indx, wordNo, bits, bitNo)
    ensures forall n :: n in rem ==> bitNo <= n
  {
    hide Target, Bit;
    forall n | n in rem ensures bitNo <= n {
      if From(kind, s, t, i, wordNo + 1, n) {
        LaterWord(s[i].indx, wordNo, n);
      }
    }
  }

  /** bitmap_zero_bits: the element the iterators stand on when there is nothing to visit. */
  ghost predicate ZeroBits(e: Element)
    reads e
  {
    e.next == null && e.indx == 0 && e.bits == ZERO
  }

  lemma AndZeroLeft(x: Word)
    ensures WordOp(And, 0, x) == 0
  {
    forall k | 0 <= k < WORD_BITS ensures Bit(WordOp(And, 0, x), k) == Bit(0, k) {
      CombineBit(And, 0, x, k);
      ZeroBit(k);
    }
    SameBits(WordOp(And, 0, x), 0, WORD_BITS);
  }

  ghost predicate NoMatch(t: seq<Cell>, x: nat)
  {
    forall k :: 0 <= k < |t| ==> t[k].indx != x
  }

  /** After block `i`, skipping blocks that cannot hold a target, come the targets from block `i'` on. */
  lemma FromSkip(kind: Kind, s: seq<Cell>, t: seq<Cell>, i: nat, i': nat, rem: set<nat>)
    requires Sorted(s) && i < |s| && i < i' <= |s|
    requires forall n: nat :: n in rem <==> From(kind, s, t, i, ELEMENT_WORDS, n)
    requires i' == i + 1 || (kind.OfAnd? && forall k :: i < k < i' ==> NoMatch(t, s[k].indx))
    ensures forall n: nat :: n in rem <==> From(kind, s, t, i', 0, n)
    ensures i' == |s| ==> rem == {}
  {
    forall n: nat ensures n in rem <==> From(kind, s, t, i', 0, n) {
      forall k | i < k < i' ensures !Target(kind, s, t, n) || s[k].indx != Index(n) {
        if s[k].indx == Index(n) { Absent(t, n); }
      }
      FromNext(kind, s, t, i, i', n);
    }
  }

  /** Nothing is left when every block of `t` lies below block `i'`. */
  lemma FromNone(s: seq<Cell>, t: seq<Cell>, i: nat, i': nat, rem: set<nat>)
    requires Sorted(s) && i < i' < |s|
    requires forall n: nat :: n in rem <==> From(OfAnd, s, t, i, ELEMENT_WORDS, n)
    requires forall k :: i < k < i' ==> NoMatch(t, s[k].indx)
    requires forall k :: 0 <= k < |t| ==> t[k].indx < s[i'].indx
    ensures rem == {}
  {
    FromSkip(OfAnd, s, t, i, i', rem);
    forall n: nat ensures !From(OfAnd, s, t, i', 0, n) {
      if s[i'].indx <= Index(n) { Absent(t, n); }
    }
  }

  /** Rounding up to the word boundary. */
  lemma RoundUp(ix: nat, wordNo: nat, bits: Word, bitNo: nat)
    requires Aligned(ix, wordNo, bits, bitNo) && bits == 0
    ensures (bitNo + WORD_BITS - 1) / WORD_BITS * WORD_BITS == ix * ALL_BITS + (wordNo + 1) * WORD_BITS
  {
    assert ix * ALL_BITS + wordNo * WORD_BITS == (ix * 2 + wordNo) * WORD_BITS;
  }

  /** The bit just visited does not come again. */
  lemma VisitedOnce(kind: Kind, s: seq<Cell>, t: seq<Cell>, i: nat, wordNo: nat, bits: Word, bitNo: nat)
    requires i < |s| && wordNo < ELEMENT_WORDS && bits != 0 && Aligned(s[i].indx, wordNo, bits, bitNo)
    ensures !From(kind, s, t, i, wordNo + 1, bitNo)
    ensures Aligned(s[i].indx, wordNo, bits / 2, bitNo + 1)
  {
    var base := s[i].indx * ALL_BITS + wordNo * WORD_BITS;
    assert bitNo < base + WORD_BITS;
    assert bitNo / ALL_BITS == s[i].indx && bitNo % ALL_BITS / WORD_BITS == wordNo;
  }

  ghost function Wanted(kind: Kind, s: seq<Cell>, t: seq<Cell>, start: nat): set<nat>
  {
    set n | n in Members(s) && n >= start &&
      match kind case OfSet => true case OfAnd => n in Members(t) case OfAndCompl => n !in Members(t)
  }

  lemma WantedTarget(kind: Kind, s: seq<Cell>, t: seq<Cell>, start: nat, n: nat)
    ensures n in Wanted(kind, s, t, start) <==> Target(kind, s, t, n) && n >= start
  {
    MembersHas(s, n);
    MembersHas(t, n);
  }

  /** The bits of a word from bit `r` on, after shifting. */
  lemma Shifted(c: Word, base: nat, r: nat, n: nat)
    ensures var bits := Shr(c, r); var start := base + r;
            Coming(c, base, n) && n >= start <==> Coming(bits, if bits == 0 then start + 1 else start, n)
  {
    var bits, start := Shr(c, r), base + r;
    if n >= start {
      ShrBit(c, r, n - start);
      if bits == 0 {
        ZeroBit(n - start);
        NoneComing(start + 1, n);
      }
    }
  }

  /** Targets at or after `start` are in its word or later. */
  lemma StartWord(ix: nat, w: nat, start: nat, n: nat)
    requires Index(start) == ix && Offset(start) / WORD_BITS == w && start <= n
    ensures ix < Index(n) || (ix == Index(n) && w <= Offset(n) / WORD_BITS)
  {}

  lemma StartBase(start: nat)
    ensures var w := start / WORD_BITS % ELEMENT_WORDS;
            Offset(start) / WORD_BITS == w && start == Index(start) * ALL_BITS + w * WORD_BITS + start % WORD_BITS
  {
    var q := start / ALL_BITS;
    var r := start - q * ALL_BITS;
    assert r == Offset(start) && start == q * ELEMENT_WORDS * WORD_BITS + r;
    assert start / WORD_BITS == q * ELEMENT_WORDS + r / WORD_BITS;
  }

  lemma AlignedShr(ix: nat, w: nat, c: Word, r: nat)
    requires r < WORD_BITS
    ensures var start, bits := ix * ALL_BITS + w * WORD_BITS + r, Shr(c, r);
            bits < WORD_LIMIT && Aligned(ix, w, bits, if bits == 0 then start + 1 else start)
  {
    ShrFits(c, r, WORD_BITS);
  }

  lemma BeginAt(kind: Kind, s: seq<Cell>, i: nat, t: seq<Cell>, j: nat, start: nat, w: nat, r: nat, n: nat)
    requires Sorted(s) && Sorted(t) && i < |s| && (kind.OfSet? || Beside(s, i, t, j)) && s[i].indx == Index(start)
    requires w == Offset(start) / WORD_BITS < ELEMENT_WORDS && r < WORD_BITS
    requires start == s[i].indx * ALL_BITS + w * WORD_BITS + r
    ensures var bits := Shr(Combined(kind, s, i, t, j, w), r);
            Target(kind, s, t, n) && n >= start <==>
            Coming(bits, if bits == 0 then start + 1 else start, n) || From(kind, s, t, i, w + 1, n)
  {
    hide Combined, Beside, Sorted, Target, Coming, Shr, Index, Offset;
    FromSplit(kind, s, i, t, j, w, n);
    Shifted(Combined(kind, s, i, t, j, w), s[i].indx * ALL_BITS + w * WORD_BITS, r, n);
    if n >= start {
      StartWord(s[i].indx, w, start, n);
    } else if From(kind, s, t, i, w + 1, n) {
      LaterWord(s[i].indx, w, n);
    }
  }

  /** The first block the iteration stands on has index Index(start); the word there is shifted to `start`. */
  lemma Begin(kind: Kind, s: seq<Cell>, i: nat, t: seq<Cell>, j: nat, start: nat, rem: set<nat>)
    requires Sorted(s) && Sorted(t) && i < |s| && (kind.OfSet? || Beside(s, i, t, j)) && s[i].indx == Index(start)
    requires forall n: nat :: n in rem <==> Target(kind, s, t, n) && n >= start
    ensures var w := start / WORD_BITS % ELEMENT_WORDS;
            && w < ELEMENT_WORDS
            && var bits: Word := Shr(Combined(kind, s, i, t, j, w), start % WORD_BITS);
            && var bitNo := if bits == 0 then start + 1 else start;
            && Pending(kind, s, t, i, w, bits, bitNo, rem) && Aligned(s[i].indx, w, bits, bitNo)
  {
    hide Combined, Beside, Sorted, Target, Coming, Shr, From, Index, Offset, Aligned, Pow2;
    var w, r := start / WORD_BITS % ELEMENT_WORDS, start % WORD_BITS;
    var c := Combined(kind, s, i, t, j, w);
    var bits: Word := Shr(c, r);
    StartBase(start);
    AlignedShr(s[i].indx, w, c, r);
    var bitNo := if bits == 0 then start + 1 else start;
    forall n: nat ensures n in rem <==> Coming(bits, bitNo, n) || From(kind, s, t, i, w + 1, n) {
      BeginAt(kind, s, i, t, j, start, w, r, n);
    }
  }

  /** `i` is the first block at or after the one that holds `start`. */
  ghost predicate FirstFrom(s: seq<Cell>, i: nat, start: nat)
  {
    && i <= |s|
    && (forall k :: 0 <= k < i ==> s[k].indx < Index(start))
    && (i < |s| ==> Index(start) <= s[i].indx)
  }

  /** Where the iteration really starts: at `start`, or at the beginning of the first block after it. */
  function Bumped(ix: nat, start: nat): nat
  {
    if ix != Index(start) then ix * ALL_BITS else start
  }

  lemma BumpedSame(kind: Kind, s: seq<Cell>, i: nat, t: seq<Cell>, start: nat, n: nat)
    requires Sorted(s) && FirstFrom(s, i, start)
    ensures i == |s| ==> !(Target(kind, s, t, n) && n >= start)
    ensures i < |s| ==>
              (Target(kind, s, t, n) && n >= start <==> Target(kind, s, t, n) && n >= Bumped(s[i].indx, start))
    ensures i < |s| ==> Index(Bumped(s[i].indx, start)) == s[i].indx
  {
    if Has(s, n) && n >= start {
      var k :| 0 <= k < |s| && s[k].indx == Index(n) && BlockBit(s[k].bits, Offset(n));
      assert k >= i;
    }
  }

  /** Where the And iterator starts on blocks that do not match, nothing is visited in the first one. */
  lemma BeginApart(s: seq<Cell>, i: nat, t: seq<Cell>, j: nat, start: nat, bitNo: nat, rem: set<nat>)
    requires Sorted(s) && Sorted(t) && i < |s| && Beside(s, i, t, j) && FirstFrom(s, i, start) && j < |t|
    requires t[j].indx != s[i].indx
    requires forall n: nat :: n in rem <==> Target(OfAnd, s, t, n) && n >= start
    ensures Pending(OfAnd, s, t, i, ELEMENT_WORDS - 1, 0, bitNo, rem)
  {
    forall n: nat ensures n in rem <==> Coming(0, bitNo, n) || From(OfAnd, s, t, i, ELEMENT_WORDS, n) {
      BumpedSame(OfAnd, s, i, t, start, n);
      if n >= bitNo { ZeroBit(n - bitNo); }
      if Index(n) == s[i].indx { Absent(t, n); }
    }
  }

  lemma ShrZero(n: nat)
    ensures Shr(0, n) == 0
  {}

  lemma EmptyPending(kind: Kind, s: seq<Cell>, t: seq<Cell>, wordNo: nat, bits: Word, bitNo: nat, rem: set<nat>)
    requires rem == {} && bits == 0
    ensures Pending(kind, s, t, |s|, wordNo, bits, bitNo, rem)
  {
    forall n: nat ensures !Coming(bits, bitNo, n) { if n >= bitNo { ZeroBit(n - bitNo); } }
  }

  class Iter {
    const kind: Kind
    ghost const a: Head
    ghost const b: Head
    var elt1: Element?
    var elt2: Element?
    var wordNo: nat
    var bits: Word
    var bitNo: nat
    ghost var i: nat
    ghost var j: nat
    ghost var rem: set<nat>

    constructor (kind: Kind, a: Head, b: Head)
      ensures this.kind == kind && this.a == a && this.b == b
    {
      this.kind, this.a, this.b := kind, a, b;
      bits := 0;
    }

    /** The elements under the iterator; past the end of A it stands on an element without bits. */
    ghost predicate Placed()
      reads this`elt1, this`elt2, this`i, this`j, a, a.elts, b, b.elts, elt1, elt2
    {
      && Source(a) && Source(b) && elt1 != null && i <= |a.elts|
      && (if i < |a.elts| then elt1 == a.elts[i] else elt1.next == null && elt1.bits == ZERO)
      && (kind.OfSet? || Beside(a.cells, i, b.cells, j))
      && match kind
         case OfSet => true
         case OfAnd => elt2 != null && if i < |a.elts| then elt2 == At(b.elts, j) else elt2.indx == elt1.indx
         case OfAndCompl => i < |a.elts| ==> elt2 == At(b.elts, j)
    }

    /** Between two visits: `rem` is what is still to be visited. */
    ghost predicate Inv()
      reads this, a, a.elts, b, b.elts, elt1, elt2
    {
      && Placed() && wordNo < ELEMENT_WORDS
      && Pending(kind, a.cells, b.cells, i, wordNo, bits, bitNo, rem)
      && (i == |a.elts| ==> bits == 0)
      && (i < |a.elts| && (bits != 0 || wordNo + 1 < ELEMENT_WORDS) ==>
            && Aligned(a.cells[i].indx, wordNo, bits, bitNo)
            && (kind.OfAnd? ==> j < |b.elts| && b.cells[j].indx == a.cells[i].indx))
    }

    /** About to look at word `wordNo`, or at the next element if there is none. */
    ghost predicate AtWord()
      reads this, a, a.elts, b, b.elts, elt1, elt2
    {
      && Placed() && wordNo <= ELEMENT_WORDS && Remains(kind, a.cells, b.cells, i, wordNo, rem)
      && (i < |a.elts| && wordNo < ELEMENT_WORDS ==>
            bitNo == a.cells[i].indx * ALL_BITS + wordNo * WORD_BITS
            && (kind.OfAnd? ==> j < |b.elts| && b.cells[j].indx == a.cells[i].indx))
    }

    /** The word of the current pair of elements. */
    function WordAt(w: nat): Word
      requires w < ELEMENT_WORDS && elt1 != null && (kind.OfAnd? ==> elt2 != null)
      reads this, elt1, elt2
    {
      match kind
      case OfSet => elt1.bits[w]
      case OfAnd => WordOp(And, elt1.bits[w], elt2.bits[w])
      case OfAndCompl =>
        if elt2 != null && elt2.indx == elt1.indx then WordOp(And, elt1.bits[w], Not(elt2.bits[w])) else elt1.bits[w]
    }

    lemma WordAtCombined(w: nat)
      requires Placed() && w < ELEMENT_WORDS
      requires kind.OfAnd? && i < |a.elts| ==> j < |b.elts| && b.cells[j].indx == a.cells[i].indx
      ensures i < |a.elts| ==> WordAt(w) == Combined(kind, a.cells, i, b.cells, j, w)
      ensures i == |a.elts| ==> WordAt(w) == 0
    {
      if i < |a.elts| {
        assert Node(a.elts, a.cells, i);
        assert j < |b.elts| ==> Node(b.elts, b.cells, j);
      } else {
        if elt2 != null { AndZeroLeft(elt2.bits[w]); AndZeroLeft(Not(elt2.bits[w])); }
      }
    }

    lemma PlacedFacts()
      requires Placed()
      ensures Sorted(a.cells) && Sorted(b.cells) && |a.cells| == |a.elts| && |b.cells| == |b.elts| && i <= |a.elts|
      ensures kind.OfSet? || Beside(a.cells, i, b.cells, j)
      ensures elt1 != null && (kind.OfAnd? ==> elt2 != null)
    {}

    /** The `next_bit` loop: shift until the lowest bit is set. */
    method Settle()
      requires Inv() && bits != 0
      modifies this`bits, this`bitNo
      ensures Inv() && bits % 2 == 1 && bitNo in rem && forall n :: n in rem ==> bitNo <= n
    {
      hide Placed, Source, Beside, Sorted, Pending, Aligned, From, Coming;
      PlacedFacts();
      while bits % 2 == 0
        invariant Inv() && bits != 0
        decreases bits
      {
        ShiftPending(kind, a.cells, b.cells, i, wordNo, bits, bitNo, rem);
        AlignedShift(a.cells[i].indx, wordNo, bits, bitNo);
        bits := bits / 2;
        bitNo := bitNo + 1;
      }
      ShiftPending(kind, a.cells, b.cells, i, wordNo, bits, bitNo, rem);
      PendingLeast(kind, a.cells, b.cells, i, wordNo, bits, bitNo, rem);
    }

    /** Go on to the next word when nothing is left in this one. */
    method PassWord()
      requires AtWord() && wordNo < ELEMENT_WORDS && Remains(kind, a.cells, b.cells, i, wordNo + 1, rem)
      modifies this`bitNo, this`wordNo
      ensures AtWord() && wordNo == old(wordNo) + 1
    {
      hide Placed, Remains;
      PlacedFacts();
      bitNo := bitNo + WORD_BITS;
      wordNo := wordNo + 1;
    }

    /** Load word `wordNo`; without bits in it, nothing is lost by going on to the next one. */
    method Load() returns (some: bool)
      requires AtWord() && wordNo < ELEMENT_WORDS
      modifies this`bits, this`bitNo, this`wordNo
      ensures some ==> Inv() && bits != 0
      ensures !some ==> AtWord() && wordNo == old(wordNo) + 1
    {
      hide Placed, Source, Beside, Remains, WordOp, WordAt, Combined, Pending, Aligned, Sorted, From, Coming, Target;
      PlacedFacts();
      WordAtCombined(wordNo);
      bits := WordAt(wordNo);
      if bits != 0 {
        LoadPending(kind, a.cells, i, b.cells, j, wordNo, bits, bitNo, rem);
        AlignedStart(a.cells[i].indx, wordNo, bits);
        return true;
      }
      if i < |a.elts| {
        LoadPending(kind, a.cells, i, b.cells, j, wordNo, bits, bitNo, rem);
      } else {
        LoadNothing(kind, a.cells, b.cells, i, wordNo, bitNo, rem);
      }
      PassWord();
      return false;
    }

    lemma SortedSources()
      requires Placed()
      ensures Sorted(a.cells) && Sorted(b.cells) && |a.cells| == |a.elts| && |b.cells| == |b.elts|
    {}

    /** bmp_iter_set: go to the next element. */
    method NextInSet() returns (more: bool)
      requires AtWord() && wordNo == ELEMENT_WORDS && kind.OfSet?
      modifies this`elt1, this`i
      ensures more ==> Placed() && i < |a.elts| && old(i) < i
      ensures more ==> forall n: nat :: n in rem <==> From(kind, a.cells, b.cells, i, 0, n)
      ensures !more ==> rem == {}
    {
      hide Distinct, Canonical;
      SortedSources();
      if i < |a.elts| {
        assert Node(a.elts, a.cells, i);
        FromSkip(kind, a.cells, b.cells, i, i + 1, rem);
      }
      elt1 := elt1.next;
      if elt1 == null {
        return false;
      }
      i := i + 1;
      more := true;
    }

    /** bmp_iter_and_compl: go to the next element of A and move the other one up to it. */
    method NextInFirst() returns (more: bool)
      requires AtWord() && wordNo == ELEMENT_WORDS && kind.OfAndCompl?
      modifies this`elt1, this`elt2, this`i, this`j
      ensures more ==> Placed() && i < |a.elts| && old(i) < i
      ensures more ==> forall n: nat :: n in rem <==> From(kind, a.cells, b.cells, i, 0, n)
      ensures !more ==> rem == {}
    {
      hide Distinct, Canonical;
      SortedSources();
      if i < |a.elts| {
        assert Node(a.elts, a.cells, i);
        FromSkip(kind, a.cells, b.cells, i, i + 1, rem);
      }
      elt1 := elt1.next;
      if elt1 == null {
        return false;
      }
      i := i + 1;
      assert Node(a.elts, a.cells, i);
      while elt2 != null && elt2.indx < elt1.indx
        invariant j <= |b.elts| && elt2 == At(b.elts, j)
        invariant forall k :: 0 <= k < j ==> b.cells[k].indx < a.cells[i].indx
        decreases |b.elts| - j
        modifies this`elt2, this`j
      {
        assert Node(b.elts, b.cells, j);
        elt2, j := elt2.next, j + 1;
      }
      assert j < |b.elts| ==> Node(b.elts, b.cells, j);
      more := true;
    }

    /** The search of bmp_iter_and for the next index that both lists have, `i0` being where it started. */
    ghost predicate Searching(i0: nat)
      reads this, a, a.elts, b, b.elts
    {
      && Source(a) && Source(b) && kind.OfAnd? && |a.cells| == |a.elts| && |b.cells| == |b.elts|
      && i0 <= i < |a.elts| && elt1 == a.elts[i] && j < |b.elts| && elt2 == b.elts[j]
      && Beside(a.cells, i, b.cells, j)
      && (forall k :: i0 < k < i ==> NoMatch(b.cells, a.cells[k].indx))
      && (forall n: nat :: n in rem <==> From(kind, a.cells, b.cells, i0, ELEMENT_WORDS, n))
    }

    /** Move the second element up to index `ix`. */
    method CatchUp(ix: nat)
      requires Source(b) && |b.cells| == |b.elts| && j <= |b.elts| && elt2 == At(b.elts, j)
      requires forall k :: 0 <= k < j ==> b.cells[k].indx < ix
      modifies this`elt2, this`j
      ensures j <= |b.elts| && elt2 == At(b.elts, j) && old(j) <= j
      ensures forall k :: 0 <= k < j ==> b.cells[k].indx < ix
      ensures j < |b.elts| ==> ix <= b.cells[j].indx
    {
      hide Distinct, Canonical;
      while elt2 != null && elt2.indx < ix
        invariant old(j) <= j <= |b.elts| && elt2 == At(b.elts, j)
        invariant forall k :: 0 <= k < j ==> b.cells[k].indx < ix
        decreases |b.elts| - j
      {
        assert Node(b.elts, b.cells, j);
        elt2, j := elt2.next, j + 1;
      }
      if j < |b.elts| {
        assert Node(b.elts, b.cells, j);
      }
    }

    lemma SortedPair()
      requires Source(a) && Source(b)
      ensures Sorted(a.cells) && Sorted(b.cells)
    {}

    /** Move the first element at least one step, up to the second; then the second up to the first. */
    method StepBoth(ghost i0: nat) returns (more: bool)
      requires Searching(i0) && (i == i0 || a.cells[i].indx != b.cells[j].indx)
      modifies this`elt1, this`elt2, this`i, this`j
      ensures more ==> Searching(i0) && old(i) < i
      ensures !more ==> rem == {}
    {
      hide Distinct, Canonical, From, Target;
      SortedPair();
      assert Node(a.elts, a.cells, i) && Node(b.elts, b.cells, j);
      ghost var x := i;
      assert x != i0 ==> NoMatch(b.cells, a.cells[x].indx);
      elt1, i := elt1.next, i + 1;
      while elt1 != null && elt1.indx < elt2.indx
        invariant x < i <= |a.elts| && elt1 == At(a.elts, i)
        invariant forall k :: i0 < k < i ==> NoMatch(b.cells, a.cells[k].indx)
        decreases |a.elts| - i
        modifies this`elt1, this`i
      {
        assert Node(a.elts, a.cells, i);
        assert NoMatch(b.cells, a.cells[i].indx);
        elt1, i := elt1.next, i + 1;
      }
      if elt1 == null {
        FromSkip(kind, a.cells, b.cells, i0, i, rem);
        return false;
      }
      assert Node(a.elts, a.cells, i);
      CatchUp(elt1.indx);
      if elt2 == null {
        FromNone(a.cells, b.cells, i0, i, rem);
        return false;
      }
      more := true;
    }

    /** bmp_iter_and: go to the next index that both lists have. */
    method NextInBoth() returns (more: bool)
      requires AtWord() && wordNo == ELEMENT_WORDS && kind.OfAnd?
      modifies this`elt1, this`elt2, this`i, this`j
      ensures more ==> Placed() && i < |a.elts| && old(i) < i && j < |b.elts| && b.cells[j].indx == a.cells[i].indx
      ensures more ==> forall n: nat :: n in rem <==> From(kind, a.cells, b.cells, i, 0, n)
      ensures !more ==> rem == {}
    {
      hide Distinct, Canonical;
      SortedSources();
      if elt1.next == null {
        if i < |a.elts| {
          assert Node(a.elts, a.cells, i);
          FromSkip(kind, a.cells, b.cells, i, i + 1, rem);
        }
        elt1 := null;
        return false;
      }
      ghost var i0 := i;
      more := StepBoth(i0);
      while more && elt1.indx != elt2.indx
        invariant more ==> Searching(i0) && i0 < i
        invariant !more ==> rem == {}
        decreases more, |a.elts| - i
      {
        assert Node(a.elts, a.cells, i) && Node(b.elts, b.cells, j);
        more := StepBoth(i0);
      }
      if more {
        assert Node(a.elts, a.cells, i) && Node(b.elts, b.cells, j);
        FromSkip(kind, a.cells, b.cells, i0, i, rem);
      }
    }

    /** Begin with the first word of a new element. */
    method Restart()
      requires Placed() && i < |a.elts| && (kind.OfAnd? ==> j < |b.elts| && b.cells[j].indx == a.cells[i].indx)
      requires forall n: nat :: n in rem <==> From(kind, a.cells, b.cells, i, 0, n)
      modifies this`bitNo, this`wordNo
      ensures AtWord() && wordNo == 0
    {
      assert Node(a.elts, a.cells, i);
      bitNo := elt1.indx * ALL_BITS;
      wordNo := 0;
    }

    /** Go on from element to element until one has a target. */
    method Scan() returns (found: bool)
      requires AtWord()
      modifies this`elt1, this`elt2, this`wordNo, this`bits, this`bitNo, this`i, this`j
      ensures found ==> Inv() && bits != 0
      ensures !found ==> rem == {}
    {
      while true
        invariant AtWord()
        decreases |a.elts| - i, ELEMENT_WORDS - wordNo
      {
        if wordNo != ELEMENT_WORDS {
          found := Load();
          if found {
            return;
          }
        } else {
          var more := false;
          match kind {
            case OfSet => more := NextInSet();
            case OfAnd => more := NextInBoth();
            case OfAndCompl => more := NextInFirst();
          }
          if !more {
            return false;
          }
          Restart();
        }
      }
    }

    method Round()
      requires Inv() && bits == 0
      modifies this`bitNo, this`wordNo
      ensures AtWord()
    {
      hide Distinct, Canonical, From;
      if i < |a.elts| && wordNo + 1 < ELEMENT_WORDS {
        RoundUp(a.cells[i].indx, wordNo, bits, bitNo);
      }
      forall n: nat ensures !Coming(bits, bitNo, n) { if n >= bitNo { ZeroBit(n - bitNo); } }
      bitNo := (bitNo + WORD_BITS - 1) / WORD_BITS * WORD_BITS;
      wordNo := wordNo + 1;
    }

    /** bmp_iter_set, bmp_iter_and, bmp_iter_and_compl: advance to the next bit to visit. */
    method Advance() returns (found: bool)
      requires Inv()
      modifies this
      ensures rem == old(rem)
      ensures found ==> Inv() && bits % 2 == 1 && bitNo in rem && forall n :: n in rem ==> bitNo <= n
      ensures !found ==> rem == {}
    {
      found := true;
      if bits == 0 {
        Round();
        found := Scan();
      }
      if found {
        Settle();
      }
    }

    /** bmp_iter_next: step past the bit just visited. */
    method Next()
      requires Inv() && bits % 2 == 1
      modifies this
      ensures Inv() && rem == old(rem) - {old(bitNo)}
    {
      hide Distinct, Canonical;
      VisitedOnce(kind, a.cells, b.cells, i, wordNo, bits, bitNo);
      ShiftPending(kind, a.cells, b.cells, i, wordNo, bits, bitNo, rem);
      rem := rem - {bitNo};
      bits := bits / 2;
      bitNo := bitNo + 1;
    }

    /** Advance until the element is not before the block that holds `start`. */
    method Seek(head: Head, start: nat) returns (e: Element?, ghost k: nat)
      requires Source(head)
      ensures |head.cells| == |head.elts| && FirstFrom(head.cells, k, start) && e == At(head.elts, k)
    {
      hide Distinct;
      e, k := head.first, 0;
      while e != null && e.indx < Index(start)
        invariant k <= |head.elts| && e == At(head.elts, k)
        invariant forall n :: 0 <= n < k ==> head.cells[n].indx < Index(start)
        decreases |head.elts| - k
      {
        assert Node(head.elts, head.cells, k);
        e, k := e.next, k + 1;
      }
      assert e != null ==> Node(head.elts, head.cells, k);
    }

    lemma Targets(start: nat)
      requires Placed() && FirstFrom(a.cells, i, start) && i < |a.elts| && rem == Wanted(kind, a.cells, b.cells, start)
      ensures Index(Bumped(elt1.indx, start)) == a.cells[i].indx
      ensures forall n: nat :: n in rem <==> Target(kind, a.cells, b.cells, n) && n >= Bumped(elt1.indx, start)
    {
      assert Node(a.elts, a.cells, i);
      BumpedSame(kind, a.cells, i, b.cells, start, 0);
      forall n: nat ensures n in rem <==> Target(kind, a.cells, b.cells, n) && n >= Bumped(elt1.indx, start) {
        WantedTarget(kind, a.cells, b.cells, start, n);
        BumpedSame(kind, a.cells, i, b.cells, start, n);
      }
    }

    lemma OnElement()
      requires Placed()
      ensures i < |a.elts| ==> i < |a.cells| && elt1.indx == a.cells[i].indx
    {
      assert i < |a.elts| ==> Node(a.elts, a.cells, i);
    }

    /** Stand on element `i` and load the word that holds the start bit. */
    method Enter(start: nat)
      requires Placed() && (i < |a.elts| ==> FirstFrom(a.cells, i, start))
      requires i == |a.elts| ==> Wanted(kind, a.cells, b.cells, start) == {}
      requires kind.OfAnd? && i < |a.elts| ==> j < |b.elts| && b.cells[j].indx == a.cells[i].indx
      modifies this`wordNo, this`bits, this`bitNo, this`rem
      ensures Inv() && rem == Wanted(kind, a.cells, b.cells, start)
    {
      hide Source, Placed, Beside, Sorted, FirstFrom, Wanted, Target, Pending, Aligned, WordOp, WordAt, Combined;
      PlacedFacts();
      OnElement();
      rem := Wanted(kind, a.cells, b.cells, start);
      var bit := Bumped(elt1.indx, start);
      if i < |a.elts| { Targets(start); }
      wordNo := bit / WORD_BITS % ELEMENT_WORDS;
      WordAtCombined(wordNo);
      if i < |a.elts| {
        Begin(kind, a.cells, i, b.cells, j, bit, rem);
      }
      bits := Shr(WordAt(wordNo), bit % WORD_BITS);
      bitNo := if bits == 0 then bit + 1 else bit;
      if i == |a.elts| { ShrZero(bit % WORD_BITS); EmptyPending(kind, a.cells, b.cells, wordNo, bits, bitNo, rem); }
    }

    /** Past the end of A, or of the only list it is intersected with, there is nothing to visit. */
    lemma NothingWanted(start: nat, i0: nat)
      requires Source(a) && Source(b) && |a.cells| == |a.elts| && FirstFrom(a.cells, i0, start)
      requires i0 < |a.elts| ==> kind.OfAnd? && forall k :: 0 <= k < |b.cells| ==> b.cells[k].indx < a.cells[i0].indx
      ensures Wanted(kind, a.cells, b.cells, start) == {}
    {
      forall n: nat ensures n !in Wanted(kind, a.cells, b.cells, start) {
        WantedTarget(kind, a.cells, b.cells, start, n);
        BumpedSame(kind, a.cells, i0, b.cells, start, n);
        if i0 < |a.elts| && Index(n) >= a.cells[i0].indx { Absent(b.cells, n); }
      }
    }

    /** bmp_iter_set_init. */
    method InitSet(head: Head, start: nat, zero: Element)
      requires head == a && kind.OfSet? && Source(a) && Source(b) && ZeroBits(zero)
      modifies this
      ensures Inv() && rem == Wanted(kind, a.cells, b.cells, start)
    {
      hide Distinct, Canonical, Wanted;
      elt1, i := Seek(head, start);
      elt2, j := null, 0;
      if elt1 == null {
        NothingWanted(start, i);
        elt1 := zero;
      }
      Enter(start);
    }

    /** Advance the second element until it is not before the first. */
    method SeekOther(other: Head)
      requires other == b && Source(a) && Source(b) && elt1 != null && i <= |a.elts| == |a.cells|
      requires i < |a.elts| ==> elt1.indx == a.cells[i].indx
      modifies this`elt2, this`j
      ensures Beside(a.cells, i, b.cells, j) && j <= |b.elts| && elt2 == At(b.elts, j)
    {
      hide Distinct, Canonical;
      elt2, j := other.first, 0;
      while elt2 != null && elt2.indx < elt1.indx
        invariant j <= |b.elts| && elt2 == At(b.elts, j)
        invariant forall k :: 0 <= k < j ==> b.cells[k].indx < elt1.indx
        decreases |b.elts| - j
      {
        assert Node(b.elts, b.cells, j);
        elt2, j := elt2.next, j + 1;
      }
      assert elt2 != null ==> Node(b.elts, b.cells, j);
    }

    /** bmp_iter_and_compl_init. */
    method InitAndCompl(head: Head, other: Head, start: nat, zero: Element)
      requires head == a && other == b && kind.OfAndCompl? && Source(a) && Source(b) && ZeroBits(zero)
      modifies this
      ensures Inv() && rem == Wanted(kind, a.cells, b.cells, start)
    {
      hide Distinct, Canonical, Wanted;
      elt1, i := Seek(head, start);
      if elt1 == null {
        NothingWanted(start, i);
        elt1 := zero;
      }
      assert i < |a.elts| ==> Node(a.elts, a.cells, i);
      SeekOther(other);
      Enter(start);
    }

    /** Stand on the element without bits. */
    method Vacate(zero: Element)
      requires kind.OfAnd? && Source(a) && Source(b) && ZeroBits(zero)
      modifies this`elt1, this`elt2, this`i, this`j
      ensures Placed() && i == |a.elts| && elt2 != null && elt1.indx == elt2.indx
    {
      elt1, elt2 := zero, zero;
      i, j := |a.elts|, |b.elts|;
    }

    /** The two loops of bmp_iter_and_init that place the elements. */
    method SeekBoth(head: Head, other: Head, start: nat, zero: Element)
      requires head == a && other == b && kind.OfAnd? && Source(a) && Source(b) && ZeroBits(zero)
      modifies this`elt1, this`elt2, this`i, this`j
      ensures Placed() && elt2 != null
      ensures if i < |a.elts| then FirstFrom(a.cells, i, start) && j < |b.elts| && elt2 == b.elts[j]
              else Wanted(kind, a.cells, b.cells, start) == {} && elt1.indx == elt2.indx
    {
      hide Distinct, Canonical, Wanted, Sorted, FirstFrom;
      elt1, i := Seek(head, start);
      elt2, j := null, 0;
      if elt1 != null {
        assert Node(a.elts, a.cells, i);
        SeekOther(other);
      }
      if elt2 == null {
        NothingWanted(start, i);
        hide Placed;
        Vacate(zero);
      }
    }

    lemma ApartFacts()
      requires Placed() && kind.OfAnd? && i < |a.elts| && elt1.indx != elt2.indx
      ensures Sorted(a.cells) && Sorted(b.cells) && |a.cells| == |a.elts| && Beside(a.cells, i, b.cells, j)
      ensures j < |b.cells| && b.cells[j].indx != a.cells[i].indx
    {
      assert Node(a.elts, a.cells, i) && Node(b.elts, b.cells, j);
    }

    /** The first two elements do not match: wait for the next pair. */
    method EnterApart(start: nat)
      requires Placed() && kind.OfAnd? && FirstFrom(a.cells, i, start) && i < |a.elts| && elt1.indx != elt2.indx
      modifies this`wordNo, this`bits, this`bitNo, this`rem
      ensures Inv() && rem == Wanted(kind, a.cells, b.cells, start)
    {
      hide Source, Placed, Wanted, Target, FirstFrom, Sorted, Beside, Pending, Aligned, Has, From, Coming;
      ApartFacts();
      rem := Wanted(kind, a.cells, b.cells, start);
      forall n: nat ensures n in rem <==> Target(kind, a.cells, b.cells, n) && n >= start {
        WantedTarget(kind, a.cells, b.cells, start, n);
      }
      wordNo := ELEMENT_WORDS - 1;
      bits := 0;
      bitNo := start + 1;
      BeginApart(a.cells, i, b.cells, j, start, bitNo, rem);
    }

    /** bmp_iter_and_init. */
    method InitAnd(head: Head, other: Head, start: nat, zero: Element)
      requires head == a && other == b && kind.OfAnd? && Source(a) && Source(b) && ZeroBits(zero)
      modifies this
      ensures Inv() && rem == Wanted(kind, a.cells, b.cells, start)
    {
      SeekBoth(head, other, start, zero);
      SortedSources();
      assert i < |a.elts| ==> Node(a.elts, a.cells, i) && Node(b.elts, b.cells, j);
      hide Distinct, Canonical, Wanted, Source, Beside, FirstFrom;
      if elt1.indx == elt2.indx {
        Enter(start);
      } else {
        EnterApart(start);
      }
    }
  }

  ghost predicate Increasing(out: seq<nat>)
  {
    forall p, q :: 0 <= p < q < |out| ==> out[p] < out[q]
  }

  ghost function Visited(out: seq<nat>): set<nat> { set n | n in out }

  /** `out` has been visited in order, `rem` is still to come, and together they are `w`. */
  ghost predicate Halves(out: seq<nat>, rem: set<nat>, w: set<nat>)
  {
    && Increasing(out) && Visited(out) + rem == w
    && forall p, n :: 0 <= p < |out| && n in rem ==> out[p] < n
  }

  lemma Visit(out: seq<nat>, x: nat, rem: set<nat>, w: set<nat>)
    requires Halves(out, rem, w) && x in rem && forall n :: n in rem ==> x <= n
    ensures Halves(out + [x], rem - {x}, w)
  {}

  lemma VisitEnds(out: seq<nat>, w: set<nat>)
    ensures Halves([], w, w)
    ensures Halves(out, {}, w) ==> Increasing(out) && Visited(out) == w
  {}

  method Start(kind: Kind, a: Head, b: Head, start: nat, zero: Element) returns (it: Iter)
    requires Source(a) && Source(b) && ZeroBits(zero)
    ensures fresh(it) && it.Inv() && it.rem == Wanted(kind, a.cells, b.cells, start)
  {
    hide Wanted, Source, Iter.Inv;
    it := new Iter(kind, a, b);
    match kind {
      case OfSet => it.InitSet(a, start, zero);
      case OfAnd => it.InitAnd(a, b, start, zero);
      case OfAndCompl => it.InitAndCompl(a, b, start, zero);
    }
  }

  /**
   EXECUTE_IF_SET_IN_BITMAP, EXECUTE_IF_AND_IN_BITMAP and EXECUTE_IF_AND_COMPL_IN_BITMAP: the bits the loop
   body runs for, in the order it runs.
   */
  method Collect(kind: Kind, a: Head, b: Head, start: nat, zero: Element) returns (out: seq<nat>)
    requires Source(a) && Source(b) && ZeroBits(zero)
    ensures Increasing(out)
    ensures Visited(out) == Wanted(kind, a.cells, b.cells, start)
  {
    var it := Start(kind, a, b, start, zero);
    ghost var w := Wanted(kind, a.cells, b.cells, start);
    hide Wanted, Source, Iter.Inv, Halves, Visited, Increasing;
    out := [];
    VisitEnds(out, w);
    var more := it.Advance();
    while more
      invariant more ==> it.Inv() && it.bits % 2 == 1 && it.bitNo in it.rem && forall n :: n in it.rem ==> it.bitNo <= n
      invariant !more ==> it.rem == {}
      invariant Halves(out, it.rem, w)
      decreases |it.rem|
      modifies it
    {
      Visit(out, it.bitNo, it.rem, w);
      out := out + [it.bitNo];
      it.Next();
      more := it.Advance();
    }
    VisitEnds(out, w);
  }
}
