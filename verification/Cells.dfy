/**
 The value a bitmap list denotes: blocks of words tagged with their index, the finite
 set of naturals they stand for, and the merge that every boolean operation refines.
 */
module Cells {
  import opened Words

  const ELEMENT_WORDS: nat := 2
  const ALL_BITS: nat := 128

  type Block = s: seq<Word> | |s| == ELEMENT_WORDS witness [0, 0]

  const ZERO: Block := [0, 0]

  datatype Cell = Cell(indx: nat, bits: Block)

  predicate BlockBit(b: Block, i: nat)
    requires i < ALL_BITS
  {
    Bit(b[i / WORD_BITS], i % WORD_BITS)
  }

  function BlockOp(op: BoolOp, a: Block, b: Block): Block
  {
    [WordOp(op, a[0], b[0]), WordOp(op, a[1], b[1])]
  }

  ghost predicate Sorted(s: seq<Cell>)
  {
    forall i, j :: 0 <= i < j < |s| ==> s[i].indx < s[j].indx
  }

  /** Strictly increasing indices and no all-zero block. */
  ghost predicate Canonical(s: seq<Cell>)
  {
    Sorted(s) && forall i :: 0 <= i < |s| ==> s[i].bits != ZERO
  }

  /** Which block holds bit `n`, and where in it. */
  function Index(n: nat): nat { n / 128 }

  function Offset(n: nat): (i: nat) ensures i < ALL_BITS { n % 128 }

  /** Bit `n` is present. */
  ghost predicate Has(s: seq<Cell>, n: nat)
  {
    exists k :: 0 <= k < |s| && s[k].indx == Index(n) && BlockBit(s[k].bits, Offset(n))
  }

  ghost function Members(s: seq<Cell>): set<nat>
  {
    set k, i | 0 <= k < |s| && 0 <= i < ALL_BITS && BlockBit(s[k].bits, i) :: s[k].indx * ALL_BITS + i
  }

  lemma Position(n: nat, q: nat, i: nat)
    requires i < ALL_BITS
    ensures n == q * ALL_BITS + i <==> Index(n) == q && Offset(n) == i
  {}

  lemma MembersHas(s: seq<Cell>, n: nat)
    ensures n in Members(s) <==> Has(s, n)
  {
    if Has(s, n) {
      var k :| 0 <= k < |s| && s[k].indx == Index(n) && BlockBit(s[k].bits, Offset(n));
      Position(n, s[k].indx, Offset(n));
    }
    if n in Members(s) {
      var k, i :| 0 <= k < |s| && 0 <= i < ALL_BITS && BlockBit(s[k].bits, i) && n == s[k].indx * ALL_BITS + i;
      Position(n, s[k].indx, i);
    }
  }

  predicate KeepLeft(op: BoolOp) { Apply(op, true, false) }

  predicate KeepRight(op: BoolOp) { Apply(op, false, true) }

  /** The index-ordered merge of two lists under `op`, dropping blocks that become zero. */
  function Merge(op: BoolOp, a: seq<Cell>, b: seq<Cell>): seq<Cell>
    decreases |a| + |b|
  {
    if a == [] && b == [] then []
    else if b == [] || (a != [] && a[0].indx < b[0].indx) then
      (if KeepLeft(op) then [a[0]] else []) + Merge(op, a[1..], b)
    else if a == [] || b[0].indx < a[0].indx then
      (if KeepRight(op) then [b[0]] else []) + Merge(op, a, b[1..])
    else
      var r := BlockOp(op, a[0].bits, b[0].bits);
      (if r != ZERO then [Cell(a[0].indx, r)] else []) + Merge(op, a[1..], b[1..])
  }

  lemma ApplyBlock(op: BoolOp, a: Block, b: Block, i: nat)
    requires i < ALL_BITS
    ensures BlockBit(BlockOp(op, a, b), i) == Apply(op, BlockBit(a, i), BlockBit(b, i))
  {
    CombineBit(op, a[i / WORD_BITS], b[i / WORD_BITS], i % WORD_BITS);
  }

  lemma ZeroBlock(i: nat)
    requires i < ALL_BITS
    ensures !BlockBit(ZERO, i)
  {
    ZeroBit(i % WORD_BITS);
  }

  /** Membership peels off the first cell. */
  lemma HasCons(s: seq<Cell>, n: nat)
    requires s != []
    ensures Has(s, n) <==> (s[0].indx == Index(n) && BlockBit(s[0].bits, Offset(n))) || Has(s[1..], n)
  {
    var t := s[1..];
    if Has(t, n) {
      var k :| 0 <= k < |t| && t[k].indx == Index(n) && BlockBit(t[k].bits, Offset(n));
      assert s[k + 1] == t[k];
    }
    if Has(s, n) {
      var k :| 0 <= k < |s| && s[k].indx == Index(n) && BlockBit(s[k].bits, Offset(n));
      assert k > 0 ==> t[k - 1] == s[k];
    }
  }

  /** Nothing below the first index is present. */
  lemma HasBelow(s: seq<Cell>, n: nat)
    requires Sorted(s) && (s == [] || Index(n) < s[0].indx)
    ensures !Has(s, n)
  {}

  lemma ConsHas(c: Cell, s: seq<Cell>, n: nat)
    ensures Has([c] + s, n) <==> (c.indx == Index(n) && BlockBit(c.bits, Offset(n))) || Has(s, n)
  {
    HasCons([c] + s, n);
    assert ([c] + s)[1..] == s;
  }

  lemma NothingHas(n: nat)
    ensures !Has([], n)
  {}

  lemma {:induction false} MergeHas(op: BoolOp, a: seq<Cell>, b: seq<Cell>, n: nat)
    requires Sorted(a) && Sorted(b)
    ensures Has(Merge(op, a, b), n) == Apply(op, Has(a, n), Has(b, n))
    decreases |a| + |b|, 1
  {
    hide BlockBit, BlockOp, Has, Index;
    NothingHas(n);
    var x := Index(n);
    if a == [] && b == [] {
    } else if b == [] || (a != [] && a[0].indx < b[0].indx) {
      var rest := Merge(op, a[1..], b);
      MergeHas(op, a[1..], b, n);
      HasCons(a, n);
      ConsHas(a[0], rest, n);
      assert Merge(op, a, b) == if KeepLeft(op) then [a[0]] + rest else rest;
      if a[0].indx == x {
        HasBelow(b, n);
        HasBelow(a[1..], n);
      }
    } else if a == [] || b[0].indx < a[0].indx {
      var rest := Merge(op, a, b[1..]);
      MergeHas(op, a, b[1..], n);
      HasCons(b, n);
      ConsHas(b[0], rest, n);
      assert Merge(op, a, b) == if KeepRight(op) then [b[0]] + rest else rest;
      if b[0].indx == x {
        HasBelow(a, n);
        HasBelow(b[1..], n);
      }
    } else {
      MergeBothHas(op, a, b, n);
    }
  }

  lemma {:induction false} MergeBothHas(op: BoolOp, a: seq<Cell>, b: seq<Cell>, n: nat)
    requires Sorted(a) && Sorted(b) && a != [] && b != [] && a[0].indx == b[0].indx
    ensures Has(Merge(op, a, b), n) == Apply(op, Has(a, n), Has(b, n))
    decreases |a| + |b|, 0
  {
    hide BlockBit, BlockOp, Has, Index;
    var rest, r := Merge(op, a[1..], b[1..]), BlockOp(op, a[0].bits, b[0].bits);
    MergeHas(op, a[1..], b[1..], n);
    HasCons(a, n);
    HasCons(b, n);
    ConsHas(Cell(a[0].indx, r), rest, n);
    assert Merge(op, a, b) == if r != ZERO then [Cell(a[0].indx, r)] + rest else rest;
    ApplyBlock(op, a[0].bits, b[0].bits, Offset(n));
    ZeroBlock(Offset(n));
    if a[0].indx == Index(n) {
      HasBelow(a[1..], n);
      HasBelow(b[1..], n);
    }
  }

  ghost predicate Above(s: seq<Cell>, x: nat) { forall i :: 0 <= i < |s| ==> x < s[i].indx }

  lemma {:induction false} MergeAbove(op: BoolOp, a: seq<Cell>, b: seq<Cell>, x: nat)
    requires Above(a, x) && Above(b, x)
    ensures Above(Merge(op, a, b), x)
    decreases |a| + |b|
  {
    if a == [] && b == [] {
    } else if b == [] || (a != [] && a[0].indx < b[0].indx) {
      MergeAbove(op, a[1..], b, x);
    } else if a == [] || b[0].indx < a[0].indx {
      MergeAbove(op, a, b[1..], x);
    } else {
      MergeAbove(op, a[1..], b[1..], x);
    }
  }

  lemma ConsCanonical(c: Cell, s: seq<Cell>)
    requires Canonical(s) && Above(s, c.indx) && c.bits != ZERO
    ensures Canonical([c] + s)
  {}

  lemma {:induction false} MergeCanonical(op: BoolOp, a: seq<Cell>, b: seq<Cell>)
    requires Canonical(a) && Canonical(b)
    ensures Canonical(Merge(op, a, b))
    decreases |a| + |b|
  {
    if a == [] && b == [] {
    } else if b == [] || (a != [] && a[0].indx < b[0].indx) {
      MergeCanonical(op, a[1..], b);
      MergeAbove(op, a[1..], b, a[0].indx);
      ConsCanonical(a[0], Merge(op, a[1..], b));
    } else if a == [] || b[0].indx < a[0].indx {
      MergeCanonical(op, a, b[1..]);
      MergeAbove(op, a, b[1..], b[0].indx);
      ConsCanonical(b[0], Merge(op, a, b[1..]));
    } else {
      MergeCanonical(op, a[1..], b[1..]);
      MergeAbove(op, a[1..], b[1..], a[0].indx);
      var r := BlockOp(op, a[0].bits, b[0].bits);
      if r != ZERO { ConsCanonical(Cell(a[0].indx, r), Merge(op, a[1..], b[1..])); }
    }
  }

  lemma BlockHasBit(b: Block) returns (i: nat)
    requires b != ZERO
    ensures i < ALL_BITS && BlockBit(b, i)
  {
    if b[0] != 0 {
      i := NonzeroHasBit(b[0], WORD_BITS);
    } else {
      assert b[1] != 0;
      var j := NonzeroHasBit(b[1], WORD_BITS);
      i := WORD_BITS + j;
      assert i / WORD_BITS == 1 && i % WORD_BITS == j;
    }
  }

  lemma SameBlock(a: Block, b: Block)
    requires forall i :: 0 <= i < ALL_BITS ==> BlockBit(a, i) == BlockBit(b, i)
    ensures a == b
  {
    forall w | 0 <= w < ELEMENT_WORDS ensures a[w] == b[w] {
      forall j | 0 <= j < WORD_BITS ensures Bit(a[w], j) == Bit(b[w], j) {
        var i := w * WORD_BITS + j;
        assert i / WORD_BITS == w && i % WORD_BITS == j;
        assert BlockBit(a, i) == BlockBit(b, i);
      }
      SameBits(a[w], b[w], WORD_BITS);
    }
  }

  lemma HeadBit(s: seq<Cell>, i: nat)
    requires Canonical(s) && s != [] && i < ALL_BITS
    ensures Has(s, s[0].indx * ALL_BITS + i) == BlockBit(s[0].bits, i)
  {
    var n := s[0].indx * ALL_BITS + i;
    Position(n, s[0].indx, i);
    HasCons(s, n);
    HasBelow(s[1..], n);
  }

  lemma FirstMember(s: seq<Cell>) returns (n: nat)
    requires Canonical(s) && s != []
    ensures Index(n) == s[0].indx && Has(s, n)
  {
    var i := BlockHasBit(s[0].bits);
    n := s[0].indx * ALL_BITS + i;
    Position(n, s[0].indx, i);
    HeadBit(s, i);
  }

  lemma CanonicalTail(s: seq<Cell>)
    requires Canonical(s)
    ensures Sorted(s)
    ensures s != [] ==> Canonical(s[1..]) && Sorted(s[1..]) && (s[1..] != [] ==> s[0].indx < s[1..][0].indx)
  {}

  /** A canonical list is determined by the set it denotes. */
  lemma {:induction false} CanonicalUnique(s: seq<Cell>, t: seq<Cell>)
    requires Canonical(s) && Canonical(t)
    requires forall n: nat :: Has(s, n) == Has(t, n)
    ensures s == t
  {
    hide Has, Sorted, Canonical, BlockBit;
    CanonicalTail(s);
    CanonicalTail(t);
    if s == [] || t == [] {
      if s != [] { var n := FirstMember(s); HasBelow(t, n); }
      if t != [] { var n := FirstMember(t); HasBelow(s, n); }
    } else {
      var n := FirstMember(s);
      var m := FirstMember(t);
      if s[0].indx < t[0].indx { HasBelow(t, n); }
      if t[0].indx < s[0].indx { HasBelow(s, m); }
      forall i | 0 <= i < ALL_BITS ensures BlockBit(s[0].bits, i) == BlockBit(t[0].bits, i) {
        HeadBit(s, i);
        HeadBit(t, i);
      }
      SameBlock(s[0].bits, t[0].bits);
      forall n: nat ensures Has(s[1..], n) == Has(t[1..], n) {
        HasCons(s, n);
        HasCons(t, n);
        if Index(n) == s[0].indx { HasBelow(s[1..], n); HasBelow(t[1..], n); }
      }
      CanonicalUnique(s[1..], t[1..]);
      assert s == [s[0]] + s[1..] && t == [t[0]] + t[1..];
    }
  }

  /** Merging computes the set operation on the members. */
  ghost function SetOp(op: BoolOp, x: set<nat>, y: set<nat>): set<nat>
  {
    match op
    case And => x * y
    case AndCompl => x - y
    case ComplAnd => y - x
    case Ior => x + y
    case Xor => (x - y) + (y - x)
  }

  lemma MergeMembers(op: BoolOp, a: seq<Cell>, b: seq<Cell>)
    requires Canonical(a) && Canonical(b)
    ensures Canonical(Merge(op, a, b))
    ensures Members(Merge(op, a, b)) == SetOp(op, Members(a), Members(b))
  {
    MergeCanonical(op, a, b);
    forall n: nat ensures n in Members(Merge(op, a, b)) <==> n in SetOp(op, Members(a), Members(b)) {
      MembersHas(Merge(op, a, b), n);
      MembersHas(a, n);
      MembersHas(b, n);
      MergeHas(op, a, b, n);
    }
  }

  /** Equal lists and equal sets are the same thing for canonical lists. */
  lemma MembersDetermine(s: seq<Cell>, t: seq<Cell>)
    requires Canonical(s) && Canonical(t)
    ensures s == t <==> Members(s) == Members(t)
  {
    if Members(s) == Members(t) {
      forall n: nat ensures Has(s, n) == Has(t, n) {
        MembersHas(s, n);
        MembersHas(t, n);
      }
      CanonicalUnique(s, t);
    }
  }

  /** One bit set or cleared in a block. */
  function BlockSet(b: Block, i: nat): Block
    requires i < ALL_BITS
  {
    b[i / WORD_BITS := WordOp(Ior, b[i / WORD_BITS], OneBit(i % WORD_BITS))]
  }

  function BlockClear(b: Block, i: nat): Block
    requires i < ALL_BITS
  {
    b[i / WORD_BITS := WordOp(And, b[i / WORD_BITS], Not(OneBit(i % WORD_BITS)))]
  }

  lemma BlockSetBit(b: Block, i: nat, j: nat)
    requires i < ALL_BITS && j < ALL_BITS
    ensures BlockBit(BlockSet(b, i), j) == (j == i || BlockBit(b, j))
    ensures BlockBit(BlockClear(b, i), j) == (j != i && BlockBit(b, j))
  {
    var w, m := b[i / WORD_BITS], OneBit(i % WORD_BITS);
    CombineBit(Ior, w, m, j % WORD_BITS);
    AndNot(w, m);
    CombineBit(AndCompl, w, m, j % WORD_BITS);
    Pow2Bit(i % WORD_BITS, j % WORD_BITS);
  }

  /** Replacing one block changes membership exactly on that block. */
  lemma UpdateHas(s: seq<Cell>, k: nat, b: Block, n: nat)
    requires Sorted(s) && k < |s|
    ensures Has(s[k := Cell(s[k].indx, b)], n) == if Index(n) == s[k].indx then BlockBit(b, Offset(n)) else Has(s, n)
  {
    var t := s[k := Cell(s[k].indx, b)];
    if Index(n) == s[k].indx {
      assert t[k].bits == b;
    } else {
      assert forall i :: 0 <= i < |s| && s[i].indx == Index(n) ==> t[i] == s[i];
      assert forall i :: 0 <= i < |s| && t[i].indx == Index(n) ==> t[i] == s[i];
    }
  }

  lemma HasAt(s: seq<Cell>, k: nat, n: nat)
    requires Sorted(s) && k < |s| && s[k].indx == Index(n)
    ensures Has(s, n) == BlockBit(s[k].bits, Offset(n))
  {}

  /** A merge in progress: `out` is done, `ra` and `rb` are still to be merged. */
  ghost predicate Merging(op: BoolOp, out: seq<Cell>, ra: seq<Cell>, rb: seq<Cell>, m: seq<Cell>)
  {
    out + Merge(op, ra, rb) == m
  }

  lemma StepLeft(op: BoolOp, out: seq<Cell>, ra: seq<Cell>, rb: seq<Cell>, m: seq<Cell>)
    requires Merging(op, out, ra, rb, m)
    requires ra != [] && (rb == [] || ra[0].indx < rb[0].indx)
    ensures Merging(op, if KeepLeft(op) then out + [ra[0]] else out, ra[1..], rb, m)
  {
    assert out + ([ra[0]] + Merge(op, ra[1..], rb)) == (out + [ra[0]]) + Merge(op, ra[1..], rb);
    assert out + ([] + Merge(op, ra[1..], rb)) == out + Merge(op, ra[1..], rb);
  }

  lemma StepRight(op: BoolOp, out: seq<Cell>, ra: seq<Cell>, rb: seq<Cell>, m: seq<Cell>)
    requires Merging(op, out, ra, rb, m)
    requires rb != [] && (ra == [] || rb[0].indx < ra[0].indx)
    ensures Merging(op, if KeepRight(op) then out + [rb[0]] else out, ra, rb[1..], m)
  {
    assert out + ([rb[0]] + Merge(op, ra, rb[1..])) == (out + [rb[0]]) + Merge(op, ra, rb[1..]);
    assert out + ([] + Merge(op, ra, rb[1..])) == out + Merge(op, ra, rb[1..]);
  }

  lemma StepBoth(op: BoolOp, out: seq<Cell>, ra: seq<Cell>, rb: seq<Cell>, m: seq<Cell>)
    requires Merging(op, out, ra, rb, m)
    requires ra != [] && rb != [] && ra[0].indx == rb[0].indx
    ensures var r := BlockOp(op, ra[0].bits, rb[0].bits);
            Merging(op, if r != ZERO then out + [Cell(ra[0].indx, r)] else out, ra[1..], rb[1..], m)
  {
    var r := BlockOp(op, ra[0].bits, rb[0].bits);
    var c := Cell(ra[0].indx, r);
    assert out + ([c] + Merge(op, ra[1..], rb[1..])) == (out + [c]) + Merge(op, ra[1..], rb[1..]);
    assert out + ([] + Merge(op, ra[1..], rb[1..])) == out + Merge(op, ra[1..], rb[1..]);
  }

  /** Nothing is left when one side is exhausted and the other side's lone blocks are dropped. */
  lemma {:induction false} MergeRest(op: BoolOp, s: seq<Cell>)
    ensures Merge(op, s, []) == if KeepLeft(op) then s else []
    ensures Merge(op, [], s) == if KeepRight(op) then s else []
  {
    if s != [] {
      MergeRest(op, s[1..]);
      assert s == [s[0]] + s[1..];
    }
  }
}
