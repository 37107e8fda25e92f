/**
 Unsigned machine words, kept as the natural numbers they denote, together with the
 bitwise operators the bitmap code applies to them.
 */
module Words {
  /** C's `1 << n`, before any truncation. */
  function Pow2(n: nat): (p: nat)
    ensures p >= 1
  {
    if n == 0 then 1 else 2 * Pow2(n - 1)
  }

  const WORD_BITS: nat := 64
  const WORD_LIMIT: nat := Pow2(WORD_BITS)

  type Word = w: nat | w < WORD_LIMIT

  datatype BoolOp = And | AndCompl | ComplAnd | Ior | Xor

  predicate Apply(op: BoolOp, p: bool, q: bool)
  {
    match op
    case And => p && q
    case AndCompl => p && !q
    case ComplAnd => !p && q
    case Ior => p || q
    case Xor => p != q
  }

  /** Bit `i` of `w`, least significant first. */
  predicate Bit(w: nat, i: nat)
  {
    if i == 0 then w % 2 == 1 else Bit(w / 2, i - 1)
  }

  /** C's `w >> n`. */
  function Shr(w: nat, n: nat): (r: nat)
    ensures r <= w
  {
    if n == 0 then w else Shr(w / 2, n - 1)
  }

  /** The bitwise operator `op`, one bit at a time. */
  function Combine(op: BoolOp, a: nat, b: nat): nat
    decreases a + b
  {
    if a == 0 && b == 0 then 0
    else 2 * Combine(op, a / 2, b / 2) + if Apply(op, a % 2 == 1, b % 2 == 1) then 1 else 0
  }

  lemma CombineHalf(op: BoolOp, a: nat, b: nat)
    ensures Combine(op, a, b) / 2 == Combine(op, a / 2, b / 2)
    ensures Combine(op, a, b) % 2 == 1 <==> Apply(op, a % 2 == 1, b % 2 == 1)
  {}

  lemma {:induction false} CombineBit(op: BoolOp, a: nat, b: nat, i: nat)
    ensures Bit(Combine(op, a, b), i) == Apply(op, Bit(a, i), Bit(b, i))
    decreases i
  {
    hide Combine, Apply;
    CombineHalf(op, a, b);
    if i > 0 {
      CombineBit(op, a / 2, b / 2, i - 1);
    }
  }

  lemma {:induction false} CombineFits(op: BoolOp, a: nat, b: nat, n: nat)
    requires a < Pow2(n) && b < Pow2(n)
    ensures Combine(op, a, b) < Pow2(n)
    decreases n
  {
    if n > 0 {
      CombineFits(op, a / 2, b / 2, n - 1);
    }
  }

  /** `a op b` on words is a word again. */
  function WordOp(op: BoolOp, a: Word, b: Word): (r: Word)
  {
    CombineFits(op, a, b, WORD_BITS);
    Combine(op, a, b)
  }

  /** C's `~w`. */
  function Not(w: Word): Word { WORD_LIMIT - 1 - w }

  lemma {:induction false} ZeroBit(i: nat)
    ensures !Bit(0, i)
  {
    if i > 0 { ZeroBit(i - 1); }
  }

  lemma {:induction false} NonzeroHasBit(w: nat, n: nat) returns (i: nat)
    requires 0 < w < Pow2(n)
    ensures i < n && Bit(w, i)
  {
    if w % 2 == 1 {
      i := 0;
    } else {
      var j := NonzeroHasBit(w / 2, n - 1);
      i := j + 1;
    }
  }

  lemma {:induction false} HighBitsZero(w: nat, n: nat, i: nat)
    requires w < Pow2(n) && n <= i
    ensures !Bit(w, i)
    decreases n
  {
    if n == 0 { ZeroBit(i); } else { HighBitsZero(w / 2, n - 1, i - 1); }
  }

  lemma {:induction false} SameBits(a: nat, b: nat, n: nat)
    requires a < Pow2(n) && b < Pow2(n)
    requires forall i :: 0 <= i < n ==> Bit(a, i) == Bit(b, i)
    ensures a == b
  {
    if n > 0 {
      forall i | 0 <= i < n - 1 ensures Bit(a / 2, i) == Bit(b / 2, i) {
        assert Bit(a, i + 1) == Bit(b, i + 1);
      }
      SameBits(a / 2, b / 2, n - 1);
      assert Bit(a, 0) == Bit(b, 0);
    }
  }

  lemma {:induction false} ShrBit(w: nat, n: nat, i: nat)
    ensures Bit(Shr(w, n), i) == Bit(w, n + i)
  {
    if n > 0 { ShrBit(w / 2, n - 1, i); }
  }

  lemma {:induction false} ShrFits(w: nat, n: nat, m: nat)
    requires n <= m && w < Pow2(m)
    ensures Shr(w, n) < Pow2(m - n)
  {
    if n > 0 { ShrFits(w / 2, n - 1, m - 1); }
  }

  lemma {:induction false} Pow2Bit(n: nat, i: nat)
    ensures Bit(Pow2(n), i) == (i == n)
  {
    if n > 0 && i > 0 { Pow2Bit(n - 1, i - 1); } else if i > 0 { ZeroBit(i - 1); }
  }

  /** `(1 << n) - 1` has exactly the bits below `n`. */
  lemma {:induction false} LowMaskBit(n: nat, i: nat)
    ensures Bit(Pow2(n) - 1, i) == (i < n)
  {
    if n == 0 { ZeroBit(i); }
    else if i > 0 {
      LowMaskBit(n - 1, i - 1);
      assert (Pow2(n) - 1) / 2 == Pow2(n - 1) - 1;
    }
  }

  lemma {:induction false} Pow2Fits(n: nat, m: nat)
    requires n <= m
    ensures Pow2(n) <= Pow2(m)
  {
    if n < m { Pow2Fits(n, m - 1); }
  }

  lemma {:induction false} NotBit'(w: nat, n: nat, i: nat)
    requires w < Pow2(n) && i < n
    ensures Bit(Pow2(n) - 1 - w, i) == !Bit(w, i)
  {
    if i > 0 {
      NotBit'(w / 2, n - 1, i - 1);
      assert (Pow2(n) - 1 - w) / 2 == Pow2(n - 1) - 1 - w / 2;
    }
  }

  /** `a & ~b`, as the sources write it. */
  lemma AndNot(a: Word, b: Word)
    ensures WordOp(And, a, Not(b)) == WordOp(AndCompl, a, b)
  {
    forall i | 0 <= i < WORD_BITS
      ensures Bit(WordOp(And, a, Not(b)), i) == Bit(WordOp(AndCompl, a, b), i)
    {
      CombineBit(And, a, Not(b), i);
      CombineBit(AndCompl, a, b, i);
      NotBit'(b, WORD_BITS, i);
    }
    SameBits(WordOp(And, a, Not(b)), WordOp(AndCompl, a, b), WORD_BITS);
  }

  /** `a ^ (a & b)`, the other way the sources clear the bits of `b` from `a`. */
  lemma XorCleared(a: Word, b: Word)
    ensures WordOp(Xor, a, WordOp(And, a, b)) == WordOp(AndCompl, a, b)
  {
    var c := WordOp(And, a, b);
    forall i | 0 <= i < WORD_BITS
      ensures Bit(WordOp(Xor, a, c), i) == Bit(WordOp(AndCompl, a, b), i)
    {
      CombineBit(And, a, b, i);
      CombineBit(Xor, a, c, i);
      CombineBit(AndCompl, a, b, i);
    }
    SameBits(WordOp(Xor, a, c), WordOp(AndCompl, a, b), WORD_BITS);
  }

  /** `b ^ (a & b)`. */
  lemma XorClearedRight(a: Word, b: Word)
    ensures WordOp(Xor, b, WordOp(And, a, b)) == WordOp(ComplAnd, a, b)
  {
    var c := WordOp(And, a, b);
    forall i | 0 <= i < WORD_BITS
      ensures Bit(WordOp(Xor, b, c), i) == Bit(WordOp(ComplAnd, a, b), i)
    {
      CombineBit(And, a, b, i);
      CombineBit(Xor, b, c, i);
      CombineBit(ComplAnd, a, b, i);
    }
    SameBits(WordOp(Xor, b, c), WordOp(ComplAnd, a, b), WORD_BITS);
  }

  /** `1 << n` for n < 64. */
  function OneBit(n: nat): (w: Word)
    requires n < WORD_BITS
  {
    Pow2Fits(n + 1, WORD_BITS);
    Pow2(n)
  }

  lemma {:induction false} AndZero(a: nat)
    ensures Combine(And, a, 0) == 0
  {
    if a > 0 { AndZero(a / 2); }
  }

  /** `(w >> n) & 1`. */
  lemma TestBit(w: Word, n: nat)
    ensures WordOp(And, Shr(w, n), 1) == if Bit(w, n) then 1 else 0
  {
    AndZero(Shr(w, n) / 2);
    ShrBit(w, n, 0);
  }

  /** `ior |= r` stays zero exactly while every `r` is. */
  lemma {:induction false} IorZero(a: nat, b: nat)
    ensures Combine(Ior, a, b) == 0 <==> a == 0 && b == 0
    decreases a + b
  {
    if a != 0 || b != 0 { IorZero(a / 2, b / 2); }
  }
}
