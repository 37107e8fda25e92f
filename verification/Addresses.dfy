/**
 Address expressions of alias analysis: canonical forms, equality and the offset conflict test.
 Integers are unbounded; sizes and offsets do not wrap around.
 */
module Addresses {
  datatype Step = PreInc | PreDec | PostInc | PostDec

  /** An address: registers, integer constants, sums, and a register stepped by the access itself. */
  datatype Rtx = Reg(number: nat) | ConstInt(value: int) | Plus(left: Rtx, right: Rtx) | Auto(step: Step, addr: Rtx)

  datatype Option<T> = None | Some(value: T)

  type Valuation = nat -> int

  /**
   What is known about registers. `same` is identity of expressions: an expression is the same only as an equal one, and
   constants are shared.
   */
  datatype Known = Known(values: map<nat, Rtx>, same: (Rtx, Rtx) -> bool)

  /** Stepping addresses occur at the top only. */
  predicate Plain(x: Rtx)
  {
    match x
    case Plus(a, b) => Plain(a) && Plain(b)
    case Auto(_, _) => false
    case _ => true
  }

  /** One more than the highest rank of a register in `x`. */
  function Height(rank: nat -> nat, x: Rtx): nat
  {
    match x
    case Reg(n) => rank(n) + 1
    case ConstInt(_) => 0
    case Plus(a, b) => if Height(rank, a) < Height(rank, b) then Height(rank, b) else Height(rank, a)
    case Auto(_, a) => Height(rank, a)
  }

  /** The table is acyclic: a known value is the register itself or mentions only registers of lower rank. */
  ghost predicate Acyclic(k: Known, rank: nat -> nat)
  {
    && (forall x, y :: k.same(x, y) ==> x == y)
    && (forall c :: k.same(ConstInt(c), ConstInt(c)))
    && forall r :: r in k.values ==>
        Plain(k.values[r]) && (k.values[r] == Reg(r) || Height(rank, k.values[r]) <= rank(r))
  }

  /** The address a plain expression stands for. */
  function Eval(x: Rtx, v: Valuation): int
    requires Plain(x)
  {
    match x
    case Reg(n) => v(n)
    case ConstInt(c) => c
    case Plus(a, b) => Eval(a, v) + Eval(b, v)
  }

  /** Registers have the values known for them. */
  ghost predicate Consistent(k: Known, v: Valuation)
  {
    forall r :: r in k.values ==> Plain(k.values[r]) && v(r) == Eval(k.values[r], v)
  }

  /** The constant term of a sum whose second operand is not a constant. */
  function AddInside(a: Rtx, b: Rtx, c: int): Option<Rtx>
    decreases Plus(a, b), 0, 0
  {
    match AddToTerm(a, c)
    case Some(a') => Some(Plus(a', b))
    case None =>
      match AddToTerm(b, c)
      case Some(b') => Some(Plus(a, b'))
      case None => None
  }

  function Restart(x: Rtx, c: int): Rtx
    decreases x, 0
  {
    match x
    case ConstInt(d) => ConstInt(d + c)
    case Plus(a, ConstInt(d)) => Restart(a, c + d)
    case Plus(a, b) =>
      (match AddInside(a, b, c)
       case Some(x') => x'
       case None => if c == 0 then x else Plus(x, ConstInt(c)))
    case _ => if c == 0 then x else Plus(x, ConstInt(c))
  }

  /** plus_constant */
  function PlusConstant(x: Rtx, c: int): Rtx
    decreases x, 1
  {
    if c == 0 then x else Restart(x, c)
  }

  /** find_constant_term_loc, with `c` added to the constant term that is found. */
  function AddToTerm(x: Rtx, c: int): Option<Rtx>
    decreases x, 2
  {
    match x
    case ConstInt(_) => Some(PlusConstant(x, c))
    case Plus(a, b) => if a.ConstInt? && b.ConstInt? then Some(PlusConstant(x, c)) else AddInside(a, b, c)
    case _ => None
  }

  lemma {:induction false} AddInsideEval(a: Rtx, b: Rtx, c: int, v: Valuation)
    requires Plain(a) && Plain(b)
    ensures AddInside(a, b, c).Some? ==>
              var x' := AddInside(a, b, c).value; Plain(x') && Eval(x', v) == Eval(a, v) + Eval(b, v) + c
    decreases Plus(a, b), 0, 0
  {
    AddToTermEval(a, c, v);
    AddToTermEval(b, c, v);
  }

  lemma {:induction false} RestartEval(x: Rtx, c: int, v: Valuation)
    requires Plain(x)
    ensures Plain(Restart(x, c)) && Eval(Restart(x, c), v) == Eval(x, v) + c
    decreases x, 0
  {
    if x.Plus? {
      if x.right.ConstInt? {
        RestartEval(x.left, c + x.right.value, v);
      } else {
        AddInsideEval(x.left, x.right, c, v);
      }
    }
  }

  /** Adding a constant to an address adds it to its value. */
  lemma {:induction false} PlusConstantEval(x: Rtx, c: int, v: Valuation)
    requires Plain(x)
    ensures Plain(PlusConstant(x, c)) && Eval(PlusConstant(x, c), v) == Eval(x, v) + c
    decreases x, 1
  {
    if c != 0 {
      RestartEval(x, c, v);
    }
  }

  lemma {:induction false} AddToTermEval(x: Rtx, c: int, v: Valuation)
    requires Plain(x)
    ensures AddToTerm(x, c).Some? ==> var x' := AddToTerm(x, c).value; Plain(x') && Eval(x', v) == Eval(x, v) + c
    decreases x, 2
  {
    match x
    case ConstInt(_) => PlusConstantEval(x, c, v);
    case Plus(a, b) =>
      if a.ConstInt? && b.ConstInt? {
        PlusConstantEval(x, c, v);
      } else {
        AddInsideEval(a, b, c, v);
      }
    case _ =>
  }

  /** The valuation is immaterial for what is plain. */
  lemma PlusConstantPlain(x: Rtx, c: int)
    requires Plain(x)
    ensures Plain(PlusConstant(x, c))
  {
    PlusConstantEval(x, c, _ => 0);
  }

  /** How many integer constants an address has. */
  function Constants(x: Rtx): nat
  {
    match x
    case Reg(_) => 0
    case ConstInt(_) => 1
    case Plus(a, b) => Constants(a) + Constants(b)
    case Auto(_, _) => 0
  }

  lemma {:induction false} AddToTermCollects(x: Rtx, c: int)
    ensures AddToTerm(x, c).Some? <==> Constants(x) > 0
    ensures AddToTerm(x, c).Some? ==> Constants(AddToTerm(x, c).value) <= Constants(x)
    decreases x, 2
  {
    match x
    case ConstInt(_) => PlusConstantCollects(x, c);
    case Plus(a, b) =>
      if a.ConstInt? && b.ConstInt? {
        PlusConstantCollects(x, c);
      } else {
        AddInsideCollects(a, b, c);
      }
    case _ =>
  }

  lemma {:induction false} AddInsideCollects(a: Rtx, b: Rtx, c: int)
    ensures AddInside(a, b, c).Some? <==> Constants(a) + Constants(b) > 0
    ensures AddInside(a, b, c).Some? ==> Constants(AddInside(a, b, c).value) <= Constants(a) + Constants(b)
    decreases Plus(a, b), 0, 0
  {
    AddToTermCollects(a, c);
    AddToTermCollects(b, c);
  }

  lemma {:induction false} RestartCollects(x: Rtx, c: int)
    ensures Constants(Restart(x, c)) <= if Constants(x) == 0 then 1 else Constants(x)
    decreases x, 0
  {
    if x.Plus? {
      if x.right.ConstInt? {
        RestartCollects(x.left, c + x.right.value);
      } else {
        AddInsideCollects(x.left, x.right, c);
      }
    }
  }

  /** Adding a constant to an address that has one takes no other: it is added to the one that is there. */
  lemma {:induction false} PlusConstantCollects(x: Rtx, c: int)
    ensures Constants(PlusConstant(x, c)) <= if Constants(x) == 0 then 1 else Constants(x)
    decreases x, 1
  {
    if c != 0 {
      RestartCollects(x, c);
    }
  }

  /**
   canon_rtx: replace registers by their known values and collect constants. What comes back as another expression has a
   register replaced in it and so is never equal to what it was, so operands are compared by their contents.
   */
  function Canon(k: Known, ghost rank: nat -> nat, x: Rtx): (r: Rtx)
    requires Acyclic(k, rank) && Plain(x)
    ensures Plain(r)
    decreases Height(rank, x), x
  {
    match x
    case Reg(n) => if n in k.values && k.values[n] != x then Canon(k, rank, k.values[n]) else x
    case ConstInt(_) => x
    case Plus(a, b) =>
      var a', b' := Canon(k, rank, a), Canon(k, rank, b);
      if a' == a && b' == b then x
      else if a'.ConstInt? then PlusConstantPlain(b', a'.value); PlusConstant(b', a'.value)
      else if b'.ConstInt? then PlusConstantPlain(a', b'.value); PlusConstant(a', b'.value)
      else Plus(a', b')
  }

  /** Canonical addresses have the same value under every consistent valuation. */
  lemma {:induction false} CanonEval(k: Known, rank: nat -> nat, x: Rtx, v: Valuation)
    requires Acyclic(k, rank) && Plain(x) && Consistent(k, v)
    ensures Eval(Canon(k, rank, x), v) == Eval(x, v)
    decreases Height(rank, x), x
  {
    match x
    case Reg(n) =>
      if n in k.values && k.values[n] != x {
        CanonEval(k, rank, k.values[n], v);
      }
    case ConstInt(_) =>
    case Plus(a, b) =>
      CanonEval(k, rank, a, v);
      CanonEval(k, rank, b, v);
      var a', b' := Canon(k, rank, a), Canon(k, rank, b);
      if a'.ConstInt? {
        PlusConstantEval(b', a'.value, v);
      } else if b'.ConstInt? {
        PlusConstantEval(a', b'.value, v);
      }
  }

  /** No register in `x` has a known value other than itself. */
  predicate Settled(k: Known, x: Rtx)
  {
    match x
    case Reg(n) => n in k.values ==> k.values[n] == x
    case ConstInt(_) => true
    case Plus(a, b) => Settled(k, a) && Settled(k, b)
    case Auto(_, a) => Settled(k, a)
  }

  lemma {:induction false} AddInsideSettled(k: Known, a: Rtx, b: Rtx, c: int)
    requires Settled(k, a) && Settled(k, b)
    ensures AddInside(a, b, c).Some? ==> Settled(k, AddInside(a, b, c).value)
    decreases Plus(a, b), 0, 0
  {
    AddToTermSettled(k, a, c);
    AddToTermSettled(k, b, c);
  }

  lemma {:induction false} RestartSettled(k: Known, x: Rtx, c: int)
    requires Settled(k, x)
    ensures Settled(k, Restart(x, c))
    decreases x, 0
  {
    if x.Plus? {
      if x.right.ConstInt? {
        RestartSettled(k, x.left, c + x.right.value);
      } else {
        AddInsideSettled(k, x.left, x.right, c);
      }
    }
  }

  lemma {:induction false} PlusConstantSettled(k: Known, x: Rtx, c: int)
    requires Settled(k, x)
    ensures Settled(k, PlusConstant(x, c))
    decreases x, 1
  {
    if c != 0 {
      RestartSettled(k, x, c);
    }
  }

  lemma {:induction false} AddToTermSettled(k: Known, x: Rtx, c: int)
    requires Settled(k, x)
    ensures AddToTerm(x, c).Some? ==> Settled(k, AddToTerm(x, c).value)
    decreases x, 2
  {
    match x
    case ConstInt(_) => PlusConstantSettled(k, x, c);
    case Plus(a, b) =>
      if a.ConstInt? && b.ConstInt? {
        PlusConstantSettled(k, x, c);
      } else {
        AddInsideSettled(k, a, b, c);
      }
    case _ =>
  }

  /** Every register with a known value is replaced. */
  lemma {:induction false} CanonSettled(k: Known, rank: nat -> nat, x: Rtx)
    requires Acyclic(k, rank) && Plain(x)
    ensures Settled(k, Canon(k, rank, x))
    decreases Height(rank, x), x
  {
    match x
    case Reg(n) =>
      if n in k.values && k.values[n] != x {
        CanonSettled(k, rank, k.values[n]);
      }
    case ConstInt(_) =>
    case Plus(a, b) =>
      CanonSettled(k, rank, a);
      CanonSettled(k, rank, b);
      var a', b' := Canon(k, rank, a), Canon(k, rank, b);
      if a'.ConstInt? {
        PlusConstantSettled(k, b', a'.value);
      } else if b'.ConstInt? {
        PlusConstantSettled(k, a', b'.value);
      }
  }

  /** An address is its own canonical form exactly when no register in it has another value. */
  lemma {:induction false} CanonFixed(k: Known, rank: nat -> nat, x: Rtx)
    requires Acyclic(k, rank) && Plain(x)
    ensures Canon(k, rank, x) == x <==> Settled(k, x)
    decreases x
  {
    CanonSettled(k, rank, x);
    if x.Plus? {
      CanonFixed(k, rank, x.left);
      CanonFixed(k, rank, x.right);
    }
  }

  /** Canonical addresses are their own canonical form. */
  lemma CanonIdempotent(k: Known, rank: nat -> nat, x: Rtx)
    requires Acyclic(k, rank) && Plain(x)
    ensures Canon(k, rank, Canon(k, rank, x)) == Canon(k, rank, x)
  {
    CanonSettled(k, rank, x);
    CanonFixed(k, rank, Canon(k, rank, x));
  }

  /** rtx_equal_for_memref_p on canonical addresses. */
  function EqualForMemref(k: Known, x: Rtx, y: Rtx): bool
  {
    k.same(x, y) ||
    match (x, y)
    case (Reg(m), Reg(n)) => m == n
    case (Plus(a, b), Plus(c, d)) =>
      || (EqualForMemref(k, a, c) && EqualForMemref(k, b, d))
      || (EqualForMemref(k, a, d) && EqualForMemref(k, b, c))
    case _ => false
  }

  /** Addresses found equal have equal values. */
  lemma {:induction false} EqualEval(k: Known, rank: nat -> nat, x: Rtx, y: Rtx, v: Valuation)
    requires Acyclic(k, rank) && Plain(x) && Plain(y) && EqualForMemref(k, x, y)
    ensures Eval(x, v) == Eval(y, v)
  {
    if x.Plus? && y.Plus? && !k.same(x, y) {
      if EqualForMemref(k, x.left, y.left) && EqualForMemref(k, x.right, y.right) {
        EqualEval(k, rank, x.left, y.left, v);
        EqualEval(k, rank, x.right, y.right, v);
      } else {
        EqualEval(k, rank, x.left, y.right, v);
        EqualEval(k, rank, x.right, y.left, v);
      }
    }
  }

  /**
   * Whether a reference of `xsize` bytes meets one of `ysize` bytes `c` behind its start; sizes that are not positive
   * are unknown.
   */
  function RangesMeet(xsize: int, ysize: int, c: int): bool
  {
    xsize <= 0 || ysize <= 0 || (c >= 0 && xsize > c) || (c < 0 && ysize + c > 0)
  }

  /** memrefs_conflict_p on plain canonical addresses: may X and Y + C overlap? */
  function Conflict(k: Known, xsize: int, x: Rtx, ysize: int, y: Rtx, c: int): bool
  {
    if EqualForMemref(k, x, y) then RangesMeet(xsize, ysize, c)
    else if x.Plus? && y.Plus? then
      var Plus(x0, x1) := x;
      var Plus(y0, y1) := y;
      if EqualForMemref(k, x1, y1) then Conflict(k, xsize, x0, ysize, y0, c)
      else if EqualForMemref(k, x0, y0) then Conflict(k, xsize, x1, ysize, y1, c)
      else if x1.ConstInt? then
        if y1.ConstInt? then Conflict(k, xsize, x0, ysize, y0, c - x1.value + y1.value)
        else Conflict(k, xsize, x0, ysize, y, c - x1.value)
      else if y1.ConstInt? then Conflict(k, xsize, x, ysize, y0, c + y1.value)
      else true
    else if x.Plus? && x.right.ConstInt? then Conflict(k, xsize, x.left, ysize, y, c - x.right.value)
    else if x.Plus? then true
    else if y.Plus? then
      if y.right.ConstInt? then Conflict(k, xsize, x, ysize, y.left, c + y.right.value) else true
    else if x.ConstInt? && y.ConstInt? then RangesMeet(xsize, ysize, c + y.value - x.value)
    else true
  }

  predicate Covers(x: int, size: int, a: int) { x <= a < x + size }

  /** The byte ranges `[x, x + xsize)` and `[y, y + ysize)` have no byte in common. */
  ghost predicate Disjoint(x: int, xsize: int, y: int, ysize: int)
  {
    forall a :: !(Covers(x, xsize, a) && Covers(y, ysize, a))
  }

  lemma MeetExactly(x: int, xsize: int, ysize: int, c: int)
    requires xsize > 0 && ysize > 0
    ensures RangesMeet(xsize, ysize, c) <==> !Disjoint(x, xsize, x + c, ysize)
  {
    if RangesMeet(xsize, ysize, c) {
      var a := if c >= 0 then x + c else x;
      assert Covers(x, xsize, a) && Covers(x + c, ysize, a);
    }
  }

  /** Whether the test comes down to two equal addresses or two constants, and so to a known distance. */
  predicate Decides(k: Known, x: Rtx, y: Rtx)
  {
    if EqualForMemref(k, x, y) then true
    else if x.Plus? && y.Plus? then
      var Plus(x0, x1) := x;
      var Plus(y0, y1) := y;
      if EqualForMemref(k, x1, y1) then Decides(k, x0, y0)
      else if EqualForMemref(k, x0, y0) then Decides(k, x1, y1)
      else if x1.ConstInt? then Decides(k, x0, if y1.ConstInt? then y0 else y)
      else y1.ConstInt? && Decides(k, x, y0)
    else if x.Plus? then x.right.ConstInt? && Decides(k, x.left, y)
    else if y.Plus? then y.right.ConstInt? && Decides(k, x, y.left)
    else x.ConstInt? && y.ConstInt?
  }

  /**
   The answer of the test: yes if it does not decide, else whether the bytes at X and Y + C meet. If it decides, the
   distance of X and Y is the same under every valuation.
   */
  lemma {:induction false} ConflictExact(k: Known, rank: nat -> nat, xsize: int, x: Rtx, ysize: int, y: Rtx, c: int,
                                         v: Valuation)
    requires Acyclic(k, rank) && Plain(x) && Plain(y)
    ensures Conflict(k, xsize, x, ysize, y, c) <==>
              !Decides(k, x, y) || RangesMeet(xsize, ysize, Eval(y, v) + c - Eval(x, v))
    decreases x, y
  {
    hide EqualForMemref, Acyclic, RangesMeet;
    assert x.Plus? && x.right.ConstInt? ==> Eval(x.right, v) == x.right.value;
    assert y.Plus? && y.right.ConstInt? ==> Eval(y.right, v) == y.right.value;
    if EqualForMemref(k, x, y) {
      EqualEval(k, rank, x, y, v);
    } else if x.Plus? && y.Plus? {
      var Plus(x0, x1) := x;
      var Plus(y0, y1) := y;
      if EqualForMemref(k, x1, y1) {
        EqualEval(k, rank, x1, y1, v);
        ConflictExact(k, rank, xsize, x0, ysize, y0, c, v);
      } else if EqualForMemref(k, x0, y0) {
        EqualEval(k, rank, x0, y0, v);
        ConflictExact(k, rank, xsize, x1, ysize, y1, c, v);
      } else if x1.ConstInt? {
        if y1.ConstInt? {
          ConflictExact(k, rank, xsize, x0, ysize, y0, c - x1.value + y1.value, v);
        } else {
          ConflictExact(k, rank, xsize, x0, ysize, y, c - x1.value, v);
        }
      } else if y1.ConstInt? {
        ConflictExact(k, rank, xsize, x, ysize, y0, c + y1.value, v);
      }
    } else if x.Plus? && x.right.ConstInt? {
      ConflictExact(k, rank, xsize, x.left, ysize, y, c - x.right.value, v);
    } else if y.Plus? && y.right.ConstInt? && !x.Plus? {
      ConflictExact(k, rank, xsize, x, ysize, y.left, c + y.right.value, v);
    }
  }

  /** If no conflict is found, X and Y + C are disjoint under every consistent valuation. */
  lemma ConflictSound(k: Known, rank: nat -> nat, xsize: int, x: Rtx, ysize: int, y: Rtx, c: int, v: Valuation)
    requires Acyclic(k, rank) && Plain(x) && Plain(y) && !Conflict(k, xsize, x, ysize, y, c)
    ensures xsize > 0 && ysize > 0 && Disjoint(Eval(x, v), xsize, Eval(y, v) + c, ysize)
  {
    ConflictExact(k, rank, xsize, x, ysize, y, c, v);
    var d := Eval(y, v) + c - Eval(x, v);
    MeetExactly(Eval(x, v), xsize, ysize, d);
    assert Eval(x, v) + d == Eval(y, v) + c;
  }

  /** If the test decides, it finds a conflict exactly when the bytes meet. */
  lemma DecidedExact(k: Known, rank: nat -> nat, xsize: int, x: Rtx, ysize: int, y: Rtx, c: int, v: Valuation)
    requires Acyclic(k, rank) && Plain(x) && Plain(y) && Decides(k, x, y) && xsize > 0 && ysize > 0
    ensures Conflict(k, xsize, x, ysize, y, c) <==> !Disjoint(Eval(x, v), xsize, Eval(y, v) + c, ysize)
  {
    ConflictExact(k, rank, xsize, x, ysize, y, c, v);
    var d := Eval(y, v) + c - Eval(x, v);
    MeetExactly(Eval(x, v), xsize, ysize, d);
    assert Eval(x, v) + d == Eval(y, v) + c;
  }

  /** Every address is found equal to itself, and sums to the same sums in the other order. */
  lemma {:induction false} EqualSelf(k: Known, rank: nat -> nat, x: Rtx)
    requires Acyclic(k, rank) && Plain(x)
    ensures EqualForMemref(k, x, x)
    ensures x.Plus? ==> EqualForMemref(k, x, Plus(x.right, x.left))
  {
    if x.Plus? {
      EqualSelf(k, rank, x.left);
      EqualSelf(k, rank, x.right);
    }
  }

  function Size(x: Rtx): nat
  {
    match x
    case Plus(a, b) => Size(a) + Size(b) + 1
    case _ => 1
  }

  lemma {:induction false} EqualSize(k: Known, rank: nat -> nat, x: Rtx, y: Rtx)
    requires Acyclic(k, rank) && EqualForMemref(k, x, y)
    ensures Size(x) == Size(y)
  {
    if x.Plus? && y.Plus? && !k.same(x, y) {
      if EqualForMemref(k, x.left, y.left) && EqualForMemref(k, x.right, y.right) {
        EqualSize(k, rank, x.left, y.left);
        EqualSize(k, rank, x.right, y.right);
      } else {
        EqualSize(k, rank, x.left, y.right);
        EqualSize(k, rank, x.right, y.left);
      }
    }
  }

  /** The test decides for an address and the same address with a constant added to it. */
  lemma {:induction false} OneSided(k: Known, rank: nat -> nat, b: Rtx, e: int)
    requires Acyclic(k, rank) && Plain(b)
    ensures Decides(k, b, Plus(b, ConstInt(e))) && Decides(k, Plus(b, ConstInt(e)), b)
    decreases b
  {
    var y := Plus(b, ConstInt(e));
    EqualSelf(k, rank, b);
    if EqualForMemref(k, b, y) { EqualSize(k, rank, b, y); }
    if EqualForMemref(k, y, b) { EqualSize(k, rank, y, b); }
    if b.Plus? {
      if EqualForMemref(k, b.left, b) { EqualSize(k, rank, b.left, b); }
      if EqualForMemref(k, b, b.left) { EqualSize(k, rank, b, b.left); }
      if b.right.ConstInt? {
        OneSided(k, rank, b.left, b.right.value);
      }
    }
  }

  /** The test decides for two constants added to one address. */
  lemma TwoSided(k: Known, rank: nat -> nat, b: Rtx, d: int, e: int)
    requires Acyclic(k, rank) && Plain(b)
    ensures Decides(k, Plus(b, ConstInt(d)), Plus(b, ConstInt(e)))
  {
    EqualSelf(k, rank, b);
  }

  /** addr_side_effect_eval for the first reference: the address a stepping expression accesses. */
  function Accessed(k: Known, ghost rank: nat -> nat, x: Rtx, size: int): (r: Rtx)
    requires Acyclic(k, rank) && (Plain(x) || (x.Auto? && Plain(x.addr)))
    ensures Plain(r)
  {
    match x
    case Auto(step, a) =>
      var offset := match step case PreInc => size case PreDec => -size case PostInc => 0 case PostDec => 0;
      Canon(k, rank, if offset != 0 then Plus(a, ConstInt(offset)) else a)
    case _ => x
  }

  /** The value of an address when `size` bytes are accessed through it. */
  function Target(x: Rtx, size: int, v: Valuation): int
    requires Plain(x) || (x.Auto? && Plain(x.addr))
  {
    match x
    case Auto(PreInc, a) => Eval(a, v) + size
    case Auto(PreDec, a) => Eval(a, v) - size
    case Auto(_, a) => Eval(a, v)
    case _ => Eval(x, v)
  }

  /** memrefs_conflict_p */
  function MemrefsConflict(k: Known, ghost rank: nat -> nat, xsize: int, x: Rtx, ysize: int, y: Rtx, c: int): bool
    requires Acyclic(k, rank) && (Plain(x) || (x.Auto? && Plain(x.addr))) && (Plain(y) || (y.Auto? && Plain(y.addr)))
  {
    Conflict(k, xsize, Accessed(k, rank, x, xsize), ysize, Accessed(k, rank, y, ysize), c)
  }

  lemma AccessedEval(k: Known, rank: nat -> nat, x: Rtx, size: int, v: Valuation)
    requires Acyclic(k, rank) && (Plain(x) || (x.Auto? && Plain(x.addr))) && Consistent(k, v)
    ensures Eval(Accessed(k, rank, x, size), v) == Target(x, size, v)
  {
    match x
    case Auto(step, a) =>
      var offset := match step case PreInc => size case PreDec => -size case PostInc => 0 case PostDec => 0;
      CanonEval(k, rank, if offset != 0 then Plus(a, ConstInt(offset)) else a, v);
    case _ =>
  }

  /**
   References that are found not to conflict touch different bytes, under every valuation consistent with the known
   values,
   whether or not their addresses are canonical.
   */
  lemma NoConflictDisjoint(k: Known, rank: nat -> nat, xsize: int, x: Rtx, ysize: int, y: Rtx, c: int, v: Valuation)
    requires Acyclic(k, rank) && (Plain(x) || (x.Auto? && Plain(x.addr))) && (Plain(y) || (y.Auto? && Plain(y.addr)))
    requires Consistent(k, v) && !MemrefsConflict(k, rank, xsize, x, ysize, y, c)
    ensures xsize > 0 && ysize > 0 && Disjoint(Target(x, xsize, v), xsize, Target(y, ysize, v) + c, ysize)
  {
    AccessedEval(k, rank, x, xsize, v);
    AccessedEval(k, rank, y, ysize, v);
    ConflictSound(k, rank, xsize, Accessed(k, rank, x, xsize), ysize, Accessed(k, rank, y, ysize), c, v);
  }

  /** The test is exact for references at constant distances from the same base. */
  lemma SameBaseExact(k: Known, rank: nat -> nat, xsize: int, ysize: int, base: Rtx, d: int, e: int, v: Valuation)
    requires Acyclic(k, rank) && Plain(base) && xsize > 0 && ysize > 0
    ensures !Conflict(k, xsize, Plus(base, ConstInt(d)), ysize, Plus(base, ConstInt(e)), 0) <==>
            Disjoint(Eval(base, v) + d, xsize, Eval(base, v) + e, ysize)
    ensures !Conflict(k, xsize, base, ysize, Plus(base, ConstInt(e)), d) <==>
            Disjoint(Eval(base, v), xsize, Eval(base, v) + e + d, ysize)
    ensures !Conflict(k, xsize, Plus(base, ConstInt(d)), ysize, base, e) <==>
            Disjoint(Eval(base, v) + d, xsize, Eval(base, v) + e, ysize)
  {
    TwoSided(k, rank, base, d, e);
    OneSided(k, rank, base, e);
    OneSided(k, rank, base, d);
    DecidedExact(k, rank, xsize, Plus(base, ConstInt(d)), ysize, Plus(base, ConstInt(e)), 0, v);
    DecidedExact(k, rank, xsize, base, ysize, Plus(base, ConstInt(e)), d, v);
    DecidedExact(k, rank, xsize, Plus(base, ConstInt(d)), ysize, base, e, v);
  }

  lemma TwoConstants(a: int, b: int, c: int)
    ensures PlusConstant(Plus(ConstInt(a), ConstInt(b)), c) ==
              if c == 0 then Plus(ConstInt(a), ConstInt(b)) else ConstInt(a + b + c)
  {
    assert Restart(Plus(ConstInt(a), ConstInt(b)), c) == Restart(ConstInt(a), c + b);
  }

  lemma ConstantsDecide(k: Known, a: int, b: int)
    ensures forall d :: Decides(k, ConstInt(d), Plus(ConstInt(a), ConstInt(b)))
    ensures forall d :: Decides(k, Plus(ConstInt(a), ConstInt(b)), ConstInt(d))
    ensures forall d, e :: Decides(k, ConstInt(d), ConstInt(e))
  {}

  lemma {:induction false} InsideDecides(k: Known, rank: nat -> nat, a: Rtx, b: Rtx, d: int, e: int)
    requires Acyclic(k, rank) && Plain(a) && Plain(b)
    ensures AddInside(a, b, d).Some? <==> AddInside(a, b, e).Some?
    ensures AddInside(a, b, d).Some? ==> Decides(k, AddInside(a, b, d).value, AddInside(a, b, e).value)
    decreases Plus(a, b), 0, 0
  {
    hide EqualForMemref, Acyclic;
    EqualSelf(k, rank, a);
    EqualSelf(k, rank, b);
    TermDecides(k, rank, a, d, e);
    TermDecides(k, rank, b, d, e);
  }

  lemma {:induction false} TermDecides(k: Known, rank: nat -> nat, x: Rtx, d: int, e: int)
    requires Acyclic(k, rank) && Plain(x)
    ensures AddToTerm(x, d).Some? <==> AddToTerm(x, e).Some?
    ensures AddToTerm(x, d).Some? ==> Decides(k, AddToTerm(x, d).value, AddToTerm(x, e).value)
    decreases x, 2
  {
    hide EqualForMemref, Acyclic;
    if x.ConstInt? {
      assert PlusConstant(x, d) == ConstInt(x.value + d) && PlusConstant(x, e) == ConstInt(x.value + e);
      ConstantsDecide(k, 0, 0);
    } else if x.Plus? {
      if x.left.ConstInt? && x.right.ConstInt? {
        EqualSelf(k, rank, x);
        TwoConstants(x.left.value, x.right.value, d);
        TwoConstants(x.left.value, x.right.value, e);
        ConstantsDecide(k, x.left.value, x.right.value);
      } else {
        InsideDecides(k, rank, x.left, x.right, d, e);
      }
    }
  }

  /** The test decides for an address to which two constants were added by collecting its constant terms. */
  lemma {:induction false} RestartDecides(k: Known, rank: nat -> nat, x: Rtx, d: int, e: int)
    requires Acyclic(k, rank) && Plain(x)
    ensures Decides(k, Restart(x, d), Restart(x, e))
    decreases x, 0
  {
    EqualSelf(k, rank, x);
    OneSided(k, rank, x, d);
    OneSided(k, rank, x, e);
    TwoSided(k, rank, x, d, e);
    if x.Plus? {
      if x.right.ConstInt? {
        RestartDecides(k, rank, x.left, d + x.right.value, e + x.right.value);
      } else {
        InsideDecides(k, rank, x.left, x.right, d, e);
      }
    }
  }

  /** The canonical form of a sum of an address and a constant. */
  lemma CanonSum(k: Known, rank: nat -> nat, base: Rtx, d: int)
    requires Acyclic(k, rank) && Plain(base)
    ensures var b, r := Canon(k, rank, base), Canon(k, rank, Plus(base, ConstInt(d)));
            if b == base then r == Plus(base, ConstInt(d))
            else if b.ConstInt? then r == PlusConstant(ConstInt(d), b.value)
            else r == PlusConstant(b, d)
  {}

  /** The canonical forms of sums of one address and two constants are at a known distance. */
  lemma KnownDecides(k: Known, rank: nat -> nat, base: Rtx, d: int, e: int)
    requires Acyclic(k, rank) && Plain(base)
    requires Canon(k, rank, base) == base || !Canon(k, rank, base).Plus? || (d != 0 && e != 0)
    ensures Decides(k, Canon(k, rank, Plus(base, ConstInt(d))), Canon(k, rank, Plus(base, ConstInt(e))))
  {
    var b := Canon(k, rank, base);
    CanonSum(k, rank, base, d);
    CanonSum(k, rank, base, e);
    EqualSelf(k, rank, b);
    TwoSided(k, rank, b, d, e);
    OneSided(k, rank, b, d);
    OneSided(k, rank, b, e);
    if d != 0 && e != 0 {
      RestartDecides(k, rank, b, d, e);
    }
  }

  /**
   Two registers known to be sums of one address and constants, which are not zero if the canonical form of that address
   is a new sum: the test on their canonical forms, or on references that step them afterwards, is exact.
   */
  lemma KnownBaseExact(k: Known, rank: nat -> nat, xsize: int, p: nat, ysize: int, q: nat, c: int, base: Rtx, d: int,
                       e: int, v: Valuation)
    requires Acyclic(k, rank) && Plain(base) && Consistent(k, v) && xsize > 0 && ysize > 0
    requires p in k.values && q in k.values && k.values[p] == Plus(base, ConstInt(d))
    requires k.values[q] == Plus(base, ConstInt(e))
    requires Canon(k, rank, base) == base || !Canon(k, rank, base).Plus? || (d != 0 && e != 0)
    ensures Conflict(k, xsize, Canon(k, rank, Reg(p)), ysize, Canon(k, rank, Reg(q)), c) <==>
            !Disjoint(Eval(base, v) + d, xsize, Eval(base, v) + e + c, ysize)
    ensures MemrefsConflict(k, rank, xsize, Auto(PostInc, Reg(p)), ysize, Auto(PostDec, Reg(q)), c) <==>
            !Disjoint(Eval(base, v) + d, xsize, Eval(base, v) + e + c, ysize)
  {
    hide Conflict, Decides, Disjoint;
    var x, y := Plus(base, ConstInt(d)), Plus(base, ConstInt(e));
    assert Canon(k, rank, Reg(p)) == Canon(k, rank, x) && Canon(k, rank, Reg(q)) == Canon(k, rank, y);
    assert Eval(ConstInt(d), v) == d && Eval(ConstInt(e), v) == e;
    assert Eval(x, v) == Eval(base, v) + d && Eval(y, v) == Eval(base, v) + e;
    KnownDecides(k, rank, base, d, e);
    CanonEval(k, rank, Reg(p), v);
    CanonEval(k, rank, Reg(q), v);
    DecidedExact(k, rank, xsize, Canon(k, rank, Reg(p)), ysize, Canon(k, rank, Reg(q)), c, v);
  }

  /** A register stepped after the access and the register its known value is a distance from. */
  lemma SteppedBaseExact(k: Known, rank: nat -> nat, xsize: int, p: nat, ysize: int, base: Rtx, c: int, d: int,
                         v: Valuation)
    requires Acyclic(k, rank) && Plain(base) && Consistent(k, v) && xsize > 0 && ysize > 0
    requires p in k.values && k.values[p] == Plus(base, ConstInt(d)) && Settled(k, base)
    ensures MemrefsConflict(k, rank, xsize, Auto(PostInc, Reg(p)), ysize, base, c) <==>
            !Disjoint(v(p), xsize, Eval(base, v) + c, ysize)
  {
    hide Conflict, Decides, Disjoint;
    CanonFixed(k, rank, base);
    CanonSum(k, rank, base, d);
    OneSided(k, rank, base, d);
    DecidedExact(k, rank, xsize, Plus(base, ConstInt(d)), ysize, base, c, v);
  }
}
