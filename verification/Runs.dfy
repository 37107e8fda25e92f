/**
 Any sequence of operations on any number of bitmaps that share an obstack.
 */
module Runs {
  import opened Words
  import opened Cells
  import opened Bitmaps
  import S = BitOps
  import P = InPlace
  import T = ThreeOperand
  import Q = Queries
  import R = RangeClear

  /** The operations. */
  datatype Op =
    | Test(n: nat) | SetBit(n: nat) | ClearBit(n: nat) | ClearRange(start: nat, count: nat) | Clear | Copy
    | AndInto | AndComplInto | ComplAndInto | IorInto | XorInto
    | Three(op: BoolOp)

  /** What the operation does to the set of its destination. */
  ghost function Effect(op: Op, d: set<nat>, a: set<nat>, b: set<nat>): set<nat>
  {
    match op
    case Test(_) => d
    case SetBit(n) => d + {n}
    case ClearBit(n) => d - {n}
    case ClearRange(start, count) => d - R.Interval(start, start + count)
    case Clear => {}
    case Copy => a
    case AndInto => d * a
    case AndComplInto => d - a
    case ComplAndInto => a - d
    case IorInto => d + a
    case XorInto => (d - a) + (a - d)
    case Three(o) => SetOp(o, a, b)
  }

  /** The boolean that the operation returns, if it returns one. */
  ghost function Answer(op: Op, d: set<nat>, a: set<nat>, b: set<nat>): bool
  {
    match op
    case Test(n) => n in d
    case AndComplInto => d - a != d
    case IorInto => d + a != d
    case Three(Ior) => a + b != d
    case _ => false
  }

  /** What the sources demand of their callers. */
  predicate Legal(op: Op, d: nat, a: nat, b: nat)
  {
    match op
    case ClearRange(start, count) => count >= 1
    case ComplAndInto => d != a
    case Three(o) => d != a && d != b && !o.ComplAnd?
    case _ => true
  }

  ghost predicate Operand(dst: Head, a: Head)
    reads dst, dst.obstack, a, a.elts
  {
    Source(a) && (a == dst || Apart(dst, a))
  }

  lemma IsOperand(dst: Head, a: Head)
    requires Operand(dst, a)
    ensures Source(a) && (a == dst || Apart(dst, a))
  {}

  method TestOne(dst: Head, n: nat) returns (answer: bool)
    requires dst.Valid()
    modifies dst, dst.obstack, dst.Pool()
    ensures dst.Valid() && Conserves(dst) && dst.cells == old(dst.cells) && (answer <==> n in Members(dst.cells))
  {
    hide Obstack.Valid, Canonical, Members;
    var r := S.BitP(dst, n);
    Same(dst.Pool(), dst.obstack.created);
    answer := r != 0;
  }

  method SetOne(dst: Head, n: nat)
    requires dst.Valid()
    modifies dst, dst.obstack, dst.Pool()
    ensures dst.Valid() && Conserves(dst) && Members(dst.cells) == old(Members(dst.cells)) + {n}
  {
    S.SetBit(dst, n);
  }

  method ClearOne(dst: Head, n: nat)
    requires dst.Valid()
    modifies dst, dst.obstack, dst.Pool()
    ensures dst.Valid() && Conserves(dst) && Members(dst.cells) == old(Members(dst.cells)) - {n}
  {
    S.ClearBit(dst, n);
  }

  lemma NoMembers()
    ensures Members([]) == {}
  {}

  method CopyOne(dst: Head, a: Head)
    requires dst.Valid() && Operand(dst, a)
    modifies dst, dst.obstack, dst.Pool()
    ensures dst.Valid() && Conserves(dst)
    ensures Members(dst.cells) == if dst == a then {} else old(Members(a.cells))
  {
    hide Head.Valid, Source, Apart, Members, Operand, Head.Pool;
    IsOperand(dst, a);
    NoMembers();
    S.Copy(dst, a);
  }

  /** An operation with at most one other operand. */
  method ApplyOne(op: Op, dst: Head, a: Head) returns (answer: bool)
    requires dst.Valid() && Operand(dst, a) && !op.Three?
    requires (op.ComplAndInto? ==> dst != a) && (op.ClearRange? ==> op.count >= 1)
    modifies dst, dst.obstack, dst.Pool()
    ensures dst.Valid() && Conserves(dst)
    ensures Members(dst.cells) ==
      if op.Copy? && dst == a then {} else Effect(op, old(Members(dst.cells)), old(Members(a.cells)), {})
    ensures answer == Answer(op, old(Members(dst.cells)), old(Members(a.cells)), {})
  {
    hide Head.Valid, Source, Apart, Members, Operand;
    IsOperand(dst, a);
    answer := false;
    match op {
      case Test(n) => answer := TestOne(dst, n);
      case SetBit(n) => SetOne(dst, n);
      case ClearBit(n) => ClearOne(dst, n);
      case ClearRange(start, count) => R.ClearRange(dst, start, count);
      case Clear => S.Clear(dst);
      case Copy => CopyOne(dst, a);
      case AndInto => P.AndInto(dst, a);
      case AndComplInto => answer := P.AndComplInto(dst, a);
      case ComplAndInto => P.ComplAndInto(dst, a);
      case IorInto => answer := P.IorInto(dst, a);
      case XorInto => P.XorInto(dst, a);
    }
  }

  lemma AreOperands(dst: Head, a: Head, b: Head)
    requires dst.Valid() && Operand(dst, a) && Operand(dst, b) && a != dst && b != dst
    ensures T.Operands(dst, a, b)
  {
    hide Head.Valid, Source, Apart;
  }

  /** A three-operand operation. */
  method ApplyThree(op: BoolOp, dst: Head, a: Head, b: Head) returns (answer: bool)
    requires dst.Valid() && Operand(dst, a) && Operand(dst, b) && a != dst && b != dst && !op.ComplAnd?
    modifies dst, dst.obstack, dst.Pool()
    ensures T.Result(dst, a, b) && Conserves(dst)
    ensures Members(dst.cells) == SetOp(op, old(Members(a.cells)), old(Members(b.cells)))
    ensures answer == Answer(Three(op), old(Members(dst.cells)), old(Members(a.cells)), old(Members(b.cells)))
    ensures dst.CursorOk() <==> old(T.CursorStays(op, dst, a, b))
  {
    hide Head.Valid, Members, T.Operands, T.Result, Grew, Head.Pool, T.CursorStays, Operand, Source, Apart;
    AreOperands(dst, a, b);
    answer := false;
    match op {
      case And => T.And(dst, a, b);
      case AndCompl => T.AndCompl(dst, a, b);
      case Ior => answer := T.Ior(dst, a, b);
      case Xor => T.Xor(dst, a, b);
    }
  }

  ghost function Parts(maps: seq<Head>): seq<seq<Element>>
    reads maps
  {
    seq(|maps|, k requires 0 <= k < |maps| reads maps => maps[k].elts)
  }

  /** Every element ever created is free or in exactly one bitmap. */
  ghost predicate Conserved(created: set<Element>, free: seq<Element>, parts: seq<seq<Element>>)
  {
    && (forall k, e :: 0 <= k < |parts| && e in parts[k] ==> e in created && e !in free)
    && (forall e :: e in free ==> e in created)
    && (forall k, l, e :: 0 <= k < |parts| && 0 <= l < |parts| && e in parts[k] && e in parts[l] ==> k == l)
    && (forall e :: e in created && e !in free ==> exists k :: 0 <= k < |parts| && e in parts[k])
  }

  lemma ConservedStep(created: set<Element>, free: seq<Element>, parts: seq<seq<Element>>, k: nat,
                      created': set<Element>, free': seq<Element>, part: seq<Element>)
    requires Conserved(created, free, parts) && k < |parts|
    requires Grew(Elems(parts[k]) + Elems(free), created, Elems(part) + Elems(free'), created')
    requires forall e :: e in part ==> e !in free'
    ensures Conserved(created', free', parts[k := part])
  {
    var parts' := parts[k := part];
    var pool, pool' := Elems(parts[k]) + Elems(free), Elems(part) + Elems(free');
    assert forall l, e :: 0 <= l < |parts| && l != k && e in parts[l] ==> e !in pool && e !in pool';
    forall e | e in part || e in free' ensures e in pool' && e in created' {
      assert e in Elems(part) || e in Elems(free');
      if e in pool { assert e in parts[k] || e in free; }
    }
    forall e | e in created' && e !in free' ensures exists l :: 0 <= l < |parts'| && e in parts'[l] {
      if e in pool' {
        assert e in parts'[k];
      } else {
        assert e in created && e !in pool;
        var l :| 0 <= l < |parts| && e in parts[l];
        assert e in parts'[l];
      }
    }
  }

  ghost function Reach(maps: seq<Head>): set<Element>
    reads maps
  {
    set k, e | 0 <= k < |maps| && e in maps[k].elts :: e
  }

  lemma Reached(maps: seq<Head>, k: nat)
    requires k < |maps|
    ensures forall e :: e in maps[k].elts ==> e in Reach(maps)
  {}

  /** All bitmaps of the obstack are sorted lists without zero blocks; nothing is said about their cursors. */
  ghost predicate AllListed(obs: Obstack, maps: seq<Head>)
    reads maps, Reach(maps)
  {
    && (forall k :: 0 <= k < |maps| ==> maps[k].obstack == obs && (Reached(maps, k); Source(maps[k])))
    && (forall k, l :: 0 <= k < l < |maps| ==> maps[k] != maps[l])
  }

  /** The obstack and all its bitmaps are in order, and no element is lost or shared. */
  ghost predicate World(obs: Obstack, maps: seq<Head>)
    reads obs, obs.stack, maps, Reach(maps)
  {
    obs.Valid() && AllListed(obs, maps) && Conserved(obs.created, obs.stack, Parts(maps))
  }

  lemma ValidParts(h: Head)
    ensures h.Valid() <==> Source(h) && h.Live() && h.CursorOk()
  {
    hide Obstack.Valid, Canonical, Distinct, Head.Chain;
  }

  datatype Command = Command(op: Op, d: nat, a: nat, b: nat)

  predicate InBounds(c: Command, n: nat)
  {
    c.d < n && c.a < n && c.b < n && Legal(c.op, c.d, c.a, c.b)
  }

  lemma Member(obs: Obstack, maps: seq<Head>, k: nat)
    requires World(obs, maps) && k < |maps|
    ensures Source(maps[k]) && maps[k].Live() && maps[k].obstack == obs && maps[k].Pool() <= obs.created
    ensures forall l, e :: 0 <= l < |maps| && l != k && e in maps[l].elts ==> e !in maps[k].Pool()
    ensures forall l :: 0 <= l < |maps| && l != k ==> maps[l] != maps[k] && Source(maps[l])
  {
    hide Obstack.Valid, Source;
    var parts := Parts(maps);
    assert forall l :: 0 <= l < |maps| ==> parts[l] == maps[l].elts;
    Reached(maps, k);
  }

  lemma OperandOf(obs: Obstack, maps: seq<Head>, k: nat, l: nat)
    requires World(obs, maps) && k < |maps| && l < |maps|
    ensures Operand(maps[k], maps[l]) && (k != l ==> maps[k] != maps[l])
  {
    hide Obstack.Valid, Source, World;
    Member(obs, maps, k);
    Member(obs, maps, l);
  }

  ghost function Sets(maps: seq<Head>): (r: seq<set<nat>>)
    reads maps
    ensures |r| == |maps|
  {
    seq(|maps|, k requires 0 <= k < |maps| reads maps => Members(maps[k].cells))
  }

  ghost function SpecStep(c: Command, v: seq<set<nat>>): seq<set<nat>>
    requires InBounds(c, |v|)
  {
    v[c.d := if c.op.Copy? && c.d == c.a then {} else Effect(c.op, v[c.d], v[c.a], v[c.b])]
  }

  ghost function SpecAnswer(c: Command, v: seq<set<nat>>): bool
    requires InBounds(c, |v|)
  {
    Answer(c.op, v[c.d], v[c.a], v[c.b])
  }

  /** Whether the cursor of the destination is good afterwards, as seen before. */
  ghost predicate Stays(op: Op, dst: Head, a: Head, b: Head)
    reads dst, a, b
  {
    op.Three? ==> T.CursorStays(op.op, dst, a, b)
  }

  lemma ResultParts(dst: Head, a: Head, b: Head)
    requires T.Result(dst, a, b)
    ensures Source(dst) && dst.Live()
  {
    hide Obstack.Valid, Canonical, Distinct, Head.Chain;
  }

  /** What one operation does to its destination. */
  method Apply(c: Command, dst: Head, a: Head, b: Head) returns (answer: bool)
    requires dst.Valid() && Operand(dst, a) && Operand(dst, b) && Legal(c.op, c.d, c.a, c.b)
    requires (c.d == c.a <==> a == dst) && (c.d == c.b <==> b == dst)
    modifies dst, dst.obstack, dst.Pool()
    ensures Source(dst) && dst.Live() && Conserves(dst) && (dst.CursorOk() <==> old(Stays(c.op, dst, a, b)))
    ensures Members(dst.cells) == if c.op.Copy? && c.d == c.a then {} else
                                  Effect(c.op, old(Members(dst.cells)), old(Members(a.cells)), old(Members(b.cells)))
    ensures answer == Answer(c.op, old(Members(dst.cells)), old(Members(a.cells)), old(Members(b.cells)))
  {
    hide Head.Valid, Members, Operand, Source, T.CursorStays, Head.CursorOk, Head.Live, Head.Pool;
    if c.op.Three? {
      answer := ApplyThree(c.op.op, dst, a, b);
      ResultParts(dst, a, b);
    } else {
      answer := ApplyOne(c.op, dst, a);
      ValidParts(dst);
    }
  }

  /** Apply, with the other bitmaps looking on. */
  method ApplyBeside(c: Command, dst: Head, a: Head, b: Head, ghost others: set<Head>) returns (answer: bool)
    requires dst.Valid() && Operand(dst, a) && Operand(dst, b) && Legal(c.op, c.d, c.a, c.b)
    requires (c.d == c.a <==> a == dst) && (c.d == c.b <==> b == dst)
    requires forall h :: h in others ==> h != dst && Source(h)
    requires forall h, e :: h in others && e in h.elts ==> e !in dst.Pool()
    modifies dst, dst.obstack, dst.Pool()
    ensures Source(dst) && dst.Live() && Conserves(dst) && (dst.CursorOk() <==> old(Stays(c.op, dst, a, b)))
    ensures Members(dst.cells) == if c.op.Copy? && c.d == c.a then {} else
                                  Effect(c.op, old(Members(dst.cells)), old(Members(a.cells)), old(Members(b.cells)))
    ensures answer == Answer(c.op, old(Members(dst.cells)), old(Members(a.cells)), old(Members(b.cells)))
    ensures forall h :: h in others ==> Source(h) && h.elts == old(h.elts) && h.cells == old(h.cells)
    ensures forall h :: h in others && old(h.CursorOk()) ==> h.CursorOk()
  {
    hide Head.Valid, Members, Operand, Source, Effect, Conserves, Answer, Stays, Head.Live;
    answer := Apply(c, dst, a, b);
  }

  lemma AnyStays(op: Op, dst: Head, a: Head, b: Head)
    requires dst.Valid() && dst.current == dst.first
    ensures Stays(op, dst, a, b)
  {
    hide Head.Valid, T.CursorStays;
    if op.Three? {
      T.FirstStays(op.op, dst, a, b);
    }
  }

  /**
   Run one operation on a bitmap with a good cursor: it changes the set of its destination as the specification says
   and keeps the world in order. A cursor is lost only by a three-operand operation, exactly when `CursorStays` says so.
   */
  method Exec(obs: Obstack, maps: seq<Head>, c: Command) returns (answer: bool)
    requires World(obs, maps) && InBounds(c, |maps|) && maps[c.d].CursorOk()
    modifies maps, obs, obs.created
    ensures World(obs, maps) && Sets(maps) == SpecStep(c, old(Sets(maps))) && answer == SpecAnswer(c, old(Sets(maps)))
    ensures maps[c.d].CursorOk() <==> old(Stays(c.op, maps[c.d], maps[c.a], maps[c.b]))
    ensures old(maps[c.d].current == maps[c.d].first) ==> maps[c.d].CursorOk()
    ensures forall k :: 0 <= k < |maps| && k != c.d && old(maps[k].CursorOk()) ==> maps[k].CursorOk()
    ensures forall k :: 0 <= k < |maps| && k != c.d ==> unchanged(maps[k])
    ensures forall e :: e in obs.created ==> e in old(obs.created) || fresh(e)
  {
    hide Obstack.Valid, Canonical, Distinct, Grew, Members, Effect, Answer, Source, Conserved, Operand, Head.CursorOk;
    hide T.CursorStays, Head.Valid;
    OperandOf(obs, maps, c.d, c.a);
    OperandOf(obs, maps, c.d, c.b);
    Member(obs, maps, c.d);
    var dst := maps[c.d];
    ValidParts(dst);
    if dst.current == dst.first {
      AnyStays(c.op, dst, maps[c.a], maps[c.b]);
    }
    ghost var others := set l | 0 <= l < |maps| && l != c.d :: maps[l];
    ghost var created, stack, parts := obs.created, obs.stack, Parts(maps);
    ghost var v := Sets(maps);
    assert forall l :: 0 <= l < |maps| && l != c.d ==> maps[l] in others;
    answer := ApplyBeside(c, dst, maps[c.a], maps[c.b], others);
    ConservedStep(created, stack, parts, c.d, obs.created, obs.stack, dst.elts);
    assert Parts(maps) == parts[c.d := dst.elts];
    assert Sets(maps) == SpecStep(c, v);
  }

  lemma Listed(obs: Obstack, maps: seq<Head>, k: nat)
    requires World(obs, maps) && k < |maps|
    ensures maps[k].Chain()
  {
    Reached(maps, k);
  }

  /** Whether the cursor of bitmap `k` is good: on an element of its list, with the index of that element. */
  method CursorGood(obs: Obstack, maps: seq<Head>, k: nat) returns (good: bool)
    requires World(obs, maps) && k < |maps|
    ensures World(obs, maps) && Sets(maps) == old(Sets(maps)) && (good <==> maps[k].CursorOk())
    ensures forall l :: 0 <= l < |maps| ==> (maps[l].CursorOk() <==> old(maps[l].CursorOk()))
    ensures obs.created == old(obs.created)
  {
    hide World, Sets, Canonical, Distinct;
    var h := maps[k];
    Listed(obs, maps, k);
    if h.current == null {
      return h.first == null;
    }
    var e := h.first;
    ghost var i := 0;
    while e != null && e != h.current
      invariant i <= |h.elts| && e == At(h.elts, i) && forall j :: 0 <= j < i ==> h.elts[j] != h.current
      decreases |h.elts| - i
    {
      assert Node(h.elts, h.cells, i);
      e, i := e.next, i + 1;
    }
    return e != null && h.indx == h.current.indx;
  }

  /** A bitmap with a good cursor and no members has no elements. */
  lemma EmptyBitmap(h: Head)
    requires Source(h) && h.CursorOk() && Members(h.cells) == {}
    ensures h.current == h.first == null
  {
    Q.NonemptyMembers(h.cells);
  }

  /** The sets after a temporary bitmap was filled, used and cleared. */
  lemma ByTemporary(v: seq<set<nat>>, op: Op, d: nat, a: nat, b: nat, c: nat, tmp: nat)
    requires d < |v| && a < |v| && b < |v| && c < |v| && tmp < |v| && tmp != d && tmp != a && tmp != b && tmp != c
    requires v[tmp] == {} && ((op == IorInto && a == d) || (op == Three(BoolOp.Ior) && a != d))
    ensures var x := if op == IorInto then tmp else a;
            var v1 := SpecStep(Command(Three(BoolOp.AndCompl), tmp, b, c), v);
            var v2 := SpecStep(Command(op, d, x, tmp), v1);
            && |v1| == |v2| == |v| && SpecStep(Command(Clear, tmp, tmp, tmp), v2) == v[d := v[a] + (v[b] - v[c])]
            && (SpecAnswer(Command(op, d, x, tmp), v1) <==> v[d := v[a] + (v[b] - v[c])] != v)
  {
    var w := v[d := v[a] + (v[b] - v[c])];
    assert w[d] == v[a] + (v[b] - v[c]);
    assert w[d] == v[d] ==> w == v;
  }

  lemma Temporary(obs: Obstack, maps: seq<Head>, k: nat)
    requires World(obs, maps) && k < |maps| && Sets(maps)[k] == {} && maps[k].CursorOk()
    ensures maps[k].current == maps[k].first
  {
    hide World, Source, Members;
    Member(obs, maps, k);
    EmptyBitmap(maps[k]);
  }

  /** bitmap_ior_and_compl_into: A |= B & ~C, by way of an empty temporary bitmap; true if A changes. */
  method IorAndComplInto(obs: Obstack, maps: seq<Head>, a: nat, b: nat, c: nat, tmp: nat) returns (changed: bool)
    requires World(obs, maps) && a < |maps| && b < |maps| && c < |maps| && tmp < |maps|
    requires tmp != a && tmp != b && tmp != c && Sets(maps)[tmp] == {} && maps[a].CursorOk() && maps[tmp].CursorOk()
    modifies maps, obs, obs.created
    ensures World(obs, maps) && maps[a].CursorOk() && maps[tmp].CursorOk()
    ensures Sets(maps) == old(Sets(maps))[a := old(Sets(maps)[a] + (Sets(maps)[b] - Sets(maps)[c]))]
    ensures changed <==> Sets(maps) != old(Sets(maps))
  {
    hide World, Head.CursorOk, Source, T.CursorStays, Sets, SpecStep, SpecAnswer;
    Temporary(obs, maps, tmp);
    ByTemporary(Sets(maps), IorInto, a, a, b, c, tmp);
    var _ := Exec(obs, maps, Command(Three(BoolOp.AndCompl), tmp, b, c));
    changed := Exec(obs, maps, Command(IorInto, a, tmp, tmp));
    var _ := Exec(obs, maps, Command(Clear, tmp, tmp, tmp));
  }

  /** bitmap_ior_and_compl: D = A | (B & ~C), by way of an empty temporary bitmap; true if D changes. */
  method IorAndCompl(obs: Obstack, maps: seq<Head>, d: nat, a: nat, b: nat, c: nat, tmp: nat) returns (changed: bool)
    requires World(obs, maps) && d < |maps| && a < |maps| && b < |maps| && c < |maps| && tmp < |maps| && d != a
    requires tmp != d && tmp != a && tmp != b && tmp != c && Sets(maps)[tmp] == {}
    requires maps[d].CursorOk() && maps[tmp].CursorOk()
    modifies maps, obs, obs.created
    ensures World(obs, maps) && maps[tmp].CursorOk()
    ensures Sets(maps) == old(Sets(maps))[d := old(Sets(maps)[a] + (Sets(maps)[b] - Sets(maps)[c]))]
    ensures changed <==> Sets(maps) != old(Sets(maps))
    ensures old(maps[d].current == maps[d].first) ==> maps[d].CursorOk()
  {
    hide World, Head.CursorOk, Source, T.CursorStays, Sets, SpecStep, SpecAnswer;
    Temporary(obs, maps, tmp);
    ByTemporary(Sets(maps), Three(BoolOp.Ior), d, a, b, c, tmp);
    var _ := Exec(obs, maps, Command(Three(BoolOp.AndCompl), tmp, b, c));
    changed := Exec(obs, maps, Command(Three(BoolOp.Ior), d, a, tmp));
    var _ := Exec(obs, maps, Command(Clear, tmp, tmp, tmp));
  }

  ghost predicate AllLegal(cs: seq<Command>, n: nat)
  {
    forall k :: 0 <= k < |cs| ==> InBounds(cs[k], n)
  }

  ghost function SpecRun(cs: seq<Command>, v: seq<set<nat>>): (r: seq<set<nat>>)
    requires AllLegal(cs, |v|)
    ensures |r| == |v|
  {
    if cs == [] then v else SpecStep(cs[|cs| - 1], SpecRun(cs[..|cs| - 1], v))
  }

  ghost function SpecAnswers(cs: seq<Command>, v: seq<set<nat>>): seq<bool>
    requires AllLegal(cs, |v|)
  {
    if cs == [] then []
    else SpecAnswers(cs[..|cs| - 1], v) + [SpecAnswer(cs[|cs| - 1], SpecRun(cs[..|cs| - 1], v))]
  }

  /**
   Run operations until one has a destination whose cursor was lost. The `n` operations that ran agree with the run on
   mathematical sets, whatever the cursors were; a run without three-operand operations runs to its end.
   */
  method Run(obs: Obstack, maps: seq<Head>, cs: seq<Command>) returns (answers: seq<bool>, n: nat)
    requires World(obs, maps) && AllLegal(cs, |maps|)
    modifies maps, obs, obs.created
    ensures World(obs, maps) && n <= |cs| && (n < |cs| ==> !maps[cs[n].d].CursorOk())
    ensures Sets(maps) == SpecRun(cs[..n], old(Sets(maps))) && answers == SpecAnswers(cs[..n], old(Sets(maps)))
    ensures (forall k :: 0 <= k < |maps| ==> old(maps[k].CursorOk()))
              && (forall k :: 0 <= k < |cs| ==> !cs[k].op.Three?)
            ==> n == |cs| && forall k :: 0 <= k < |maps| ==> maps[k].CursorOk()
    ensures forall e :: e in obs.created ==> e in old(obs.created) || fresh(e)
  {
    hide World, SpecStep, SpecAnswer, Sets, Head.CursorOk, Source, T.CursorStays;
    n, answers := 0, [];
    ghost var v := Sets(maps);
    ghost var easy :=
      (forall k :: 0 <= k < |maps| ==> maps[k].CursorOk()) && (forall k :: 0 <= k < |cs| ==> !cs[k].op.Three?);
    while n < |cs|
      invariant 0 <= n <= |cs| && World(obs, maps)
      invariant Sets(maps) == SpecRun(cs[..n], v) && answers == SpecAnswers(cs[..n], v)
      invariant easy ==> forall k :: 0 <= k < |maps| ==> maps[k].CursorOk()
      invariant forall e :: e in obs.created ==> e in old(obs.created) || fresh(e)
    {
      var good := CursorGood(obs, maps, cs[n].d);
      if !good {
        return;
      }
      assert cs[..n + 1][..n] == cs[..n];
      var answer := Exec(obs, maps, cs[n]);
      answers := answers + [answer];
      n := n + 1;
    }
  }

  /** bitmap_obstack_initialize and bitmap_initialize: a new obstack with `n` empty bitmaps. */
  method Begin(n: nat) returns (obs: Obstack, maps: seq<Head>)
    ensures fresh(obs) && |maps| == n && World(obs, maps)
    ensures forall k :: 0 <= k < n ==> fresh(maps[k]) && Sets(maps)[k] == {} && maps[k].CursorOk()
  {
    hide Canonical, Distinct, Head.Chain, Source, Head.Live;
    obs := new Obstack();
    maps := [];
    while |maps| < n
      invariant |maps| <= n && World(obs, maps) && obs.stack == [] && obs.created == {}
      invariant forall k :: 0 <= k < |maps| ==>
                  fresh(maps[k]) && maps[k].elts == [] && maps[k].cells == [] && maps[k].CursorOk()
    {
      var h := new Head(obs);
      ValidParts(h);
      maps := maps + [h];
    }
  }

  /** Block `ix` with only its first bit. */
  function Single(ix: nat): Cell
  {
    Cell(ix, BlockSet(ZERO, 0))
  }

  /** A bit in a block of its own, behind all others. */
  lemma OneMore(s: seq<Cell>, ix: nat)
    requires Canonical(s) && forall i :: 0 <= i < |s| ==> s[i].indx < ix
    ensures Canonical(s + [Single(ix)]) && Members(s + [Single(ix)]) == Members(s) + {ix * ALL_BITS}
  {
    hide Members, BlockSet, Canonical;
    S.SetNewBlock(s, |s|, ix * ALL_BITS);
    CanonicalInsert(s, |s|, Single(ix));
    assert Insert(s, |s|, Single(ix)) == s + [Single(ix)];
  }

  /** Lists of one and of two blocks with one bit each are determined by their members. */
  lemma SmallLists(s: seq<Cell>)
    requires Canonical(s)
    ensures Members(s) == {0, 128} ==> s == [Single(0), Single(1)]
    ensures Members(s) == {640} ==> s == [Single(5)]
  {
    NoMembers();
    hide Members, BlockSet;
    assert [] + [Single(0)] == [Single(0)] && [] + [Single(5)] == [Single(5)];
    OneMore([], 0);
    OneMore([Single(0)], 1);
    OneMore([], 5);
    assert [Single(0)] + [Single(1)] == [Single(0), Single(1)];
    assert {} + {0} + {128} == {0, 128} && {} + {640} == {640};
    MembersDetermine(s, [Single(0), Single(1)]);
    MembersDetermine(s, [Single(5)]);
  }

  /** A new bitmap with one bit. */
  method OneBitmap(bit: nat) returns (h: Head)
    ensures fresh(h) && fresh(h.obstack) && h.Valid() && Members(h.cells) == {bit}
    ensures forall i :: 0 <= i < |h.elts| ==> fresh(h.elts[i])
    ensures forall i :: 0 <= i < |h.obstack.stack| ==> fresh(h.obstack.stack[i])
  {
    NoMembers();
    hide Canonical, Members, Obstack.Valid, Head.Chain;
    var obs := new Obstack();
    h := new Head(obs);
    S.SetBit(h, bit);
    assert forall i :: 0 <= i < |h.elts| ==> h.elts[i] in h.Pool();
    assert forall i :: 0 <= i < |h.obstack.stack| ==> h.obstack.stack[i] in h.Pool();
  }

  /** Bits 0 and 128, with the cursor on the second block. */
  method TwoBlocks() returns (dst: Head)
    ensures fresh(dst) && fresh(dst.obstack) && dst.Valid() && Members(dst.cells) == {0, 128} && dst.indx == 1
    ensures forall i :: 0 <= i < |dst.elts| ==> fresh(dst.elts[i])
    ensures forall i :: 0 <= i < |dst.obstack.stack| ==> fresh(dst.obstack.stack[i])
  {
    hide Canonical, Members, Obstack.Valid, Head.Chain;
    dst := OneBitmap(0);
    S.SetBit(dst, 128);
    assert forall i :: 0 <= i < |dst.elts| ==> dst.elts[i] in dst.Pool();
    assert forall i :: 0 <= i < |dst.obstack.stack| ==> dst.obstack.stack[i] in dst.Pool();
  }

  /** The cursor of the two blocks does not survive a union with the block of bit 640. */
  lemma TwoBlocksLost(dst: Head, a: Head, b: Head)
    requires dst.Valid() && dst.cells == [Single(0), Single(1)] && dst.indx == 1
    requires a.cells == [Single(5)] && b.cells == []
    ensures !T.CursorStays(BoolOp.Ior, dst, a, b)
    ensures |dst.elts| == 2 && dst.elts[1] == dst.current != dst.elts[0]
  {
    assert Node(dst.elts, dst.cells, 0) && Node(dst.elts, dst.cells, 1);
    T.StaleCursor(dst.elts[0], dst.elts[1], BlockSet(ZERO, 0));
  }

  /** Bit 640, and nothing. */
  method Others(ghost dst: Head) returns (a: Head, b: Head)
    requires dst.Valid()
    ensures T.Operands(dst, a, b) && Canonical(a.cells) && Members(a.cells) == {640} && b.cells == []
  {
    hide Canonical, Members, Obstack.Valid, Head.Chain;
    a := OneBitmap(640);
    var obs := new Obstack();
    b := new Head(obs);
  }

  lemma StrandedStray(dst: Head, o: T.Before)
    requires |o.cells| == |o.elts| == 2 && o.elts[1] == o.current && o.cells[1].indx == 1 && T.Stranded(dst, o)
    ensures dst.Stray() && dst.indx == 1
  {}

  lemma StillStray(dst: Head)
    requires dst.current != null && dst.current !in dst.elts
    ensures !dst.CursorOk()
  {}

  /**
   A cursor that is lost, and what comes of it: after the union with {640} the destination holds exactly bit 640, but
   its cursor is on an element that was given back, and bitmap_bit_p does not find the bit.
   */
  method LostCursor() returns (dst: Head, answer: int)
    ensures dst.Listed() && Canonical(dst.cells) && Members(dst.cells) == {640} && !dst.CursorOk() && answer == 0
  {
    hide Canonical, Members, Obstack.Valid, Head.Chain, Grew, T.CursorStays, T.Stranded, T.Operands, BlockSet,
        Head.CursorOk;
    NoMembers();
    dst := TwoBlocks();
    var a, b := Others(dst);
    SmallLists(dst.cells);
    SmallLists(a.cells);
    TwoBlocksLost(dst, a, b);
    ghost var o := T.Snapshot(dst);
    var _ := T.Ior(dst, a, b);
    StrandedStray(dst, o);
    answer := S.BitP(dst, 640);
    StillStray(dst);
  }
}
