/**
 Migration of branch target register definitions towards dominating blocks.
 */
module Migration {
  import opened Reaching
  import opened LiveRanges

  datatype MaybeRange = Unknown | Range(blocks: set<nat>)

  /**
   The flow graph with its dominator information, block frequencies and depths in the dominator tree. The blocks of
   `complex` have complex edges leading out of them.
   */
  datatype Graph = Graph(preds: Preds, idom: seq<nat>, dominates: seq<seq<bool>>, freq: seq<nat>, depth: seq<nat>,
                         complex: set<nat>)

  /** Every real block has a strict dominator higher up in the tree. */
  ghost predicate IdomOk(f: Graph, b: nat)
    requires b < |f.idom| == |f.depth|
  {
    f.idom[b] < |f.depth| && Dom(f.preds, f.idom[b], b) && f.depth[f.idom[b]] < f.depth[b] && f.idom[b] != 1
  }

  ghost predicate Reachable(preds: Preds, b: nat)
  {
    exists p :: Route(preds, p, b)
  }

  ghost predicate GraphOk(f: Graph)
  {
    && WellFormed(f.preds) && |f.idom| == |f.dominates| == |f.freq| == |f.depth| == |f.preds|
    && (forall a :: 0 <= a < |f.preds| ==> |f.dominates[a]| == |f.preds|)
    && (forall a, b :: 0 <= a < |f.preds| && 0 <= b < |f.preds| ==> (f.dominates[a][b] <==> Dom(f.preds, a, b)))
    && (forall b :: 0 <= b < |f.preds| && b != 1 ==> Reachable(f.preds, b))
    && (forall b :: FIXED <= b < |f.preds| ==> IdomOk(f, b))
  }

  lemma RoutePrefix(preds: Preds, p: seq<nat>, b: nat, i: nat)
    requires Route(preds, p, b) && i < |p|
    ensures Route(preds, p[..i + 1], p[i])
  {}

  lemma RouteLast(preds: Preds, p: seq<nat>, b: nat)
    requires Route(preds, p, b)
    ensures p != [] && p[|p| - 1] == b
  {}

  /** Different reachable blocks do not dominate each other. */
  lemma {:induction false} Antisymmetric(preds: Preds, a: nat, b: nat, p: seq<nat>)
    requires Dom(preds, a, b) && Dom(preds, b, a) && Route(preds, p, a)
    ensures a == b
    decreases |p|
  {
    hide Route;
    if a != b {
      var i :| 0 <= i < |p| && p[i] == b;
      RoutePrefix(preds, p, a, i);
      var q := p[..i + 1];
      RouteLast(preds, p, a);
      var j :| 0 <= j < |q| && q[j] == a;
      RoutePrefix(preds, q, b, j);
      assert j < i;
      Antisymmetric(preds, a, b, q[..j + 1]);
    }
  }

  /**
   What is recorded about one definition: where it is, its cost, its register, the blocks of its uses and its live
   range.
   `usesBefore` and `usesAfter` tell of other live ranges of the register in the first block and in blocks of uses.
   */
  datatype Def = Def(bb: nat, cost: nat, movable: bool, group: nat, btr: nat, uses: seq<nat>, range: MaybeRange,
                     usesBefore: bool, usesAfter: bool, ownEnd: bool)

  /** The registers live in each block, and at its end. */
  datatype Liveness = Liveness(live: Sets, atEnd: Sets)

  /**
   * The registers to avoid in the head of a range: all live in it if blocks are used exclusively, else those live at
   * its end.
   */
  function AtHead(l: Liveness, exclusive: bool, head: nat): set<nat>
    requires head < |l.live| == |l.atEnd|
  {
    if exclusive then l.live[head] else l.atEnd[head]
  }

  /**
   Registers that need not be avoided: `mine` anywhere, and in the blocks of `edge` also `before`. A definition's own
   register is in `mine`; registers it has had before may have been left live in blocks of its uses.
   */
  datatype Excuse = Excuse(mine: set<nat>, before: set<nat>, edge: set<nat>)

  function Excused(x: Excuse, b: nat): set<nat>
  {
    x.mine + if b in x.edge then x.before else {}
  }

  /** `regs` has every register to be avoided in the range, but for those excused. */
  ghost predicate Covered(n: nat, l: Liveness, exclusive: bool, range: set<nat>, head: nat, regs: set<nat>, x: Excuse)
  {
    && |l.live| == |l.atEnd| == n && head < n && AtHead(l, exclusive, head) <= regs + Excused(x, head)
    && forall b :: b in range && b != head && b < n ==> l.live[b] <= regs + Excused(x, b)
  }

  /** Register `r` is free in the range, but for where it is excused. */
  ghost predicate FreeIn(l: Liveness, exclusive: bool, range: set<nat>, head: nat, r: nat, x: Excuse)
    requires head < |l.live| == |l.atEnd|
  {
    && (r in AtHead(l, exclusive, head) ==> r in Excused(x, head))
    && forall b :: b in range && b != head && b < |l.live| && r in l.live[b] ==> r in Excused(x, b)
  }

  lemma ChosenFree(n: nat, l: Liveness, exclusive: bool, range: set<nat>, head: nat, regs: set<nat>, x: Excuse, r: nat)
    requires Covered(n, l, exclusive, range, head, regs, x) && r !in regs
    ensures FreeIn(l, exclusive, range, head, r, x)
  {}

  /** Blocks that were added, and the old head of a range extended upwards, have all their registers in `regs`. */
  lemma AddedCovered(l: Liveness, range0: set<nat>, regs0: set<nat>, head: nat, block: nat, full: bool, down: bool,
                     range: set<nat>, regs: set<nat>, b: nat)
    requires head < |l.live| == |l.atEnd| && block < |l.live| && b < |l.live| && b in range && block != head
    requires RegsOk(l.live, l.atEnd, range0, regs0, head, block, full, down, range, regs)
    requires if down then b !in range0 else b != block && (b !in range0 || b == head)
    ensures l.live[b] <= regs
  {
    if b !in range0 {
      forall r | r in l.live[b] ensures r in regs {
        assert LiveIn(l.live, l.atEnd, if down then range - range0 else range - (range0 + {block}), r);
      }
    }
  }

  /** Augmenting a range downwards keeps its registers covered. */
  lemma AugmentCovered(n: nat, l: Liveness, exclusive: bool, range0: set<nat>, regs0: set<nat>, head: nat, block: nat,
                       full: bool, range: set<nat>, regs: set<nat>, x: Excuse)
    requires Covered(n, l, exclusive, range0, head, regs0, x) && block < n && range0 <= range
    requires block == head ==> range == range0
    requires RegsOk(l.live, l.atEnd, range0, regs0, head, block, full, true, range, regs)
    ensures Covered(n, l, exclusive, range, head, regs, x)
  {
    forall b | b in range && b != head && b < n ensures l.live[b] <= regs + Excused(x, b) {
      if b !in range0 {
        AddedCovered(l, range0, regs0, head, block, full, true, range, regs, b);
      }
    }
  }

  /** A range extended upwards from `range0` with head `head`: only the old blocks need excuses. */
  ghost predicate Lifted(n: nat, l: Liveness, exclusive: bool, range0: set<nat>, head: nat, range: set<nat>, top: nat,
                         regs: set<nat>, x: Excuse)
  {
    && |l.live| == |l.atEnd| == n && head < n && top < n && AtHead(l, exclusive, top) <= regs
    && forall b :: b in range && b != top && b < n ==>
         l.live[b] <= regs + if b in range0 && b != head then Excused(x, b) else {}
  }

  lemma AugmentLifted(n: nat, l: Liveness, exclusive: bool, range0: set<nat>, regs0: set<nat>, head: nat, block: nat,
                      range: set<nat>, regs: set<nat>, x: Excuse)
    requires Covered(n, l, exclusive, range0, head, regs0, x) && block < n && block != head
    requires RegsOk(l.live, l.atEnd, range0, regs0, head, block, exclusive, false, range, regs)
    ensures Lifted(n, l, exclusive, range0, head, range, block, regs, x)
  {
    forall b | b in range && b != block && b < n
      ensures l.live[b] <= regs + if b in range0 && b != head then Excused(x, b) else {}
    {
      if b !in range0 || b == head {
        AddedCovered(l, range0, regs0, head, block, exclusive, false, range, regs, b);
      }
    }
  }

  /** block_at_edge_of_live_range_p, and only where there are other ranges of the register. */
  predicate AtEdge(d: Def, b: nat)
  {
    (d.usesBefore && b == d.bb) || (d.usesAfter && b in d.uses)
  }

  /**
   A definition whose users were spliced in front of those of `d`, while its own list still starts at its first user:
   from there the list goes on with the users of `d`.
   */
  function Spliced(e: Def, d: Def): Def
    requires e.uses != []
  {
    e.(uses := [e.uses[0]] + d.uses)
  }

  /** The later uses of `e` are in blocks that the edge test finds without them. */
  ghost predicate EdgesSurvive(e: Def, d: Def)
    requires e.uses != []
  {
    e.usesAfter ==> forall i :: 0 < i < |e.uses| ==>
      e.uses[i] == e.uses[0] || e.uses[i] in d.uses || (e.usesBefore && e.uses[i] == e.bb)
  }

  /**
   The edge test after splicing still finds every block that the definition shares with other live ranges of its
   register exactly when its later uses are in blocks found anyway.
   */
  lemma SplicedEdges(e: Def, d: Def)
    requires e.uses != []
    ensures (forall b :: AtEdge(e, b) ==> AtEdge(Spliced(e, d), b)) <==> EdgesSurvive(e, d)
  {
    if e.usesAfter && forall b :: AtEdge(e, b) ==> AtEdge(Spliced(e, d), b) {
      forall i | 0 < i < |e.uses|
        ensures e.uses[i] == e.uses[0] || e.uses[i] in d.uses || (e.usesBefore && e.uses[i] == e.bb)
      {
        assert AtEdge(e, e.uses[i]) && AtEdge(Spliced(e, d), e.uses[i]);
      }
    }
  }

  /** `l'` is `l` after the register of `d` was cleared from its range. */
  ghost predicate ClearedBy(d: Def, blocks: set<nat>, l: Liveness, l': Liveness)
  {
    && |l'.live| == |l.live|
    && forall b :: 0 <= b < |l.live| ==>
        l'.live[b] == l.live[b] - (if b in blocks && !AtEdge(d, b) then {d.btr} else {})
  }

  /** No block of `blocks` that `e` shares with other live ranges of its register has lost it. */
  ghost predicate SharedLive(e: Def, blocks: set<nat>, l: Liveness)
  {
    forall b :: b in blocks && b < |l.live| && AtEdge(e, b) ==> e.btr in l.live[b]
  }

  /** A register that was live throughout the range stays live in all shared blocks exactly when the edges survive. */
  lemma SharedKept(e: Def, d: Def, blocks: set<nat>, l: Liveness, l': Liveness)
    requires e.uses != [] && ClearedBy(Spliced(e, d), blocks, l, l')
    requires forall b :: b in blocks ==> b < |l.live| && e.btr in l.live[b]
    requires forall i :: 0 <= i < |e.uses| ==> e.uses[i] in blocks
    requires e.bb in blocks
    ensures SharedLive(e, blocks, l') <==> EdgesSurvive(e, d)
  {
    SplicedEdges(e, d);
    if SharedLive(e, blocks, l') {
      forall b | AtEdge(e, b) ensures AtEdge(Spliced(e, d), b) {
        assert b in blocks;
      }
    }
  }

  /** What is left to excuse once the register of `d` was cleared: registers it has had, in blocks of shared uses. */
  function Leftover(d: Def, x: Excuse): (r: Excuse)
    ensures r.mine == {}
  {
    Excuse({}, x.before + {d.btr}, x.edge + if d.usesAfter then set u | u in d.uses else {})
  }

  /** Clearing the register of the definition that moves leaves its new range covered. */
  lemma ClearedLifted(n: nat, l: Liveness, l': Liveness, exclusive: bool, d: Def, range: set<nat>, top: nat,
                      regs: set<nat>, x: Excuse)
    requires d.range.Range? && x.mine <= {d.btr} && Lifted(n, l, exclusive, d.range.blocks, d.bb, range, top, regs, x)
    requires |l'.live| == |l'.atEnd| == n && forall b :: 0 <= b < n ==>
      l'.live[b] == l.live[b] - (if b in d.range.blocks && !AtEdge(d, b) then {d.btr} else {})
          && l'.atEnd[b] <= l.atEnd[b]
    ensures Covered(n, l', exclusive, range, top, regs, Leftover(d, x))
  {
    forall b | b in range && b != top && b < n ensures l'.live[b] <= regs + Excused(Leftover(d, x), b) {
      assert l.live[b] <= regs + if b in d.range.blocks && b != d.bb then Excused(x, b) else {};
    }
  }

  /** `r` is the first register in `order` that is allowed and not used. */
  ghost predicate FirstUnused(allBtrs: set<nat>, order: seq<nat>, used: set<nat>, r: int)
  {
    exists k :: 0 <= k < |order| && order[k] == r && order[k] in allBtrs && order[k] !in used
                && forall j :: 0 <= j < k ==> order[j] !in allBtrs || order[j] in used
  }

  /** choose_btr: the first register that is not used, if there is one. */
  method ChooseBtr(allBtrs: set<nat>, order: seq<nat>, used: set<nat>) returns (r: int)
    requires forall q :: q in allBtrs ==> q in order
    ensures r == -1 <==> allBtrs <= used
    ensures r != -1 ==> r >= 0 && r in allBtrs && r !in used && FirstUnused(allBtrs, order, used, r)
  {
    if allBtrs <= used {
      return -1;
    }
    for i := 0 to |order|
      invariant forall j :: 0 <= j < i ==> order[j] !in allBtrs || order[j] in used
    {
      if order[i] in allBtrs && order[i] !in used {
        return order[i];
      }
    }
    return -1;
  }

  ghost predicate RangeOk(f: Graph, bb: nat, uses: seq<nat>, range: set<nat>)
  {
    IsRange(f.preds, range, bb) && forall i :: 0 <= i < |uses| ==> uses[i] in range
  }

  /** A movable definition dominates its uses, and its live range leads from it to all of them. */
  ghost predicate DefOk(f: Graph, d: Def)
    requires |f.freq| == |f.preds|
  {
    && FIXED <= d.bb < |f.preds| && d.cost == f.freq[d.bb]
    && (d.movable ==> forall i :: 0 <= i < |d.uses| ==> d.uses[i] < |f.preds| && Dom(f.preds, d.bb, d.uses[i]))
    && (d.movable && d.range.Range? ==> RangeOk(f, d.bb, d.uses, d.range.blocks))
  }

  ghost predicate DefsOk(f: Graph, defs: seq<Def>)
  {
    GraphOk(f) && forall i :: 0 <= i < |defs| ==> DefOk(f, defs[i])
  }

  /** Definition `d'` is `d` moved to a dominator or left where it is, at no higher cost. */
  ghost predicate Moved(f: Graph, d: Def, d': Def)
  {
    Dom(f.preds, d'.bb, d.bb) && d'.cost <= d.cost && d'.movable == d.movable && d'.group == d.group
  }

  ghost predicate AllMoved(f: Graph, defs: seq<Def>, defs': seq<Def>)
  {
    |defs| == |defs'| && forall i :: 0 <= i < |defs| ==> Moved(f, defs[i], defs'[i])
  }

  /** How many uses in block `u` the definitions have together. */
  ghost function UseCount(defs: seq<Def>, u: nat): nat
    decreases |defs|
  {
    if defs == [] then 0 else UseCount(defs[..|defs| - 1], u) + multiset(defs[|defs| - 1].uses)[u]
  }

  /** No use is lost or gained. */
  ghost predicate SameUses(defs: seq<Def>, defs': seq<Def>)
  {
    forall u :: UseCount(defs, u) == UseCount(defs', u)
  }

  lemma {:induction false} UseCountUpdate(defs: seq<Def>, i: nat, d: Def, u: nat)
    requires i < |defs|
    ensures UseCount(defs[i := d], u) + multiset(defs[i].uses)[u] == UseCount(defs, u) + multiset(d.uses)[u]
    decreases |defs|
  {
    var n := |defs| - 1;
    if i == n {
      assert defs[i := d][..n] == defs[..n];
    } else {
      assert defs[i := d][..n] == defs[..n][i := d];
      UseCountUpdate(defs[..n], i, d, u);
    }
  }

  /** Total depth of the blocks the definitions are in. */
  ghost function TotalDepth(f: Graph, defs: seq<Def>): nat
    requires forall i :: 0 <= i < |defs| ==> defs[i].bb < |f.depth|
    decreases |defs|
  {
    if defs == [] then 0 else TotalDepth(f, defs[..|defs| - 1]) + f.depth[defs[|defs| - 1].bb]
  }

  /** Augmenting a range with its own head changes nothing. */
  lemma InHeadOnly(preds: Preds, range0: set<nat>, head: nat, range: set<nat>)
    requires IsRange(preds, range0, head) && range0 <= range && LeastFrom(preds, range0 + {head}, head, range)
    ensures range == range0
  {
    assert range0 + {head} <= range0 && Closed(preds, range0, head);
  }

  ghost predicate AnyLive(l: Liveness, r: nat)
  {
    exists b :: 0 <= b < |l.live| == |l.atEnd| && (r in l.live[b] || r in l.atEnd[b])
  }

  /** Between `l` and `l'` no register became live but those of `s`. */
  ghost predicate OnlyNew(l: Liveness, l': Liveness, s: set<nat>)
  {
    forall r :: AnyLive(l', r) ==> AnyLive(l, r) || r in s
  }

  /** Registers in `regs` were in `regs0` or are live. */
  ghost predicate Backed(l: Liveness, regs0: set<nat>, regs: set<nat>)
  {
    forall r :: r in regs ==> r in regs0 || AnyLive(l, r)
  }

  /** Some register that may be used is neither live nor in `regs`. */
  ghost predicate HasSpare(allBtrs: set<nat>, l: Liveness, regs: set<nat>)
  {
    exists r :: r in allBtrs && r !in regs && !AnyLive(l, r)
  }

  lemma SpareStays(allBtrs: set<nat>, l: Liveness, regs: set<nat>, l': Liveness, regs': set<nat>)
    requires HasSpare(allBtrs, l, regs) && OnlyNew(l, l', {}) && Backed(l, regs, regs')
    ensures HasSpare(allBtrs, l', regs')
  {
    var r :| r in allBtrs && r !in regs && !AnyLive(l, r);
    assert r !in regs' && !AnyLive(l', r);
  }

  lemma LessLive(l: Liveness, l': Liveness)
    requires |l.live| == |l.atEnd| == |l'.live| == |l'.atEnd|
    requires forall b :: 0 <= b < |l.live| ==> l'.live[b] <= l.live[b] && l'.atEnd[b] <= l.atEnd[b]
    ensures OnlyNew(l, l', {})
  {
    forall r | AnyLive(l', r) ensures AnyLive(l, r) {
      var b :| 0 <= b < |l'.live| && (r in l'.live[b] || r in l'.atEnd[b]);
      assert r in l.live[b] || r in l.atEnd[b];
    }
  }

  lemma MoreLive(l: Liveness, l': Liveness, r: nat)
    requires |l.live| == |l.atEnd| == |l'.live| == |l'.atEnd|
    requires forall b :: 0 <= b < |l.live| ==> l'.live[b] <= l.live[b] + {r} && l'.atEnd[b] <= l.atEnd[b] + {r}
    ensures OnlyNew(l, l', {r})
  {
    forall q | AnyLive(l', q) && q != r ensures AnyLive(l, q) {
      var b :| 0 <= b < |l'.live| && (q in l'.live[b] || q in l'.atEnd[b]);
      assert q in l.live[b] || q in l.atEnd[b];
    }
  }

  lemma NothingNewBut(l: Liveness, regs: set<nat>, r: nat)
    ensures OnlyNew(l, l, {r}) && OnlyNew(l, l, {}) && Backed(l, regs, regs)
  {}

  lemma NoSpare(allBtrs: set<nat>, l: Liveness, regs0: set<nat>, regs: set<nat>)
    requires Backed(l, regs0, regs) && allBtrs <= regs
    ensures !HasSpare(allBtrs, l, regs0)
  {}

  lemma NothingNew(l: Liveness, regs: set<nat>)
    ensures OnlyNew(l, l, {}) && Backed(l, regs, regs)
  {}

  lemma NewTrans(l: Liveness, l1: Liveness, l2: Liveness, s: set<nat>)
    requires OnlyNew(l, l1, {}) && OnlyNew(l1, l2, s)
    ensures OnlyNew(l, l2, s)
  {}

  lemma BackedTrans(l: Liveness, l1: Liveness, regs0: set<nat>, regs1: set<nat>, regs2: set<nat>)
    requires Backed(l, regs0, regs1) && OnlyNew(l, l1, {}) && Backed(l1, regs1, regs2)
    ensures Backed(l, regs0, regs2)
  {}

  lemma LiveSomewhere(l: Liveness, blocks: set<nat>, r: nat)
    requires LiveIn(l.live, l.atEnd, blocks, r)
    ensures AnyLive(l, r)
  {}

  /** What CoverUses adds is live. */
  lemma AddedBacked(l: Liveness, regs0: set<nat>, regs: set<nat>, added: set<nat>, head: nat)
    requires |l.live| == |l.atEnd|
    requires forall r :: r in regs && r !in regs0 ==>
               LiveIn(l.live, l.atEnd, added, r) || (head < |l.live| && r in l.live[head])
    ensures Backed(l, regs0, regs)
  {
    forall r | r in regs && r !in regs0 ensures AnyLive(l, r) {
      if LiveIn(l.live, l.atEnd, added, r) {
        LiveSomewhere(l, added, r);
      }
    }
  }

  /** What augmenting a range downwards adds to the registers. */
  lemma AugmentAdds(l: Liveness, range0: set<nat>, regs0: set<nat>, head: nat, block: nat, full: bool,
                    range: set<nat>, regs: set<nat>)
    requires head < |l.live| == |l.atEnd| && block < |l.live| && range0 <= range && (block == head ==> range == range0)
    requires RegsOk(l.live, l.atEnd, range0, regs0, head, block, full, true, range, regs)
    ensures regs0 <= regs && forall b :: b in range && b !in range0 && b < |l.live| ==> l.live[b] + l.atEnd[b] <= regs
    ensures forall r :: r in regs && r !in regs0 ==>
              LiveIn(l.live, l.atEnd, range - range0, r) || (block == head && r in l.live[head])
  {
    if block != head {
      forall b, r | b in range && b !in range0 && b < |l.live| && r in l.live[b] + l.atEnd[b] ensures r in regs {
        assert LiveIn(l.live, l.atEnd, range - range0, r);
      }
    }
  }

  lemma LiveTaken(l: Liveness, blocks: set<nat>, regs: set<nat>)
    requires |l.live| == |l.atEnd| && forall b :: b in blocks && b < |l.live| ==> l.live[b] + l.atEnd[b] <= regs
    ensures forall r :: LiveIn(l.live, l.atEnd, blocks, r) ==> r in regs
  {}

  lemma LiveWider(l: Liveness, blocks: set<nat>, blocks': set<nat>, r: nat)
    requires LiveIn(l.live, l.atEnd, blocks, r) && blocks <= blocks'
    ensures LiveIn(l.live, l.atEnd, blocks', r)
  {
    var b :| b in blocks && b < |l.live| && (r in l.live[b] || r in l.atEnd[b]);
    assert b in blocks';
  }

  /** Definition `k`, one with uses other than `i`, needs its register in block `b`. */
  ghost predicate Needs(defs: seq<Def>, web: Sets, i: int, k: nat, b: nat)
  {
    k != i && k < |defs| == |web| && defs[k].uses != [] && b in web[k]
  }

  /** Every definition with uses, but for `i`, has its register live where it needs it. */
  ghost predicate Holding(l: Liveness, defs: seq<Def>, web: Sets, i: int)
  {
    && |web| == |defs|
    && forall k: nat, b: nat :: Needs(defs, web, i, k, b) ==> b < |l.live| && defs[k].btr in l.live[b]
  }

  /**
   * The registers that other definitions need in the range are in `regs`, but for its head unless blocks are exclusive.
   */
  ghost predicate Reserved(defs: seq<Def>, web: Sets, i: int, exclusive: bool, head: nat, range: set<nat>,
                           regs: set<nat>)
  {
    forall k: nat, b: nat :: Needs(defs, web, i, k, b) && b in range && (exclusive || b != head) ==> defs[k].btr in regs
  }

  /** Extending the range to blocks whose live registers are all in `regs`. */
  lemma ReservedMore(l: Liveness, defs: seq<Def>, web: Sets, i: nat, exclusive: bool, head: nat, range0: set<nat>,
                     regs0: set<nat>, top: nat, range: set<nat>, regs: set<nat>)
    requires Holding(l, defs, web, i) && Reserved(defs, web, i, exclusive, head, range0, regs0) && regs0 <= regs
    requires forall b :: b in range && b < |l.live| && (exclusive || b != top) ==>
               l.live[b] <= regs || (b in range0 && (exclusive || b != head))
    ensures Reserved(defs, web, i, exclusive, top, range, regs)
  {
    forall k: nat, b: nat | Needs(defs, web, i, k, b) && b in range && (exclusive || b != top)
      ensures defs[k].btr in regs
    {
      if b in range0 && (exclusive || b != head) {
        assert defs[k].btr in regs0;
      }
    }
  }

  /** What augmenting a range upwards reserves. */
  lemma AugmentReserved(l: Liveness, defs: seq<Def>, web: Sets, i: nat, exclusive: bool, range0: set<nat>,
                        regs0: set<nat>, head: nat, block: nat, range: set<nat>, regs: set<nat>)
    requires head < |l.live| == |l.atEnd| && block < |l.live| && range0 <= range && block != head && block in range
    requires RegsOk(l.live, l.atEnd, range0, regs0, head, block, exclusive, false, range, regs)
    requires Holding(l, defs, web, i) && Reserved(defs, web, i, exclusive, head, range0, regs0)
    ensures Reserved(defs, web, i, exclusive, block, range, regs)
  {
    forall b | b in range && b < |l.live| && (exclusive || b != block)
      ensures l.live[b] <= regs || (b in range0 && (exclusive || b != head))
    {
      if b != block && (b !in range0 || b == head) {
        AddedCovered(l, range0, regs0, head, block, exclusive, false, range, regs, b);
      }
    }
    ReservedMore(l, defs, web, i, exclusive, head, range0, regs0, block, range, regs);
  }

  /** Extend `range0`, with head `head`, to blocks that `head` dominates. */
  method CoverUses(f: Graph, l: Liveness, range0: set<nat>, regs0: set<nat>, head: nat, uses: seq<nat>, exclusive: bool,
                   ghost x: Excuse)
      returns (range: set<nat>, regs: set<nat>)
    requires GraphOk(f) && IsRange(f.preds, range0, head) && head < |f.preds|
    requires Covered(|f.preds|, l, exclusive, range0, head, regs0, x)
    requires forall i :: 0 <= i < |uses| ==> uses[i] < |f.preds| && Dom(f.preds, head, uses[i])
    ensures IsRange(f.preds, range, head) && range0 <= range && forall i :: 0 <= i < |uses| ==> uses[i] in range
    ensures Covered(|f.preds|, l, exclusive, range, head, regs, x)
    ensures regs0 <= regs && forall b :: b in range && b !in range0 && b < |l.live| ==> l.live[b] + l.atEnd[b] <= regs
    ensures forall r :: r in regs && r !in regs0 ==>
              LiveIn(l.live, l.atEnd, range - range0, r) || (head in uses && head < |l.live| && r in l.live[head])
    ensures forall s :: range0 <= s && Closed(f.preds, s, head) && (forall i :: 0 <= i < |uses| ==> uses[i] in s) ==>
              range <= s
  {
    hide Dom, IsRange, IdomOk, Reachable, RegsOk, Closed, LiveIn;
    range, regs := range0, regs0;
    for i := 0 to |uses|
      invariant IsRange(f.preds, range, head) && range0 <= range && forall j :: 0 <= j < i ==> uses[j] in range
      invariant Covered(|f.preds|, l, exclusive, range, head, regs, x)
      invariant regs0 <= regs
      invariant forall b :: b in range && b !in range0 && b < |l.live| ==> l.live[b] + l.atEnd[b] <= regs
      invariant forall r :: r in regs && r !in regs0 ==>
                  LiveIn(l.live, l.atEnd, range - range0, r) || (head in uses && head < |l.live| && r in l.live[head])
      invariant forall s :: range0 <= s && Closed(f.preds, s, head) && (forall j :: 0 <= j < i ==> uses[j] in s) ==>
                  range <= s
    {
      var last: bool := *;
      ghost var range1, regs1 := range, regs;
      range, regs := AugmentLiveRange(f.preds, l.live, l.atEnd, range, regs, head, uses[i], exclusive || !last,
                                      f.dominates[head][uses[i]]);
      if uses[i] == head {
        InHeadOnly(f.preds, range1, head, range);
      }
      AugmentCovered(|f.preds|, l, exclusive, range1, regs1, head, uses[i], exclusive || !last, range, regs, x);
      AugmentAdds(l, range1, regs1, head, uses[i], exclusive || !last, range, regs);
      forall r | r in regs && r !in regs0
        ensures LiveIn(l.live, l.atEnd, range - range0, r) || (head in uses && head < |l.live| && r in l.live[head])
      {
        if r in regs1 {
          if LiveIn(l.live, l.atEnd, range1 - range0, r) {
            LiveWider(l, range1 - range0, range - range0, r);
          }
        } else if LiveIn(l.live, l.atEnd, range - range1, r) {
          LiveWider(l, range - range1, range - range0, r);
        }
      }
      forall s | range0 <= s && Closed(f.preds, s, head) && (forall j :: 0 <= j <= i ==> uses[j] in s)
        ensures range <= s
      {
        assert range1 + {uses[i]} <= s;
      }
    }
  }

  lemma HeadIn(preds: Preds, range: set<nat>, head: nat)
    requires IsRange(preds, range, head)
    ensures head in range
  {}

  lemma Single(preds: Preds, b: nat)
    requires b < |preds|
    ensures IsRange(preds, {b}, b)
  {}

  /** The register that needs no avoiding in the range of `d`: its own, unless it is shared. */
  function Mine(d: Def): set<nat>
  {
    if d.usesBefore || d.usesAfter then {} else {d.btr}
  }

  /** The registers that btr_def_live_range finds in block `b` of a known range. */
  function FoundIn(l: Liveness, d: Def, exclusive: bool, b: nat): set<nat>
    requires b < |l.live| == |l.atEnd|
  {
    if b == d.bb then AtHead(l, exclusive, b) else l.live[b]
  }

  /**
   Whether register `r` is in the way of definition `d`: live in its head, or in another block of its range (of a new
   range, also just at the end of that block), and not the definition's own.
   */
  ghost predicate InTheWay(l: Liveness, d: Def, exclusive: bool, range: set<nat>, r: nat)
    requires d.bb < |l.live| == |l.atEnd|
  {
    && r !in Mine(d)
    && (|| r in AtHead(l, exclusive, d.bb)
        || (d.range.Unknown? && LiveIn(l.live, l.atEnd, range - {d.bb}, r))
        || (d.range.Range? && exists b :: b in range && b != d.bb && b < |l.live| && r in l.live[b]))
  }

  /** btr_def_live_range: the live range of a definition, computed if it is not known, and the registers live in it. */
  method DefLiveRange(f: Graph, l: Liveness, d: Def, exclusive: bool) returns (range: set<nat>, regs: set<nat>)
    requires GraphOk(f) && DefOk(f, d) && d.movable && |l.live| == |l.atEnd| == |f.preds|
    ensures RangeOk(f, d.bb, d.uses, range) && (d.range.Range? ==> range == d.range.blocks)
    ensures d.range.Unknown? ==> forall s :: RangeOk(f, d.bb, d.uses, s) ==> range <= s
    ensures Covered(|f.preds|, l, exclusive, range, d.bb, regs, Excuse(Mine(d), {}, {}))
    ensures Covered(|f.preds|, l, exclusive, range, d.bb, regs, Excuse({d.btr}, {}, {}))
    ensures forall r :: InTheWay(l, d, exclusive, range, r) ==> r in regs
    ensures forall r :: r in regs ==>
              InTheWay(l, d, exclusive, range, r) ||
              (d.range.Unknown? && d.bb in d.uses && r in l.live[d.bb] && r !in Mine(d))
  {
    hide Dom, GraphOk, LiveIn;
    if d.range.Unknown? {
      Single(f.preds, d.bb);
      range, regs := CoverUses(f, l, {d.bb}, AtHead(l, exclusive, d.bb), d.bb, d.uses, exclusive, Excuse({}, {}, {}));
      LiveTaken(l, range - {d.bb}, regs);
    } else {
      range, regs := d.range.blocks, {};
      for b := 0 to |f.preds|
        invariant forall c :: 0 <= c < b && c in range ==> FoundIn(l, d, exclusive, c) <= regs
        invariant forall r :: r in regs ==> exists c :: 0 <= c < b && c in range && r in FoundIn(l, d, exclusive, c)
      {
        if b in range {
          regs := regs + if b == d.bb && !exclusive then l.atEnd[b] else l.live[b];
        }
      }
      HeadIn(f.preds, range, d.bb);
    }
    if !d.usesBefore && !d.usesAfter {
      regs := regs - {d.btr};
    }
  }

  /** The users of a definition that is taken over are put in front of the others one by one. */
  function Reverse(s: seq<nat>): (r: seq<nat>)
    ensures |r| == |s| && forall i :: 0 <= i < |r| ==> r[i] in s
  {
    if s == [] then [] else Reverse(s[1..]) + [s[0]]
  }

  lemma {:induction false} ReverseCount(s: seq<nat>)
    ensures multiset(Reverse(s)) == multiset(s)
  {
    if s != [] {
      ReverseCount(s[1..]);
      assert s == [s[0]] + s[1..];
    }
  }

  /** Taking over the uses of another definition. */
  lemma Combined(defs: seq<Def>, i: nat, j: nat, d: Def, e: Def)
    requires i < |defs| && j < |defs| && i != j && d.uses == Reverse(defs[j].uses) + defs[i].uses && e.uses == []
    ensures SameUses(defs, defs[i := d][j := e])
  {
    forall u ensures UseCount(defs[i := d][j := e], u) == UseCount(defs, u) {
      UseCountUpdate(defs, i, d, u);
      UseCountUpdate(defs[i := d], j, e, u);
      ReverseCount(defs[j].uses);
    }
  }

  lemma UsesKept(defs: seq<Def>, i: nat, d: Def)
    requires i < |defs| && d.uses == defs[i].uses
    ensures SameUses(defs, defs[i := d])
  {
    forall u ensures UseCount(defs[i := d], u) == UseCount(defs, u) {
      UseCountUpdate(defs, i, d, u);
    }
  }

  lemma MergedOk(f: Graph, d: Def, e: Def, combined: set<nat>, btr: nat)
    requires |f.freq| == |f.preds| && DefOk(f, d) && DefOk(f, e) && d.movable && e.movable && d.range.Range?
    requires d.range.blocks <= combined
    requires IsRange(f.preds, combined, d.bb)
    requires forall k :: 0 <= k < |e.uses| ==> e.uses[k] in combined && Dom(f.preds, d.bb, e.uses[k])
    ensures forall after ::
      DefOk(f, d.(uses := Reverse(e.uses) + d.uses, range := Range(combined), btr := btr, usesAfter := after))
    ensures DefOk(f, e.(uses := []))
  {
    hide Dom, IsRange;
  }

  /** Clearing registers keeps coverage and freedom. */
  lemma Shrunk(n: nat, l: Liveness, l': Liveness, exclusive: bool, range: set<nat>, head: nat, regs: set<nat>,
               x: Excuse, r: nat)
    requires Covered(n, l, exclusive, range, head, regs, x) && FreeIn(l, exclusive, range, head, r, x)
    requires |l'.live| == |l'.atEnd| == n
    requires forall b :: 0 <= b < n ==> l'.live[b] <= l.live[b] && l'.atEnd[b] <= l.atEnd[b]
    ensures Covered(n, l', exclusive, range, head, regs, x) && FreeIn(l', exclusive, range, head, r, x)
  {}

  /** A definition's own register in its range does not count. */
  lemma Claimed(n: nat, l: Liveness, l': Liveness, exclusive: bool, d: Def, regs: set<nat>, x: Excuse)
    requires d.range.Range? && Covered(n, l, exclusive, d.range.blocks, d.bb, regs, x) && |l'.live| == |l'.atEnd| == n
    requires x.mine == {}
    requires forall b :: 0 <= b < n ==> l'.live[b] <= l.live[b] + {d.btr} && l'.atEnd[b] <= l.atEnd[b] + {d.btr}
    ensures Covered(n, l', exclusive, d.range.blocks, d.bb, regs, x.(mine := {d.btr}))
  {}

  lemma SameDepth(f: Graph, defs: seq<Def>, defs': seq<Def>)
    requires |defs| == |defs'| && (forall j :: 0 <= j < |defs| ==> defs[j].bb == defs'[j].bb < |f.depth|)
    ensures TotalDepth(f, defs') == TotalDepth(f, defs)
    decreases |defs|
  {
    if defs != [] {
      SameDepth(f, defs[..|defs| - 1], defs'[..|defs| - 1]);
    }
  }

  lemma DepthKept(f: Graph, defs: seq<Def>, defs': seq<Def>, i: nat)
    requires |defs| == |defs'| && i < |defs|
    requires forall j :: 0 <= j < |defs| ==> defs[j].bb < |f.depth| && defs'[j].bb < |f.depth|
    requires forall j :: 0 <= j < |defs| && j != i ==> defs[j].bb == defs'[j].bb
    ensures TotalDepth(f, defs') + f.depth[defs[i].bb] == TotalDepth(f, defs) + f.depth[defs'[i].bb]
    decreases |defs|
  {
    var n := |defs| - 1;
    if i == n {
      SameDepth(f, defs[..n], defs'[..n]);
    } else {
      DepthKept(f, defs[..n], defs'[..n], i);
    }
  }

  lemma MovedSelf(f: Graph, defs: seq<Def>)
    requires DefsOk(f, defs)
    ensures AllMoved(f, defs, defs) && SameUses(defs, defs) && forall j :: 0 <= j < |defs| ==> defs[j].bb < |f.depth|
  {
    forall j | 0 <= j < |defs| ensures Moved(f, defs[j], defs[j]) && defs[j].bb < |f.depth| {
      assert DefOk(f, defs[j]);
      DomSelf(f.preds, defs[j].bb);
    }
  }

  lemma Places(f: Graph, defs: seq<Def>)
    requires DefsOk(f, defs)
    ensures GraphOk(f) && |f.depth| == |f.preds|
    ensures forall j :: 0 <= j < |defs| ==> FIXED <= defs[j].bb < |f.depth|
  {
    forall j | 0 <= j < |defs| ensures FIXED <= defs[j].bb < |f.depth| {
      assert DefOk(f, defs[j]);
    }
  }

  ghost predicate SameSpot(d: Def, d': Def)
  {
    d.bb == d'.bb && d.cost == d'.cost && d.movable == d'.movable && d.group == d'.group
  }

  lemma MovedOn(f: Graph, a: seq<Def>, b: seq<Def>, c: seq<Def>, i: nat)
    requires AllMoved(f, a, b) && |b| == |c| && i < |b| && Moved(f, b[i], c[i])
    requires forall j :: 0 <= j < |b| && j != i ==> SameSpot(b[j], c[j])
    ensures AllMoved(f, a, c)
  {
    hide Dom;
    forall j | 0 <= j < |a| ensures Moved(f, a[j], c[j]) {
      if j == i {
        DomTrans(f.preds, c[i].bb, b[i].bb, a[i].bb);
      }
    }
  }

  /** A block that strictly dominates another is not dominated by it. */
  lemma StrictDom(f: Graph, a: nat, b: nat)
    requires GraphOk(f) && FIXED <= a < |f.preds| && b < |f.preds| && Dom(f.preds, a, b) && a != b
    ensures !Dom(f.preds, b, a)
  {
    hide Dom;
    assert Reachable(f.preds, a);
    var p :| Route(f.preds, p, a);
    if Dom(f.preds, b, a) {
      Antisymmetric(f.preds, a, b, p);
    }
  }

  /** The next candidate is ENTRY or a strict dominator of the definition's block. */
  ghost predicate Candidate(f: Graph, t: nat, bb: nat)
    requires |f.depth| == |f.preds| && bb < |f.preds|
  {
    t == ENTRY || (FIXED <= t < |f.preds| && Dom(f.preds, t, bb) && f.depth[t] < f.depth[bb])
  }

  lemma NextCandidate(f: Graph, t: nat, bb: nat)
    requires GraphOk(f) && FIXED <= t < |f.preds| && bb < |f.preds| && Dom(f.preds, t, bb) && f.depth[t] <= f.depth[bb]
    ensures Candidate(f, f.idom[t], bb) && f.idom[t] < |f.depth| && f.depth[f.idom[t]] < f.depth[t]
  {
    hide Dom;
    assert IdomOk(f, t);
    DomTrans(f.preds, f.idom[t], t, bb);
  }

  lemma DominatedUses(f: Graph, a: nat, e: Def)
    requires |f.freq| == |f.preds| && DefOk(f, e) && e.movable && Dom(f.preds, a, e.bb)
    ensures forall i :: 0 <= i < |e.uses| ==> e.uses[i] < |f.preds| && Dom(f.preds, a, e.uses[i])
  {
    hide Dom;
    forall i | 0 <= i < |e.uses| ensures e.uses[i] < |f.preds| && Dom(f.preds, a, e.uses[i]) {
      DomTrans(f.preds, a, e.bb, e.uses[i]);
    }
  }

  /** A definition with a larger range, moved to the head of that range. */
  lemma MovedUp(f: Graph, d: Def, t: nat, range0: set<nat>, range: set<nat>, btr: nat)
    requires |f.freq| == |f.preds| && DefOk(f, d) && d.movable && FIXED <= t < |f.preds| && Dom(f.preds, t, d.bb)
    requires RangeOk(f, d.bb, d.uses, range0) && range0 <= range && IsRange(f.preds, range, t)
    ensures DefOk(f, d.(bb := t, cost := f.freq[t], btr := btr, range := Range(range)))
  {
    hide Dom, IsRange;
    DominatedUses(f, t, d);
  }

  lemma GraphFacts(f: Graph)
    requires GraphOk(f)
    ensures WellFormed(f.preds) && |f.idom| == |f.dominates| == |f.freq| == |f.depth| == |f.preds|
    ensures forall a :: 0 <= a < |f.preds| ==> |f.dominates[a]| == |f.preds|
    ensures forall a, b :: 0 <= a < |f.preds| && 0 <= b < |f.preds| ==> (f.dominates[a][b] <==> Dom(f.preds, a, b))
  {}

  /** A block at the edge of the range of `d` that the edge test finds from the first use alone, spliced or not. */
  predicate AtFirstEdge(d: Def, b: nat)
  {
    (d.usesBefore && b == d.bb) || (d.usesAfter && d.uses != [] && b == d.uses[0])
  }

  lemma FirstEdge(e: Def, d: Def, b: nat)
    requires AtFirstEdge(e, b)
    ensures AtEdge(e, b) && (e.uses != [] ==> AtEdge(Spliced(e, d), b))
  {}

  /** Two definitions with one register meet only in blocks at the edge of both. */
  ghost predicate Sharing(defs: seq<Def>, web: Sets, i: int)
  {
    forall j: nat, k: nat, b: nat ::
      Needs(defs, web, i, j, b) && Needs(defs, web, i, k, b) && j != k && defs[j].movable && defs[j].btr == defs[k].btr
      ==> AtFirstEdge(defs[j], b)
  }

  /** Where definition `j` needs its register: a range that leads to all its uses. */
  ghost predicate WebOk(f: Graph, d: Def, w: set<nat>)
  {
    d.movable && d.uses != [] ==> RangeOk(f, d.bb, d.uses, w) && (d.range.Range? ==> d.range.blocks <= w)
  }

  ghost predicate WebsOk(f: Graph, defs: seq<Def>, web: Sets)
  {
    |web| == |defs| && forall j :: 0 <= j < |defs| ==> WebOk(f, defs[j], web[j])
  }

  /** What is live in the range of a definition has all that others need there. */
  lemma ReservedNow(n: nat, l: Liveness, defs: seq<Def>, web: Sets, i: nat, exclusive: bool, range: set<nat>,
                    regs: set<nat>)
    requires i < |defs| && defs[i].movable && defs[i].uses != [] && Holding(l, defs, web, -1) && Sharing(defs, web, -1)
    requires range <= web[i] && Covered(n, l, exclusive, range, defs[i].bb, regs, Excuse(Mine(defs[i]), {}, {}))
    ensures Reserved(defs, web, i, exclusive, defs[i].bb, range, regs)
  {
    forall k: nat, b: nat | Needs(defs, web, i, k, b) && b in range && (exclusive || b != defs[i].bb)
      ensures defs[k].btr in regs
    {
      assert Needs(defs, web, -1, k, b) && Needs(defs, web, -1, i, b);
      assert l.live[b] <= regs + Mine(defs[i]);
    }
  }

  /** Clearing a register from the range of definition `j` leaves it to all others that need it. */
  lemma HoldingCleared(l: Liveness, l': Liveness, defs: seq<Def>, web: Sets, i: int, j: nat, e: Def, blocks: set<nat>)
    requires Holding(l, defs, web, i) && Sharing(defs, web, i) && j < |defs| && j != i
    requires defs[j].movable && defs[j].uses != [] && blocks <= web[j] && ClearedBy(e, blocks, l, l')
    requires e.btr == defs[j].btr && forall b :: AtFirstEdge(defs[j], b) ==> AtEdge(e, b)
    ensures forall k: nat, b: nat :: k != j && Needs(defs, web, i, k, b) ==> b < |l'.live| && defs[k].btr in l'.live[b]
  {
    forall k: nat, b: nat | k != j && Needs(defs, web, i, k, b) ensures b < |l'.live| && defs[k].btr in l'.live[b] {
      assert b in blocks ==> Needs(defs, web, i, j, b);
    }
  }

  /** Definition `i` is put aside. */
  lemma SetAside(l: Liveness, defs: seq<Def>, web: Sets, i: nat)
    requires Holding(l, defs, web, -1) && Sharing(defs, web, -1)
    ensures Holding(l, defs, web, i) && Sharing(defs, web, i)
  {
    assert forall k: nat, b: nat :: Needs(defs, web, i, k, b) ==> Needs(defs, web, -1, k, b);
  }

  /** Changing definition `i` while it is put aside, and definition `j` that loses its uses. */
  lemma ChangedAside(l: Liveness, defs: seq<Def>, web: Sets, i: nat, defs': seq<Def>, web': Sets)
    requires Holding(l, defs, web, i) && Sharing(defs, web, i) && |defs'| == |web'| == |defs|
    requires forall k :: 0 <= k < |defs| && k != i && defs'[k].uses != [] ==>
               defs'[k].(range := Unknown) == defs[k].(range := Unknown) && web'[k] == web[k]
    ensures Holding(l, defs', web', i) && Sharing(defs', web', i)
    ensures forall k: nat, b: nat :: Needs(defs', web', i, k, b) ==>
              Needs(defs, web, i, k, b) && defs'[k].btr == defs[k].btr
  {
    forall k: nat, b: nat | Needs(defs', web', i, k, b)
      ensures Needs(defs, web, i, k, b) && defs'[k].btr == defs[k].btr {
      assert defs'[k].(range := Unknown).uses == defs[k].(range := Unknown).uses;
      assert defs'[k].(range := Unknown).btr == defs[k].(range := Unknown).btr;
    }
    forall j: nat, k: nat, b: nat |
      Needs(defs', web', i, j, b) && Needs(defs', web', i, k, b) && j != k && defs'[j].movable
      && defs'[j].btr == defs'[k].btr
      ensures AtFirstEdge(defs'[j], b)
    {
      assert Needs(defs, web, i, j, b) && Needs(defs, web, i, k, b);
      var u, v := defs'[j].(range := Unknown), defs[j].(range := Unknown);
      assert u.uses == v.uses && u.bb == v.bb && u.movable == v.movable;
      assert u.usesBefore == v.usesBefore && u.usesAfter == v.usesAfter;
      assert AtFirstEdge(defs[j], b);
    }
  }

  /** In its head, definition `i` meets others with its register only at their edge. */
  ghost predicate HeadShared(defs: seq<Def>, web: Sets, i: nat)
    requires i < |defs|
  {
    forall k: nat :: Needs(defs, web, i, k, defs[i].bb) && defs[k].movable && defs[k].btr == defs[i].btr ==>
      AtFirstEdge(defs[k], defs[i].bb)
  }

  /** No other definition needs the register of `i` in its range, but for the head unless blocks are exclusive. */
  ghost predicate Alone(defs: seq<Def>, web: Sets, i: nat, exclusive: bool)
    requires i < |defs| == |web|
  {
    forall k: nat, b: nat :: Needs(defs, web, i, k, b) && b in web[i] && defs[k].btr == defs[i].btr ==>
      !exclusive && b == defs[i].bb
  }

  /** Taking definition `i` back with a new register that it claims in its range. */
  lemma TakenBack(l: Liveness, defs: seq<Def>, web: Sets, i: nat, exclusive: bool, regs: set<nat>, n: nat)
    requires Holding(l, defs, web, i) && Sharing(defs, web, i) && i < |defs| && defs[i].movable && defs[i].uses != []
    requires Reserved(defs, web, i, exclusive, defs[i].bb, web[i], regs) && defs[i].btr !in regs && defs[i].bb in web[i]
    requires |l.live| == n && forall b :: b in web[i] ==> b < n && defs[i].btr in l.live[b]
    requires forall k: nat :: Needs(defs, web, i, k, defs[i].bb) && defs[k].btr == defs[i].btr ==> defs[i].usesBefore
    ensures Holding(l, defs, web, -1) && Alone(defs, web, i, exclusive)
    ensures Sharing(defs, web, -1) <==> HeadShared(defs, web, i)
    ensures exclusive ==> HeadShared(defs, web, i)
  {
    assert forall k: nat, b: nat :: Needs(defs, web, -1, k, b) && k != i ==> Needs(defs, web, i, k, b);
    if HeadShared(defs, web, i) {
      forall j: nat, k: nat, b: nat |
        Needs(defs, web, -1, j, b) && Needs(defs, web, -1, k, b) && j != k && defs[j].movable
        && defs[j].btr == defs[k].btr
        ensures AtFirstEdge(defs[j], b)
      {
        if j == i {
          assert Needs(defs, web, i, k, b);
        } else if k == i {
          assert Needs(defs, web, i, j, b);
        } else {
          assert Needs(defs, web, i, j, b) && Needs(defs, web, i, k, b);
        }
      }
    }
    if Sharing(defs, web, -1) {
      forall k: nat | Needs(defs, web, i, k, defs[i].bb) && defs[k].movable && defs[k].btr == defs[i].btr
        ensures AtFirstEdge(defs[k], defs[i].bb)
      {
        assert Needs(defs, web, -1, k, defs[i].bb) && Needs(defs, web, -1, i, defs[i].bb);
      }
    }
  }

  lemma SplicedRegister(e: Def, d: Def)
    requires e.uses != []
    ensures Spliced(e, d).btr == e.btr
  {}

  lemma HasUses(defs: seq<Def>, web: Sets, i: int, k: nat, b: nat)
    requires Needs(defs, web, i, k, b)
    ensures k < |defs| && defs[k].uses != [] && k != i
  {}

  lemma HoldingIf(l: Liveness, defs: seq<Def>, web: Sets, i: int)
    requires |web| == |defs|
    requires forall k: nat, b: nat :: Needs(defs, web, i, k, b) ==>
               b < |l.live| && k < |defs| && defs[k].btr in l.live[b]
    ensures Holding(l, defs, web, i)
  {}

  /** Definition `i` takes over the uses of `j`, whose register is cleared from its range. */
  lemma MergedAside(l: Liveness, l': Liveness, defs: seq<Def>, web: Sets, i: nat, j: nat, d: Def, blocks: set<nat>,
                    defs': seq<Def>, web': Sets)
    requires Holding(l, defs, web, i) && Sharing(defs, web, i) && j < |defs| && j != i && |defs'| == |web'| == |defs|
    requires defs[j].movable && defs[j].uses != [] && blocks <= web[j]
    requires ClearedBy(Spliced(defs[j], d), blocks, l, l') && defs'[j].uses == []
    requires forall k :: 0 <= k < |defs| && k != i && k != j ==> defs'[k] == defs[k] && web'[k] == web[k]
    ensures Holding(l', defs', web', i) && Sharing(defs', web', i)
    ensures forall k: nat, b: nat :: Needs(defs', web', i, k, b) ==>
              Needs(defs, web, i, k, b) && defs'[k].btr == defs[k].btr
  {
    hide Holding, Sharing, Needs, AtFirstEdge, AtEdge, ClearedBy, Spliced;
    forall b | AtFirstEdge(defs[j], b) ensures AtEdge(Spliced(defs[j], d), b) {
      FirstEdge(defs[j], d, b);
    }
    SplicedRegister(defs[j], d);
    HoldingCleared(l, l', defs, web, i, j, Spliced(defs[j], d), blocks);
    ChangedAside(l, defs, web, i, defs', web');
    forall k: nat, b: nat | Needs(defs', web', i, k, b)
      ensures b < |l'.live| && k < |defs'| && defs'[k].btr in l'.live[b]
    {
      HasUses(defs', web', i, k, b);
      assert Needs(defs, web, i, k, b);
    }
    HoldingIf(l', defs', web', i);
  }

  /** The register of definition `i` is cleared from its range, and `i` is put aside. */
  lemma ClearedAside(l: Liveness, l': Liveness, defs: seq<Def>, web: Sets, i: nat)
    requires Holding(l, defs, web, -1) && Sharing(defs, web, -1) && i < |defs| && defs[i].movable && defs[i].uses != []
    requires defs[i].range.Range? && defs[i].range.blocks <= web[i] && ClearedBy(defs[i], defs[i].range.blocks, l, l')
    ensures Holding(l', defs, web, i) && Sharing(defs, web, i)
  {
    SetAside(l, defs, web, i);
    HoldingCleared(l, l', defs, web, -1, i, defs[i], defs[i].range.blocks);
    assert forall k: nat, b: nat :: Needs(defs, web, i, k, b) ==> Needs(defs, web, -1, k, b);
  }

  lemma HoldingGrown(l: Liveness, l': Liveness, defs: seq<Def>, web: Sets, i: int)
    requires Holding(l, defs, web, i) && |l'.live| == |l.live|
    requires forall b :: 0 <= b < |l.live| ==> l.live[b] <= l'.live[b]
    ensures Holding(l', defs, web, i)
  {}

  lemma ReservedIf(defs: seq<Def>, web: Sets, i: int, exclusive: bool, head: nat, range: set<nat>, regs: set<nat>,
                   defs': seq<Def>, web': Sets)
    requires Reserved(defs, web, i, exclusive, head, range, regs)
    requires forall k: nat, b: nat :: Needs(defs', web', i, k, b) ==>
               Needs(defs, web, i, k, b) && defs'[k].btr == defs[k].btr
    ensures Reserved(defs', web', i, exclusive, head, range, regs)
  {}

  lemma WebsChanged(f: Graph, defs: seq<Def>, web: Sets, defs': seq<Def>, web': Sets, i: nat)
    requires WebsOk(f, defs, web) && |defs'| == |web'| == |defs| && i < |defs| && WebOk(f, defs'[i], web'[i])
    requires forall k :: 0 <= k < |defs| && k != i ==> web'[k] == web[k] && (defs'[k] == defs[k] || defs'[k].uses == [])
    ensures WebsOk(f, defs', web')
  {
    hide RangeOk;
    forall k | 0 <= k < |defs| ensures WebOk(f, defs'[k], web'[k]) {
      assert WebOk(f, defs[k], web[k]);
    }
  }

  lemma WebRange(f: Graph, d: Def)
    requires |f.freq| == |f.preds| && DefOk(f, d) && d.range.Range?
    ensures WebOk(f, d, d.range.blocks)
  {}

  /** The effect on the blocks that a definition shared, once its uses were spliced and its register cleared. */
  lemma TakenShared(f: Graph, e0: Def, e: Def, d: Def, l: Liveness, l': Liveness)
    requires |f.freq| == |f.preds| == |l.live| && DefOk(f, e) && e.movable && e.uses != [] && e.range.Range?
    requires e.(range := Unknown) == e0.(range := Unknown) && ClearedBy(Spliced(e, d), e.range.blocks, l, l')
    ensures RangeOk(f, e0.bb, e0.uses, e.range.blocks) && e0.uses != []
    ensures ClearedBy(Spliced(e0, d), e.range.blocks, l, l')
    ensures (forall b :: b in e.range.blocks && b < |l.live| ==> e0.btr in l.live[b]) ==>
              (SharedLive(e0, e.range.blocks, l') <==> EdgesSurvive(e0, d))
  {
    var u, v := e.(range := Unknown), e0.(range := Unknown);
    assert u.uses == v.uses && u.bb == v.bb && u.btr == v.btr;
    assert u.usesBefore == v.usesBefore && u.usesAfter == v.usesAfter;
    assert forall b :: AtEdge(Spliced(e, d), b) == AtEdge(Spliced(e0, d), b);
    if forall b :: b in e.range.blocks && b < |l.live| ==> e0.btr in l.live[b] {
      SharedKept(e0, d, e.range.blocks, l, l');
    }
  }

  lemma RangeKnown(f: Graph, l: Liveness, defs: seq<Def>, web: Sets, i: nat, range: MaybeRange, exclusive: bool,
                   regs: set<nat>)
    requires Holding(l, defs, web, -1) && Sharing(defs, web, -1) && WebsOk(f, defs, web) && i < |defs|
    requires WebOk(f, defs[i].(range := range), web[i])
    ensures var defs' := defs[i := defs[i].(range := range)];
            && Holding(l, defs', web, -1) && Sharing(defs', web, -1) && WebsOk(f, defs', web)
            && forall head, blocks :: Reserved(defs, web, i, exclusive, head, blocks, regs) ==>
                 Reserved(defs', web, i, exclusive, head, blocks, regs)
  {
    hide RangeOk;
    var defs' := defs[i := defs[i].(range := range)];
    assert forall i': int, k: nat, b: nat :: Needs(defs', web, i', k, b) == Needs(defs, web, i', k, b);
    assert forall k, b :: 0 <= k < |defs| ==> AtFirstEdge(defs'[k], b) == AtFirstEdge(defs[k], b);
    WebsChanged(f, defs, web, defs', web, i);
  }

  lemma Forgotten(f: Graph, l: Liveness, defs: seq<Def>, web: Sets, i: nat)
    requires Holding(l, defs, web, -1) && Sharing(defs, web, -1) && WebsOk(f, defs, web) && i < |defs|
    ensures var defs' := defs[i := defs[i].(range := Unknown)];
            Holding(l, defs', web, -1) && Sharing(defs', web, -1) && WebsOk(f, defs', web)
  {
    hide RangeOk, Holding, Sharing;
    assert WebOk(f, defs[i], web[i]);
    RangeKnown(f, l, defs, web, i, Unknown, false, {});
  }

  lemma WebLeast(f: Graph, defs: seq<Def>, web: Sets, j: nat)
    requires WebsOk(f, defs, web) && j < |defs| && defs[j].movable && defs[j].uses != []
    ensures RangeOk(f, defs[j].bb, defs[j].uses, web[j]) && (defs[j].range.Range? ==> defs[j].range.blocks <= web[j])
    ensures forall range :: range <= web[j] ==> WebOk(f, defs[j].(range := Range(range)), web[j])
    ensures WebOk(f, defs[j].(range := Unknown), web[j])
  {
    hide IsRange;
    assert WebOk(f, defs[j], web[j]);
  }

  /** All that definition `i` keeps of the ownership of others when it takes over the uses of `j`. */
  lemma TakenOver(f: Graph, l: Liveness, l': Liveness, defs: seq<Def>, web: Sets, i: nat, j: nat, defs': seq<Def>,
                  web': Sets, exclusive: bool, regs: set<nat>, regs': set<nat>)
    requires Holding(l, defs, web, i) && Sharing(defs, web, i) && WebsOk(f, defs, web) && |defs| == |web|
    requires i < |defs| && j < |defs| && j != i && |defs'| == |web'| == |defs| && defs[i].range == Range(web[i])
    requires defs[j].movable && defs[j].uses != [] && defs[j].range.Range? && defs[j].range.blocks <= web[j]
    requires ClearedBy(Spliced(defs[j], defs[i]), defs[j].range.blocks, l, l') && defs'[j].uses == []
    requires forall k :: 0 <= k < |defs| && k != i && k != j ==> defs'[k] == defs[k]
    requires forall k :: 0 <= k < |defs| && k != i ==> web'[k] == web[k]
    requires |f.freq| == |f.preds| && DefOk(f, defs'[i]) && defs'[i].range == Range(web'[i])
    requires defs'[i].bb == defs[i].bb
    requires Reserved(defs, web, i, exclusive, defs[i].bb, web[i], regs) && regs <= regs'
    requires forall b :: b in web'[i] && b !in web[i] && b < |l.live| ==> l.live[b] <= regs'
    ensures Holding(l', defs', web', i) && Sharing(defs', web', i) && WebsOk(f, defs', web')
    ensures Reserved(defs', web', i, exclusive, defs'[i].bb, web'[i], regs')
  {
    hide Holding, Sharing, WebsOk, Reserved, Needs, ClearedBy, DefOk;
    MergedAside(l, l', defs, web, i, j, defs[i], defs[j].range.blocks, defs', web');
    ReservedMore(l, defs, web, i, exclusive, defs[i].bb, web[i], regs, defs[i].bb, web'[i], regs');
    ReservedIf(defs, web, i, exclusive, defs[i].bb, web'[i], regs', defs', web');
    WebRange(f, defs'[i]);
    WebsChanged(f, defs, web, defs', web', i);
  }

  /** Definition `i` is moved to the head of its new range, while the others own their registers. */
  lemma PutAside(f: Graph, l: Liveness, l': Liveness, defs: seq<Def>, web: Sets, i: nat, defs': seq<Def>, web': Sets,
                 exclusive: bool, regs: set<nat>)
    requires Holding(l, defs, web, -1) && Sharing(defs, web, -1) && WebsOk(f, defs, web)
    requires i < |defs| && defs[i].movable && defs[i].uses != [] && defs[i].range.Range?
    requires defs[i].range.blocks <= web[i] && ClearedBy(defs[i], defs[i].range.blocks, l, l')
    requires |defs'| == |defs| == |web'| && (forall k :: 0 <= k < |defs| && k != i ==> defs'[k] == defs[k])
    requires (forall k :: 0 <= k < |defs| && k != i ==> web'[k] == web[k])
    requires |f.freq| == |f.preds| && DefOk(f, defs'[i]) && defs'[i].range == Range(web'[i])
    requires Reserved(defs, web, i, exclusive, defs'[i].bb, web'[i], regs)
    ensures Holding(l', defs', web', i) && Sharing(defs', web', i) && WebsOk(f, defs', web')
    ensures Reserved(defs', web', i, exclusive, defs'[i].bb, web'[i], regs)
  {
    hide Holding, Sharing, WebsOk, Reserved, Needs, ClearedBy, DefOk;
    ClearedAside(l, l', defs, web, i);
    ChangedAside(l', defs, web, i, defs', web');
    ReservedIf(defs, web, i, exclusive, defs'[i].bb, web'[i], regs, defs', web');
    WebRange(f, defs'[i]);
    WebsChanged(f, defs, web, defs', web', i);
  }

  /** Definition `i` claims its register in its range. */
  lemma BackAgain(f: Graph, l: Liveness, l': Liveness, defs: seq<Def>, web: Sets, i: nat, defs': seq<Def>,
                  exclusive: bool, regs: set<nat>)
    requires Holding(l, defs, web, i) && Sharing(defs, web, i) && WebsOk(f, defs, web) && GraphOk(f)
    requires i < |defs| == |web| && defs[i].movable && defs[i].uses != [] && defs[i].range == Range(web[i])
    requires defs[i].btr !in regs && Reserved(defs, web, i, exclusive, defs[i].bb, web[i], regs)
    requires DefOk(f, defs[i]) && |l.live| == |l'.live| == |f.preds|
    requires defs' == defs[i := defs[i].(usesBefore := defs[i].btr in l.live[defs[i].bb], ownEnd := true)]
    requires forall b :: 0 <= b < |l.live| ==> l'.live[b] == l.live[b] + if b in web[i] then {defs[i].btr} else {}
    ensures Holding(l', defs', web, -1) && WebsOk(f, defs', web) && Alone(defs', web, i, exclusive)
    ensures Sharing(defs', web, -1) <==> HeadShared(defs', web, i)
    ensures exclusive ==> HeadShared(defs', web, i)
    ensures Reserved(defs', web, i, exclusive, defs'[i].bb, web[i], regs)
  {
    hide Sharing, WebsOk, Reserved, Needs, HeadShared, Alone;
    GraphFacts(f);
    HoldingGrown(l, l', defs, web, i);
    ChangedAside(l', defs, web, i, defs', web);
    ReservedIf(defs, web, i, exclusive, defs[i].bb, web[i], regs, defs', web);
    forall k: nat | Needs(defs', web, i, k, defs[i].bb) && k < |defs| && defs'[k].btr == defs[i].btr
      ensures defs'[i].usesBefore
    {
      assert Needs(defs, web, i, k, defs[i].bb);
    }
    WebLeast(f, defs, web, i);
    TakenBack(l', defs', web, i, exclusive, regs, |f.preds|);
    WebRange(f, defs'[i]);
    WebsChanged(f, defs, web, defs', web, i);
  }

  /** Whether definition `i` may take over definition `j`. */
  ghost predicate Eligible(f: Graph, defs: seq<Def>, i: nat, j: nat)
    requires i < |defs| && j < |defs|
  {
    j != i && defs[j].group == defs[i].group && defs[j].uses != [] && defs[j].movable
    && Dom(f.preds, defs[i].bb, defs[j].bb)
  }

  /** Definition `i` may take over none of the first `n` definitions. */
  ghost predicate NoneLeft(f: Graph, defs: seq<Def>, i: nat, n: nat)
    requires i < |defs| && n <= |defs|
  {
    forall j :: 0 <= j < n ==> !Eligible(f, defs, i, j)
  }

  lemma OneLess(f: Graph, defs: seq<Def>, defs': seq<Def>, i: nat, j: nat)
    requires i < |defs| && j < |defs| && NoneLeft(f, defs, i, j) && |defs'| == |defs| && SameSpot(defs[i], defs'[i])
    requires forall k :: 0 <= k < |defs| && k != i && k != j ==> defs'[k] == defs[k]
    requires SameSpot(defs[j], defs'[j]) && (Eligible(f, defs, i, j) ==> defs'[j].uses == [])
    requires j != i ==> defs'[j].uses == defs[j].uses || defs'[j].uses == []
    ensures NoneLeft(f, defs', i, j + 1)
  {
    hide Dom;
    forall k | 0 <= k < j + 1 ensures !Eligible(f, defs', i, k) {
      assert k < j ==> !Eligible(f, defs, i, k);
    }
  }

  lemma NoneLeftStill(f: Graph, defs: seq<Def>, defs': seq<Def>, i: nat)
    requires i < |defs| && NoneLeft(f, defs, i, |defs|) && |defs'| == |defs| && SameSpot(defs[i], defs'[i])
    requires forall k :: 0 <= k < |defs| && k != i ==> defs'[k] == defs[k]
    ensures NoneLeft(f, defs', i, |defs'|)
  {
    hide Dom;
    forall k | 0 <= k < |defs'| ensures !Eligible(f, defs', i, k) {
      assert !Eligible(f, defs, i, k);
    }
  }

  /** A block that was worth moving to, and whether a register was found for the move. */
  datatype Attempt = Attempt(block: nat, found: bool)

  /** Whether moving from block `bb` to block `t` pays: it is cheaper, or as cheap and the register was used near. */
  predicate Worth(f: Graph, t: nat, bb: nat, near: bool)
    requires t < |f.freq| && bb < |f.freq|
  {
    t !in f.complex && (f.freq[t] < f.freq[bb] || (f.freq[t] == f.freq[bb] && near))
  }

  /** The blocks from `t` upwards in the dominator tree, without ENTRY. */
  ghost function Chain(f: Graph, t: nat): (s: set<nat>)
    requires GraphOk(f) && t < |f.preds| && t != 1
    ensures forall b :: b in s ==> FIXED <= b < |f.preds| && f.depth[b] <= f.depth[t]
    decreases f.depth[t]
  {
    if t == ENTRY then {} else assert IdomOk(f, t); {t} + Chain(f, f.idom[t])
  }

  /**
   What is tried for a definition in block `bb`, from block `t` upwards while its cost is at least `minCost`: each block
   that is worth moving to, until no register is found.
   */
  ghost predicate Tried(f: Graph, minCost: int, t: nat, bb: nat, near: bool, tries: seq<Attempt>)
    requires GraphOk(f) && t < |f.preds| && t != 1 && bb < |f.preds|
    decreases f.depth[t]
  {
    if t == ENTRY || f.freq[bb] < minCost then tries == []
    else
      assert IdomOk(f, t);
      if !Worth(f, t, bb, near) then Tried(f, minCost, f.idom[t], bb, near, tries)
      else
        && tries != [] && tries[0].block == t
        && if tries[0].found then Tried(f, minCost, f.idom[t], t, false, tries[1..]) else tries[1..] == []
  }

  predicate AllFound(tries: seq<Attempt>)
  {
    forall k :: 0 <= k < |tries| ==> tries[k].found
  }

  /** Where a definition from block `bb` ends: in the last block for which a register was found. */
  function End(tries: seq<Attempt>, bb: nat): nat
  {
    if tries == [] then bb
    else var n := |tries| - 1; if tries[n].found then tries[n].block else End(tries[..n], bb)
  }

  lemma TriedSkip(f: Graph, minCost: int, t: nat, bb: nat, near: bool, tries: seq<Attempt>)
    requires GraphOk(f) && FIXED <= t < |f.preds| && bb < |f.preds| && f.freq[bb] >= minCost && !Worth(f, t, bb, near)
    ensures f.idom[t] < |f.preds| && f.idom[t] != 1
    ensures Tried(f, minCost, f.idom[t], bb, near, tries) ==> Tried(f, minCost, t, bb, near, tries)
  {
    assert IdomOk(f, t);
  }

  lemma TriedFound(f: Graph, minCost: int, t: nat, bb: nat, near: bool, rest: seq<Attempt>)
    requires GraphOk(f) && FIXED <= t < |f.preds| && bb < |f.preds| && f.freq[bb] >= minCost && Worth(f, t, bb, near)
    ensures f.idom[t] < |f.preds| && f.idom[t] != 1
    ensures Tried(f, minCost, f.idom[t], t, false, rest) ==> Tried(f, minCost, t, bb, near, [Attempt(t, true)] + rest)
  {
    assert IdomOk(f, t);
    assert ([Attempt(t, true)] + rest)[1..] == rest;
  }

  lemma TriedLost(f: Graph, minCost: int, t: nat, bb: nat, near: bool)
    requires GraphOk(f) && FIXED <= t < |f.preds| && bb < |f.preds| && f.freq[bb] >= minCost && Worth(f, t, bb, near)
    ensures Tried(f, minCost, t, bb, near, [Attempt(t, false)])
  {}

  lemma TriedDone(f: Graph, minCost: int, t: nat, bb: nat, near: bool)
    requires GraphOk(f) && t < |f.preds| && t != 1 && bb < |f.preds| && (t == ENTRY || f.freq[bb] < minCost)
    ensures Tried(f, minCost, t, bb, near, [])
  {}

  lemma EndMore(tries: seq<Attempt>, a: Attempt, bb: nat)
    ensures End(tries + [a], bb) == if a.found then a.block else End(tries, bb)
  {
    assert (tries + [a])[..|tries|] == tries;
  }

  lemma {:induction false} EndCons(a: Attempt, rest: seq<Attempt>, bb: nat)
    ensures End([a] + rest, bb) == End(rest, if a.found then a.block else bb)
    decreases |rest|
  {
    if rest == [] {
      assert [a] + rest == [a];
    } else {
      var n := |rest| - 1;
      assert ([a] + rest)[..|rest|] == [a] + rest[..n];
      EndCons(a, rest[..n], bb);
    }
  }

  lemma IdomOf(f: Graph, t: nat)
    requires GraphOk(f) && FIXED <= t < |f.preds|
    ensures f.idom[t] < |f.preds| && f.idom[t] != 1 && f.depth[f.idom[t]] < f.depth[t]
  {
    assert IdomOk(f, t);
  }

  /**
   Where a definition ends if not where it was: in a block without complex edges, cheaper than the one it was in, or as
   cheap if its register was used near. It is no more expensive than the first block for which a register was found.
   */
  lemma {:induction false} TriedEnd(f: Graph, minCost: int, t: nat, bb: nat, near: bool, tries: seq<Attempt>)
    requires GraphOk(f) && t < |f.preds| && t != 1 && bb < |f.preds| && Tried(f, minCost, t, bb, near, tries)
    ensures var e := End(tries, bb);
            && e < |f.preds|
            && (e == bb || (e !in f.complex && (f.freq[e] < f.freq[bb] || (near && f.freq[e] == f.freq[bb]))))
            && (e == bb || f.depth[e] <= f.depth[t])
            && (tries != [] && tries[0].found ==>
                  tries[0].block < |f.preds| && f.freq[e] <= f.freq[tries[0].block] && f.depth[e] <= f.depth[t])
    decreases f.depth[t]
  {
    if t != ENTRY && f.freq[bb] >= minCost {
      IdomOf(f, t);
      if !Worth(f, t, bb, near) {
        TriedEnd(f, minCost, f.idom[t], bb, near, tries);
      } else {
        assert tries == [tries[0]] + tries[1..];
        EndCons(tries[0], tries[1..], bb);
        if tries[0].found {
          TriedEnd(f, minCost, f.idom[t], t, false, tries[1..]);
        }
      }
    }
  }

  /**
   What is tried first is the first block on the way up that is worth moving to; nothing is tried exactly when there is
   none. Where the definition ends is no more expensive than the first block for which a register was found.
   */
  lemma {:induction false} FirstTried(f: Graph, minCost: int, t: nat, bb: nat, near: bool, tries: seq<Attempt>)
    requires GraphOk(f) && t < |f.preds| && t != 1 && bb < |f.preds| && Tried(f, minCost, t, bb, near, tries)
    ensures f.freq[bb] >= minCost ==> (tries == [] <==> forall b :: b in Chain(f, t) ==> !Worth(f, b, bb, near))
    ensures tries != [] ==>
              var b := tries[0].block;
              && b in Chain(f, t) && Worth(f, b, bb, near)
              && forall c :: c in Chain(f, t) && f.depth[c] > f.depth[b] ==> !Worth(f, c, bb, near)
    decreases f.depth[t]
  {
    hide IdomOk;
    if t != ENTRY && f.freq[bb] >= minCost && !Worth(f, t, bb, near) {
      IdomOf(f, t);
      FirstTried(f, minCost, f.idom[t], bb, near, tries);
    } else if t != ENTRY && f.freq[bb] >= minCost {
      IdomOf(f, t);
      assert t in Chain(f, t);
    }
  }

  /** The registers that may be used and are live nowhere. */
  ghost function Spare(allBtrs: set<nat>, l: Liveness): set<nat>
  {
    set r | r in allBtrs && !AnyLive(l, r)
  }

  lemma SpareLess(allBtrs: set<nat>, l: Liveness, l': Liveness, left: set<nat>, r: nat)
    requires left <= Spare(allBtrs, l) && OnlyNew(l, l', {r})
    ensures left - {r} <= Spare(allBtrs, l') && |left - {r}| >= |left| - 1
  {
    assert left - {r} == if r in left then left - {r} else left;
  }

  lemma SpareAtLeast(left: set<nat>, s: set<nat>)
    requires left <= s
    ensures |left| <= |s|
  {
    assert s == left + (s - left);
  }

  /** No block above is cheaper, but for those with complex edges. */
  ghost predicate CheapHere(f: Graph, bb: nat)
    requires GraphOk(f) && FIXED <= bb < |f.preds|
  {
    IdomOf(f, bb);
    forall b :: b in Chain(f, f.idom[bb]) ==> b in f.complex || f.freq[b] >= f.freq[bb]
  }

  /** How many of the attempts found a register. */
  function Founds(tries: seq<Attempt>, giveUp: bool): int
  {
    if giveUp then |tries| - 1 else |tries|
  }

  /** The attempts so far, from `t0` and `bb0`, with the definition now in `bb` and `t` next. */
  ghost predicate Climbing(f: Graph, minCost: int, t0: nat, bb0: nat, near0: bool, t: nat, bb: nat, near: bool,
                           giveUp: bool, tries: seq<Attempt>)
    requires GraphOk(f) && t0 < |f.preds| && t0 != 1 && bb0 < |f.preds| && t < |f.preds| && t != 1 && bb < |f.preds|
  {
    && End(tries, bb0) == bb
    && if giveUp then
         tries != [] && !tries[|tries| - 1].found && AllFound(tries[..|tries| - 1])
         && Tried(f, minCost, t0, bb0, near0, tries)
       else
         AllFound(tries) && forall rest :: Tried(f, minCost, t, bb, near, rest) ==>
                                             Tried(f, minCost, t0, bb0, near0, tries + rest)
  }

  lemma ClimbStart(f: Graph, minCost: int, t: nat, bb: nat, near: bool)
    requires GraphOk(f) && t < |f.preds| && t != 1 && bb < |f.preds|
    ensures Climbing(f, minCost, t, bb, near, t, bb, near, false, [])
  {
    hide Tried;
    forall rest | Tried(f, minCost, t, bb, near, rest) ensures Tried(f, minCost, t, bb, near, [] + rest) {
      assert [] + rest == rest;
    }
  }

  lemma ClimbStep(f: Graph, minCost: int, t0: nat, bb0: nat, near0: bool, t: nat, bb: nat, near: bool,
                  tries: seq<Attempt>, giveUp: bool, tried: seq<Attempt>)
    requires GraphOk(f) && t0 < |f.preds| && t0 != 1 && bb0 < |f.preds| && FIXED <= t < |f.preds| && bb < |f.preds|
    requires Climbing(f, minCost, t0, bb0, near0, t, bb, near, false, tries) && f.freq[bb] >= minCost
    requires tried == if Worth(f, t, bb, near) then [Attempt(t, !giveUp)] else []
    requires giveUp ==> tried != []
    ensures f.idom[t] < |f.preds| && f.idom[t] != 1
    ensures var bb' := if tried == [Attempt(t, true)] then t else bb;
            Climbing(f, minCost, t0, bb0, near0, f.idom[t], bb', near && tried != [Attempt(t, true)], giveUp,
                     tries + tried)
  {
    hide Tried, End, GraphOk;
    GraphFacts(f);
    IdomOf(f, t);
    if tried == [] {
      assert tries + tried == tries;
      forall rest | Tried(f, minCost, f.idom[t], bb, near, rest)
        ensures Tried(f, minCost, t0, bb0, near0, tries + rest) {
        TriedSkip(f, minCost, t, bb, near, rest);
      }
    } else {
      EndMore(tries, tried[0], bb0);
      if giveUp {
        TriedLost(f, minCost, t, bb, near);
        assert (tries + tried)[..|tries + tried| - 1] == tries;
      } else {
        forall rest | Tried(f, minCost, f.idom[t], t, false, rest)
          ensures Tried(f, minCost, t0, bb0, near0, tries + tried + rest)
        {
          TriedFound(f, minCost, t, bb, near, rest);
          assert tries + tried + rest == tries + (tried + rest);
        }
      }
    }
  }

  lemma ClimbEnd(f: Graph, minCost: int, t0: nat, bb0: nat, near0: bool, t: nat, bb: nat, near: bool, giveUp: bool,
                 tries: seq<Attempt>)
    requires GraphOk(f) && t0 < |f.preds| && t0 != 1 && bb0 < |f.preds| && t < |f.preds| && t != 1 && bb < |f.preds|
    requires Climbing(f, minCost, t0, bb0, near0, t, bb, near, giveUp, tries)
    requires giveUp || t == ENTRY || f.freq[bb] < minCost
    ensures Tried(f, minCost, t0, bb0, near0, tries) && End(tries, bb0) == bb && (AllFound(tries) <==> !giveUp)
    ensures giveUp ==> tries != [] && AllFound(tries[..|tries| - 1])
  {
    hide Tried, End, GraphOk;
    if !giveUp {
      TriedDone(f, minCost, t, bb, near);
      assert tries + [] == tries;
    }
  }

  /** Each move takes at most one register that was live nowhere, and none is found only when there are no more. */
  ghost predicate Supplied(allBtrs: set<nat>, supply: nat, l: Liveness, regs: set<nat>, left: set<nat>, n: int,
                           giveUp: bool)
  {
    left <= Spare(allBtrs, l) && |left| + n >= supply && if giveUp then supply <= n else left !! regs
  }

  lemma SupplyStep(allBtrs: set<nat>, supply: nat, l: Liveness, regs: set<nat>, left: set<nat>, n: int,
                   l': Liveness, regs': set<nat>, r: nat, tries: seq<Attempt>, tried: seq<Attempt>, giveUp: bool)
      returns (left': set<nat>)
    requires Supplied(allBtrs, supply, l, regs, left, n, false) && n == |tries| && (giveUp ==> |tried| == 1)
    requires Backed(l, regs, regs') && OnlyNew(l, l', {r}) && |tried| <= 1
    requires (tried == [] || giveUp ==> l' == l) && (tried == [] ==> regs' == regs)
    requires HasSpare(allBtrs, l, regs) ==> !giveUp
    ensures Supplied(allBtrs, supply, l', regs', left', Founds(tries + tried, giveUp), giveUp)
  {
    if left != {} {
      var q :| q in left;
      assert HasSpare(allBtrs, l, regs);
    }
    if tried == [] || giveUp {
      left' := left;
    } else {
      left' := left - {r};
      SpareLess(allBtrs, l, l', left, r);
      forall q | q in left' ensures q !in regs' {
        assert q !in regs && !AnyLive(l, q);
      }
    }
  }

  lemma SupplyStart(allBtrs: set<nat>, l: Liveness, regs: set<nat>)
    requires Backed(l, {}, regs)
    ensures Supplied(allBtrs, |Spare(allBtrs, l)|, l, regs, Spare(allBtrs, l), 0, false)
  {}

  /** Nothing stands in the way of a definition but what is live. */
  lemma FoundBacked(l: Liveness, d: Def, exclusive: bool, range: set<nat>, regs: set<nat>)
    requires d.bb < |l.live| == |l.atEnd|
    requires forall r :: r in regs ==> InTheWay(l, d, exclusive, range, r) || r in l.live[d.bb]
    ensures Backed(l, {}, regs)
  {
    forall r | r in regs ensures AnyLive(l, r) {
      if d.range.Unknown? && LiveIn(l.live, l.atEnd, range - {d.bb}, r) {
        LiveSomewhere(l, range - {d.bb}, r);
      }
    }
  }

  /** Definition `j` is done: it is where no block above is cheaper, unless it cannot move or lacked a register. */
  ghost predicate Rests(f: Graph, d: Def, j: nat, short: set<nat>)
    requires GraphOk(f) && FIXED <= d.bb < |f.preds|
  {
    !d.movable || d.uses == [] || j in short || CheapHere(f, d.bb)
  }

  lemma RestsOn(f: Graph, d: Def, d': Def, j: nat, short: set<nat>, short': set<nat>)
    requires GraphOk(f) && FIXED <= d.bb < |f.preds| && Rests(f, d, j, short) && SameSpot(d, d') && short <= short'
    requires d'.uses == d.uses || d'.uses == []
    ensures Rests(f, d', j, short')
  {}

  ghost predicate AllRest(f: Graph, defs: seq<Def>, done: set<nat>, short: set<nat>)
    requires GraphOk(f)
  {
    forall j :: j in done ==> j < |defs| && FIXED <= defs[j].bb < |f.preds| && Rests(f, defs[j], j, short)
  }

  lemma NoneDone(f: Graph, defs: seq<Def>)
    requires GraphOk(f)
    ensures AllRest(f, defs, {}, {})
  {}

  lemma RestAll(f: Graph, defs: seq<Def>, defs': seq<Def>, done: set<nat>, i: nat, short: set<nat>, short': set<nat>,
                again: bool, lacked: bool)
    requires GraphOk(f) && AllRest(f, defs, done, short) && i < |defs| == |defs'| && i !in done
    requires forall j :: 0 <= j < |defs| && j != i ==> SameSpot(defs[j], defs'[j])
    requires forall j :: 0 <= j < |defs| && j != i ==> defs'[j].uses == defs[j].uses || defs'[j].uses == []
    requires FIXED <= defs'[i].bb < |f.preds|
    requires !again ==> Rests(f, defs'[i], i, if lacked then {i} else {})
    requires short' == if lacked then short + {i} else short
    ensures AllRest(f, defs', if again then done else done + {i}, short')
  {
    hide GraphOk, Rests;
    forall j | j in done ensures Rests(f, defs'[j], j, short') {
      RestsOn(f, defs[j], defs'[j], j, short, short');
    }
    if !again {
      RestsOn(f, defs'[i], defs'[i], i, if lacked then {i} else {}, short');
    }
  }

  lemma Stuck(f: Graph, minCost: int, bb: nat, near: bool)
    requires GraphOk(f) && FIXED <= bb < |f.preds| && f.freq[bb] >= minCost
    requires f.idom[bb] < |f.preds| && f.idom[bb] != 1 ==> Tried(f, minCost, f.idom[bb], bb, near, [])
    ensures CheapHere(f, bb)
  {
    IdomOf(f, bb);
    FirstTried(f, minCost, f.idom[bb], bb, near, []);
  }

  lemma {:induction false} DepthWithin(f: Graph, defs: seq<Def>, i: nat)
    requires (forall j :: 0 <= j < |defs| ==> defs[j].bb < |f.depth|) && i < |defs|
    ensures f.depth[defs[i].bb] <= TotalDepth(f, defs)
    decreases |defs|
  {
    var n := |defs| - 1;
    if i < n {
      DepthWithin(f, defs[..n], i);
    }
  }

  /** How far the attempts have come: they are as they must be, and registers are found while the supply lasts. */
  ghost predicate Progress(f: Graph, allBtrs: set<nat>, minCost: int, supply: nat, bb0: nat, near0: bool, t: nat,
                           bb: nat, near: bool, giveUp: bool, l: Liveness, regs: set<nat>, left: set<nat>,
                           tries: seq<Attempt>)
    requires GraphOk(f) && FIXED <= bb0 < |f.preds|
  {
    IdomOf(f, bb0);
    && t < |f.preds| && t != 1 && bb < |f.preds|
    && Climbing(f, minCost, f.idom[bb0], bb0, near0, t, bb, near, giveUp, tries)
    && Supplied(allBtrs, supply, l, regs, left, Founds(tries, giveUp), giveUp)
    && f.depth[bb] + Founds(tries, giveUp) <= f.depth[bb0] && (giveUp ==> tries != [])
  }

  lemma ProgressStart(f: Graph, allBtrs: set<nat>, minCost: int, bb0: nat, near0: bool, l: Liveness, regs: set<nat>)
    requires GraphOk(f) && FIXED <= bb0 < |f.preds| && Backed(l, {}, regs)
    ensures f.idom[bb0] < |f.preds| && f.idom[bb0] != 1
    ensures Progress(f, allBtrs, minCost, |Spare(allBtrs, l)|, bb0, near0, f.idom[bb0], bb0, near0, false, l, regs,
                     Spare(allBtrs, l), [])
  {
    hide Climbing, Supplied;
    IdomOf(f, bb0);
    ClimbStart(f, minCost, f.idom[bb0], bb0, near0);
    SupplyStart(allBtrs, l, regs);
  }

  lemma ProgressStep(f: Graph, allBtrs: set<nat>, minCost: int, supply: nat, bb0: nat, near0: bool, t: nat, bb: nat,
                     near: bool, l: Liveness, regs: set<nat>, left: set<nat>, tries: seq<Attempt>, giveUp: bool,
                     l': Liveness, regs': set<nat>, r: nat, tried: seq<Attempt>)
      returns (left': set<nat>)
    requires GraphOk(f) && FIXED <= bb0 < |f.preds| && FIXED <= t < |f.preds| && bb < |f.preds|
    requires Progress(f, allBtrs, minCost, supply, bb0, near0, t, bb, near, false, l, regs, left, tries)
    requires f.freq[bb] >= minCost && Candidate(f, t, bb) && (giveUp ==> tried != [])
    requires tried == if Worth(f, t, bb, near) then [Attempt(t, !giveUp)] else []
    requires Backed(l, regs, regs') && OnlyNew(l, l', {r}) && (tried == [] || giveUp ==> l' == l)
    requires (tried == [] ==> regs' == regs) && (HasSpare(allBtrs, l, regs) ==> !giveUp)
    ensures f.idom[t] < |f.preds|
    ensures Progress(f, allBtrs, minCost, supply, bb0, near0, f.idom[t], if tried == [Attempt(t, true)] then t else bb,
                     near && tried != [Attempt(t, true)], giveUp, l', regs', left', tries + tried)
  {
    hide Climbing, Supplied, Dom, Tried, Backed, OnlyNew, HasSpare;
    IdomOf(f, bb0);
    ClimbStep(f, minCost, f.idom[bb0], bb0, near0, t, bb, near, tries, giveUp, tried);
    left' := SupplyStep(allBtrs, supply, l, regs, left, |tries|, l', regs', r, tries, tried, giveUp);
  }

  lemma SupplyEnd(allBtrs: set<nat>, supply: nat, l: Liveness, regs: set<nat>, left: set<nat>, tries: seq<Attempt>,
                  giveUp: bool)
    requires Supplied(allBtrs, supply, l, regs, left, Founds(tries, giveUp), giveUp)
    requires if giveUp then tries != [] && AllFound(tries[..|tries| - 1]) else AllFound(tries)
    ensures forall k :: 0 <= k < |tries| && k < supply ==> tries[k].found
    ensures |Spare(allBtrs, l)| + Founds(tries, giveUp) >= supply && (giveUp ==> supply <= Founds(tries, giveUp))
  {
    SpareAtLeast(left, Spare(allBtrs, l));
    if giveUp {
      forall k | 0 <= k < |tries| && k < supply ensures tries[k].found {
        assert tries[..|tries| - 1][k].found;
      }
    }
  }

  /**
   What comes of a definition in block `bb0` when `supply` registers were live nowhere before. The attempts are exactly
   those that pay, in their order, and the definition ends in `bb`, where the last register was found; that is no more
   expensive than the first block for which one was found. A register is found while the supply lasts.
   */
  ghost predicate Climbed(f: Graph, allBtrs: set<nat>, minCost: int, bb0: nat, near: bool, bb: nat, supply: nat,
                          l: Liveness, tries: seq<Attempt>)
    requires GraphOk(f) && FIXED <= bb0 < |f.preds|
  {
    IdomOf(f, bb0);
    && bb < |f.preds| && bb == End(tries, bb0) && Tried(f, minCost, f.idom[bb0], bb0, near, tries)
    && (tries != [] && tries[0].found ==>
          tries[0].block < |f.preds| && bb != bb0 && f.freq[bb] <= f.freq[tries[0].block])
    && (bb == bb0 || bb !in f.complex)
    && (forall k :: 0 <= k < |tries| && k < supply ==> tries[k].found)
    && |Spare(allBtrs, l)| + f.depth[bb0] >= supply + f.depth[bb]
    && (!AllFound(tries) ==> supply + f.depth[bb] <= f.depth[bb0])
  }

  lemma ProgressEnd(f: Graph, allBtrs: set<nat>, minCost: int, supply: nat, bb0: nat, near0: bool, t: nat, bb: nat,
                    near: bool, giveUp: bool, l: Liveness, regs: set<nat>, left: set<nat>, tries: seq<Attempt>)
    requires GraphOk(f) && FIXED <= bb0 < |f.preds|
    requires Progress(f, allBtrs, minCost, supply, bb0, near0, t, bb, near, giveUp, l, regs, left, tries)
    requires bb < |f.preds| && (giveUp || t == ENTRY || f.freq[bb] < minCost)
    ensures Climbed(f, allBtrs, minCost, bb0, near0, bb, supply, l, tries) && (AllFound(tries) <==> !giveUp)
  {
    hide Climbing, Supplied, Tried, End, Spare;
    IdomOf(f, bb0);
    ClimbEnd(f, minCost, f.idom[bb0], bb0, near0, t, bb, near, giveUp, tries);
    TriedEnd(f, minCost, f.idom[bb0], bb0, near0, tries);
    SupplyEnd(allBtrs, supply, l, regs, left, tries, giveUp);
  }

  lemma Started(f: Graph, d: Def)
    requires GraphOk(f) && |f.freq| == |f.preds| && DefOk(f, d)
    ensures FIXED <= d.bb < |f.idom| && f.idom[d.bb] < |f.preds| && f.idom[d.bb] != 1 && End([], d.bb) == d.bb
    ensures Candidate(f, f.idom[d.bb], d.bb)
  {
    DomSelf(f.preds, d.bb);
    NextCandidate(f, d.bb, d.bb);
    IdomOf(f, d.bb);
  }

  lemma UsesTrans(was: seq<Def>, was1: seq<Def>, now: seq<Def>)
    requires SameUses(was, was1) && SameUses(was1, now)
    ensures SameUses(was, now)
  {}

  /** The registers live nowhere last for as many moves, and no definition lacks one as long as they last. */
  ghost predicate Supply(f: Graph, allBtrs: set<nat>, was: seq<Def>, l0: Liveness, defs: seq<Def>, l: Liveness,
                         short: set<nat>)
    requires forall j :: 0 <= j < |was| ==> was[j].bb < |f.depth|
    requires forall j :: 0 <= j < |defs| ==> defs[j].bb < |f.depth|
  {
    && |Spare(allBtrs, l0)| + TotalDepth(f, defs) <= |Spare(allBtrs, l)| + TotalDepth(f, was)
    && (short != {} ==> |Spare(allBtrs, l0)| <= TotalDepth(f, was))
  }

  lemma SupplyFull(f: Graph, allBtrs: set<nat>, defs: seq<Def>, l: Liveness)
    requires forall j :: 0 <= j < |defs| ==> defs[j].bb < |f.depth|
    ensures Supply(f, allBtrs, defs, l, defs, l, {})
  {}

  lemma SupplyOn(f: Graph, allBtrs: set<nat>, was: seq<Def>, l0: Liveness, defs: seq<Def>, l: Liveness,
                 defs': seq<Def>, l': Liveness, i: nat, short: set<nat>, short': set<nat>, lacked: bool)
    requires forall j :: 0 <= j < |was| ==> was[j].bb < |f.depth|
    requires forall j :: 0 <= j < |defs| ==> defs[j].bb < |f.depth|
    requires forall j :: 0 <= j < |defs'| ==> defs'[j].bb < |f.depth|
    requires Supply(f, allBtrs, was, l0, defs, l, short) && i < |defs| == |defs'|
    requires TotalDepth(f, defs') + f.depth[defs[i].bb] == TotalDepth(f, defs) + f.depth[defs'[i].bb]
    requires |Spare(allBtrs, l')| + f.depth[defs[i].bb] >= |Spare(allBtrs, l)| + f.depth[defs'[i].bb]
    requires lacked ==> |Spare(allBtrs, l)| + f.depth[defs'[i].bb] <= f.depth[defs[i].bb]
    requires !lacked ==> short' == short
    ensures Supply(f, allBtrs, was, l0, defs', l', short')
  {
    hide TotalDepth, Spare;
  }

  lemma SupplyEnough(f: Graph, allBtrs: set<nat>, was: seq<Def>, l0: Liveness, defs: seq<Def>, l: Liveness,
                     short: set<nat>)
    requires forall j :: 0 <= j < |was| ==> was[j].bb < |f.depth|
    requires forall j :: 0 <= j < |defs| ==> defs[j].bb < |f.depth|
    requires Supply(f, allBtrs, was, l0, defs, l, short)
    ensures |Spare(allBtrs, l0)| > TotalDepth(f, was) ==> short == {}
  {}

  /**
   `d'` is `d` after it took over `e`: it has the uses of both, a range that contains the old one, and tells of other
   live ranges in blocks of uses if it did before, or if `e` did and its register is the new one.
   */
  ghost predicate TakesFrom(d: Def, e: Def, d': Def)
  {
    && multiset(d'.uses) == multiset(d.uses) + multiset(e.uses)
    && d.range.Range? && d'.range.Range? && d.range.blocks <= d'.range.blocks
    && d'.usesBefore == d.usesBefore && d'.ownEnd == d.ownEnd
    && d'.usesAfter == (d.usesAfter || (e.btr == d'.btr && e.usesAfter))
  }

  lemma Takes(d: Def, e: Def, combined: set<nat>, btr: nat)
    requires d.range.Range? && d.range.blocks <= combined
    ensures TakesFrom(d, e, d.(uses := Reverse(e.uses) + d.uses, range := Range(combined), btr := btr,
                               usesAfter := d.usesAfter || (e.btr == btr && e.usesAfter)))
  {
    ReverseCount(e.uses);
  }

  lemma TakesAlike(d: Def, e: Def, e0: Def, d': Def)
    requires TakesFrom(d, e, d') && e.(range := Unknown) == e0.(range := Unknown)
    ensures TakesFrom(d, e0, d')
  {
    var u, v := e.(range := Unknown), e0.(range := Unknown);
    assert u.uses == v.uses && u.btr == v.btr && u.usesAfter == v.usesAfter;
  }

  /** Between two turns, with the definitions `was`, liveness `l0` and queue `q0` at the start. */
  ghost predicate Serving(f: Graph, allBtrs: set<nat>, was: seq<Def>, l0: Liveness, q0: set<nat>, defs: seq<Def>,
                          l: Liveness, queue: set<nat>, short: set<nat>)
  {
    && GraphOk(f) && AllMoved(f, was, defs) && SameUses(was, defs) && queue <= q0
    && (forall i :: i in queue ==> i < |defs|)
    && |f.depth| == |f.preds| && (forall j :: 0 <= j < |was| ==> was[j].bb < |f.depth|)
    && (forall j :: 0 <= j < |defs| ==> FIXED <= defs[j].bb < |f.depth|)
    && AllRest(f, defs, q0 - queue, short) && Supply(f, allBtrs, was, l0, defs, l, short)
  }

  lemma ServingFacts(f: Graph, allBtrs: set<nat>, was: seq<Def>, l0: Liveness, q0: set<nat>, defs: seq<Def>,
                     l: Liveness, queue: set<nat>, short: set<nat>)
    requires Serving(f, allBtrs, was, l0, q0, defs, l, queue, short)
    ensures GraphOk(f) && |f.depth| == |f.preds| && forall i :: i in queue ==> i < |defs|
    ensures forall j :: 0 <= j < |defs| ==> FIXED <= defs[j].bb < |f.depth|
  {}

  lemma QueueAfter(q0: set<nat>, q: set<nat>, i: nat, again: bool)
    requires q <= q0 && i in q
    ensures var q' := if again then q - {i} + {i} else q - {i};
            && q' <= q && q0 - q' == (if again then q0 - q else q0 - q + {i}) && |q'| + (if again then 0 else 1) == |q|
  {
    assert again ==> q - {i} + {i} == q;
    assert !again ==> q0 - (q - {i}) == q0 - q + {i};
    assert |q - {i}| + 1 == |q|;
  }

  /** One turn more, in which definition `i` of the queue `q` was served. */
  lemma TurnOn(f: Graph, allBtrs: set<nat>, was: seq<Def>, l0: Liveness, q0: set<nat>, defs: seq<Def>, l: Liveness,
               q: set<nat>, short: set<nat>, defs': seq<Def>, l': Liveness, i: nat, again: bool, lacked: bool)
    requires Serving(f, allBtrs, was, l0, q0, defs, l, q, short) && i in q && i < |defs| == |defs'|
    requires SameUses(defs, defs') && Moved(f, defs[i], defs'[i])
    requires forall j :: 0 <= j < |defs| && j != i ==> SameSpot(defs[j], defs'[j])
    requires forall j :: 0 <= j < |defs| && j != i ==> defs'[j].uses == defs[j].uses || defs'[j].uses == []
    requires forall j :: 0 <= j < |defs'| ==> FIXED <= defs'[j].bb < |f.depth|
    requires forall j :: 0 <= j < |defs| ==> FIXED <= defs[j].bb < |f.depth|
    requires TotalDepth(f, defs') + f.depth[defs[i].bb] == TotalDepth(f, defs) + f.depth[defs'[i].bb]
    requires |Spare(allBtrs, l')| + f.depth[defs[i].bb] >= |Spare(allBtrs, l)| + f.depth[defs'[i].bb]
    requires lacked ==> |Spare(allBtrs, l)| + f.depth[defs'[i].bb] <= f.depth[defs[i].bb]
    requires |f.depth| == |f.preds| && GraphOk(f)
    requires !again ==> Rests(f, defs'[i], i, if lacked then {i} else {}) && f.depth[defs'[i].bb] <= f.depth[defs[i].bb]
    requires again ==> f.depth[defs'[i].bb] < f.depth[defs[i].bb]
    ensures Serving(f, allBtrs, was, l0, q0, defs', l', if again then q - {i} + {i} else q - {i},
                    if lacked then short + {i} else short)
    ensures TotalDepth(f, defs') + |if again then q - {i} + {i} else q - {i}| < TotalDepth(f, defs) + |q|
  {
    hide GraphOk, UseCount, TotalDepth, Spare, Rests, AllMoved, SameUses, Supply, AllRest, Moved, SameSpot;
    var short' := if lacked then short + {i} else short;
    MovedOn(f, was, defs, defs', i);
    UsesTrans(was, defs, defs');
    SupplyOn(f, allBtrs, was, l0, defs, l, defs', l', i, short, short', lacked);
    RestAll(f, defs, defs', q0 - q, i, short, short', again, lacked);
    QueueAfter(q0, q, i, again);
  }

  lemma NoTries(bb: nat)
    ensures End([], bb) == bb && AllFound([])
  {}

  lemma CandidateReal(f: Graph, t: nat, bb: nat)
    requires |f.depth| == |f.preds| && bb < |f.preds| && t != ENTRY && Candidate(f, t, bb)
    ensures FIXED <= t < |f.preds|
  {}

  lemma CostIs(f: Graph, defs: seq<Def>, i: nat)
    requires DefsOk(f, defs) && i < |defs|
    ensures |f.freq| == |f.preds| && defs[i].bb < |f.preds| && defs[i].cost == f.freq[defs[i].bb]
  {
    assert DefOk(f, defs[i]);
  }

  lemma GivenTrans(was: seq<Def>, was1: seq<Def>, now: seq<Def>, i: nat)
    requires |was| == |was1| == |now|
    requires forall j :: 0 <= j < |was| && j != i ==> was1[j].uses == was[j].uses || was1[j].uses == []
    requires forall j :: 0 <= j < |was| && j != i ==> now[j].uses == was1[j].uses || now[j].uses == []
    ensures forall j :: 0 <= j < |was| && j != i ==> now[j].uses == was[j].uses || now[j].uses == []
  {}

  /** What augmenting a range upwards adds to the registers is live. */
  lemma AugmentBacked(l: Liveness, range0: set<nat>, regs0: set<nat>, head: nat, block: nat, full: bool,
                      range: set<nat>, regs: set<nat>)
    requires head < |l.live| == |l.atEnd| && block < |l.live| && block != head
    requires RegsOk(l.live, l.atEnd, range0, regs0, head, block, full, false, range, regs)
    ensures Backed(l, regs0, regs)
  {
    forall r | r in regs && r !in regs0 ensures AnyLive(l, r) {
      if LiveIn(l.live, l.atEnd, range - (range0 + {block}), r) {
        LiveSomewhere(l, range - (range0 + {block}), r);
      } else {
        assert r in l.live[head] || r in l.atEnd[block] || r in l.live[block];
      }
    }
  }

  class Mover {
    const f: Graph
    const allBtrs: set<nat>
    const order: seq<nat>
    const exclusive: bool
    var defs: seq<Def>
    var l: Liveness
    var queue: set<nat>
    /** The blocks in which each definition needs its register. */
    ghost var web: Sets

    constructor (f: Graph, allBtrs: set<nat>, order: seq<nat>, exclusive: bool, defs: seq<Def>, l: Liveness,
                 queue: set<nat>, ghost web: Sets)
      ensures this.f == f && this.allBtrs == allBtrs && this.order == order && this.exclusive == exclusive
      ensures this.defs == defs && this.l == l && this.queue == queue && this.web == web
    {
      this.f, this.allBtrs, this.order, this.exclusive, this.defs, this.l, this.queue :=
          f, allBtrs, order, exclusive, defs, l, queue;
      this.web := web;
    }

    ghost predicate Ok()
      reads this`defs, this`l
    {
      && DefsOk(f, defs) && |l.live| == |l.atEnd| == |f.preds| && forall q :: q in allBtrs ==> q in order
    }

    /**
     Every definition with uses has its register live where it needs it, and two definitions with one register meet
     only in blocks at the edge of both.
     */
    ghost predicate Owned()
      reads this`defs, this`l, this`web
    {
      |web| == |defs| && Holding(l, defs, web, -1) && Sharing(defs, web, -1) && WebsOk(f, defs, web)
    }

    /**
     The same while definition `i` is being moved: the others own their registers, and those they need in its range are
     in `regs`, which its new register is not.
     */
    ghost predicate Aside(i: nat, regs: set<nat>)
      reads this`defs, this`l, this`web
    {
      && |web| == |defs| && Holding(l, defs, web, i) && Sharing(defs, web, i) && WebsOk(f, defs, web)
      && i < |defs| && defs[i].uses != [] && defs[i].range == Range(web[i]) && defs[i].btr !in regs
      && Reserved(defs, web, i, exclusive, defs[i].bb, web[i], regs)
    }

    /** Only definition `i` differs in place and cost; others may have lost their uses to it. */
    ghost predicate Kept(was: seq<Def>, i: nat)
      reads this`defs
    {
      && |was| == |defs| && i < |defs| && SameUses(was, defs)
      && forall j :: 0 <= j < |defs| ==>
          SameSpot(was[j], defs[j]) || (j == i && was[j].movable == defs[j].movable && was[j].group == defs[j].group)
    }

    /**
     * clear_btr_from_live_range: the register of `d` is no longer live in its range, except at edges shared with other
     * ranges.
     */
    method ClearFromLiveRange(d: Def)
      requires |l.live| == |l.atEnd| && d.range.Range? && d.bb < |l.atEnd|
      modifies this`l
      ensures |l.live| == |l.atEnd| == |old(l.live)|
      ensures forall b :: 0 <= b < |l.live| ==>
                l.live[b] == old(l.live[b]) - (if b in d.range.blocks && !AtEdge(d, b) then {d.btr} else {})
      ensures forall b :: 0 <= b < |l.live| ==>
        l.atEnd[b] == old(l.atEnd[b]) -
          (if (b in d.range.blocks && !AtEdge(d, b)) || (d.ownEnd && b == d.bb) then {d.btr} else {})
      ensures ClearedBy(d, d.range.blocks, old(l), l)
    {
      ghost var was := l;
      for b := 0 to |l.live|
        invariant |l.live| == |l.atEnd| == |was.live|
        invariant forall c :: 0 <= c < |l.live| ==>
          l.live[c] == was.live[c] - (if c < b && c in d.range.blocks && !AtEdge(d, c) then {d.btr} else {})
        invariant forall c :: 0 <= c < |l.live| ==>
          l.atEnd[c] == was.atEnd[c] - (if c < b && c in d.range.blocks && !AtEdge(d, c) then {d.btr} else {})
      {
        if b in d.range.blocks && !AtEdge(d, b) {
          l := Liveness(l.live[b := l.live[b] - {d.btr}], l.atEnd[b := l.atEnd[b] - {d.btr}]);
        }
      }
      if d.ownEnd {
        l := l.(atEnd := l.atEnd[d.bb := l.atEnd[d.bb] - {d.btr}]);
      }
    }

    /** add_btr_to_live_range: the register of `d` is live in all of its range. */
    method AddToLiveRange(d: Def)
      requires |l.live| == |l.atEnd| && d.range.Range? && d.bb < |l.atEnd|
      modifies this`l
      ensures |l.live| == |l.atEnd| == |old(l.live)|
      ensures forall b :: 0 <= b < |l.live| ==>
                l.live[b] == old(l.live[b]) + (if b in d.range.blocks then {d.btr} else {})
      ensures forall b :: 0 <= b < |l.live| ==>
                l.atEnd[b] == old(l.atEnd[b]) + (if b in d.range.blocks || b == d.bb then {d.btr} else {})
    {
      ghost var was := l;
      for b := 0 to |l.live|
        invariant |l.live| == |l.atEnd| == |was.live|
        invariant forall c :: 0 <= c < |l.live| ==>
                    l.live[c] == was.live[c] + (if c < b && c in d.range.blocks then {d.btr} else {})
        invariant forall c :: 0 <= c < |l.live| ==>
                    l.atEnd[c] == was.atEnd[c] + (if c < b && c in d.range.blocks then {d.btr} else {})
      {
        if b in d.range.blocks {
          l := Liveness(l.live[b := l.live[b] + {d.btr}], l.atEnd[b := l.atEnd[b] + {d.btr}]);
        }
      }
      l := l.(atEnd := l.atEnd[d.bb := l.atEnd[d.bb] + {d.btr}]);
    }

    /** The registers live in the range of definition `i` are in `regs`, but for those it has had itself. */
    ghost predicate Guarded(i: nat, regs: set<nat>, x: Excuse)
      reads this`defs, this`l
    {
      i < |defs| && defs[i].range.Range? && Covered(|f.preds|, l, exclusive, defs[i].range.blocks, defs[i].bb, regs, x)
    }

    /** The register of definition `i` is free in its range. */
    ghost predicate Free(i: nat, x: Excuse)
      reads this`defs, this`l
    {
      && i < |defs| && defs[i].range.Range? && defs[i].bb < |l.live| == |l.atEnd|
      && FreeIn(l, exclusive, defs[i].range.blocks, defs[i].bb, defs[i].btr, x)
    }

    /** Compute the range of definition `j` if it is not known, on behalf of `i`. */
    method FindRange(j: nat, i: nat, ghost regs: set<nat>, ghost x: Excuse, ghost was: seq<Def>, ghost own: bool)
        returns (e: Def)
      requires Ok() && i < |defs| && j < |defs| && i != j && Kept(was, i) && SameSpot(was[i], defs[i])
      requires defs[j].movable && Guarded(i, regs, x) && Free(i, x)
      requires own ==> Aside(i, regs) && defs[j].uses != []
      modifies this`defs
      ensures defs == old(defs)[j := e] && (old(defs[j]).range.Range? ==> e == old(defs[j]))
      ensures own ==> Aside(i, regs) && e.range.Range? && e.range.blocks <= web[j]
      ensures Ok() && Kept(was, i) && defs[i] == old(defs[i]) && e == defs[j] && Guarded(i, regs, x) && Free(i, x)
      ensures e.range.Range? && e.(range := Unknown) == old(defs[j]).(range := Unknown)
    {
      hide GraphOk, Dom, UseCount, IsRange, Covered, FreeIn, WebsOk, Holding, Sharing, Reserved, Needs;
      e := defs[j];
      if own {
        WebLeast(f, defs, web, j);
      }
      if e.range.Unknown? {
        var range, dummy := DefLiveRange(f, l, e, exclusive);
        e := e.(range := Range(range));
        UsesKept(defs, j, e);
        ghost var was1 := defs;
        defs := defs[j := e];
        if own {
          ChangedAside(l, was1, web, i, defs, web);
          ReservedIf(was1, web, i, exclusive, defs[i].bb, web[i], regs, defs, web);
          WebsChanged(f, was1, web, defs, web, j);
        }
      }
    }

    /** Give the uses of definition `j` to definition `i`. */
    method Merge(i: nat, j: nat, combined: set<nat>, btr: nat, ghost was: seq<Def>)
      requires Ok() && i < |defs| && j < |defs| && i != j && Kept(was, i) && SameSpot(was[i], defs[i])
      requires defs[i].movable && defs[j].movable
      requires defs[i].range.Range? && defs[i].range.blocks <= combined && IsRange(f.preds, combined, defs[i].bb)
      requires forall k :: 0 <= k < |defs[j].uses| ==>
                 defs[j].uses[k] in combined && Dom(f.preds, defs[i].bb, defs[j].uses[k])
      modifies this`defs
      ensures Ok() && Kept(was, i) && SameSpot(was[i], defs[i]) && defs[i].range == Range(combined)
      ensures defs[i].btr == btr && defs[j] == old(defs[j]).(uses := []) && |defs[i].uses| >= |old(defs[j]).uses|
      ensures forall k :: 0 <= k < |defs| && k != i && k != j ==> defs[k] == old(defs[k])
      ensures TakesFrom(old(defs[i]), old(defs[j]), defs[i])
    {
      hide GraphOk, DefOk, UseCount, IsRange, TakesFrom;
      var d, e := defs[i], defs[j];
      GraphFacts(f);
      MergedOk(f, d, e, combined, btr);
      d := d.(uses := Reverse(e.uses) + d.uses, range := Range(combined), btr := btr,
              usesAfter := d.usesAfter || (e.btr == btr && e.usesAfter));
      e := e.(uses := []);
      Combined(defs, i, j, d, e);
      Takes(defs[i], defs[j], combined, btr);
      defs := defs[i := d][j := e];
    }

    /** Definition `i` takes over definition `j`, with range `combined` and register `btr`. */
    method TakeOver(i: nat, j: nat, combined: set<nat>, btr: nat, ghost regs0: set<nat>, ghost regs: set<nat>,
                    ghost x: Excuse, ghost was: seq<Def>, ghost own: bool)
      requires Ok() && i < |defs| && j < |defs| && i != j && Kept(was, i) && SameSpot(was[i], defs[i])
      requires defs[i].movable && defs[j].movable && defs[j].uses != [] && defs[j].range.Range?
      requires defs[i].range.Range? && defs[i].range.blocks <= combined && IsRange(f.preds, combined, defs[i].bb)
      requires forall k :: 0 <= k < |defs[j].uses| ==>
                 defs[j].uses[k] in combined && Dom(f.preds, defs[i].bb, defs[j].uses[k])
      requires Covered(|f.preds|, l, exclusive, combined, defs[i].bb, regs, x) && btr !in regs
      requires own ==> Aside(i, regs0) && defs[j].range.blocks <= web[j] && regs0 <= regs
      requires own ==> forall b :: b in combined && b !in web[i] && b < |l.live| ==> l.live[b] <= regs
      modifies this`defs, this`l, this`web
      ensures Ok() && Kept(was, i) && SameSpot(was[i], defs[i]) && Guarded(i, regs, x) && Free(i, x)
      ensures ClearedBy(Spliced(old(defs[j]), old(defs[i])), old(defs[j]).range.blocks, old(l), l)
      ensures forall k :: 0 <= k < |defs| && k != i && k != j ==> defs[k] == old(defs[k])
      ensures if own then Aside(i, regs) else web == old(web)
      ensures OnlyNew(old(l), l, {}) && defs[i].btr == btr && defs[i].uses != [] && defs[j].uses == []
      ensures TakesFrom(old(defs[i]), old(defs[j]), defs[i])
    {
      hide GraphOk, Dom, UseCount, IsRange, Covered, FreeIn, WebsOk, Holding, Sharing, Reserved, Needs, ClearedBy,
          AtEdge, RangeOk, OnlyNew, TakesFrom;
      GraphFacts(f);
      var d, e := defs[i], defs[j];
      ChosenFree(|f.preds|, l, exclusive, combined, d.bb, regs, x, btr);
      ghost var l0, defs0, web0 := l, defs, web;
      Merge(i, j, combined, btr, was);
      ClearFromLiveRange(Spliced(e, d));
      Shrunk(|f.preds|, l0, l, exclusive, combined, d.bb, regs, x, btr);
      LessLive(l0, l);
      if own {
        web := web[i := combined];
        TakenOver(f, l0, l, defs0, web0, i, j, defs, web, exclusive, regs0, regs);
      }
    }

    /**
     Merge definition `j` into `i` if it is eligible and a register is free; `taken` is the range it had then. Its
     register is cleared there, and if it was live in all of it, then every block that it shared with other live ranges
     keeps it exactly when the edges survive the splice.
     */
    method CombineWith(i: nat, j: nat, regs0: set<nat>, ghost x: Excuse, ghost was: seq<Def>, ghost own: bool)
        returns (regs: set<nat>, ghost taken: MaybeRange)
      requires Ok() && i < |defs| && j < |defs| && Kept(was, i) && SameSpot(was[i], defs[i]) && defs[i].movable
      requires Guarded(i, regs0, x) && Free(i, x) && (own ==> Aside(i, regs0))
      modifies this`defs, this`l, this`web
      ensures Ok() && Kept(was, i) && SameSpot(was[i], defs[i]) && Guarded(i, regs, x) && Free(i, x)
      ensures own ==> Aside(i, regs)
      ensures forall k :: 0 <= k < |defs| && k != i && k != j ==> defs[k] == old(defs[k])
      ensures !Eligible(f, old(defs), i, j) ==> taken.Unknown? && defs == old(defs)
      ensures Eligible(f, old(defs), i, j) && HasSpare(allBtrs, old(l), regs0) ==> taken.Range?
      ensures Backed(old(l), regs0, regs) && OnlyNew(old(l), l, {})
      ensures (old(defs[i]).uses != [] ==> defs[i].uses != []) && (old(defs[i]).btr !in regs0 ==> defs[i].btr !in regs)
      ensures i != j ==> defs[j].uses == if taken.Range? then [] else old(defs[j]).uses
      ensures taken.Range? ==> TakesFrom(old(defs[i]), old(defs[j]), defs[i])
      ensures taken.Unknown? || !own ==> web == old(web)
      ensures taken.Unknown? ==> l == old(l) && regs == regs0 && defs[i] == old(defs[i])
      ensures taken.Range? ==>
                Eligible(f, old(defs), i, j) && RangeOk(f, old(defs[j]).bb, old(defs[j]).uses, taken.blocks)
      ensures taken.Range? ==> old(defs[j]).range.Range? ==> taken == old(defs[j]).range
      ensures taken.Range? ==> ClearedBy(Spliced(old(defs[j]), old(defs[i])), taken.blocks, old(l), l)
      ensures taken.Range? && (forall b :: b in taken.blocks && b < |l.live| ==> old(defs[j]).btr in old(l).live[b]) ==>
                (SharedLive(old(defs[j]), taken.blocks, l) <==> EdgesSurvive(old(defs[j]), old(defs[i])))
    {
      hide GraphOk, Dom, UseCount, IsRange, Covered, FreeIn, WebsOk, Holding, Sharing, Reserved, Needs, ClearedBy,
          SharedLive, EdgesSurvive, AtEdge, AnyLive, LiveIn, TakesFrom;
      GraphFacts(f);
      regs, taken := regs0, Unknown;
      var d, e := defs[i], defs[j];
      if j == i || e.group != d.group || e.uses == [] || !e.movable || !f.dominates[d.bb][e.bb] {
        return;
      }
      e := FindRange(j, i, regs, x, was, own);
      DominatedUses(f, d.bb, e);
      var combined, combinedRegs := CoverUses(f, l, d.range.blocks, regs, d.bb, e.uses, exclusive, x);
      AddedBacked(l, regs, combinedRegs, combined - d.range.blocks, d.bb);
      var btr := ChooseBtr(allBtrs, order, combinedRegs);
      if btr != -1 {
        TakeOver(i, j, combined, btr, regs, combinedRegs, x, was, own);
        taken := e.range;
        TakenShared(f, old(defs[j]), e, d, old(l), l);
        TakesAlike(d, e, old(defs[j]), defs[i]);
        regs := combinedRegs;
      }
    }

    /** Definition `i` is the only one of its group. */
    ghost predicate Sole(i: nat)
      requires i < |defs|
      reads this`defs
    {
      forall j :: 0 <= j < |defs| && j != i ==> defs[j].group != defs[i].group
    }

    /** No definition but `i` has other uses than before, unless it has none left. */
    ghost predicate UsesGiven(was: seq<Def>, i: nat)
      reads this`defs
    {
      |was| == |defs| && forall j :: 0 <= j < |defs| && j != i ==> defs[j].uses == was[j].uses || defs[j].uses == []
    }

    /** combine_btr_defs: merge into definition `i` others of its group that it dominates. */
    method CombineDefs(i: nat, regs0: set<nat>, ghost x: Excuse, ghost own: bool) returns (regs: set<nat>)
      requires Ok() && i < |defs| && defs[i].movable && Guarded(i, regs0, x) && Free(i, x) && (own ==> Aside(i, regs0))
      modifies this`defs, this`l, this`web
      ensures Ok() && Kept(old(defs), i) && SameSpot(old(defs[i]), defs[i]) && Guarded(i, regs, x) && Free(i, x)
      ensures own ==> Aside(i, regs)
      ensures old(Sole(i)) ==> defs == old(defs) && l == old(l) && web == old(web)
      ensures HasSpare(allBtrs, old(l), regs0) ==> NoneLeft(f, defs, i, |defs|)
      ensures Backed(old(l), regs0, regs) && OnlyNew(old(l), l, {})
      ensures (old(defs[i]).uses != [] ==> defs[i].uses != []) && (old(defs[i]).btr !in regs0 ==> defs[i].btr !in regs)
      ensures UsesGiven(old(defs), i)
    {
      hide UseCount, DefsOk, Covered, FreeIn, WebsOk, Holding, Sharing, Reserved, ClearedBy, SharedLive, EdgesSurvive,
          AnyLive, Backed, OnlyNew, HasSpare;
      NothingNew(l, regs0);
      ghost var was, sole, l0, spare := defs, Sole(i), l, HasSpare(allBtrs, l, regs0);
      regs := regs0;
      for j := 0 to |defs|
        invariant Ok() && Kept(was, i) && SameSpot(was[i], defs[i]) && Guarded(i, regs, x) && Free(i, x)
        invariant own ==> Aside(i, regs)
        invariant sole ==> defs == was && l == old(l) && web == old(web)
        invariant Backed(l0, regs0, regs) && OnlyNew(l0, l, {}) && (spare ==> HasSpare(allBtrs, l, regs))
        invariant spare ==> NoneLeft(f, defs, i, j)
        invariant (was[i].uses != [] ==> defs[i].uses != []) && (was[i].btr !in regs0 ==> defs[i].btr !in regs)
        invariant UsesGiven(was, i)
      {
        ghost var taken, l1, regs1, defs1 := Unknown, l, regs, defs;
        regs, taken := CombineWith(i, j, regs, x, was, own);
        BackedTrans(l0, l1, regs0, regs1, regs);
        NewTrans(l0, l1, l, {});
        if spare {
          SpareStays(allBtrs, l1, regs1, l, regs);
          OneLess(f, defs1, defs, i, j);
        }
      }
    }

    /** The first part of move_btr_def: clear the old register and put definition `i` into block `t`. */
    method Depart(i: nat, t: nat, btr: nat, range: set<nat>, ghost regs0: set<nat>, ghost x: Excuse,
                  ghost was: seq<Def>, ghost own: bool)
      requires Ok() && i < |defs| && defs[i].movable && defs[i].range.Range? && Kept(was, i)
      requires FIXED <= t < |f.preds| && Dom(f.preds, t, defs[i].bb) && x.mine <= {defs[i].btr} && btr !in regs0
      requires RangeOk(f, defs[i].bb, defs[i].uses, defs[i].range.blocks)
      requires defs[i].range.blocks <= range && IsRange(f.preds, range, t)
      requires Lifted(|f.preds|, l, exclusive, defs[i].range.blocks, defs[i].bb, range, t, regs0, x)
      requires own ==> Owned() && defs[i].uses != [] && Reserved(defs, web, i, exclusive, t, range, regs0)
      modifies this`defs, this`l, this`web
      ensures Ok() && Kept(was, i) && |f.freq| == |f.preds|
      ensures defs == old(defs)[i := old(defs[i]).(bb := t, cost := f.freq[t], btr := btr, range := Range(range))]
      ensures Guarded(i, regs0, Leftover(old(defs[i]), x)) && Free(i, Leftover(old(defs[i]), x))
      ensures ClearedBy(old(defs[i]), old(defs[i]).range.blocks, old(l), l) && (own ==> Aside(i, regs0))
      ensures forall b :: 0 <= b < |f.preds| ==> l.atEnd[b] <= old(l.atEnd[b])
      ensures OnlyNew(old(l), l, {})
    {
      hide GraphOk, Dom, UseCount, IsRange, RangeOk, Covered, FreeIn, Lifted, Leftover, WebsOk, WebOk, Holding, Sharing,
          Reserved, Needs, ClearedBy, AtEdge;
      GraphFacts(f);
      var d := defs[i];
      ghost var y := Leftover(d, x);
      if own {
        WebLeast(f, defs, web, i);
      }
      MovedUp(f, d, t, d.range.blocks, range, btr);
      ghost var l0, defs0, web0 := l, defs, web;
      ClearFromLiveRange(d);
      LessLive(l0, l);
      ClearedLifted(|f.preds|, l0, l, exclusive, d, range, t, regs0, x);
      ChosenFree(|f.preds|, l, exclusive, range, t, regs0, y, btr);
      d := d.(bb := t, cost := f.freq[t], btr := btr, range := Range(range));
      UsesKept(defs, i, d);
      defs := defs[i := d];
      if own {
        web := web[i := range];
        PutAside(f, l0, l, defs0, web0, i, defs, web, exclusive, regs0);
      }
    }

    /** The last part of move_btr_def: definition `i` claims its register in its range. */
    method Arrive(i: nat, ghost regs: set<nat>, ghost y: Excuse, ghost was: seq<Def>, ghost own: bool)
      requires Ok() && Kept(was, i) && defs[i].movable && Guarded(i, regs, y) && y.mine == {}
      requires own ==> Aside(i, regs)
      modifies this`defs, this`l
      ensures Ok() && Kept(was, i) && defs[i].bb < |old(l).live|
      ensures defs ==
                old(defs)[i := old(defs[i]).(usesBefore := old(defs[i]).btr in old(l).live[defs[i].bb], ownEnd := true)]
      ensures Guarded(i, regs, y.(mine := {defs[i].btr}))
      ensures forall b :: 0 <= b < |f.preds| ==>
                l.live[b] == old(l.live[b]) + if b in defs[i].range.blocks then {defs[i].btr} else {}
      ensures forall b :: 0 <= b < |f.preds| && b != defs[i].bb && b !in defs[i].range.blocks ==>
                l.atEnd[b] == old(l.atEnd[b])
      ensures own ==> |web| == |defs| && Alone(defs, web, i, exclusive) && (exclusive ==> Owned())
      ensures own ==> (Owned() <==> HeadShared(defs, web, i))
      ensures own ==> Reserved(defs, web, i, exclusive, defs[i].bb, web[i], regs)
      ensures OnlyNew(old(l), l, {defs[i].btr})
    {
      hide OnlyNew, GraphOk, Dom, UseCount, IsRange, RangeOk, Covered, FreeIn, WebsOk, WebOk, Holding, Sharing,
          Reserved, Needs,
          HeadShared, Alone;
      GraphFacts(f);
      ghost var freed, defs1 := l, defs;
      var d := defs[i].(usesBefore := defs[i].btr in l.live[defs[i].bb], ownEnd := true);
      UsesKept(defs, i, d);
      AddToLiveRange(d);
      Claimed(|f.preds|, freed, l, exclusive, d, regs, y);
      MoreLive(freed, l, d.btr);
      defs := defs[i := d];
      if own {
        BackAgain(f, freed, l, defs1, web, i, defs, exclusive, regs);
      }
    }

    /**
     move_btr_def: put definition `i` into block `t`, with live range `range` and register `btr`, which is not in
     `regs0`.
     The register it ends with was free in its range, after its old one was cleared and before it is claimed, except
     that a register it had before may still be live in a block of a use that it shared with other live ranges.
     If all definitions owned their registers, then no other one needs its register in its range, except in its head
     unless blocks are exclusive; and all of them own their registers again exactly when the others that need it in
     the head have their edge there.
     */
    method MoveDef(i: nat, t: nat, btr: nat, range: set<nat>, regs0: set<nat>, ghost x: Excuse, ghost was: seq<Def>,
                   ghost own: bool)
        returns (regs: set<nat>, ghost freed: Liveness)
      requires Ok() && i < |defs| && defs[i].movable && defs[i].range.Range? && Kept(was, i)
      requires FIXED <= t < |f.preds| && Dom(f.preds, t, defs[i].bb) && x.mine <= {defs[i].btr} && btr !in regs0
      requires RangeOk(f, defs[i].bb, defs[i].uses, defs[i].range.blocks)
      requires defs[i].range.blocks <= range && IsRange(f.preds, range, t)
      requires Lifted(|f.preds|, l, exclusive, defs[i].range.blocks, defs[i].bb, range, t, regs0, x)
      requires own ==> Owned() && defs[i].uses != [] && Reserved(defs, web, i, exclusive, t, range, regs0)
      modifies this`defs, this`l, this`web
      ensures Ok() && Kept(was, i) && defs[i].bb == t && |f.freq| == |f.preds| && defs[i].cost == f.freq[t]
      ensures defs[i].movable == old(defs[i].movable) && defs[i].group == old(defs[i].group)
      ensures Guarded(i, regs, Leftover(old(defs[i]), x).(mine := {defs[i].btr}))
      ensures |freed.live| == |freed.atEnd| == |f.preds|
      ensures FreeIn(freed, exclusive, defs[i].range.blocks, t, defs[i].btr, Leftover(old(defs[i]), x))
      ensures forall b :: 0 <= b < |f.preds| ==>
                l.live[b] == freed.live[b] + if b in defs[i].range.blocks then {defs[i].btr} else {}
      ensures own ==> |web| == |defs| && defs[i].range == Range(web[i]) && Alone(defs, web, i, exclusive)
      ensures own ==> (Owned() <==> HeadShared(defs, web, i)) && (exclusive ==> Owned())
      ensures own ==> defs[i].uses != [] && Reserved(defs, web, i, exclusive, t, web[i], regs)
      ensures old(Sole(i)) ==>
                |defs| == |old(defs)| && forall j :: 0 <= j < |defs| && j != i ==> defs[j] == old(defs[j])
      ensures old(Sole(i)) ==> defs[i].btr == btr && defs[i].range == Range(range) && defs[i].uses == old(defs[i]).uses
      ensures old(Sole(i)) ==> ClearedBy(old(defs[i]), old(defs[i]).range.blocks, old(l), freed)
      ensures old(Sole(i)) ==> forall b :: 0 <= b < |f.preds| && b !in range && b != t ==> l.atEnd[b] <= old(l.atEnd[b])
      ensures HasSpare(allBtrs, old(l), regs0) ==> NoneLeft(f, defs, i, |defs|)
      ensures Backed(old(l), regs0, regs) && OnlyNew(old(l), l, {defs[i].btr}) && defs[i].btr !in regs
      ensures (old(defs[i]).uses != [] ==> defs[i].uses != []) && UsesGiven(old(defs), i)
    {
      hide GraphOk, Dom, UseCount, IsRange, RangeOk, Covered, FreeIn, Lifted, Leftover, WebsOk, Holding, Sharing,
          Reserved, ClearedBy, AtEdge, HeadShared, Alone, OnlyNew, Backed, HasSpare;
      ghost var y, l0 := Leftover(defs[i], x), l;
      Depart(i, t, btr, range, regs0, x, was, own);
      ghost var l1 := l;
      NothingNew(l0, regs0);
      if HasSpare(allBtrs, l0, regs0) {
        SpareStays(allBtrs, l0, regs0, l, regs0);
      }
      regs := CombineDefs(i, regs0, y, own);
      BackedTrans(l0, l1, regs0, regs0, regs);
      freed := l;
      NewTrans(l0, l1, l, {});
      ghost var defs1 := defs;
      Arrive(i, regs, y, was, own);
      if HasSpare(allBtrs, l0, regs0) {
        NoneLeftStill(f, defs1, defs, i);
      }
      NewTrans(l0, freed, l, {defs[i].btr});
    }

    /** Try to move definition `i` to block `t`. */
    method Try(i: nat, t: nat, range0: set<nat>, regs0: set<nat>, near0: bool, moved0: bool, ghost x0: Excuse,
               ghost was: seq<Def>, ghost own: bool)
        returns (t': nat, range: set<nat>, regs: set<nat>, near: bool, giveUp: bool, moved: bool, ghost x: Excuse,
                 ghost tried: seq<Attempt>)
      requires Ok() && Kept(was, i) && defs[i].movable && t != ENTRY && |f.depth| == |f.preds|
      requires Candidate(f, t, defs[i].bb)
      requires defs[i].range == Range(range0) && RangeOk(f, defs[i].bb, defs[i].uses, range0) && Guarded(i, regs0, x0)
      requires Moved(f, was[i], defs[i]) && x0.mine == {defs[i].btr}
      requires own ==> exclusive && Owned() && defs[i].uses != []
      requires own ==> Reserved(defs, web, i, exclusive, defs[i].bb, range0, regs0)
      modifies this`defs, this`l, this`web
      ensures Ok() && Kept(was, i) && defs[i].movable && t' < |f.depth| && t < |f.depth| && f.depth[t'] < f.depth[t]
      ensures Candidate(f, t', defs[i].bb)
      ensures !giveUp ==> defs[i].range == Range(range) && RangeOk(f, defs[i].bb, defs[i].uses, range)
      ensures !giveUp ==> Guarded(i, regs, x) && x.mine == {defs[i].btr}
      ensures Moved(f, was[i], defs[i]) && f.depth[defs[i].bb] <= f.depth[old(defs[i].bb)]
      ensures moved ==> moved0 || f.depth[defs[i].bb] < f.depth[old(defs[i].bb)]
      ensures own ==> Owned() && defs[i].uses != []
      ensures own && !giveUp ==> Reserved(defs, web, i, exclusive, defs[i].bb, range, regs)
      ensures |f.freq| == |f.depth| == |f.idom| && t' == f.idom[t]
      ensures tried == if Worth(f, t, old(defs[i].bb), near0) then [Attempt(t, !giveUp)] else []
      ensures defs[i].bb == (if tried == [Attempt(t, true)] then t else old(defs[i].bb)) && (giveUp ==> tried != [])
      ensures (moved <==> moved0 || tried == [Attempt(t, true)]) && near == (near0 && tried != [Attempt(t, true)])
      ensures tried != [Attempt(t, true)] ==> defs == old(defs) && l == old(l)
      ensures HasSpare(allBtrs, old(l), regs0) ==> !giveUp
      ensures Backed(old(l), regs0, regs) && OnlyNew(old(l), l, {defs[i].btr}) && (tried == [] ==> regs == regs0)
      ensures (old(defs[i]).uses != [] ==> defs[i].uses != []) && UsesGiven(old(defs), i)
    {
      hide GraphOk, Dom, UseCount, IsRange, Covered, FreeIn, RegsOk, Lifted, Leftover, WebsOk, Holding, Sharing,
          Reserved, Needs, ClearedBy, HeadShared, Alone, OnlyNew, Backed, NoneLeft;
      GraphFacts(f);
      range, regs, near, giveUp, moved, x, tried := range0, regs0, near0, false, moved0, x0, [];
      var bb := defs[i].bb;
      NothingNewBut(l, regs0, defs[i].btr);
      if t !in f.complex && (f.freq[t] < f.freq[bb] || (f.freq[t] == f.freq[bb] && near)) {
        ghost var l0 := l;
        StrictDom(f, t, bb);
        range, regs := AugmentLiveRange(f.preds, l.live, l.atEnd, range, regs, bb, t, exclusive, f.dominates[bb][t]);
        AugmentLifted(|f.preds|, l, exclusive, range0, regs0, bb, t, range, regs, x0);
        AugmentBacked(l, range0, regs0, bb, t, exclusive, range, regs);
        ghost var regs1 := regs;
        if own {
          SetAside(l, defs, web, i);
          AugmentReserved(l, defs, web, i, exclusive, range0, regs0, bb, t, range, regs);
        }
        var btr := ChooseBtr(allBtrs, order, regs);
        if btr != -1 {
          DomTrans(f.preds, t, bb, was[i].bb);
          x := Leftover(defs[i], x0);
          ghost var freed;
          regs, freed := MoveDef(i, t, btr, range, regs, x0, was, own);
          x := x.(mine := {defs[i].btr});
          range, near, moved := defs[i].range.blocks, false, true;
          NothingNewBut(l0, regs0, btr);
          BackedTrans(l0, l0, regs0, regs1, regs);
        } else {
          giveUp := true;
          NoSpare(allBtrs, l, regs0, regs);
        }
        tried := [Attempt(t, !giveUp)];
      }
      DomSelf(f.preds, t);
      NextCandidate(f, t, defs[i].bb);
      t' := f.idom[t];
    }

    /** Compute the range of definition `i` and the registers in its way. */
    method Prepare(i: nat, ghost own: bool) returns (range: set<nat>, regs: set<nat>)
      requires Ok() && i < |defs| && (own ==> exclusive && Owned()) && defs[i].movable && defs[i].uses != []
      modifies this`defs
      ensures Ok() && Kept(old(defs), i) && defs == old(defs)[i := old(defs[i]).(range := Range(range))]
      ensures RangeOk(f, defs[i].bb, defs[i].uses, range) && Guarded(i, regs, Excuse({defs[i].btr}, {}, {}))
      ensures own ==> Owned() && Reserved(defs, web, i, exclusive, defs[i].bb, range, regs)
      ensures Backed(l, {}, regs)
    {
      hide GraphOk, Dom, UseCount, IsRange, RangeOk, Covered, FreeIn, WebsOk, WebOk, Holding, Sharing, Reserved, Needs,
          InTheWay, Backed;
      GraphFacts(f);
      range, regs := DefLiveRange(f, l, defs[i], exclusive);
      FoundBacked(l, defs[i], exclusive, range, regs);
      if own {
        WebLeast(f, defs, web, i);
        ReservedNow(|f.preds|, l, defs, web, i, exclusive, range, regs);
        RangeKnown(f, l, defs, web, i, Range(range), exclusive, regs);
      }
      UsesKept(defs, i, defs[i].(range := Range(range)));
      defs := defs[i := defs[i].(range := Range(range))];
    }

    /**
     migrate_btr_def: try the dominators of the definition's block; whether it may pay to try again. `near` tells that
     the register is used near the definition.
     */
    method MigrateDef(i: nat, minCost: int, near0: bool, ghost own: bool)
      returns (again: bool, ghost tries: seq<Attempt>)
      requires Ok() && i < |defs| && (own ==> exclusive && Owned())
      modifies this`defs, this`l, this`web
      ensures own ==> Owned()
      ensures Ok() && Kept(old(defs), i) && Moved(f, old(defs[i]), defs[i])
      ensures |f.depth| == |f.preds| && f.depth[defs[i].bb] <= f.depth[old(defs[i].bb)]
      ensures again <==> tries != [] && AllFound(tries)
      ensures again ==> f.depth[defs[i].bb] < f.depth[old(defs[i].bb)]
      ensures GraphOk(f) && FIXED <= old(defs[i].bb) < |f.preds|
      ensures if old(defs[i]).movable && old(defs[i]).uses != []
                then Climbed(f, allBtrs, minCost, old(defs[i].bb), near0, defs[i].bb, |Spare(allBtrs, old(l))|, l,
                    tries)
                else tries == [] && defs == old(defs) && l == old(l)
      ensures UsesGiven(old(defs), i)
    {
      hide GraphOk, Dom, UseCount, IsRange, RangeOk, Candidate, Covered, FreeIn, WebsOk, WebOk, Holding, Sharing,
          Reserved, Needs, OnlyNew, Backed, Tried, Progress, Spare, AnyLive, End, HasSpare, AllFound, Climbed;
      GraphFacts(f);
      DomSelf(f.preds, defs[i].bb);
      Started(f, defs[i]);
      ghost var was, bb0, supply := defs, defs[i].bb, |Spare(allBtrs, l)|;
      if !defs[i].movable || defs[i].uses == [] {
        NoTries(bb0);
        return false, [];
      }
      var range, regs := Prepare(i, own);
      ghost var x, left := Excuse({defs[i].btr}, {}, {}), Spare(allBtrs, l);
      var near, giveUp, moved := near0, false, false;
      var t: nat := f.idom[defs[i].bb];
      tries := [];
      ProgressStart(f, allBtrs, minCost, bb0, near0, l, regs);
      while !giveUp && t != ENTRY && defs[i].cost >= minCost
        invariant Ok() && Kept(was, i) && defs[i].movable && t < |f.depth| && Candidate(f, t, defs[i].bb)
        invariant !giveUp ==>
                    defs[i].range == Range(range) && RangeOk(f, defs[i].bb, defs[i].uses, range) && Guarded(i, regs, x)
                    && x.mine == {defs[i].btr}
        invariant Moved(f, was[i], defs[i]) && f.depth[defs[i].bb] <= f.depth[was[i].bb]
        invariant moved ==> f.depth[defs[i].bb] < f.depth[was[i].bb]
        invariant own ==> Owned() && defs[i].uses != []
        invariant own && !giveUp ==> Reserved(defs, web, i, exclusive, defs[i].bb, range, regs)
        invariant Progress(f, allBtrs, minCost, supply, bb0, near0, t, defs[i].bb, near, giveUp, l, regs, left, tries)
        invariant defs[i].uses != [] && UsesGiven(was, i) && (giveUp || (moved <==> tries != []))
        decreases f.depth[t]
      {
        ghost var tried, defs1, l1, regs1, t1, near1 := [], defs, l, regs, t, near;
        CostIs(f, defs, i);
        CandidateReal(f, t, defs[i].bb);
        t, range, regs, near, giveUp, moved, x, tried := Try(i, t, range, regs, near, moved, x, was, own);
        left := ProgressStep(f, allBtrs, minCost, supply, bb0, near0, t1, defs1[i].bb, near1, l1, regs1, left, tries,
                             giveUp, l, regs, defs[i].btr, tried);
        GivenTrans(was, defs1, defs, i);
        tries := tries + tried;
      }
      CostIs(f, defs, i);
      ProgressEnd(f, allBtrs, minCost, supply, bb0, near0, t, defs[i].bb, near, giveUp, l, regs, left, tries);
      again := !giveUp && moved;
    }

    /** Forget the live range of a definition that is done. */
    method FreeRange(i: nat)
      requires Ok() && i < |defs|
      modifies this`defs
      ensures Ok() && defs == old(defs)[i := old(defs[i]).(range := Unknown)] && SameUses(old(defs), defs)
      ensures old(Owned()) ==> Owned()
    {
      hide GraphOk, Dom, UseCount, WebsOk, Holding, Sharing, Reserved;
      if Owned() {
        Forgotten(f, l, defs, web, i);
      }
      UsesKept(defs, i, defs[i].(range := Unknown));
      defs := defs[i := defs[i].(range := Unknown)];
    }

    /** The most costly definition of a queue. */
    method Costliest(q: set<nat>) returns (i: nat)
      requires q != {} && forall j :: j in q ==> j < |defs|
      ensures i in q && forall j :: j in q ==> defs[j].cost <= defs[i].cost
    {
      i :| i in q;
      var rest := q - {i};
      while rest != {}
        invariant rest <= q && i in q && forall j :: j in q && j !in rest ==> defs[j].cost <= defs[i].cost
        decreases |rest|
      {
        var j :| j in rest;
        rest := rest - {j};
        if defs[j].cost > defs[i].cost {
          i := j;
        }
      }
    }

    /** One turn of migrate_btr_defs: migrate definition `i`, and forget its range if it is done. */
    method Serve(i: nat, minCost: int, near: bool, ghost own: bool) returns (again: bool, ghost lacked: bool)
      requires Ok() && i < |defs| && (own ==> exclusive && Owned()) && minCost <= defs[i].cost
      modifies this`defs, this`l, this`web
      ensures Ok() && (own ==> Owned()) && |defs| == |old(defs)| && SameUses(old(defs), defs)
      ensures Moved(f, old(defs[i]), defs[i])
      ensures forall j :: 0 <= j < |defs| && j != i ==> SameSpot(old(defs)[j], defs[j])
      ensures UsesGiven(old(defs), i)
      ensures |f.depth| == |f.preds|
      ensures forall j :: 0 <= j < |defs| ==> FIXED <= old(defs)[j].bb < |f.depth| && FIXED <= defs[j].bb < |f.depth|
      ensures TotalDepth(f, defs) + f.depth[old(defs[i].bb)] == TotalDepth(f, old(defs)) + f.depth[defs[i].bb]
      ensures again ==> f.depth[defs[i].bb] < f.depth[old(defs[i].bb)]
      ensures |Spare(allBtrs, l)| + f.depth[old(defs[i].bb)] >= |Spare(allBtrs, old(l))| + f.depth[defs[i].bb]
      ensures lacked ==> !again && |Spare(allBtrs, old(l))| + f.depth[defs[i].bb] <= f.depth[old(defs[i].bb)]
      ensures !again ==>
                Rests(f, defs[i], i, if lacked then {i} else {}) && f.depth[defs[i].bb] <= f.depth[old(defs[i].bb)]
    {
      hide GraphOk, Dom, UseCount, DefsOk, DefOk, TotalDepth, Spare, CheapHere, Tried, End, Mover.Owned;
      ghost var before := defs;
      CostIs(f, defs, i);
      Places(f, defs);
      ghost var tries;
      again, tries := MigrateDef(i, minCost, near, own);
      lacked := !AllFound(tries);
      NoTries(before[i].bb);
      Places(f, defs);
      DepthKept(f, before, defs, i);
      if !again {
        ghost var after := defs;
        FreeRange(i);
        UsesTrans(before, after, defs);
        SameDepth(f, after, defs);
        if !lacked && defs[i].movable && defs[i].uses != [] {
          Stuck(f, minCost, before[i].bb, near);
        }
      }
    }

    /** Serve the most costly definition down to the cost of the next one. */
    method Turn(ghost was: seq<Def>, ghost l0: Liveness, ghost q0: set<nat>, ghost short0: set<nat>, ghost own: bool)
        returns (ghost short: set<nat>)
      requires Ok() && Serving(f, allBtrs, was, l0, q0, defs, l, queue, short0)
      requires own ==> exclusive && Owned()
      requires queue != {}
      modifies this
      ensures Ok() && Serving(f, allBtrs, was, l0, q0, defs, l, queue, short) && (own ==> Owned())
      ensures TotalDepth(f, defs) + |queue| < TotalDepth(f, old(defs)) + |old(queue)|
    {
      hide GraphOk, Dom, DefsOk, UseCount, TotalDepth, Mover.Owned, Spare, Rests, SameUses, Kept, Moved, Serving;
      ServingFacts(f, allBtrs, was, l0, q0, defs, l, queue, short0);
      ghost var before, l1, q := defs, l, queue;
      var i := Costliest(queue);
      queue := queue - {i};
      var minCost := 0;
      if queue != {} {
        var next := Costliest(queue);
        minCost := defs[next].cost;
      }
      var near: bool := *;
      ghost var lacked;
      var again;
      again, lacked := Serve(i, minCost, near, own);
      if again {
        queue := queue + {i};
      }
      short := if lacked then short0 + {i} else short0;
      TurnOn(f, allBtrs, was, l0, q0, before, l1, q, short0, defs, l, i, again, lacked);
    }

    /**
     migrate_btr_defs: take definitions off the queue, most costly first, until none is put back. Then each of them is
     where no block above is cheaper, but for blocks with complex edges, unless it may not move, was taken over, or is
     one of `short`, for which no register was found when it was tried last. None is short if at the start more
     registers were live nowhere than the definitions are deep in the dominator tree.
     */
    method MigrateDefs() returns (ghost short: set<nat>)
      requires Ok() && forall i :: i in queue ==> i < |defs|
      modifies this
      ensures Ok() && queue == {} && AllMoved(f, old(defs), defs) && SameUses(old(defs), defs)
      ensures exclusive && old(Owned()) ==> Owned()
      ensures GraphOk(f) && AllRest(f, defs, old(queue), short)
      ensures forall j :: 0 <= j < |old(defs)| ==> old(defs)[j].bb < |f.depth|
      ensures |Spare(allBtrs, old(l))| > TotalDepth(f, old(defs)) ==> short == {}
    {
      hide GraphOk, Dom, DefsOk, UseCount, TotalDepth, Mover.Owned, Spare, Rests, AllMoved, SameUses, Supply, AllRest;
      ghost var was, own, q0, l0 := defs, exclusive && Owned(), queue, l;
      MovedSelf(f, defs);
      Places(f, defs);
      short := {};
      SupplyFull(f, allBtrs, defs, l);
      NoneDone(f, defs);
      assert q0 - queue == {};
      while queue != {}
        invariant Ok() && Serving(f, allBtrs, was, l0, q0, defs, l, queue, short) && (own ==> Owned())
        decreases TotalDepth(f, defs) + |queue|
      {
        short := Turn(was, l0, q0, short, own);
      }
      SupplyEnough(f, allBtrs, was, l0, defs, l, short);
      assert q0 - queue == q0;
    }
  }
}
