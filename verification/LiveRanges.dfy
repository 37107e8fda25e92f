/**
 Live ranges of branch target registers: sets of blocks that are closed under predecessors up to a dominating block.
 */
module LiveRanges {
  import opened Reaching

  /** A way from ENTRY to `b`. */
  ghost predicate Route(preds: Preds, p: seq<nat>, b: nat)
  {
    && p != [] && p[0] == ENTRY && p[|p| - 1] == b && (forall i :: 0 <= i < |p| ==> p[i] < |preds|)
    && (forall i {:trigger p[i]} :: 0 < i < |p| ==> p[i - 1] in preds[p[i]])
  }

  /** Every way to `b` passes `a`. */
  ghost predicate Dom(preds: Preds, a: nat, b: nat)
  {
    forall p :: Route(preds, p, b) ==> a in p
  }

  lemma DomSelf(preds: Preds, a: nat)
    ensures Dom(preds, a, a)
  {}

  lemma DomTrans(preds: Preds, a: nat, b: nat, c: nat)
    requires Dom(preds, a, b) && Dom(preds, b, c)
    ensures Dom(preds, a, c)
  {
    forall p | Route(preds, p, c) ensures a in p {
      var i :| 0 <= i < |p| && p[i] == b;
      assert Route(preds, p[..i + 1], b);
    }
  }

  /** A block other than its dominator has only predecessors that are dominated too. */
  lemma DomPred(preds: Preds, a: nat, b: nat, c: nat)
    requires Dom(preds, a, b) && a != b && b < |preds| && c in preds[b]
    ensures Dom(preds, a, c)
  {
    forall p | Route(preds, p, c) ensures a in p {
      assert Route(preds, p + [b], b);
    }
  }

  /** Whatever leads into the range other than at `top` comes from the range. */
  ghost predicate Closed(preds: Preds, range: set<nat>, top: nat)
  {
    forall b, k :: b in range && b != top && b < |preds| && 0 <= k < |preds[b]| ==> preds[b][k] in range
  }

  ghost predicate Dominated(preds: Preds, range: set<nat>, top: nat)
  {
    forall b :: b in range ==> Dom(preds, top, b)
  }

  ghost predicate Blocks(preds: Preds, range: set<nat>) { forall b :: b in range ==> b < |preds| }

  /** A live range with head `top`. */
  ghost predicate IsRange(preds: Preds, range: set<nat>, top: nat)
  {
    top in range && Blocks(preds, range) && Closed(preds, range, top) && Dominated(preds, range, top)
  }

  /** Every closed set with these blocks contains the range. */
  ghost predicate LeastFrom(preds: Preds, seed: set<nat>, top: nat, range: set<nat>)
  {
    forall s :: seed <= s && Closed(preds, s, top) ==> range <= s
  }

  ghost predicate LiveIn(live: Sets, atEnd: Sets, added: set<nat>, r: nat)
  {
    exists b :: b in added && b < |live| == |atEnd| && (r in live[b] || r in atEnd[b])
  }

  /** The registers in `regs` are those of `regs0` and those live in or at the end of a block of `added`. */
  ghost predicate Adds(live: Sets, atEnd: Sets, regs0: set<nat>, added: set<nat>, regs: set<nat>)
  {
    forall r :: r in regs <==> r in regs0 || LiveIn(live, atEnd, added, r)
  }

  /** The state of the worklist loop. */
  ghost predicate Working(preds: Preds, live: Sets, atEnd: Sets, seed: set<nat>, top: nat, range0: set<nat>,
                          regs0: set<nat>,
                          range: set<nat>, regs: set<nat>, work: seq<nat>)
  {
    && WellFormed(preds) && |live| == |atEnd| == |preds|
    && range0 <= range && top in range && Blocks(preds, range) && Dominated(preds, range, top)
    && Adds(live, atEnd, regs0, range - range0, regs)
    && (forall i :: 0 <= i < |work| ==> work[i] < |preds| && Dom(preds, top, work[i]))
    && (forall b, k :: b in range && b != top && 0 <= k < |preds[b]| ==> preds[b][k] in range || preds[b][k] in work)
    && (forall s :: seed <= s && Closed(preds, s, top) ==> range <= s && forall w :: w in work ==> w in s)
  }

  /** Number of blocks outside a set. */
  ghost function Outside(preds: Preds, range: set<nat>): set<nat>
  {
    set b: nat | b < |preds| && b !in range
  }

  lemma AddLess(preds: Preds, range: set<nat>, b: nat)
    requires b < |preds| && b !in range
    ensures |Outside(preds, range + {b})| < |Outside(preds, range)|
  {
    assert Outside(preds, range + {b}) == Outside(preds, range) - {b};
  }

  /** Push the predecessors of `b` that are not in the range. */
  method PushPreds(preds: Preds, b: nat, range: set<nat>, work0: seq<nat>) returns (work: seq<nat>)
    requires WellFormed(preds) && b < |preds|
    ensures work0 <= work
    ensures forall k :: 0 <= k < |preds[b]| ==> preds[b][k] in range || preds[b][k] in work
    ensures forall w :: w in work ==> w in work0 || w in preds[b]
  {
    work := work0;
    for k := 0 to |preds[b]|
      invariant work0 <= work
      invariant forall j :: 0 <= j < k ==> preds[b][j] in range || preds[b][j] in work
      invariant forall w :: w in work ==> w in work0 || w in preds[b]
    {
      if preds[b][k] !in range {
        work := work + [preds[b][k]];
      }
    }
  }

  lemma AddsMore(live: Sets, atEnd: Sets, regs0: set<nat>, added: set<nat>, regs: set<nat>, b: nat)
    requires Adds(live, atEnd, regs0, added, regs) && b < |live| == |atEnd|
    ensures Adds(live, atEnd, regs0, added + {b}, regs + live[b] + atEnd[b])
  {
    forall r ensures r in regs + live[b] + atEnd[b] <==> r in regs0 || LiveIn(live, atEnd, added + {b}, r) {
      if LiveIn(live, atEnd, added, r) {
        var c :| c in added && c < |live| && (r in live[c] || r in atEnd[c]);
        assert c in added + {b};
      }
      if r in live[b] || r in atEnd[b] {
        assert b in added + {b};
      }
    }
  }

  /** Add one block to the range. */
  lemma Grow(preds: Preds, live: Sets, atEnd: Sets, seed: set<nat>, top: nat, range0: set<nat>, regs0: set<nat>,
             range: set<nat>, regs: set<nat>, work: seq<nat>, b: nat, work': seq<nat>)
    requires Working(preds, live, atEnd, seed, top, range0, regs0, range, regs, work + [b]) && b !in range
    requires b < |preds|
    requires work <= work' && (forall k :: 0 <= k < |preds[b]| ==> preds[b][k] in range + {b} || preds[b][k] in work')
    requires forall w :: w in work' ==> w in work || w in preds[b]
    ensures Working(preds, live, atEnd, seed, top, range0, regs0, range + {b}, regs + live[b] + atEnd[b], work')
  {
    hide Dom, Adds;
    var all := work + [b];
    assert all[|all| - 1] == b;
    assert Dom(preds, top, b);
    AddsMore(live, atEnd, regs0, range - range0, regs, b);
    assert range + {b} - range0 == range - range0 + {b};
    forall i | 0 <= i < |work'| ensures work'[i] < |preds| && Dom(preds, top, work'[i]) {
      if work'[i] in work {
        var j :| 0 <= j < |work| && work[j] == work'[i];
        assert all[j] == work'[i];
      } else {
        DomPred(preds, top, b, work'[i]);
      }
    }
    forall s | seed <= s && Closed(preds, s, top) ensures range + {b} <= s && forall w :: w in work' ==> w in s {
      assert b in all;
    }
  }

  lemma Popped(preds: Preds, live: Sets, atEnd: Sets, seed: set<nat>, top: nat, range0: set<nat>, regs0: set<nat>,
               range: set<nat>, regs: set<nat>, work: seq<nat>, b: nat)
    requires Working(preds, live, atEnd, seed, top, range0, regs0, range, regs, work + [b]) && b in range
    ensures Working(preds, live, atEnd, seed, top, range0, regs0, range, regs, work)
  {
    hide Dom, Adds, Dominated;
    var all := work + [b];
    forall i | 0 <= i < |work| ensures work[i] < |preds| && Dom(preds, top, work[i]) {
      assert all[i] == work[i];
    }
    forall w | w in work ensures w in all {}
  }

  /** The worklist loop: add everything from which a block on the list can be reached outside the range. */
  method CloseRange(preds: Preds, live: Sets, atEnd: Sets, ghost seed: set<nat>, ghost top: nat, range0: set<nat>,
                    regs0: set<nat>, work0: seq<nat>,
                    ghost was: set<nat>, ghost regsWas: set<nat>)
      returns (range: set<nat>, regs: set<nat>)
    requires Working(preds, live, atEnd, seed, top, was, regsWas, range0, regs0, work0)
    ensures range0 <= range && Blocks(preds, range) && Closed(preds, range, top) && Dominated(preds, range, top)
    ensures LeastFrom(preds, seed, top, range)
    ensures Adds(live, atEnd, regsWas, range - was, regs) && forall w :: w in work0 ==> w in range
  {
    hide Dom, Adds, Dominated;
    range, regs := range0, regs0;
    var work := work0;
    while work != []
      invariant range0 <= range && Working(preds, live, atEnd, seed, top, was, regsWas, range, regs, work)
      invariant forall w :: w in work0 ==> w in range || w in work
      decreases |Outside(preds, range)|, |work|
    {
      var b := work[|work| - 1];
      ghost var popped := work[..|work| - 1];
      assert work == popped + [b];
      if b !in range {
        var more := PushPreds(preds, b, range + {b}, work[..|work| - 1]);
        Grow(preds, live, atEnd, seed, top, was, regsWas, range, regs, popped, b, more);
        AddLess(preds, range, b);
        range, regs, work := range + {b}, regs + live[b] + atEnd[b], more;
      } else {
        Popped(preds, live, atEnd, seed, top, was, regsWas, range, regs, popped, b);
        work := work[..|work| - 1];
      }
    }
  }

  /** What augmenting a range adds to the registers that are live in it. */
  ghost predicate RegsOk(live: Sets, atEnd: Sets, range0: set<nat>, regs0: set<nat>, head: nat, block: nat, full: bool,
                         down: bool,
                         range: set<nat>, regs: set<nat>)
    requires head < |live| == |atEnd| && block < |live|
  {
    var whole := if full then live[block] else {};
    if block == head then regs == regs0 + whole
    else if down then Adds(live, atEnd, regs0, range - range0, regs)
    else Adds(live, atEnd, regs0 + live[head] + atEnd[block] + whole, range - (range0 + {block}), regs)
  }

  lemma InRange(preds: Preds, range: set<nat>, b: nat)
    requires IsRange(preds, range, b)
    ensures b < |preds|
  {}

  lemma NotSelf(preds: Preds, a: nat, b: nat)
    requires !Dom(preds, a, b)
    ensures a != b
  {}

  lemma NoneAdded(live: Sets, atEnd: Sets, regs: set<nat>, range: set<nat>)
    ensures Adds(live, atEnd, regs, range - range, regs)
  {}

  lemma StartDown(preds: Preds, live: Sets, atEnd: Sets, range: set<nat>, regs: set<nat>, head: nat, block: nat)
    requires WellFormed(preds) && |live| == |atEnd| == |preds| && IsRange(preds, range, head) && block < |preds|
    requires Dom(preds, head, block)
    ensures Working(preds, live, atEnd, range + {block}, head, range, regs, range, regs, [block])
  {
    hide Dom, Adds;
    NoneAdded(live, atEnd, regs, range);
  }

  lemma StartUp(preds: Preds, live: Sets, atEnd: Sets, range: set<nat>, regs: set<nat>, head: nat, block: nat)
    requires WellFormed(preds) && |live| == |atEnd| == |preds| && IsRange(preds, range, head) && block < |preds|
    requires Dom(preds, block, head) && head != block && head < |preds|
    ensures Working(preds, live, atEnd, range + {block}, block, range + {block}, regs, range + {block}, regs,
              preds[head])
  {
    hide Dom, Adds;
    NoneAdded(live, atEnd, regs, range + {block});
    DomSelf(preds, block);
    forall b | b in range ensures Dom(preds, block, b) {
      DomTrans(preds, block, head, b);
    }
    forall i | 0 <= i < |preds[head]| ensures Dom(preds, block, preds[head][i]) {
      DomPred(preds, block, head, preds[head][i]);
    }
  }

  /**
   augment_live_range: extend a range with head `head` to contain `block` and everything in between.
   `down` tells that `head` dominates `block`; otherwise `block` dominates `head` and becomes the new head.
   */
  method AugmentLiveRange(preds: Preds, live: Sets, atEnd: Sets, range0: set<nat>, regs0: set<nat>, head: nat,
                          block: nat, full: bool, down: bool)
      returns (range: set<nat>, regs: set<nat>)
    requires WellFormed(preds) && |live| == |atEnd| == |preds| && IsRange(preds, range0, head) && block < |preds|
    requires (down <==> Dom(preds, head, block)) && (!down ==> Dom(preds, block, head))
    ensures head < |preds| && range0 <= range && block in range && IsRange(preds, range, if down then head else block)
    ensures LeastFrom(preds, range0 + {block}, if down then head else block, range)
    ensures RegsOk(live, atEnd, range0, regs0, head, block, full, down, range, regs)
  {
    hide Dom, Adds, Dominated, Closed, Blocks;
    InRange(preds, range0, head);
    if down {
      if block == head {
        return range0, if full then regs0 + live[block] else regs0;
      }
      StartDown(preds, live, atEnd, range0, regs0, head, block);
      range, regs := CloseRange(preds, live, atEnd, range0 + {block}, head, range0, regs0, [block], range0, regs0);
    } else {
      NotSelf(preds, head, block);
      regs := regs0 + live[head] + atEnd[block];
      if full {
        regs := regs + live[block];
      }
      ghost var regs1 := regs;
      assert regs1 == regs0 + live[head] + atEnd[block] + (if full then live[block] else {});
      range := range0 + {block};
      StartUp(preds, live, atEnd, range0, regs, head, block);
      range, regs :=
          CloseRange(preds, live, atEnd, range0 + {block}, block, range, regs, preds[head], range0 + {block}, regs);
    }
  }
}
