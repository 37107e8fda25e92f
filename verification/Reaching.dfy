/**
 Reaching definitions of branch target registers.
 Blocks are numbered; ENTRY and EXIT are the first two. `preds[b]` lists the predecessors of block b.
 */
module Reaching {
  import opened FiniteSets

  const ENTRY: nat := 0
  const FIXED: nat := 2

  type Preds = seq<seq<nat>>

  type Sets = seq<set<nat>>

  ghost predicate WellFormed(preds: Preds)
  {
    |preds| >= FIXED
        && forall b, k :: 0 <= b < |preds| && 0 <= k < |preds[b]| ==> preds[b][k] < |preds| && preds[b][k] != 1
  }

  /** A path along edges between real blocks. */
  ghost predicate Path(preds: Preds, p: seq<nat>)
  {
    && p != [] && (forall i :: 0 <= i < |p| ==> FIXED <= p[i] < |preds|)
    && (forall i {:trigger p[i]} :: 0 < i < |p| ==> p[i - 1] in preds[p[i]])
  }

  /** Definition `d` is generated at the start of `p` and killed by no later block. */
  ghost predicate Carries(preds: Preds, gen: Sets, kill: Sets, d: nat, p: seq<nat>)
  {
    && Path(preds, p) && |gen| == |kill| == |preds| && d in gen[p[0]]
    && forall i :: 0 < i < |p| ==> d !in kill[p[i]]
  }

  /** Definition `d` reaches the end of block `b`. */
  ghost predicate Reaches(preds: Preds, gen: Sets, kill: Sets, d: nat, b: nat)
  {
    exists p :: Carries(preds, gen, kill, d, p) && p[|p| - 1] == b
  }

  /** `d` comes out of a predecessor of `b`. */
  ghost predicate ComesIn(preds: Preds, out: Sets, d: nat, b: nat)
    requires b < |preds| == |out|
  {
    exists k :: 0 <= k < |preds[b]| && preds[b][k] != ENTRY && preds[b][k] < |out| && d in out[preds[b][k]]
  }

  /** The block equation: what is generated, and what comes in and is not killed. */
  ghost predicate Flow(preds: Preds, gen: Sets, kill: Sets, out: Sets, d: nat, b: nat)
    requires b < |preds| == |out| == |gen| == |kill|
  {
    d in gen[b] || (ComesIn(preds, out, d, b) && d !in kill[b])
  }

  /** sbitmap_union_of_preds */
  method UnionOfPreds(preds: Preds, out: Sets, b: nat) returns (r: set<nat>)
    requires WellFormed(preds) && b < |preds| == |out|
    ensures forall d :: d in r <==> ComesIn(preds, out, d, b)
  {
    r := {};
    for k := 0 to |preds[b]|
      invariant forall d :: d in r <==>
                  exists j :: 0 <= j < k && preds[b][j] != ENTRY && preds[b][j] < |out| && d in out[preds[b][j]]
    {
      if preds[b][k] != ENTRY {
        r := r + out[preds[b][k]];
      }
    }
  }

  ghost predicate Killed(allBtrs: set<nat>, written: set<nat>, defset: Sets, d: nat)
  {
    exists q :: 0 <= q < |defset| && q in allBtrs && q in written && d in defset[q]
  }

  /** compute_kill: a block kills all definitions of the registers it writes. */
  method ComputeKill(n: nat, allBtrs: set<nat>, written: Sets, defset: Sets) returns (kill: Sets)
    requires |written| == n
    ensures |kill| == n
    ensures forall b, d :: 0 <= b < n ==> (d in kill[b] <==> b >= FIXED && Killed(allBtrs, written[b], defset, d))
  {
    kill := seq(n, _ => {});
    var b := FIXED;
    while b < n
      invariant |kill| == n && FIXED <= b && forall c :: b <= c < n ==> kill[c] == {}
      invariant forall c, d :: 0 <= c < n && c < b ==>
                  (d in kill[c] <==> c >= FIXED && Killed(allBtrs, written[c], defset, d))
    {
      var k: set<nat> := {};
      for r := 0 to |defset|
        invariant forall d :: d in k <==> exists q :: 0 <= q < r && q in allBtrs && q in written[b] && d in defset[q]
      {
        if r in allBtrs && r in written[b] {
          k := k + defset[r];
        }
      }
      kill := kill[b := k];
      b := b + 1;
    }
  }

  /** Nothing is in `out` that does not reach. */
  ghost predicate Sound(preds: Preds, gen: Sets, kill: Sets, out: Sets)
  {
    |out| == |preds| && forall b, d :: FIXED <= b < |out| && d in out[b] ==> Reaches(preds, gen, kill, d, b)
  }

  /** Each set lies between its generated definitions and what the equation gives: sets only grow. */
  ghost predicate Growing(preds: Preds, gen: Sets, kill: Sets, out: Sets)
    requires |preds| == |gen| == |kill| == |out|
  {
    forall b, d :: FIXED <= b < |out| && d in out[b] ==> Flow(preds, gen, kill, out, d, b)
  }

  /** The equation holds at the blocks below `n`. */
  ghost predicate Solved(preds: Preds, gen: Sets, kill: Sets, out: Sets, n: nat)
    requires |preds| == |gen| == |kill| == |out|
  {
    forall b, d :: FIXED <= b < n && b < |out| ==> (d in out[b] <==> Flow(preds, gen, kill, out, d, b))
  }

  lemma ReachGen(preds: Preds, gen: Sets, kill: Sets, d: nat, b: nat)
    requires |gen| == |kill| == |preds| && FIXED <= b < |preds| && d in gen[b]
    ensures Reaches(preds, gen, kill, d, b)
  {
    assert Carries(preds, gen, kill, d, [b]);
  }

  lemma ReachStep(preds: Preds, gen: Sets, kill: Sets, d: nat, a: nat, b: nat)
    requires |gen| == |kill| == |preds| && FIXED <= b < |preds| && a in preds[b] && Reaches(preds, gen, kill, d, a)
    requires d !in kill[b]
    ensures Reaches(preds, gen, kill, d, b)
  {
    var p :| Carries(preds, gen, kill, d, p) && p[|p| - 1] == a;
    assert Carries(preds, gen, kill, d, p + [b]);
  }

  /** A solution contains everything that reaches. */
  lemma {:induction false} Complete(preds: Preds, gen: Sets, kill: Sets, out: Sets, d: nat, p: seq<nat>)
    requires |preds| == |gen| == |kill| == |out| && Solved(preds, gen, kill, out, |out|)
    requires Carries(preds, gen, kill, d, p)
    ensures d in out[p[|p| - 1]]
    decreases |p|
  {
    var b := p[|p| - 1];
    if |p| > 1 {
      var q := p[..|p| - 1];
      forall i | 0 < i < |q| ensures q[i - 1] in preds[q[i]] {
        assert p[i - 1] in preds[p[i]];
      }
      Complete(preds, gen, kill, out, d, q);
      assert p[|p| - 2] in preds[p[|p| - 1]];
      var k :| 0 <= k < |preds[b]| && preds[b][k] == p[|p| - 2];
      assert ComesIn(preds, out, d, b);
    }
    assert Flow(preds, gen, kill, out, d, b);
  }

  /** All definitions there are. */
  ghost function Universe(gen: Sets): set<nat>
  {
    set b, d | 0 <= b < |gen| && d in gen[b] :: d
  }

  /** How many definitions can still be added. */
  ghost function Missing(gen: Sets, out: Sets): nat
    decreases |out|
  {
    if out == [] then 0 else Missing(gen, out[..|out| - 1]) + |Universe(gen) - out[|out| - 1]|
  }

  lemma {:induction false} MissingLess(gen: Sets, out: Sets, b: nat, s: set<nat>)
    requires b < |out| && out[b] < s <= Universe(gen)
    ensures Missing(gen, out[b := s]) < Missing(gen, out)
    decreases |out|
  {
    var n := |out| - 1;
    if b == n {
      assert out[b := s][..n] == out[..n];
      assert Universe(gen) - s < Universe(gen) - out[b];
      Smaller(Universe(gen) - s, Universe(gen) - out[b]);
    } else {
      assert out[b := s][..n] == out[..n][b := s];
      MissingLess(gen, out[..n], b, s);
    }
  }

  /** What the iteration keeps. */
  ghost predicate Iterating(preds: Preds, gen: Sets, kill: Sets, out: Sets)
  {
    && WellFormed(preds) && |preds| == |gen| == |kill| == |out| && Sound(preds, gen, kill, out)
    && Growing(preds, gen, kill, out)
    && forall b :: FIXED <= b < |out| ==> out[b] <= Universe(gen)
  }

  lemma Start(preds: Preds, gen: Sets, kill: Sets)
    requires WellFormed(preds) && |preds| == |gen| == |kill|
    ensures Iterating(preds, gen, kill, gen)
  {
    forall b, d | FIXED <= b < |gen| && d in gen[b] ensures Reaches(preds, gen, kill, d, b) {
      ReachGen(preds, gen, kill, d, b);
    }
  }

  lemma FlowMore(preds: Preds, gen: Sets, kill: Sets, out: Sets, out': Sets, d: nat, b: nat)
    requires b < |preds| == |out| == |out'| == |gen| == |kill| && Flow(preds, gen, kill, out, d, b)
    requires forall c :: 0 <= c < |out| ==> out[c] <= out'[c]
    ensures Flow(preds, gen, kill, out', d, b)
  {
    if d !in gen[b] {
      var k :| 0 <= k < |preds[b]| && preds[b][k] != ENTRY && preds[b][k] < |out| && d in out[preds[b][k]];
      assert d in out'[preds[b][k]];
    }
  }

  /** Evaluating the equation at block `b` keeps everything and only adds to the block's set. */
  lemma Update(preds: Preds, gen: Sets, kill: Sets, out: Sets, b: nat, s: set<nat>)
    requires Iterating(preds, gen, kill, out) && FIXED <= b < |out|
    requires forall d :: d in s <==> Flow(preds, gen, kill, out, d, b)
    ensures Iterating(preds, gen, kill, out[b := s]) && out[b] <= s <= Universe(gen)
  {
    var out' := out[b := s];
    forall d | d in s ensures Reaches(preds, gen, kill, d, b) && d in Universe(gen) {
      assert Flow(preds, gen, kill, out, d, b);
      if d in gen[b] {
        ReachGen(preds, gen, kill, d, b);
      } else {
        var k :| 0 <= k < |preds[b]| && preds[b][k] != ENTRY && preds[b][k] < |out| && d in out[preds[b][k]];
        assert preds[b][k] >= FIXED;
        ReachStep(preds, gen, kill, d, preds[b][k], b);
      }
    }
    forall c, d | FIXED <= c < |out'| && d in out'[c] ensures Flow(preds, gen, kill, out', d, c) {
      FlowMore(preds, gen, kill, out, out', d, c);
    }
  }

  /** Evaluate the equation once at every block. */
  method Sweep(preds: Preds, gen: Sets, kill: Sets, out0: Sets) returns (out: Sets, changed: bool)
    requires Iterating(preds, gen, kill, out0)
    ensures Iterating(preds, gen, kill, out)
    ensures if changed then Missing(gen, out) < Missing(gen, out0)
              else out == out0 && Solved(preds, gen, kill, out, |out|)
  {
    hide Sound, Growing, Reaches, Missing, Universe;
    out, changed := out0, false;
    var b := FIXED;
    while b < |out|
      invariant Iterating(preds, gen, kill, out) && FIXED <= b
      invariant if changed then Missing(gen, out) < Missing(gen, out0)
                  else out == out0 && Solved(preds, gen, kill, out, b)
    {
      var bbIn := UnionOfPreds(preds, out, b);
      var s := gen[b] + (bbIn - kill[b]);
      Update(preds, gen, kill, out, b, s);
      if s != out[b] {
        MissingLess(gen, out, b, s);
        out, changed := out[b := s], true;
      }
      b := b + 1;
    }
  }

  lemma Exact(preds: Preds, gen: Sets, kill: Sets, out: Sets)
    requires Iterating(preds, gen, kill, out) && Solved(preds, gen, kill, out, |out|)
    ensures forall b, d :: FIXED <= b < |out| ==> (d in out[b] <==> Reaches(preds, gen, kill, d, b))
  {
    forall b, d | FIXED <= b < |out| && Reaches(preds, gen, kill, d, b) ensures d in out[b] {
      var p :| Carries(preds, gen, kill, d, p) && p[|p| - 1] == b;
      Complete(preds, gen, kill, out, d, p);
    }
  }

  /** compute_out: iterate until nothing changes; the result is exactly what reaches the end of each block. */
  method ComputeOut(preds: Preds, gen: Sets, kill: Sets) returns (out: Sets)
    requires WellFormed(preds) && |preds| == |gen| == |kill|
    ensures |out| == |preds| && forall b, d :: FIXED <= b < |out| ==> (d in out[b] <==> Reaches(preds, gen, kill, d, b))
  {
    hide Sound, Growing, Reaches, Missing, Universe, Flow;
    out := gen;
    Start(preds, gen, kill);
    var changed := true;
    while changed
      invariant Iterating(preds, gen, kill, out)
      invariant !changed ==> Solved(preds, gen, kill, out, |out|)
      decreases Missing(gen, out), changed
    {
      out, changed := Sweep(preds, gen, kill, out);
    }
    Exact(preds, gen, kill, out);
  }

  /** It is the least of all solutions of the block equations. */
  lemma Least(preds: Preds, gen: Sets, kill: Sets, out: Sets, other: Sets, b: nat, d: nat)
    requires |preds| == |gen| == |kill| == |out| == |other| && FIXED <= b < |out|
    requires (forall c, e :: FIXED <= c < |out| ==> (e in out[c] <==> Reaches(preds, gen, kill, e, c)))
    requires Solved(preds, gen, kill, other, |other|) && d in out[b]
    ensures d in other[b]
  {
    var p :| Carries(preds, gen, kill, d, p) && p[|p| - 1] == b;
    Complete(preds, gen, kill, other, d, p);
  }
}
