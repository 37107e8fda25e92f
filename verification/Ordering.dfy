/**
 reorder_basic_blocks: find traces, connect them, and read off the new order.
 */
module Ordering {
  import opened Reorder
  import opened Chains
  import opened Connection

  /** Follow `aux` from `first`. */
  method Follow(aux: seq<int>, first: nat, ghost chain: seq<nat>) returns (order: seq<nat>)
    requires Closed(aux, chain) && first == chain[0]
    ensures order == chain
  {
    order := [];
    var bb: int := first;
    while bb != NONE
      invariant |order| <= |chain| && order == chain[..|order|]
      invariant bb == if |order| < |chain| then chain[|order|] else NONE
      decreases |chain| - |order|
    {
      assert |order| < |chain| - 1 ==> aux[chain[|order|]] == chain[|order| + 1];
      order, bb := order + [bb], aux[bb];
    }
  }

  /** A real block that some path from ENTRY leads to. */
  ghost predicate Needed(succs: Succs, b: nat)
  {
    b != ENTRY && b != EXIT && Reachable(succs, b)
  }

  /** After trace finding exactly the reachable blocks and the copies are visited. */
  lemma VisitedIff(p: Pass, b: nat)
    requires p.Inv() && p.heap == p.newHeap == {} && b < |p.visited|
    ensures p.visited[b] != 0 <==> b >= |p.succs0| || Needed(p.succs0, b)
  {
    assert p.heap + p.newHeap == {};
    if b < |p.succs0| && Needed(p.succs0, b) {
      AllVisited(p.succs0, p.visited, b);
    }
  }

  lemma {:induction false} ChainIff(own: seq<nat>, lists: seq<seq<nat>>, connected: seq<bool>, chain: seq<nat>, b: nat)
    requires Owned(own, lists, connected, chain) && Placed(own, connected, chain)
    requires forall t :: 0 <= t < |connected| ==> connected[t]
    ensures b in chain <==> b < |own| && own[b] != 0
  {
    if b < |own| {
      assert OwnerOk(own, lists, connected, chain, b);
    }
  }

  lemma JoinedIff(j: Joiner, b: nat)
    requires j.Ok() && j.frag == [] && forall t :: 0 <= t < |j.connected| ==> j.connected[t]
    ensures b in j.chain <==> b < |j.own| && j.own[b] != 0
  {
    assert j.chain + [] == j.chain;
    ChainIff(j.own, j.lists, j.connected, j.chain, b);
  }

  lemma Joined(j: Joiner)
    requires j.Ok() && j.frag == [] && j.chain != []
    ensures Closed(j.aux, j.chain) && Distinct(j.chain) && |j.own| == |j.succs| == |j.part|
    ensures Mirrors(j.succs0, j.part0, j.succs, j.part, j.origin)
  {
    assert j.chain + [] == j.chain;
  }

  lemma InvFacts(p: Pass)
    requires p.Inv()
    ensures |p.visited| == |p.succs| && |p.succs0| <= |p.succs| && Mirrors(p.succs0, p.part0, p.succs, p.part, p.origin)
  {}

  /** Copies are hot or cold like the blocks they copy. */
  lemma Painted(succs0: Succs, part0: seq<Partition>, succs: Succs, part: seq<Partition>, origin: seq<nat>)
    requires Mirrors(succs0, part0, succs, part, origin)
    requires forall b :: 2 <= b < |part0| ==> part0[b] == Hot || part0[b] == Cold
    ensures forall b :: 2 <= b < |part| ==> part[b] == Hot || part[b] == Cold
  {
    forall b | 2 <= b < |part| ensures part[b] == Hot || part[b] == Cold {
      assert MirrorsAt(succs0, part0, succs, part, origin, b);
    }
  }

  /** At most one change of partition along `s`. */
  ghost predicate OneSwitch(part: seq<Partition>, s: seq<nat>)
  {
    exists split, p0, p1 :: Sided(part, s, split, p0, p1)
  }

  /**
   The whole pass. Every reachable block and every duplicate is placed exactly once and nothing else is, starting with
   the block `next` after ENTRY if that is the only entry point; the new graph runs like the old one; with partitioning
   the order changes partition at most once.
   */
  method ReorderBlocks(succs: Succs, part: seq<Partition>, partitioning: bool, next: nat)
      returns (order: seq<nat>, succs': Succs, part': seq<Partition>, ghost origin: seq<nat>)
    requires WellFormed(succs) && |part| == |succs| && succs[ENTRY] != [] && EXIT !in succs[ENTRY]
    requires partitioning ==> forall b :: 2 <= b < |part| ==> part[b] == Hot || part[b] == Cold
    ensures Distinct(order)
    ensures forall b: nat :: b in order <==> (b < |succs| && Needed(succs, b)) || |succs| <= b < |succs'|
    ensures order != [] && (succs[ENTRY] == [next] ==> order[0] == next)
    ensures Mirrors(succs, part, succs', part', origin)
    ensures partitioning ==> OneSwitch(part', order)
  {
    hide Pass.Base, Covered, Joiner.Ok, Mirrors, Sided, Closed, Needed, Distinct, Pass.Initial, WellFormed;
    var p := new Pass(succs, part, next);
    p.FindTraces();
    InvFacts(p);
    if partitioning {
      Painted(succs, part, p.succs, p.part, p.origin);
    }
    var j := new Joiner(p);
    ghost var own0 := j.own;
    ghost var split, p0, p1 := j.ConnectTraces(partitioning);
    Joined(j);
    order := Follow(j.aux, j.traces[0].first, j.chain);
    succs', part', origin := j.succs, j.part, j.origin;
    forall b: nat ensures b in order <==> (b < |succs| && Needed(succs, b)) || |succs| <= b < |succs'| {
      JoinedIff(j, b);
      if b < |own0| {
        VisitedIff(p, b);
      }
    }
  }

  lemma TwoSwitches(part: seq<Partition>, s: seq<nat>, i: nat, j: nat)
    requires 0 < i < j < |s| && s[0] < |part| && s[i] < |part| && s[j] < |part|
    requires part[s[0]] != part[s[i]] && part[s[i]] != part[s[j]]
    ensures !OneSwitch(part, s)
  {}

  /** verify_hot_cold_block_grouping: complain when the order changes partition more than once. */
  method VerifyGrouping(part: seq<Partition>, order: seq<nat>) returns (err: bool)
    requires forall i :: 0 <= i < |order| ==> order[i] < |part| && part[order[i]] != Unpartitioned
    ensures err <==> !OneSwitch(part, order)
  {
    var switched, current := false, Unpartitioned;
    ghost var p0, split := Unpartitioned, 0;
    err := false;
    for i := 0 to |order|
      invariant (i == 0 ==> !switched) && (err ==> switched) && (i > 0 && !switched ==> current == p0)
      invariant if i == 0 then current == Unpartitioned else current != Unpartitioned && p0 == part[order[0]]
      invariant switched ==> 0 < split < i && part[order[split]] == current != p0
      invariant !err && i > 0 ==>
                  forall k :: 0 <= k < i ==> part[order[k]] == if switched && k < split then p0 else current
      invariant err ==> !OneSwitch(part, order)
    {
      var p := part[order[i]];
      if current == Unpartitioned {
        current, p0 := p, p;
      }
      if p != current {
        if switched {
          err := true;
          TwoSwitches(part, order, split, i);
        } else {
          switched, current := true, p;
          split := i;
        }
      }
    }
    if !err {
      assert Sided(part, order, if switched then split else 0, p0, current);
    }
  }

  /** The whole pass with hot and cold partitions, and the verification at its end: it never complains. */
  method ReorderAndVerify(succs: Succs, part: seq<Partition>, next: nat)
      returns (order: seq<nat>, part': seq<Partition>, err: bool)
    requires WellFormed(succs) && |part| == |succs| && succs[ENTRY] != [] && EXIT !in succs[ENTRY]
    requires forall b :: 2 <= b < |part| ==> part[b] == Hot || part[b] == Cold
    ensures !err && Distinct(order) && forall b: nat :: b < |succs| ==> (b in order <==> Needed(succs, b))
  {
    var succs';
    ghost var origin;
    order, succs', part', origin := ReorderBlocks(succs, part, true, next);
    Painted(succs, part, succs', part', origin);
    forall i | 0 <= i < |order| ensures order[i] < |part'| && part'[order[i]] != Unpartitioned {
      assert order[i] in order;
    }
    err := VerifyGrouping(part', order);
  }

  /** The blocks of the original graph that a run of the new graph goes through. */
  function Projected(origin: seq<nat>, p: seq<nat>): (q: seq<nat>)
    requires Below(p, |origin|)
    ensures |q| == |p|
  {
    seq(|p|, i requires 0 <= i < |p| => origin[p[i]])
  }

  /** Every run of the new graph is one of the original. */
  lemma RunsProject(succs: Succs, part: seq<Partition>, succs': Succs, part': seq<Partition>, origin: seq<nat>,
                    p: seq<nat>)
    requires Mirrors(succs, part, succs', part', origin) && Path(succs', p)
    ensures Path(succs, Projected(origin, p))
  {
    var q := Projected(origin, p);
    forall i | 0 <= i < |q| ensures q[i] < |succs| {
      assert MirrorsAt(succs, part, succs', part', origin, p[i]);
    }
    forall i | 0 <= i < |q| - 1 ensures q[i + 1] in succs[q[i]] {
      assert MirrorsAt(succs, part, succs', part', origin, p[i]);
      assert p[i + 1] in succs'[p[i]];
      var k :| 0 <= k < |succs'[p[i]]| && succs'[p[i]][k] == p[i + 1];
    }
  }

  lemma TailPath(succs: Succs, q: seq<nat>)
    requires Path(succs, q) && |q| > 1
    ensures Path(succs, q[1..])
  {
    forall i | 0 <= i < |q| - 2 ensures q[1..][i + 1] in succs[q[1..][i]] {
      assert q[i + 1 + 1] in succs[q[i + 1]];
    }
  }

  lemma HeadPath(succs: Succs, b: nat, r: seq<nat>)
    requires Path(succs, r) && r != [] && b < |succs| && r[0] in succs[b]
    ensures Path(succs, [b] + r)
  {
    var p := [b] + r;
    forall i | 0 <= i < |p| - 1 ensures p[i + 1] in succs[p[i]] {
      if i > 0 {
        assert r[i - 1 + 1] in succs[r[i - 1]];
      }
    }
  }

  /** Every run of the original graph is followed by a run of the new one, from any copy of its first block. */
  lemma {:induction false} RunsLift(succs: Succs, part: seq<Partition>, succs': Succs, part': seq<Partition>,
                                    origin: seq<nat>, q: seq<nat>, b: nat) returns (p: seq<nat>)
    requires Mirrors(succs, part, succs', part', origin) && Path(succs, q) && q != [] && b < |succs'|
    requires origin[b] == q[0]
    ensures p != [] && p[0] == b && Path(succs', p) && Projected(origin, p) == q
    decreases |q|
  {
    p := [b];
    if |q| > 1 {
      assert MirrorsAt(succs, part, succs', part', origin, b);
      assert q[0 + 1] in succs[q[0]];
      var k :| 0 <= k < |succs[q[0]]| && succs[q[0]][k] == q[1];
      TailPath(succs, q);
      var r := RunsLift(succs, part, succs', part', origin, q[1..], succs'[b][k]);
      HeadPath(succs', b, r);
      p := [b] + r;
      forall i | 0 <= i < |q| ensures Projected(origin, p)[i] == q[i] {
        assert i > 0 ==> Projected(origin, r)[i - 1] == q[1..][i - 1];
      }
    }
  }
}
