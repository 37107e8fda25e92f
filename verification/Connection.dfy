/**
 connect_traces: join the traces into one chain.
 */
module Connection {
  import opened Reorder
  import opened Chains

  ghost function Free(connected: seq<bool>): set<nat>
  {
    set t: nat | t < |connected| && !connected[t]
  }

  lemma FreeConnect(connected: seq<bool>, t: nat)
    requires t < |connected| && !connected[t]
    ensures Free(connected[t := true]) == Free(connected) - {t} && t in Free(connected)
    ensures |Free(connected[t := true])| < |Free(connected)|
  {
    assert Free(connected[t := true]) == Free(connected) - {t};
  }

  /** The block numbers given out since `own0` all have owners. */
  ghost predicate Extends(own: seq<nat>, own0: seq<nat>)
  {
    own0 <= own && forall b :: |own0| <= b < |own| ==> own[b] != 0
  }

  ghost predicate SameFirsts(traces: seq<Trace>, traces0: seq<Trace>)
  {
    |traces| == |traces0| && forall t :: 0 <= t < |traces| ==> traces[t].first == traces0[t].first
  }

  ghost predicate Side(part: seq<Partition>, s: seq<nat>, p: Partition)
  {
    forall i :: 0 <= i < |s| ==> s[i] < |part| && part[s[i]] == p
  }

  /** The first `split` blocks of the chain are in partition `p0`, the others in `p1`. */
  ghost predicate Sided(part: seq<Partition>, s: seq<nat>, split: nat, p0: Partition, p1: Partition)
  {
    split <= |s| && forall i :: 0 <= i < |s| ==> s[i] < |part| && part[s[i]] == if i < split then p0 else p1
  }

  lemma EdgeIn(succs: Succs, b: nat, k: nat)
    requires WellFormed(succs) && b < |succs| && k < |succs[b]|
    ensures succs[b][k] < |succs|
  {}

  lemma DuplicatedOk(succs: Succs, src: nat, pos: nat, orig: nat)
    requires WellFormed(succs) && src < |succs| && pos < |succs[src]| && orig < |succs|
    ensures WellFormed(Duplicated(succs, src, pos, orig))
  {}

  lemma ExtendsSame(own: seq<nat>)
    ensures Extends(own, own)
  {}

  lemma ExtendsTrans(a: seq<nat>, b: seq<nat>, c: seq<nat>)
    requires Extends(b, a) && Extends(c, b)
    ensures Extends(c, a)
  {}

  lemma SameFirstsSame(a: seq<Trace>)
    ensures SameFirsts(a, a)
  {}

  lemma SameFirstsTrans(a: seq<Trace>, b: seq<Trace>, c: seq<Trace>)
    requires SameFirsts(b, a) && SameFirsts(c, b)
    ensures SameFirsts(c, a)
  {}

  lemma FreeIs(connected: seq<bool>, t: nat)
    requires t < |connected|
    ensures t in Free(connected) <==> !connected[t]
  {}

  /**
   * In the first pass the traces before `i` of the current partition are done; the second pass does all that are left.
   */
  ghost predicate Progress(free: set<nat>, n: nat, i: nat, two: bool, pass: nat, current: Partition,
                           part: seq<Partition>, firsts: seq<Trace>)
  {
    && (forall t :: t in free ==> t < n == |firsts| && firsts[t].first < |part| && (two || t >= i))
    && (two && pass == 1 ==> forall t :: t in free && t < i ==> part[firsts[t].first] != current)
    && (two && pass == 2 ==> forall t :: t in free ==> t >= i && part[firsts[t].first] == current)
  }

  lemma ProgressAt(free: set<nat>, n: nat, i: nat, two: bool, pass: nat, current: Partition, part: seq<Partition>,
                   firsts: seq<Trace>)
    requires Progress(free, n, i, two, pass, current, part, firsts)
    ensures two && pass == 2 && i in free ==>
              i < |firsts| && firsts[i].first < |part| && part[firsts[i].first] == current
  {}

  lemma ProgressStep(free: set<nat>, free': set<nat>, n: nat, i: nat, two: bool, pass: nat, current: Partition,
                     part: seq<Partition>, firsts: seq<Trace>)
    requires Progress(free, n, i, two, pass, current, part, firsts) && free' <= free && i < |firsts|
    requires firsts[i].first < |part|
    requires i in free' ==> two && part[firsts[i].first] != current
    ensures Progress(free', n, i + 1, two, pass, current, part, firsts)
  {}

  lemma FreeNone(connected: seq<bool>, two: bool, pass: nat, current: Partition, part: seq<Partition>,
                 firsts: seq<Trace>, i: nat)
    requires Progress(Free(connected), |connected|, i, two, pass, current, part, firsts) && i >= |connected|
    requires two ==> pass == 2
    ensures forall t :: 0 <= t < |connected| ==> connected[t]
  {
    forall t | 0 <= t < |connected| ensures connected[t] {
      FreeIs(connected, t);
    }
  }

  lemma SameFirstsAt(traces: seq<Trace>, firsts: seq<Trace>)
    requires SameFirsts(traces, firsts) && traces != []
    ensures |firsts| == |traces| && traces[0].first == firsts[0].first
  {}

  lemma AllFree(aux: seq<int>, part: seq<Partition>, startOf: seq<int>, endOf: seq<int>, visited: seq<nat>,
                lists: seq<seq<nat>>, traces: seq<Trace>, connected: seq<bool>)
    requires Finished(aux, part, startOf, endOf, lists, traces) && Marked(visited, lists, [])
    requires |aux| == |part| == |startOf| == |visited| && |connected| == |traces|
    requires forall t :: 0 <= t < |connected| ==> !connected[t]
    ensures Joining(aux, part, startOf, endOf, visited, lists, traces, connected, [], [])
  {
    forall b | 0 <= b < |visited| ensures OwnerOk(visited, lists, connected, [] + [], b) {
      assert MarkOk(visited, lists, [], b);
    }
  }

  lemma Extended(own: seq<nat>, o: nat)
    ensures o != 0 ==> Extends(own + [o], own)
  {}

  lemma SideJoin(part: seq<Partition>, a: seq<nat>, b: seq<nat>, p: Partition)
    ensures Side(part, a, p) && Side(part, b, p) ==> Side(part, a + b, p)
  {}

  lemma SidedJoin(part: seq<Partition>, a: seq<nat>, b: seq<nat>, split: nat, p0: Partition, p1: Partition)
    ensures Sided(part, a, split, p0, p1) && Side(part, b, p1) ==> Sided(part, a + b, split, p0, p1)
  {}

  /** The tables handed over by trace finding, and which traces are connected already. */
  class Joiner {
    var succs: Succs
    var part: seq<Partition>
    var aux: seq<int>
    var visited: seq<nat>
    var startOf: seq<int>
    var endOf: seq<int>
    var traces: seq<Trace>
    var connected: seq<bool>
    ghost var lists: seq<seq<nat>>
    ghost const succs0: Succs
    ghost const part0: seq<Partition>
    ghost var origin: seq<nat>
    ghost var own: seq<nat>
    ghost var chain: seq<nat>
    ghost var frag: seq<nat>

    ghost predicate Ok()
      reads this
    {
      && WellFormed(succs) && |succs| == |part| == |aux| == |visited| == |startOf| == |endOf| == |own|
      && |lists| == |traces| == |connected| && Mirrors(succs0, part0, succs, part, origin)
      && Joining(aux, part, startOf, endOf, own, lists, traces, connected, chain, frag)
    }

    /** Take over the tables of a pass that has found its traces. */
    constructor (p: Pass)
      requires p.Inv()
      ensures Ok() && chain == frag == [] && own == p.visited && succs == p.succs && part == p.part
      ensures traces == p.traces && lists == p.lists && succs0 == p.succs0 && part0 == p.part0
      ensures forall t :: 0 <= t < |connected| ==> !connected[t]
    {
      succs, part, aux, visited, startOf, endOf, traces :=
          p.succs, p.part, p.aux, p.visited, p.startOf, p.endOf, p.traces;
      connected := seq(|p.traces|, _ => false);
      lists, own, origin, chain, frag := p.lists, p.visited, p.origin, [], [];
      succs0, part0 := p.succs0, p.part0;
      new;
      hide Joining, Mirrors, Covered, Waiting, Marked, Finished, Reached;
      AllFree(aux, part, startOf, endOf, visited, lists, traces, connected);
    }

    lemma TraceEnds(t: nat)
      requires Ok() && t < |traces| && !connected[t]
      ensures lists[t] != [] && traces[t] == Trace(lists[t][0], lists[t][|lists[t]| - 1])
      ensures traces[t].first < |part| && traces[t].last < |part|
      ensures part[traces[t].first] == part[traces[t].last] && Side(part, lists[t], part[traces[t].first])
    {
      hide Tables, Owned, Placed, Linked, Mirrors, WellFormed;
      UnjoinedAt(aux, part, startOf, endOf, own, lists, traces, connected, t);
      assert Done(aux, part, startOf, endOf, lists[t], traces[t], t);
    }

    lemma StartsTrace(b: nat)
      requires Ok() && b < |succs| && startOf[b] != NONE
      ensures 0 <= startOf[b] < |traces| && traces[startOf[b]].first == b
    {}

    lemma EndsTrace(b: nat)
      requires Ok() && b < |succs| && endOf[b] != NONE
      ensures 0 <= endOf[b] < |traces| && (!connected[endOf[b]] ==> traces[endOf[b]].last == b)
    {}

    /** Begin a run of traces with trace `t`. */
    method Start(t: nat)
      requires Ok() && frag == [] && t < |traces| && !connected[t]
      modifies this`connected, this`frag
      ensures Ok() && frag == lists[t] != [] && connected == old(connected)[t := true]
      ensures traces[t] == Trace(frag[0], frag[|frag| - 1]) && traces[t].first < |part|
      ensures Side(part, frag, part[traces[t].first])
      ensures |Free(connected)| < |Free(old(connected))| && Free(connected) < Free(old(connected))
    {
      hide Joining, WellFormed, Mirrors, Side, Free;
      TraceEnds(t);
      FreeConnect(connected, t);
      StartFragment(aux, part, startOf, endOf, own, lists, traces, connected, chain, t);
      connected := connected[t := true];
      frag := lists[t];
    }

    ghost predicate Precedes(b: int, t: nat, current: Partition)
      requires Ok() && t < |traces|
      reads this
    {
      && 0 <= b < |succs| && traces[t].first in succs[b] && part[b] == current
      && endOf[b] != NONE && 0 <= endOf[b] < |traces| && !connected[endOf[b]] && traces[endOf[b]].last == b
    }

    /**
     * A block that ends an unconnected trace of the current partition and has an edge to the first block of trace `t`.
     */
    method FindPred(t: nat, current: Partition, fits: nat -> bool) returns (best: int)
      requires Ok() && t < |traces|
      ensures best != NONE ==> Precedes(best, t, current) && fits(best)
      ensures best == NONE ==> forall b :: 0 <= b < |succs| && b != ENTRY && fits(b) ==> !Precedes(b, t, current)
    {
      hide Joining, WellFormed, Mirrors;
      best := NONE;
      for src := 0 to |succs|
        invariant best != NONE ==> Precedes(best, t, current) && fits(best)
        invariant best == NONE ==> forall b :: 0 <= b < src && b != ENTRY && fits(b) ==> !Precedes(b, t, current)
      {
        var better: bool := *;
        if traces[t].first in succs[src] && src != ENTRY && endOf[src] != NONE && part[src] == current && fits(src) {
          EndsTrace(src);
          if !connected[endOf[src]] && (best == NONE || better) {
            best := src;
          }
        }
      }
    }

    method PutBefore(src: nat, dest: nat)
      requires Ok() && src < |succs| && endOf[src] != NONE && 0 <= endOf[src] < |traces| && !connected[endOf[src]]
      requires traces[endOf[src]].last == src && frag != [] && dest == frag[0]
      modifies this`aux, this`connected, this`frag
      ensures Ok() && frag == lists[endOf[src]] + old(frag) && connected == old(connected)[endOf[src] := true]
      ensures traces[endOf[src]].first == frag[0] && frag[|frag| - 1] == old(frag[|frag| - 1])
      ensures Side(part, lists[endOf[src]], part[src])
      ensures |Free(connected)| < |Free(old(connected))| && Free(connected) <= Free(old(connected))
    {
      hide Joining, WellFormed, Mirrors, Side, Free;
      var t := endOf[src];
      TraceEnds(t);
      FreeConnect(connected, t);
      Prepend(aux, part, startOf, endOf, own, lists, traces, connected, chain, frag, t);
      aux := aux[src := dest];
      connected := connected[t := true];
      frag := lists[t] + frag;
    }

    /** Find the predecessor traces. */
    method Predecessors(t: nat, current: Partition, ghost g: bool) returns (t2: nat)
      requires Ok() && t < |traces| && frag == lists[t] != [] && (g ==> Side(part, frag, current))
      requires traces[t] == Trace(frag[0], frag[|frag| - 1])
      modifies this`aux, this`connected, this`frag
      ensures Ok() && frag != [] && (g ==> Side(part, frag, current)) && |connected| == |old(connected)|
      ensures t2 < |traces| && traces[t2].first == frag[0] && traces[t].last == frag[|frag| - 1]
      ensures Free(connected) <= Free(old(connected)) && (t == 0 ==> t2 == 0)
    {
      hide Joining, WellFormed, Mirrors, Side, Free;
      t2 := t;
      while t2 > 0
        invariant Ok() && frag != [] && (g ==> Side(part, frag, current)) && |connected| == |old(connected)|
        invariant t2 < |traces| && traces[t2].first == frag[0] && traces[t].last == frag[|frag| - 1]
        invariant Free(connected) <= Free(old(connected)) && (t == 0 ==> t2 == 0)
        decreases |Free(connected)|
      {
        var fits: nat -> bool := *;
        var best := FindPred(t2, current, fits);
        if best == NONE {
          break;
        }
        SideJoin(part, lists[endOf[best]], frag, current);
        PutBefore(best, traces[t2].first);
        t2 := endOf[best];
      }
    }

    /** Attach the run to the chain. */
    method AttachRun(lastTrace: int, t2: nat, ghost split: nat, ghost p0: Partition, ghost current: Partition)
      requires Ok() && frag != []
      requires lastTrace != NONE <==> chain != []
      requires t2 < |traces| && traces[t2].first == frag[0]
      requires lastTrace != NONE ==> 0 <= lastTrace < |traces| && traces[lastTrace].last == chain[|chain| - 1]
      modifies this`aux, this`chain, this`frag
      ensures Ok() && frag == [] && chain == old(chain) + old(frag)
      ensures old(Sided(part, chain, split, p0, current) && Side(part, frag, current)) ==>
                Sided(part, chain, split, p0, current)
    {
      hide Joining, WellFormed, Mirrors, Side, Sided;
      Attach(aux, part, startOf, endOf, own, lists, traces, connected, chain, frag);
      SidedJoin(part, chain, frag, split, p0, current);
      if lastTrace != NONE {
        aux := aux[traces[lastTrace].last := traces[t2].first];
      } else {
        assert chain + frag == frag;
      }
      chain, frag := chain + frag, [];
    }

    /** Block `d` starts an unconnected trace of the current partition. */
    ghost predicate Follows(d: nat, current: Partition)
      requires Ok()
      reads this
    {
      d < |succs| && part[d] == current && 0 <= startOf[d] < |traces| && traces[startOf[d]].first == d
          && !connected[startOf[d]]
    }

    method StartsFree(d: nat, current: Partition) returns (yes: bool)
      requires Ok() && d < |succs|
      ensures yes <==> d != EXIT && Follows(d, current)
    {
      hide Joining, WellFormed, Mirrors;
      yes := false;
      if d != EXIT && startOf[d] != NONE && part[d] == current {
        StartsTrace(d);
        yes := !connected[startOf[d]];
      }
    }

    /** Find the continuation of the chain after block `last`. */
    method FindNext(last: nat, current: Partition, fits: nat -> bool) returns (best: int)
      requires Ok() && last < |succs|
      ensures best != NONE ==> best >= 0 && Follows(best, current) && best in succs[last]
      ensures best == NONE ==> forall k :: 0 <= k < |succs[last]| && succs[last][k] != EXIT && fits(k) ==>
                !Follows(succs[last][k], current)
    {
      hide Joining, Mirrors, Follows;
      best := NONE;
      for k := 0 to |succs[last]|
        invariant best != NONE ==> best >= 0 && Follows(best, current) && best in succs[last]
        invariant best == NONE ==> forall j :: 0 <= j < k && succs[last][j] != EXIT && fits(j) ==>
                    !Follows(succs[last][j], current)
      {
        var better: bool := *;
        var d := succs[last][k];
        var yes := StartsFree(d, current);
        if fits(k) && yes && (best == NONE || better) {
          best := d;
        }
      }
    }

    /**
     * Find a block after `last` worth duplicating, and the start of a trace to follow the copy (EXIT or none if there
     * is none).
     */
    method FindCopy(last: nat, current: Partition) returns (tryCopy: bool, best: int, next: int)
      requires Ok() && last < |succs|
      ensures tryCopy ==> 0 <= best < |succs[last]| && succs[last][best] >= 2
      ensures next != NONE && next != EXIT ==> next >= 0 && Follows(next, current)
    {
      hide Joining, Mirrors, Follows;
      tryCopy, best, next := false, NONE, NONE;
      for k := 0 to |succs[last]|
        invariant tryCopy ==> 0 <= best < |succs[last]| && succs[last][best] >= 2
        invariant next != NONE && next != EXIT ==> next >= 0 && Follows(next, current)
      {
        var d := succs[last][k];
        var better: bool, single: bool := *, *;
        if d == EXIT || !better {
          continue;
        }
        if startOf[d] != NONE && single {
          tryCopy, best := true, k;
          continue;
        }
        for m := 0 to |succs[d]|
          invariant tryCopy ==> 0 <= best < |succs[last]| && succs[last][best] >= 2
          invariant next != NONE && next != EXIT ==> next >= 0 && Follows(next, current)
        {
          var e := succs[d][m];
          var fits: bool := *;
          var yes := StartsFree(e, current);
          if e == EXIT || (fits && yes) {
            tryCopy, best, next := true, k, e;
          }
        }
      }
    }

    /** copy_bb: duplicate `orig`, redirect edge `pos` of `src` to the copy and link the copy in after `src`. */
    method CopyBlock(orig: nat, src: nat, pos: nat, mark: nat)
      requires src < |succs| && pos < |succs[src]| && orig < |succs| == |part| == |aux|
      modifies this`succs, this`part, this`aux, this`visited, this`startOf, this`endOf
      ensures succs == Duplicated(old(succs), src, pos, orig) && aux == old(aux)[src := |old(succs)|] + [old(aux)[src]]
      ensures part == old(part) + [old(part)[orig]] && visited == old(visited) + [mark]
      ensures startOf == old(startOf) + [NONE] && endOf == old(endOf) + [NONE]
    {
      aux := aux[src := |succs|] + [aux[src]];
      part, startOf, endOf, visited := part + [part[orig]], startOf + [NONE], endOf + [NONE], visited + [mark];
      succs := Duplicated(succs, src, pos, orig);
    }

    lemma ChainOwner()
      requires Ok() && chain != []
      ensures chain[|chain| - 1] < |own| && own[chain[|chain| - 1]] != 0
    {
      assert (chain + frag)[|chain| - 1] == chain[|chain| - 1];
    }

    /** Duplicate the block that edge `pos` of the last block of trace `t` leads to, and end the trace with the copy. */
    method CopyAfter(t: nat, pos: nat)
      requires Ok() && frag == [] && chain != [] && t < |traces| && connected[t] && traces[t].last == chain[|chain| - 1]
      requires chain[|chain| - 1] < |succs| && pos < |succs[chain[|chain| - 1]]| && succs[chain[|chain| - 1]][pos] >= 2
      modifies this`succs, this`part, this`aux, this`visited, this`startOf, this`endOf, this`traces, this`origin,
          this`own, this`chain
      ensures Ok() && chain == old(chain) + [|old(succs)|] && |succs| == |old(succs)| + 1
      ensures traces == old(traces)[t := old(traces[t]).(last := |old(succs)|)]
      ensures Extends(own, old(own)) && startOf == old(startOf) + [NONE] && old(part) <= part
    {
      hide Joining, WellFormed, Mirrors, Extends, Duplicated, Below;
      var last, copy := traces[t].last, |succs|;
      var orig := succs[last][pos];
      EdgeIn(succs, last, pos);
      AppendCopy(aux, part, startOf, endOf, own, lists, traces, connected, chain, t, part[orig], copy);
      Extended(own, own[last]);
      DuplicatedOk(succs, last, pos, orig);
      ChainOwner();
      MirrorCopy(succs0, part0, succs, part, origin, last, pos);
      CopyBlock(orig, last, pos, t);
      origin := origin + [origin[orig]];
      own := own + [own[last]];
      chain := chain + [copy];
      traces := traces[t := traces[t].(last := copy)];
    }

    /** The chain is up to date: no run is waiting and trace `t` is its last one. */
    ghost predicate Tail(t: int, partitioning: bool, split: nat, p0: Partition, current: Partition)
      reads this
    {
      && Ok() && frag == [] && (partitioning ==> Sided(part, chain, split, p0, current))
      && if t == NONE then chain == [] else
           chain != [] && 0 <= t < |traces| && connected[t] && traces[t].last == chain[|chain| - 1]
    }

    /** Append the unconnected trace that starts with block `d`. */
    method Append(lastTrace: nat, d: nat, partitioning: bool, ghost split: nat, ghost p0: Partition,
                  ghost current: Partition) returns (t: nat)
      requires Tail(lastTrace, partitioning, split, p0, current) && Follows(d, current)
      modifies this`aux, this`connected, this`chain, this`frag
      ensures Tail(t, partitioning, split, p0, current) && old(chain) <= chain && |connected| == |old(connected)|
      ensures |Free(connected)| < |Free(old(connected))| && Free(connected) < Free(old(connected))
    {
      hide Joining, WellFormed, Mirrors, Side, Sided, Free;
      t := startOf[d];
      Start(t);
      AttachRun(lastTrace, t, split, p0, current);
    }

    /** Try to continue the chain by duplicating one block; whether a trace was appended. */
    method Copying(t0: nat, partitioning: bool, current: Partition, ghost split: nat, ghost p0: Partition)
      returns (t: nat, more: bool)
      requires Tail(t0, partitioning, split, p0, current)
      modifies this`succs, this`part, this`aux, this`visited, this`startOf, this`endOf, this`traces, this`origin,
          this`own, this`chain, this`connected, this`frag
      ensures Tail(t, partitioning, split, p0, current) && old(chain) <= chain && |connected| == |old(connected)|
      ensures if more then |Free(connected)| < |Free(old(connected))| && Free(connected) <= Free(old(connected))
                else connected == old(connected)
      ensures Extends(own, old(own)) && SameFirsts(traces, old(traces))
      ensures (partitioning ==> part == old(part)) && |succs| >= |old(succs)|
    {
      hide Joining, WellFormed, Mirrors, Side, Sided, Free, Extends;
      ExtendsSame(own);
      ChainOwner();
      t, more := t0, false;
      var tryCopy, best, next := FindCopy(traces[t].last, current);
      var worth: bool := *;
      if partitioning {
        tryCopy := false;
      }
      if tryCopy && worth {
        CopyAfter(t, best);
        if next != NONE && next != EXIT {
          t := Append(t, next, partitioning, split, p0, current);
          more := true;
        }
      }
    }

    /** Find the successor traces. */
    method Successors(t0: nat, partitioning: bool, current: Partition, ghost split: nat, ghost p0: Partition)
      returns (t: nat)
      requires Tail(t0, partitioning, split, p0, current)
      modifies this`succs, this`part, this`aux, this`visited, this`startOf, this`endOf, this`traces, this`origin,
          this`own, this`chain, this`connected, this`frag
      ensures Tail(t, partitioning, split, p0, current) && old(chain) <= chain
      ensures Free(connected) <= Free(old(connected))
      ensures |connected| == |old(connected)| && Extends(own, old(own)) && SameFirsts(traces, old(traces))
      ensures (partitioning ==> part == old(part)) && |succs| >= |old(succs)|
    {
      hide Joining, WellFormed, Mirrors, Side, Sided, Free, Extends, SameFirsts, Follows;
      t := t0;
      var more := true;
      ExtendsSame(own);
      SameFirstsSame(traces);
      while more
        invariant Tail(t, partitioning, split, p0, current) && old(chain) <= chain
        invariant Free(connected) <= Free(old(connected))
        invariant |connected| == |old(connected)| && Extends(own, old(own)) && SameFirsts(traces, old(traces))
        invariant (partitioning ==> part == old(part)) && |succs| >= |old(succs)|
        decreases |Free(connected)|, more
      {
        ChainOwner();
        var fits: nat -> bool := *;
        var best := FindNext(traces[t].last, current, fits);
        if best != NONE {
          t := Append(t, best, partitioning, split, p0, current);
        } else {
          ghost var own1, traces1 := own, traces;
          t, more := Copying(t, partitioning, current, split, p0);
          ExtendsTrans(old(own), own1, own);
          SameFirstsTrans(old(traces), traces1, traces);
        }
      }
    }

    /** Connect trace `t` with the traces before and after it and put them at the end of the chain. */
    method Process(t: nat, lastTrace: int, partitioning: bool, current: Partition, ghost split: nat,
                   ghost p0: Partition) returns (last: nat)
      requires Tail(lastTrace, partitioning, split, p0, current) && t < |traces| && !connected[t]
      requires t == 0 || chain != []
      requires traces[t].first < |part| && (partitioning ==> part[traces[t].first] == current)
      modifies this
      ensures Tail(last, partitioning, split, p0, current) && lists == old(lists)
      ensures Free(connected) <= Free(old(connected)) - {t} && |connected| == |old(connected)|
      ensures chain[0] == if old(chain) == [] then old(traces[0].first) else old(chain[0])
      ensures Extends(own, old(own)) && SameFirsts(traces, old(traces))
      ensures partitioning ==> part == old(part)
      ensures |succs| >= |old(succs)|
    {
      hide Joining, WellFormed, Mirrors, Side, Sided, Free, Extends, SameFirsts;
      FreeConnect(connected, t);
      Start(t);
      var t2 := Predecessors(t, current, partitioning);
      AttachRun(lastTrace, t2, split, p0, current);
      FreeIs(connected, t);
      last := Successors(t, partitioning, current, split, p0);
    }

    /** Whether some trace is in another partition than the first one. */
    method SeveralPartitions() returns (two: bool)
      requires Ok() && traces != [] && (forall t :: 0 <= t < |traces| ==> traces[t].first < |part|)
      ensures two <==> exists t :: 0 <= t < |traces| && part[traces[t].first] != part[traces[0].first]
    {
      hide Joining, WellFormed, Mirrors;
      two := false;
      var i := 0;
      while i < |traces| && !two
        invariant i <= |traces|
        invariant two <==> exists t :: 0 <= t < i && part[traces[t].first] != part[traces[0].first]
      {
        two, i := part[traces[0].first] != part[traces[i].first], i + 1;
      }
    }

    ghost predicate Turning(i: nat, lastTrace: int, partitioning: bool, two: bool, pass: nat, current: Partition,
                            split: nat, p0: Partition,
                            part0: seq<Partition>, firsts: seq<Trace>, own0: seq<nat>)
      reads this
    {
      && Tail(lastTrace, partitioning, split, p0, current) && SameFirsts(traces, firsts) && Extends(own, own0)
      && Progress(Free(connected), |connected|, i, two, pass, current, part0, firsts)
      && (partitioning ==> part == part0) && |part0| <= |part| && (two ==> partitioning)
      && (pass == 1 || (pass == 2 && two)) && i <= |traces|
      && traces != [] && (forall t {:trigger firsts[t]} :: 0 <= t < |firsts| ==> firsts[t].first < |part0|)
      && (partitioning && !two ==>
          forall t {:trigger firsts[t]} :: 0 <= t < |firsts| ==> part0[firsts[t].first] == current)
      && if chain == [] then i == 0 && pass == 1 && 0 in Free(connected) && part0[firsts[0].first] == current
          else chain[0] == firsts[0].first
    }

    /** One turn of the main loop at trace `i`. */
    method Turn(i: nat, lastTrace: int, partitioning: bool, two: bool, pass: nat, current: Partition, ghost split: nat,
                ghost p0: Partition,
                ghost part0: seq<Partition>, ghost firsts: seq<Trace>, ghost own0: seq<nat>) returns (last: int)
      requires Turning(i, lastTrace, partitioning, two, pass, current, split, p0, part0, firsts, own0) && i < |traces|
      modifies this
      ensures Turning(i + 1, last, partitioning, two, pass, current, split, p0, part0, firsts, own0)
      ensures |connected| == |old(connected)|
    {
      hide Joining, WellFormed, Mirrors, Sided, Free, Extends, Progress;
      FreeIs(connected, i);
      FreeIs(connected, 0);
      ProgressAt(Free(connected), |traces|, i, two, pass, current, part0, firsts);
      last := lastTrace;
      ghost var free := Free(connected);
      if !connected[i] && !(two && part[traces[i].first] != current) {
        ghost var own1 := own;
        last := Process(i, last, partitioning, current, split, p0);
        ExtendsTrans(own0, own1, own);
      }
      ProgressStep(free, Free(connected), |traces|, i, two, pass, current, part0, firsts);
    }

    /** Enter the second pass. */
    lemma SecondPass(i: nat, lastTrace: int, partitioning: bool, two: bool, current: Partition, other: Partition,
                     split: nat, p0: Partition,
                     part0: seq<Partition>, firsts: seq<Trace>, own0: seq<nat>)
      requires Turning(i, lastTrace, partitioning, two, 1, current, split, p0, part0, firsts, own0) && i == |traces|
      requires two && split == 0
      requires forall t {:trigger firsts[t]} :: 0 <= t < |firsts| ==>
                 part0[firsts[t].first] == current || part0[firsts[t].first] == other
      ensures Turning(0, lastTrace, partitioning, two, 2, other, |chain|, current, part0, firsts, own0)
    {
      hide Joining, WellFormed, Mirrors, Free, Extends;
    }

    /** Start with nothing connected. */
    lemma FirstPass(partitioning: bool, two: bool, current: Partition)
      requires Ok() && chain == frag == [] && traces != [] && (forall t :: 0 <= t < |connected| ==> !connected[t])
      requires (forall t :: 0 <= t < |traces| ==> traces[t].first < |part|) && current == part[traces[0].first]
      requires two == (partitioning && exists t :: 0 <= t < |traces| && part[traces[t].first] != part[traces[0].first])
      ensures Turning(0, NONE, partitioning, two, 1, current, 0, current, part, traces, own)
    {
      hide Joining, WellFormed, Mirrors;
    }

    lemma StartsReal(t: nat)
      requires Ok() && t < |traces| && !connected[t] && lists[t] != []
      ensures lists[t][0] >= 2
    {
      hide Done, Tables, Owned, Placed, Mirrors, WellFormed;
      assert MarkedAs(own, lists[t], t + 1);
    }

    lemma Starts()
      requires Ok() && (forall t :: 0 <= t < |connected| ==> !connected[t])
      ensures forall t :: 0 <= t < |traces| ==> 2 <= traces[t].first < |part|
    {
      hide Joining, WellFormed, Mirrors;
      forall t | 0 <= t < |traces| ensures 2 <= traces[t].first < |part| {
        TraceEnds(t);
        StartsReal(t);
      }
    }

    /** connect_traces: connect all traces; `split` blocks of partition `p0` come first, then those of `p1`. */
    method ConnectTraces(partitioning: bool) returns (ghost split: nat, ghost p0: Partition, ghost p1: Partition)
      requires Ok() && chain == frag == [] && traces != [] && (forall t :: 0 <= t < |connected| ==> !connected[t])
      requires partitioning ==> forall b :: 2 <= b < |part| ==> part[b] == Hot || part[b] == Cold
      modifies this
      ensures Ok() && chain != [] && frag == [] && traces != [] && (forall t :: 0 <= t < |connected| ==> connected[t])
      ensures chain[0] == old(traces)[0].first == traces[0].first && Extends(own, old(own))
      ensures partitioning ==> Sided(part, chain, split, p0, p1)
    {
      hide Joining, WellFormed, Mirrors, Sided, Free, Extends, Progress, SameFirsts;
      Starts();
      ghost var part0, firsts, own0 := part, traces, own;
      var lastTrace, pass, current, i := NONE, 1, part[traces[0].first], 0;
      split, p0 := 0, current;
      var two := SeveralPartitions();
      two := two && partitioning;
      FirstPass(partitioning, two, current);
      while i < |traces| || (two && pass == 1)
        invariant Turning(i, lastTrace, partitioning, two, pass, current, split, p0, part0, firsts, own0)
        invariant pass == 1 ==> split == 0
        invariant partitioning ==> current == Hot || current == Cold
        invariant |connected| == |firsts|
        decreases 2 - pass, |firsts| - i
      {
        if i >= |traces| {
          ghost var was := current;
          i, pass := 0, 2;
          current := if current == Hot then Cold else Hot;
          SecondPass(|traces|, lastTrace, partitioning, two, was, current, split, p0, part0, firsts, own0);
          split, p0 := |chain|, was;
        }
        lastTrace := Turn(i, lastTrace, partitioning, two, pass, current, split, p0, part0, firsts, own0);
        i := i + 1;
      }
      p1 := current;
      FreeNone(connected, two, pass, current, part0, firsts, i);
      SameFirstsAt(traces, firsts);
    }
  }
}
