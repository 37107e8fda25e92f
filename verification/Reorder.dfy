/**
 Basic-block reordering: trace finding, loop rotation, block duplication and trace connection.
 The heuristics (frequencies, probabilities, size tests) are arbitrary choices.
 */
module Reorder {
  import opened FiniteSets

  const ENTRY: nat := 0
  const EXIT: nat := 1
  const NONE: int := -1
  const N_ROUNDS: nat := 5

  datatype Partition = Unpartitioned | Hot | Cold

  datatype Trace = Trace(first: nat, last: nat)

  type Succs = seq<seq<nat>>

  /** Blocks are numbered; ENTRY and EXIT are the first two numbers. */
  ghost predicate WellFormed(succs: Succs)
  {
    && |succs| >= 2 && succs[EXIT] == []
    && forall b, k :: 0 <= b < |succs| && 0 <= k < |succs[b]| ==> succs[b][k] < |succs| && succs[b][k] != ENTRY
  }

  ghost predicate Distinct(s: seq<nat>)
  {
    forall i, j :: 0 <= i < j < |s| ==> s[i] != s[j]
  }

  ghost predicate Below(s: seq<nat>, n: nat) { forall i :: 0 <= i < |s| ==> s[i] < n }

  /** `aux` leads from each block of `s` to the next. */
  ghost predicate Linked(aux: seq<int>, s: seq<nat>)
  {
    && Below(s, |aux|)
    && (forall i {:trigger aux[s[i]]} :: 0 <= i < |s| - 1 ==> aux[s[i]] == s[i + 1])
  }

  /** ... and stops at the last one. */
  ghost predicate Closed(aux: seq<int>, s: seq<nat>)
  {
    s != [] && Linked(aux, s) && aux[s[|s| - 1]] == NONE
  }

  /** Each block of `s` is a successor of the one before it. */
  ghost predicate Path(succs: Succs, s: seq<nat>)
  {
    && Below(s, |succs|)
    && (forall i {:trigger succs[s[i]]} :: 0 <= i < |s| - 1 ==> s[i + 1] in succs[s[i]])
  }

  ghost predicate SamePart(part: seq<Partition>, s: seq<nat>)
  {
    Below(s, |part|) && forall i, j :: 0 <= i < |s| && 0 <= j < |s| ==> part[s[i]] == part[s[j]]
  }

  /** Block `b` is in the trace its mark says; the trace under construction has the next number. */
  ghost predicate MarkOk(visited: seq<nat>, lists: seq<seq<nat>>, cur: seq<nat>, b: nat)
    requires b < |visited|
  {
    visited[b] != 0 ==>
      if visited[b] <= |lists| then b in lists[visited[b] - 1] else visited[b] == |lists| + 1 && b in cur
  }

  /** The blocks of a trace are real blocks marked with number `m`. */
  ghost predicate MarkedAs(visited: seq<nat>, s: seq<nat>, m: nat)
  {
    Distinct(s) && forall i :: 0 <= i < |s| ==> 2 <= s[i] < |visited| && visited[s[i]] == m
  }

  ghost predicate Marked(visited: seq<nat>, lists: seq<seq<nat>>, cur: seq<nat>)
  {
    && (forall b :: 0 <= b < |visited| ==> MarkOk(visited, lists, cur, b))
    && (forall t :: 0 <= t < |lists| ==> MarkedAs(visited, lists[t], t + 1))
    && MarkedAs(visited, cur, |lists| + 1)
  }

  /** A finished trace. */
  ghost predicate Done(aux: seq<int>, part: seq<Partition>, startOf: seq<int>, endOf: seq<int>, s: seq<nat>, tr: Trace,
                       t: nat)
  {
    && Closed(aux, s) && SamePart(part, s) && Below(s, |startOf|) && Below(s, |endOf|)
    && tr == Trace(s[0], s[|s| - 1]) && startOf[s[0]] == t && endOf[s[|s| - 1]] == t
  }

  ghost predicate Finished(aux: seq<int>, part: seq<Partition>, startOf: seq<int>, endOf: seq<int>,
                           lists: seq<seq<nat>>, traces: seq<Trace>)
  {
    && |lists| == |traces| && |startOf| == |endOf|
    && (forall t :: 0 <= t < |lists| ==> Done(aux, part, startOf, endOf, lists[t], traces[t], t))
    && (forall b :: 0 <= b < |startOf| && startOf[b] != NONE ==>
        0 <= startOf[b] < |traces| && traces[startOf[b]].first == b)
    && (forall b :: 0 <= b < |endOf| && endOf[b] != NONE ==> 0 <= endOf[b] < |traces| && traces[endOf[b]].last == b)
  }

  /** Blocks not visited yet are untouched. */
  ghost predicate Untouched(succs0: Succs, succs: Succs, aux: seq<int>, visited: seq<nat>)
  {
    && |visited| == |succs| == |aux| && |succs0| <= |succs| && |succs| >= 2 && visited[ENTRY] == 0 && visited[EXIT] == 0
    && (forall b :: 0 <= b < |visited| && visited[b] == 0 ==> b < |succs0| && aux[b] == NONE && succs[b] == succs0[b])
  }

  /** A heap holds blocks that are not visited yet. */
  ghost predicate Waiting(visited: seq<nat>, heap: set<nat>)
  {
    forall b :: b in heap ==> 2 <= b < |visited| && visited[b] == 0
  }

  ghost predicate Seen(visited: seq<nat>, waiting: set<nat>, d: nat)
  {
    d == EXIT || (d < |visited| && visited[d] != 0) || d in waiting
  }

  /** All successors of block `b` are visited or waiting or among `exc`. */
  ghost predicate Exits(succs0: Succs, visited: seq<nat>, waiting: set<nat>, exc: set<nat>, b: nat)
    requires b < |succs0|
  {
    forall k :: 0 <= k < |succs0[b]| ==> Seen(visited, waiting, succs0[b][k]) || succs0[b][k] in exc
  }

  /** All successors of visited blocks other than `skip` are. */
  ghost predicate Covered(succs0: Succs, visited: seq<nat>, waiting: set<nat>, exc: set<nat>, skip: set<nat>)
  {
    |succs0| <= |visited| &&
    forall b :: 0 <= b < |succs0| && (b == ENTRY || visited[b] != 0) && b !in skip ==>
        Exits(succs0, visited, waiting, exc, b)
  }

  ghost predicate Walk(succs0: Succs, p: seq<nat>, b: nat)
  {
    p != [] && Path(succs0, p) && p[0] == ENTRY && p[|p| - 1] == b
  }

  /** Some path leads from ENTRY to `b`. */
  ghost predicate Reachable(succs0: Succs, b: nat)
  {
    exists p :: Walk(succs0, p, b)
  }

  /** Only reachable blocks are visited or wait to be. */
  ghost predicate Reached(succs0: Succs, visited: seq<nat>, waiting: set<nat>)
  {
    |succs0| <= |visited| && forall b :: 0 <= b < |succs0| && (visited[b] != 0 || b in waiting) ==> Reachable(succs0, b)
  }

  ghost predicate MirrorsAt(succs0: Succs, part0: seq<Partition>, succs: Succs, part: seq<Partition>, origin: seq<nat>,
                            b: nat)
    requires b < |origin| == |succs| == |part| && |part0| == |succs0|
  {
    && origin[b] < |succs0| && (b >= 2 ==> origin[b] >= 2) && part[b] == part0[origin[b]]
    && |succs[b]| == |succs0[origin[b]]|
    && forall k :: 0 <= k < |succs[b]| ==> succs[b][k] < |succs| && origin[succs[b][k]] == succs0[origin[b]][k]
  }

  /**
   Block `b` stands for block `origin[b]` of the original graph: it has the same edges, up to which copy they lead to.
   */
  ghost predicate Mirrors(succs0: Succs, part0: seq<Partition>, succs: Succs, part: seq<Partition>, origin: seq<nat>)
  {
    && |origin| == |succs| == |part| >= |succs0| == |part0|
    && (forall b :: 0 <= b < |succs0| ==> origin[b] == b)
    && (forall b :: 0 <= b < |succs| ==> MirrorsAt(succs0, part0, succs, part, origin, b))
  }

  /** The graph after duplicating `orig` and redirecting edge `pos` of `src` to the copy. */
  function Duplicated(succs: Succs, src: nat, pos: nat, orig: nat): (r: Succs)
    requires src < |succs| && pos < |succs[src]| && orig < |succs|
    ensures |r| == |succs| + 1
  {
    var redirected: seq<nat> := succs[src][pos := |succs|];
    succs[src := redirected] + [succs[orig]]
  }

  lemma MirrorCopy(succs0: Succs, part0: seq<Partition>, succs: Succs, part: seq<Partition>, origin: seq<nat>, src: nat,
                   pos: nat)
    requires Mirrors(succs0, part0, succs, part, origin) && src < |succs| && pos < |succs[src]| && succs[src][pos] >= 2
    ensures succs[src][pos] < |succs| == |origin| == |part|
    ensures var orig := succs[src][pos];
            Mirrors(succs0, part0, Duplicated(succs, src, pos, orig), part + [part[orig]], origin + [origin[orig]])
  {
    assert MirrorsAt(succs0, part0, succs, part, origin, src);
    var orig := succs[src][pos];
    var s', p', o' := Duplicated(succs, src, pos, orig), part + [part[orig]], origin + [origin[orig]];
    forall b | 0 <= b < |s'| ensures MirrorsAt(succs0, part0, s', p', o', b) {
      assert MirrorsAt(succs0, part0, succs, part, origin, if b < |succs| then b else orig);
    }
  }

  ghost function Unvisited(visited: seq<nat>): set<nat>
  {
    set b: nat | b < |visited| && visited[b] == 0
  }

  lemma NoneWait(visited: seq<nat>)
    ensures Waiting(visited, {})
  {}

  lemma UnvisitedVisit(visited: seq<nat>, bb: nat, m: nat)
    requires bb < |visited| && visited[bb] == 0 && m != 0
    ensures Unvisited(visited[bb := m]) == Unvisited(visited) - {bb} && bb in Unvisited(visited)
    ensures |Unvisited(visited[bb := m])| < |Unvisited(visited)|
  {
    assert Unvisited(visited[bb := m]) == Unvisited(visited) - {bb};
  }

  lemma {:induction false} UnvisitedMost(visited: seq<nat>)
    ensures |Unvisited(visited)| <= |visited|
    decreases |visited|
  {
    var n := |visited| - 1;
    if n >= 0 {
      UnvisitedMost(visited[..n]);
      assert Unvisited(visited) == Unvisited(visited[..n]) + if visited[n] == 0 then {n} else {};
    }
  }

  lemma UnvisitedCopy(visited: seq<nat>, m: nat)
    requires m != 0
    ensures Unvisited(visited + [m]) == Unvisited(visited)
  {}

  lemma PathAt(succs: Succs, s: seq<nat>, p: nat)
    requires Path(succs, s) && p < |s|
    ensures s[p] < |succs| && (p > 0 ==> s[p - 1] < |succs| && s[p] in succs[s[p - 1]])
  {
    assert p > 0 ==> s[p - 1 + 1] in succs[s[p - 1]];
  }

  /** `s` with the loop `s[p..]` rotated so that it ends with `s[q]`. */
  function Rotated(s: seq<nat>, p: nat, q: nat): (r: seq<nat>)
    requires p <= q < |s|
    ensures |r| == |s|
  {
    s[..p] + s[q + 1..] + s[p..q + 1]
  }

  /** Where the block at `j` of the rotated trace was before. */
  function RotFrom(n: nat, p: nat, q: nat, j: nat): nat
    requires p <= q < n && j < n
  {
    if j < p then j else if j < p + n - 1 - q then j - p + q + 1 else j - (n - 1 - q)
  }

  lemma RotatedAt(s: seq<nat>, p: nat, q: nat, j: nat)
    requires p <= q < |s| && j < |s|
    ensures |Rotated(s, p, q)| == |s| && RotFrom(|s|, p, q, j) < |s|
    ensures Rotated(s, p, q)[j] == s[RotFrom(|s|, p, q, j)]
  {}

  lemma RotatedMember(s: seq<nat>, p: nat, q: nat, b: nat)
    requires p <= q < |s|
    ensures b in Rotated(s, p, q) <==> b in s
    ensures multiset(Rotated(s, p, q)) == multiset(s)
  {
    assert s == s[..p] + (s[p..q + 1] + s[q + 1..]);
  }

  lemma RotatedPrefix(s: seq<nat>, p: nat, q: nat)
    requires 0 < p <= q < |s|
    ensures |Rotated(s, p, q)| == |s| && Rotated(s, p, q)[p - 1] == s[p - 1] && s[p] in Rotated(s, p, q)
  {
    RotatedAt(s, p, q, p - 1);
    RotatedMember(s, p, q, s[p]);
  }

  /** The links after rotation: the block before the loop leads to the one after `s[q]`, and `s[q]` leads nowhere. */
  function RotatedLinks(aux: seq<int>, s: seq<nat>, p: nat, q: nat): (r: seq<int>)
    requires p <= q < |s| && Below(s, |aux|)
    ensures |r| == |aux|
  {
    (if p == 0 then aux else aux[s[p - 1] := aux[s[q]]])[s[q] := NONE]
  }

  lemma LinkedLoop(aux: seq<int>, s: seq<nat>, p: nat)
    requires Linked(aux, s) && Distinct(s) && p < |s|
    ensures Below(s, |aux|) && Linked(aux[s[|s| - 1] := s[p]], s)
  {}

  lemma LinkedAt(aux: seq<int>, s: seq<nat>, p: nat, q: nat)
    requires Linked(aux, s) && Distinct(s) && p <= q < |s|
    ensures Below(s, |aux|) && (p > 0 ==> aux[s[p - 1]] == s[p] && s[p - 1] != s[|s| - 1] && s[0] != s[p])
    ensures q < |s| - 1 ==> aux[s[q]] == s[q + 1] && s[q] != s[|s| - 1]
    ensures p > 0 ==> s[p - 1] != s[q]
  {}

  lemma RotatedMarks(visited: seq<nat>, lists: seq<seq<nat>>, cur: seq<nat>, p: nat, q: nat)
    requires Marked(visited, lists, cur) && p <= q < |cur|
    ensures Marked(visited, lists, Rotated(cur, p, q))
  {
    var r := Rotated(cur, p, q);
    forall b | 0 <= b < |visited| ensures MarkOk(visited, lists, r, b) {
      RotatedMember(cur, p, q, b);
      assert MarkOk(visited, lists, cur, b);
    }
    forall i | 0 <= i < |r| ensures 2 <= r[i] < |visited| && visited[r[i]] == |lists| + 1 {
      RotatedAt(cur, p, q, i);
    }
    forall i, j | 0 <= i < j < |r| ensures r[i] != r[j] {
      RotatedAt(cur, p, q, i);
      RotatedAt(cur, p, q, j);
    }
  }

  lemma RotatedPart(part: seq<Partition>, s: seq<nat>, p: nat, q: nat)
    requires SamePart(part, s) && p <= q < |s|
    ensures SamePart(part, Rotated(s, p, q))
  {
    forall j | 0 <= j < |s| ensures Rotated(s, p, q)[j] < |part| && part[Rotated(s, p, q)[j]] == part[s[0]] {
      RotatedAt(s, p, q, j);
    }
  }

  lemma RotatedClosed(aux: seq<int>, s: seq<nat>, p: nat, q: nat)
    requires p <= q < |s| && Linked(aux, s) && Distinct(s) && aux[s[|s| - 1]] == s[p]
    ensures Closed(RotatedLinks(aux, s, p, q), Rotated(s, p, q))
  {
    var r, a, n := Rotated(s, p, q), RotatedLinks(aux, s, p, q), |s|;
    forall j | 0 <= j < n ensures r[j] < |a| {
      RotatedAt(s, p, q, j);
    }
    forall j | 0 <= j < n - 1 ensures a[r[j]] == r[j + 1] {
      RotatedAt(s, p, q, j);
      RotatedAt(s, p, q, j + 1);
      var i := RotFrom(n, p, q, j);
      assert i < n - 1 ==> aux[s[i]] == s[i + 1];
      assert q < n - 1 ==> aux[s[q]] == s[q + 1];
    }
    RotatedAt(s, p, q, n - 1);
  }

  /** Changing `aux` of a block that is in no finished trace leaves the finished traces alone. */
  lemma FinishedAux(aux: seq<int>, part: seq<Partition>, startOf: seq<int>, endOf: seq<int>, lists: seq<seq<nat>>,
                    traces: seq<Trace>,
                    visited: seq<nat>, cur: seq<nat>, x: nat, y: int)
    requires Finished(aux, part, startOf, endOf, lists, traces) && Marked(visited, lists, cur) && |visited| == |aux|
    requires x < |aux| && visited[x] == |lists| + 1
    ensures Finished(aux[x := y], part, startOf, endOf, lists, traces)
  {
    forall t | 0 <= t < |lists| ensures Done(aux[x := y], part, startOf, endOf, lists[t], traces[t], t) {
      assert Done(aux, part, startOf, endOf, lists[t], traces[t], t) && MarkedAs(visited, lists[t], t + 1);
    }
  }

  lemma RotateAll(succs0: Succs, succs: Succs, part: seq<Partition>, aux: seq<int>, visited: seq<nat>,
                  startOf: seq<int>, endOf: seq<int>,
                  traces: seq<Trace>, lists: seq<seq<nat>>, cur: seq<nat>, p: nat, q: nat)
    requires Marked(visited, lists, cur) && Finished(aux, part, startOf, endOf, lists, traces)
    requires Untouched(succs0, succs, aux, visited) && Closed(aux, cur) && SamePart(part, cur) && p <= q < |cur|
    ensures Marked(visited, lists, Rotated(cur, p, q)) && SamePart(part, Rotated(cur, p, q))
    ensures var a := RotatedLinks(aux[cur[|cur| - 1] := cur[p]], cur, p, q);
            && Finished(a, part, startOf, endOf, lists, traces)
            && Untouched(succs0, succs, a, visited) && Closed(a, Rotated(cur, p, q))
  {
    var l, x := cur[|cur| - 1], aux[cur[|cur| - 1] := cur[p]];
    RotatedMarks(visited, lists, cur, p, q);
    RotatedPart(part, cur, p, q);
    RotatedClosed(x, cur, p, q);
    FinishedAux(aux, part, startOf, endOf, lists, traces, visited, cur, l, cur[p]);
    var y := if p == 0 then x else x[cur[p - 1] := x[cur[q]]];
    if p > 0 {
      FinishedAux(x, part, startOf, endOf, lists, traces, visited, cur, cur[p - 1], x[cur[q]]);
    }
    FinishedAux(y, part, startOf, endOf, lists, traces, visited, cur, cur[q], NONE);
  }

  ghost function Elements(s: seq<nat>): set<nat> { set x | x in s }

  lemma ReachEntry(succs0: Succs)
    requires WellFormed(succs0)
    ensures Reachable(succs0, ENTRY)
  {
    assert Walk(succs0, [ENTRY], ENTRY);
  }

  lemma ReachNext(succs0: Succs, bb: nat)
    requires WellFormed(succs0) && bb < |succs0| && Reachable(succs0, bb)
    ensures forall d :: d in succs0[bb] ==> Reachable(succs0, d)
  {
    var p :| Walk(succs0, p, bb);
    forall d | d in succs0[bb] ensures Reachable(succs0, d) {
      assert Walk(succs0, p + [d], d);
    }
  }

  lemma MoveLinks(aux: seq<int>, succs: Succs, part: seq<Partition>, cur: seq<nat>, bb: nat, bb': nat)
    requires cur != [] && cur[|cur| - 1] == bb && Closed(aux, cur) && Distinct(cur) && Path(succs, cur)
    requires SamePart(part, cur)
    requires bb' < |succs| == |part| == |aux| && bb' in succs[bb] && part[bb'] == part[bb]
    ensures Linked(aux[bb := bb'], cur + [bb']) && Path(succs, cur + [bb']) && SamePart(part, cur + [bb'])
  {
    var s, a := cur + [bb'], aux[bb := bb'];
    forall i | 0 <= i < |s| - 1 ensures a[s[i]] == s[i + 1] && s[i + 1] in succs[s[i]] {
      if i < |cur| - 1 {
        assert aux[cur[i]] == cur[i + 1] && cur[i + 1] in succs[cur[i]];
      }
    }
  }

  lemma VisitMarks(visited: seq<nat>, lists: seq<seq<nat>>, cur: seq<nat>, bb: nat)
    requires Marked(visited, lists, cur) && 2 <= bb < |visited| && visited[bb] == 0
    ensures Marked(visited[bb := |lists| + 1], lists, cur + [bb])
  {
    var v := visited[bb := |lists| + 1];
    forall b | 0 <= b < |v| ensures MarkOk(v, lists, cur + [bb], b) {
      assert MarkOk(visited, lists, cur, b);
    }
    forall t | 0 <= t < |lists| ensures MarkedAs(v, lists[t], t + 1) {
      assert MarkedAs(visited, lists[t], t + 1);
    }
  }

  lemma CoverVisit(succs0: Succs, visited: seq<nat>, waiting: set<nat>, bb: nat, c: nat, m: nat)
    requires Covered(succs0, visited, waiting, {bb, c}, {}) && bb < |visited| && bb < |succs0| && m != 0
    requires c == bb || succs0[bb] == [c]
    ensures Covered(succs0, visited[bb := m], waiting - {bb}, Elements(succs0[bb]), {bb})
  {
    var v := visited[bb := m];
    forall b | 0 <= b < |succs0| && (b == ENTRY || v[b] != 0) && b != bb
      ensures Exits(succs0, v, waiting - {bb}, Elements(succs0[bb]), b)
    {
      assert Exits(succs0, visited, waiting, {bb, c}, b);
    }
  }

  lemma CoverPush(succs0: Succs, visited: seq<nat>, waiting: set<nat>, waiting': set<nat>, bb: nat, exc: set<nat>)
    requires bb < |succs0| && Covered(succs0, visited, waiting, Elements(succs0[bb]), {bb}) && waiting <= waiting'
    requires forall j :: 0 <= j < |succs0[bb]| ==> Seen(visited, waiting', succs0[bb][j]) || succs0[bb][j] in exc
    ensures Covered(succs0, visited, waiting', exc, {})
  {
    forall b | 0 <= b < |succs0| && (b == ENTRY || visited[b] != 0) ensures Exits(succs0, visited, waiting', exc, b) {
      if b != bb {
        assert Exits(succs0, visited, waiting, Elements(succs0[bb]), b);
      }
    }
  }

  lemma CoverMore(succs0: Succs, visited: seq<nat>, waiting: set<nat>, exc: set<nat>, exc': set<nat>)
    requires Covered(succs0, visited, waiting, exc, {}) && exc <= exc'
    ensures Covered(succs0, visited, waiting, exc', {})
  {
    forall b | 0 <= b < |succs0| && (b == ENTRY || visited[b] != 0) ensures Exits(succs0, visited, waiting, exc', b) {
      assert Exits(succs0, visited, waiting, exc, b);
    }
  }

  lemma CoverTake(succs0: Succs, visited: seq<nat>, waiting: set<nat>, waiting': set<nat>, bb: nat)
    requires Covered(succs0, visited, waiting, {}, {}) && waiting - {bb} <= waiting'
    ensures Covered(succs0, visited, waiting', {bb, bb}, {})
  {
    forall b | 0 <= b < |succs0| && (b == ENTRY || visited[b] != 0)
      ensures Exits(succs0, visited, waiting', {bb, bb}, b) {
      assert Exits(succs0, visited, waiting, {}, b);
    }
  }

  lemma CoverSeen(succs0: Succs, visited: seq<nat>, waiting: set<nat>, d: nat)
    requires Covered(succs0, visited, waiting, {d}, {}) && Seen(visited, waiting, d)
    ensures Covered(succs0, visited, waiting, {}, {})
  {
    forall b | 0 <= b < |succs0| && (b == ENTRY || visited[b] != 0) ensures Exits(succs0, visited, waiting, {}, b) {
      assert Exits(succs0, visited, waiting, {d}, b);
    }
  }

  lemma NotListed(visited: seq<nat>, lists: seq<seq<nat>>, cur: seq<nat>, t: nat, i: nat, j: nat)
    requires Marked(visited, lists, cur) && t < |lists| && i < |lists[t]| && j < |cur|
    ensures lists[t][i] != cur[j]
  {
    assert MarkedAs(visited, lists[t], t + 1);
  }

  lemma FinishedMore(aux: seq<int>, part: seq<Partition>, startOf: seq<int>, endOf: seq<int>, lists: seq<seq<nat>>,
                     traces: seq<Trace>,
                     visited: seq<nat>, cur: seq<nat>)
    requires Finished(aux, part, startOf, endOf, lists, traces) && Marked(visited, lists, cur)
    requires |startOf| == |aux| == |visited|
    requires Closed(aux, cur) && SamePart(part, cur)
    ensures var t, f, l := |lists|, cur[0], cur[|cur| - 1];
            Finished(aux, part, startOf[f := t], endOf[l := t], lists + [cur], traces + [Trace(f, l)])
  {
    var t, f, l := |lists|, cur[0], cur[|cur| - 1];
    forall u | 0 <= u < t ensures Done(aux, part, startOf[f := t], endOf[l := t], lists[u], traces[u], u) {
      assert Done(aux, part, startOf, endOf, lists[u], traces[u], u);
      NotListed(visited, lists, cur, u, 0, 0);
      NotListed(visited, lists, cur, u, |lists[u]| - 1, |cur| - 1);
    }
  }

  lemma MarkedMore(visited: seq<nat>, lists: seq<seq<nat>>, cur: seq<nat>)
    requires Marked(visited, lists, cur)
    ensures Marked(visited, lists + [cur], [])
  {
    forall b | 0 <= b < |visited| ensures MarkOk(visited, lists + [cur], [], b) {
      assert MarkOk(visited, lists, cur, b);
    }
    forall t | 0 <= t < |lists| ensures MarkedAs(visited, lists[t], t + 1) {}
  }

  function Ins(s: seq<nat>, k: nat, x: nat): (r: seq<nat>)
    requires k <= |s|
    ensures |r| == |s| + 1
  {
    s[..k] + [x] + s[k..]
  }

  lemma InsAt(s: seq<nat>, k: nat, x: nat, j: nat)
    requires k <= |s| && j <= |s|
    ensures Ins(s, k, x)[j] == if j < k then s[j] else if j == k then x else s[j - 1]
  {}

  lemma MarkOfCur(visited: seq<nat>, lists: seq<seq<nat>>, cur: seq<nat>)
    requires Marked(visited, lists, cur)
    ensures Distinct(cur) && forall b :: b in cur ==> 2 <= b < |visited| && visited[b] == |lists| + 1
  {}

  lemma InsMember(s: seq<nat>, k: nat, x: nat, b: nat)
    requires k <= |s|
    ensures b in Ins(s, k, x) <==> b == x || b in s
  {
    assert s == s[..k] + s[k..];
  }

  lemma CopyMarkedAs(visited: seq<nat>, cur: seq<nat>, k: nat, m: nat)
    requires MarkedAs(visited, cur, m) && k <= |cur| && |visited| >= 2
    ensures MarkedAs(visited + [m], Ins(cur, k, |visited|), m)
  {
    var v, cur' := visited + [m], Ins(cur, k, |visited|);
    forall j | 0 <= j < |cur'| ensures 2 <= cur'[j] < |v| && v[cur'[j]] == m {
      InsAt(cur, k, |visited|, j);
    }
    forall i, j | 0 <= i < j < |cur'| ensures cur'[i] != cur'[j] {
      InsAt(cur, k, |visited|, i);
      InsAt(cur, k, |visited|, j);
    }
  }

  lemma CopyMarks(visited: seq<nat>, lists: seq<seq<nat>>, cur: seq<nat>, k: nat, n: nat, m: nat)
    requires Marked(visited, lists, cur) && k <= |cur| && n == |visited| >= 2 && m == |lists| + 1
    ensures Marked(visited + [m], lists, Ins(cur, k, n))
  {
    var v := visited + [m];
    var cur' := Ins(cur, k, n);
    forall b | 0 <= b < |v| ensures MarkOk(v, lists, cur', b) {
      InsMember(cur, k, n, b);
      if b < n { assert MarkOk(visited, lists, cur, b); }
    }
    forall t | 0 <= t < |lists| ensures MarkedAs(v, lists[t], t + 1) { assert MarkedAs(visited, lists[t], t + 1); }
    CopyMarkedAs(visited, cur, k, |lists| + 1);
  }

  lemma CopyFinished(aux: seq<int>, part: seq<Partition>, startOf: seq<int>, endOf: seq<int>, lists: seq<seq<nat>>,
                     traces: seq<Trace>,
                     visited: seq<nat>, cur: seq<nat>, after: nat, p: Partition, n: nat)
    requires Finished(aux, part, startOf, endOf, lists, traces) && Marked(visited, lists, cur)
    requires |visited| == |aux| == |part| == |startOf|
    requires after in cur && after < |aux|
    ensures Finished(aux[after := n] + [aux[after]], part + [p], startOf + [NONE], endOf + [NONE], lists, traces)
  {
    forall t | 0 <= t < |lists|
      ensures Done(aux[after := n] + [aux[after]], part + [p], startOf + [NONE], endOf + [NONE], lists[t], traces[t], t)
    {
      assert Done(aux, part, startOf, endOf, lists[t], traces[t], t) && MarkedAs(visited, lists[t], t + 1);
    }
  }

  lemma CopyLinks(aux: seq<int>, cur: seq<nat>, i: nat, n: nat)
    requires Closed(aux, cur) && Distinct(cur) && i < |cur| && n == |aux|
    ensures Closed(aux[cur[i] := n] + [aux[cur[i]]], Ins(cur, i + 1, n))
  {
    var a, c := aux[cur[i] := n] + [aux[cur[i]]], Ins(cur, i + 1, n);
    forall j | 0 <= j < |c| ensures c[j] < |a| { InsAt(cur, i + 1, n, j); }
    forall j | 0 <= j < |c| - 1 ensures a[c[j]] == c[j + 1] {
      InsAt(cur, i + 1, n, j);
      InsAt(cur, i + 1, n, j + 1);
      if j < i { assert aux[cur[j]] == cur[j + 1]; } else if j > i + 1 { assert aux[cur[j - 1]] == cur[j]; }
    }
    InsAt(cur, i + 1, n, |c| - 1);
  }

  lemma CopyPart(part: seq<Partition>, cur: seq<nat>, k: nat, orig: nat, n: nat)
    requires SamePart(part, cur) && orig in cur && k <= |cur| && n == |part|
    ensures SamePart(part + [part[orig]], Ins(cur, k, n))
  {
    var p, c := part + [part[orig]], Ins(cur, k, n);
    forall j | 0 <= j < |c| ensures c[j] < |p| && p[c[j]] == part[orig] { InsAt(cur, k, n, j); }
  }

  lemma CoverCopy(succs0: Succs, visited: seq<nat>, waiting: set<nat>, m: nat)
    requires Covered(succs0, visited, waiting, {}, {}) && m != 0
    ensures Covered(succs0, visited + [m], waiting, {}, {})
  {
    var v := visited + [m];
    forall b | 0 <= b < |succs0| && (b == ENTRY || v[b] != 0) ensures Exits(succs0, v, waiting, {}, b) {
      assert Exits(succs0, visited, waiting, {}, b);
    }
  }

  lemma CopySuccs(succs0: Succs, succs: Succs, aux: seq<int>, visited: seq<nat>, src: nat, pos: nat, orig: nat,
                  after: nat, n: nat, m: nat)
    requires WellFormed(succs) && Untouched(succs0, succs, aux, visited) && m != 0 && n == |succs|
    requires src < |succs| && visited[src] != 0 && pos < |succs[src]| && orig < |succs| && after < |succs|
    requires visited[after] != 0
    ensures |Duplicated(succs, src, pos, orig)| == n + 1
    ensures WellFormed(Duplicated(succs, src, pos, orig))
    ensures Untouched(succs0, Duplicated(succs, src, pos, orig), aux[after := n] + [aux[after]], visited + [m])
  {}

  lemma ReachedCopy(succs0: Succs, visited: seq<nat>, waiting: set<nat>, m: nat)
    requires Reached(succs0, visited, waiting)
    ensures Reached(succs0, visited + [m], waiting)
  {}

  lemma WaitingCopy(visited: seq<nat>, heap: set<nat>, m: nat)
    requires Waiting(visited, heap)
    ensures Waiting(visited + [m], heap)
  {}

  lemma CopyAll(succs0: Succs, succs: Succs, part: seq<Partition>, aux: seq<int>, visited: seq<nat>, startOf: seq<int>,
                endOf: seq<int>,
                traces: seq<Trace>, lists: seq<seq<nat>>, cur: seq<nat>, heap: set<nat>, newHeap: set<nat>,
                src: nat, pos: nat, orig: nat, after: nat, i: nat, n: nat, m: nat)
    requires |lists| == |traces| && WellFormed(succs) && |part| == |startOf| == |endOf| == |succs| && n == |succs|
    requires m == |lists| + 1
    requires Marked(visited, lists, cur) && Finished(aux, part, startOf, endOf, lists, traces)
    requires Untouched(succs0, succs, aux, visited) && Waiting(visited, heap) && Waiting(visited, newHeap)
    requires Reached(succs0, visited, heap + newHeap)
    requires Closed(aux, cur) && SamePart(part, cur) && Covered(succs0, visited, heap + newHeap, {}, {})
    requires i < |cur| && after == cur[i] && orig < |succs| && orig in cur
    requires src < |succs| && visited[src] != 0 && pos < |succs[src]|
    ensures n + 1 == |Duplicated(succs, src, pos, orig)| && WellFormed(Duplicated(succs, src, pos, orig)) 
    ensures after < |aux|
    ensures Marked(visited + [m], lists, Ins(cur, i + 1, n))
    ensures Finished(aux[after := n] + [aux[after]], part + [part[orig]], startOf + [NONE], endOf + [NONE], lists,
              traces)
    ensures Untouched(succs0, Duplicated(succs, src, pos, orig), aux[after := n] + [aux[after]], visited + [m])
    ensures Waiting(visited + [m], heap) && Waiting(visited + [m], newHeap)
    ensures Closed(aux[after := n] + [aux[after]], Ins(cur, i + 1, n))
    ensures SamePart(part + [part[orig]], Ins(cur, i + 1, n))
    ensures Covered(succs0, visited + [m], heap + newHeap, {}, {}) && Reached(succs0, visited + [m], heap + newHeap)
  {
      hide Mirrors, WellFormed, Distinct, Closed, SamePart, Marked, Finished, Covered, Ins, Duplicated, Waiting,
          Reached;
      MarkOfCur(visited, lists, cur);
      ReachedCopy(succs0, visited, heap + newHeap, m);
      CopyMarks(visited, lists, cur, i + 1, n, m);
      CopyFinished(aux, part, startOf, endOf, lists, traces, visited, cur, after, part[orig], n);
      CopyLinks(aux, cur, i, n);
      CoverCopy(succs0, visited, heap + newHeap, m);
      CopyPart(part, cur, i + 1, orig, n);
      CopySuccs(succs0, succs, aux, visited, src, pos, orig, after, n, m);
      WaitingCopy(visited, heap, m);
      WaitingCopy(visited, newHeap, m);
  }

  /** The pass's working data. What GCC keeps per block is a sequence indexed by block number. */
  class Pass {
    ghost const succs0: Succs
    ghost const part0: seq<Partition>
    /** The block after ENTRY, which the layout starts with. */
    const next: nat
    var succs: Succs
    var part: seq<Partition>
    var aux: seq<int>
    var visited: seq<nat>
    var heap: set<nat>
    var newHeap: set<nat>
    var startOf: seq<int>
    var endOf: seq<int>
    var traces: seq<Trace>
    ghost var origin: seq<nat>
    ghost var lists: seq<seq<nat>>
    ghost var cur: seq<nat>

    /** The state before the pass. */
    ghost predicate Initial()
      reads this
    {
      && WellFormed(succs0) && succs == succs0 && |visited| == |aux| == |part| == |startOf| == |endOf| == |succs|
      && heap == newHeap == {} && lists == [] && traces == [] && cur == []
      && Mirrors(succs0, part0, succs, part, origin)
      && forall b :: 0 <= b < |succs| ==> visited[b] == 0 && aux[b] == startOf[b] == endOf[b] == NONE
    }

    constructor (succs: Succs, part: seq<Partition>, next: nat)
      requires WellFormed(succs) && |part| == |succs|
      ensures Initial() && this.succs == succs0 == succs && this.part == part0 == part && this.next == next
    {
      this.succs, this.part, succs0, part0, this.next := succs, part, succs, part, next;
      aux, startOf, endOf := seq(|succs|, _ => NONE), seq(|succs|, _ => NONE), seq(|succs|, _ => NONE);
      visited, heap, newHeap := seq(|succs|, _ => 0), {}, {};
      origin, traces, lists, cur := seq(|succs|, b => b), [], [], [];
      new;
      assert forall b :: 0 <= b < |succs| ==> MirrorsAt(succs, part, succs, part, origin, b);
    }

    ghost predicate Base()
      reads this
    {
      && |lists| == |traces| && WellFormed(succs0) && WellFormed(succs)
      && |visited| == |part| == |startOf| == |endOf| == |succs|
      && Marked(visited, lists, cur) && Finished(aux, part, startOf, endOf, lists, traces)
      && Untouched(succs0, succs, aux, visited) && Waiting(visited, heap) && Waiting(visited, newHeap)
      && Reached(succs0, visited, heap + newHeap) && Mirrors(succs0, part0, succs, part, origin)
    }

    /** The state between two traces. */
    ghost predicate Inv()
      reads this
    {
      Base() && cur == [] && Covered(succs0, visited, heap + newHeap, {}, {})
    }

    /** About to visit `bb` as the next block of the current trace; `c` is itself or the join block it leads to. */
    ghost predicate AtBlock(bb: nat, c: nat)
      reads this
    {
      && Base() && 2 <= bb < |succs| && visited[bb] == 0 && Reachable(succs0, bb)
      && Linked(aux, cur + [bb]) && Path(succs, cur + [bb]) && SamePart(part, cur + [bb])
      && Covered(succs0, visited, heap + newHeap, {bb, c}, {}) && (c == bb || (bb < |succs0| && succs0[bb] == [c]))
    }

    /** Just visited `bb`, now the last block of the current trace. */
    ghost predicate AfterBlock(bb: nat)
      reads this
    {
      && Base() && cur != [] && cur[|cur| - 1] == bb && 2 <= bb < |succs0| && succs[bb] == succs0[bb]
      && Closed(aux, cur) && Path(succs, cur) && SamePart(part, cur)
    }

    /** mark_bb_visited: mark the block with the number of the current trace and take it off its heap. */
    method Visit(bb: nat, ghost c: nat)
      requires AtBlock(bb, c)
      modifies this`visited, this`heap, this`newHeap, this`cur
      ensures AfterBlock(bb) && cur == old(cur) + [bb]
      ensures Covered(succs0, visited, heap + newHeap, Elements(succs0[bb]), {bb})
      ensures visited == old(visited)[bb := |traces| + 1]
      ensures heap == old(heap) - {bb} && newHeap == old(newHeap) - {bb}
    {
      hide Mirrors, Finished, WellFormed, Path, SamePart, Reachable;
      VisitMarks(visited, lists, cur, bb);
      CoverVisit(succs0, visited, heap + newHeap, bb, c, |traces| + 1);
      visited := visited[bb := |traces| + 1];
      assert heap + newHeap - {bb} == (heap - {bb}) + (newHeap - {bb});
      heap := heap - {bb};
      newHeap := newHeap - {bb};
      cur := cur + [bb];
    }

    ghost predicate Suitable(bb: nat, k: int)
      reads this
    {
      && bb < |succs| && 0 <= k < |succs[bb]| && |visited| == |part| == |succs|
      && var d := succs[bb][k];
         2 <= d < |succs| && (visited[d] == 0 || visited[d] == |traces| + 1) && part[d] == part[bb]
    }

    /** Select the successor that will be placed after `bb`; some are ruled out, the rest is up to the heuristics. */
    method Choose(bb: nat, fits: nat -> bool, later: bool) returns (best: int)
      requires AfterBlock(bb)
      ensures best != NONE ==> Suitable(bb, best) && fits(best) && !later
      ensures best == NONE ==> later || forall k :: 0 <= k < |succs[bb]| && fits(k) ==> !Suitable(bb, k)
    {
      hide Mirrors, Finished, Path, SamePart, Marked, Closed;
      best := NONE;
      for k := 0 to |succs[bb]|
        invariant best != NONE ==> Suitable(bb, best) && fits(best)
        invariant best == NONE ==> forall j :: 0 <= j < k && fits(j) ==> !Suitable(bb, j)
      {
        var d := succs[bb][k];
        if d == EXIT || (visited[d] != 0 && visited[d] != |traces| + 1) || part[d] != part[bb] {
          continue;
        }
        var better: bool := *;
        if fits(k) && (best == NONE || better) {
          best := k;
        }
      }
      if later {
        best := NONE;
      }
    }

    /** Choose, whatever the heuristics say. */
    method ChooseAny(bb: nat) returns (best: int)
      requires AfterBlock(bb)
      ensures best != NONE ==> Suitable(bb, best)
    {
      hide AfterBlock, Suitable;
      var fits: nat -> bool, later: bool := *, *;
      best := Choose(bb, fits, later);
    }

    /** Add the successors that were not selected to the heaps. */
    method Push(bb: nat, best: int, another: bool)
      requires AfterBlock(bb) && (best != NONE ==> Suitable(bb, best))
      requires Covered(succs0, visited, heap + newHeap, Elements(succs0[bb]), {bb})
      modifies this`heap, this`newHeap
      ensures AfterBlock(bb) && (best != NONE ==> Suitable(bb, best))
      ensures Covered(succs0, visited, heap + newHeap, if best == NONE then {} else {succs[bb][best]}, {})
      ensures !another ==> newHeap == old(newHeap)
    {
      hide Mirrors, Finished, Path, SamePart, Marked, Closed, Covered, Reachable;
      assert Reachable(succs0, bb) by { assert visited[bb] != 0 by { MarkOfCur(visited, lists, cur); } }
      ReachNext(succs0, bb);
      ghost var waiting0 := heap + newHeap;
      for k := 0 to |succs[bb]|
        invariant Waiting(visited, heap) && Waiting(visited, newHeap) && (!another ==> newHeap == old(newHeap))
        invariant waiting0 <= heap + newHeap && Reached(succs0, visited, heap + newHeap)
        invariant forall j :: 0 <= j < k && j != best ==> Seen(visited, heap + newHeap, succs[bb][j])
      {
        var d := succs[bb][k];
        if k == best || d == EXIT || visited[d] != 0 || d in heap || d in newHeap {
          continue;
        }
        var next: bool := *;
        if another && next {
          newHeap := newHeap + {d};
        } else {
          heap := heap + {d};
        }
      }
      CoverPush(succs0, visited, waiting0, heap + newHeap, bb, if best == NONE then {} else {succs[bb][best]});
    }

    /** The block to place next: the selected one, or one in between (A, B, C with B falling through to C). */
    method InBetween(bb: nat, best: int) returns (bb': nat)
      requires AfterBlock(bb) && best != NONE && Suitable(bb, best) && visited[succs[bb][best]] == 0
      ensures 2 <= bb' < |succs| && visited[bb'] == 0 && bb' in succs[bb] && part[bb'] == part[bb]
      ensures succs[bb'] == [succs[bb][best]] || bb' == succs[bb][best]
    {
      hide Mirrors, Finished, Path, SamePart, Marked, Closed, Waiting;
      var d := succs[bb][best];
      for k := 0 to |succs[bb]| {
        var e := succs[bb][k];
        var worth: bool := *;
        if k != best && e != EXIT && visited[e] == 0 && part[e] == part[bb] && succs[e] == [d] && worth {
          return e;
        }
      }
      return d;
    }

    lemma Moves(bb: nat, bb': nat)
      requires AfterBlock(bb) && bb' < |succs| && bb' in succs[bb] && part[bb'] == part[bb] && visited[bb'] == 0
      ensures |aux| == |succs| && Finished(aux[bb := bb'], part, startOf, endOf, lists, traces)
      ensures Reachable(succs0, bb')
      ensures Untouched(succs0, succs, aux[bb := bb'], visited) && Linked(aux[bb := bb'], cur + [bb'])
      ensures Path(succs, cur + [bb']) && SamePart(part, cur + [bb']) && bb' < |succs0| && succs[bb'] == succs0[bb']
    {
      hide Mirrors, Finished, WellFormed, Covered, Marked, Waiting, Reachable, Linked, Closed, Path, SamePart, Distinct;
      MarkOfCur(visited, lists, cur);
      ReachNext(succs0, bb);
      FinishedAux(aux, part, startOf, endOf, lists, traces, visited, cur, bb, bb');
      MoveLinks(aux, succs, part, cur, bb, bb');
    }

    /** Link the next block of the trace. */
    method Move(bb: nat, best: int) returns (bb': nat, ghost c: nat)
      requires AfterBlock(bb) && best != NONE && Suitable(bb, best) && visited[succs[bb][best]] == 0
      requires Covered(succs0, visited, heap + newHeap, {succs[bb][best]}, {})
      modifies this`aux
      ensures AtBlock(bb', c)
    {
      hide Mirrors, Finished, WellFormed, Covered, Marked, Waiting, Reachable, Reached, Untouched, Linked, Closed, Path,
          SamePart, Distinct;
      bb' := InBetween(bb, best);
      c := succs[bb][best];
      Moves(bb, bb');
      CoverMore(succs0, visited, heap + newHeap, {c}, {bb', c});
      aux := aux[bb := bb'];
      assert Finished(aux, part, startOf, endOf, lists, traces);
      assert Base();
    }

    /** The current trace is complete in `aux`; only its table entries are missing. */
    ghost predicate Complete()
      reads this
    {
      && Base() && cur != [] && Closed(aux, cur) && SamePart(part, cur)
      && Covered(succs0, visited, heap + newHeap, {}, {})
    }

    /** Enter the current trace into the tables. */
    method CloseTrace(first: nat, last: nat)
      requires Complete() && first == cur[0] && last == cur[|cur| - 1]
      modifies this`traces, this`lists, this`cur, this`startOf, this`endOf
      ensures Inv() && lists == old(lists) + [old(cur)] && traces == old(traces) + [Trace(first, last)]
    {
      assert |startOf| == |aux| == |visited|;
      hide Mirrors, WellFormed, Covered, Waiting, Untouched, Reached;
      FinishedMore(aux, part, startOf, endOf, lists, traces, visited, cur);
      MarkedMore(visited, lists, cur);
      var t := |traces|;
      startOf := startOf[first := t];
      endOf := endOf[last := t];
      traces := traces + [Trace(first, last)];
      lists := lists + [cur];
      cur := [];
    }

    lemma Facts()
      requires Complete()
      ensures |visited| == |aux| == |succs| && Distinct(cur) && Linked(aux, cur) && |lists| == |traces|
    {
    }

    /**
     copy_bb: duplicate block `orig`, redirect edge `pos` of `src` to the copy and link the copy in after block `after`,
     which is at `i` in the current trace.
     */
    method CopyBlock(orig: nat, src: nat, pos: nat, after: nat, ghost i: nat) returns (copy: nat)
      requires Complete() && i < |cur| && after == cur[i]
      requires orig < |succs| && orig in cur && orig >= 2
      requires src < |succs| && visited[src] != 0 && pos < |succs[src]| && orig == succs[src][pos]
      modifies this`succs, this`part, this`aux, this`visited, this`startOf, this`endOf, this`cur, this`origin
      ensures Complete() && copy == |old(succs)| && succs == Duplicated(old(succs), src, pos, orig)
      ensures cur == Ins(old(cur), i + 1, copy) && Unvisited(visited) == Unvisited(old(visited))
    {
      hide Mirrors, WellFormed, Closed, SamePart, Marked, Finished, Covered, Ins, Duplicated, Waiting, Untouched,
          Reached, Unvisited;
      Facts();
      copy := |succs|;
      var m := |traces| + 1;
      UnvisitedCopy(visited, m);
      CopyAll(succs0, succs, part, aux, visited, startOf, endOf, traces, lists, cur, heap, newHeap, src, pos, orig,
          after, i, copy, m);
      MirrorCopy(succs0, part0, succs, part, origin, src, pos);
      origin := origin + [origin[orig]];
      succs, part, visited := Duplicated(succs, src, pos, orig), part + [part[orig]], visited + [m];
      aux, startOf, endOf := aux[after := copy] + [aux[after]], startOf + [NONE], endOf + [NONE];
      cur := Ins(cur, i + 1, copy);
      assert Closed(aux, cur) && Finished(aux, part, startOf, endOf, lists, traces);
      assert Base();
    }

    /** Edge `k` of block `b` leaves the current trace, and not for EXIT. */
    ghost predicate Leaves(b: nat, k: nat)
      reads this`succs, this`visited, this`traces
    {
      && b < |succs| && k < |succs[b]| && succs[b][k] < |visited|
      && succs[b][k] != EXIT && visited[succs[b][k]] != |traces| + 1
    }

    ghost predicate HasExit(b: nat)
      reads this`succs, this`visited, this`traces
    {
      exists k :: Leaves(b, k)
    }

    /** The edge leads to a block that is not visited yet, or starts a trace. */
    predicate Preferred(d: nat)
      requires d < |visited| == |startOf|
      reads this`visited, this`startOf
    {
      visited[d] == 0 || startOf[d] >= 0
    }

    /** Edge `k` of block `b` is the best of the edges `out` that leave the trace: a preferred one if there is any. */
    ghost predicate BestExit(b: nat, k: nat, out: set<(nat, nat)>)
      reads this`succs, this`visited, this`traces, this`startOf
    {
      && (b, k) in out && (forall e :: e in out ==> Leaves(e.0, e.1)) && |startOf| == |visited|
      && (Preferred(succs[b][k]) || forall e :: e in out ==> !Preferred(succs[e.0][e.1]))
    }

    /** Look at one edge; `liked` tells that the best one so far is preferred. */
    method Consider(x: nat, k: nat, fits: (nat, nat) -> bool, best0: int, liked0: bool, ghost e0: nat,
                    ghost out0: set<(nat, nat)>)
      returns (best: int, liked: bool, ghost e: nat, ghost out: set<(nat, nat)>)
      requires |visited| == |startOf| == |succs| && WellFormed(succs) && x < |succs| && k < |succs[x]|
      requires if best0 == NONE then out0 == {} && !liked0 else best0 >= 0 && BestExit(best0, e0, out0)
      requires best0 != NONE ==> liked0 == Preferred(succs[best0][e0])
      ensures if best == NONE then out == {} && !liked else best >= 0 && BestExit(best, e, out)
      ensures best != NONE ==> liked == Preferred(succs[best][e])
      ensures best == best0 || best == x
      ensures out == if Leaves(x, k) && fits(x, k) then out0 + {(x, k)} else out0
    {
      best, liked, e, out := best0, liked0, e0, out0;
      var d := succs[x][k];
      var better: bool := *;
      if d != EXIT && visited[d] != |traces| + 1 && fits(x, k) {
        out := out + {(x, k)};
        if liked {
          if Preferred(d) && better {
            best, e := x, k;
          }
        } else if Preferred(d) {
          best, liked, e := x, true, k;
        } else if best == NONE || better {
          best, e := x, k;
        }
      }
    }

    /**
     Walk round the loop from `dest` for the block that should end the trace. Among the edges out of the trace that may
     be fallen through, `out`, it has the best one, `e`; there is none exactly when there is no such edge.
     */
    method FindTail(dest: nat, fits: (nat, nat) -> bool, ghost p: nat)
      returns (best: int, ghost q: nat, ghost e: nat, ghost out: set<(nat, nat)>)
      requires |visited| == |aux| == |succs| == |startOf| && WellFormed(succs)
      requires p < |cur| && dest == cur[p] && Linked(aux, cur) && Distinct(cur) && aux[cur[|cur| - 1]] == dest
      ensures best != NONE ==> p <= q < |cur| && best == cur[q] && BestExit(best, e, out)
      ensures best == NONE ==> out == {}
      ensures forall i, k: nat :: p <= i < |cur| && Leaves(cur[i], k) && fits(cur[i], k) ==> (cur[i], k) in out
    {
      best, q, e, out := NONE, p, 0, {};
      var x, more, liked := dest, true, false;
      ghost var i := p;
      while more
        invariant p <= i <= |cur| && (more ==> i < |cur| && x == cur[i])
        invariant best != NONE ==> p <= q < |cur| && best == cur[q] && BestExit(best, e, out)
        invariant if best == NONE then out == {} && !liked else liked == Preferred(succs[best][e])
        invariant forall j, k: nat :: p <= j < i && Leaves(cur[j], k) && fits(cur[j], k) ==> (cur[j], k) in out
        invariant !more ==> i == |cur|
        decreases |cur| - i, more
      {
        for k := 0 to |succs[x]|
          invariant best != NONE ==> p <= q < |cur| && best == cur[q] && BestExit(best, e, out)
          invariant if best == NONE then out == {} && !liked else liked == Preferred(succs[best][e])
          invariant forall j, m: nat :: p <= j < i && Leaves(cur[j], m) && fits(cur[j], m) ==> (cur[j], m) in out
          invariant forall m: nat :: m < k && Leaves(x, m) && fits(x, m) ==> (x, m) in out
        {
          ghost var was := best;
          best, liked, e, out := Consider(x, k, fits, best, liked, e, out);
          if best != was {
            q := i;
          }
        }
        assert i < |cur| - 1 ==> aux[cur[i]] == cur[i + 1];
        x, i := aux[x], i + 1;
        more := x != dest;
      }
    }

    /** The block before `dest` in the current trace. */
    method FindPrev(first: nat, dest: nat, ghost p: nat) returns (prev: nat)
      requires 0 < p < |cur| && first == cur[0] && dest == cur[p] && Linked(aux, cur) && Distinct(cur)
      ensures prev == cur[p - 1]
    {
      prev := first;
      ghost var i := 0;
      while aux[prev] != dest
        invariant i < p && prev == cur[i]
        decreases p - i
      {
        assert aux[cur[i]] == cur[i + 1];
        prev, i := aux[prev], i + 1;
      }
      assert aux[cur[i]] == cur[i + 1];
    }

    lemma ExitLeaves(b: nat, k: nat, out: set<(nat, nat)>)
      requires BestExit(b, k, out)
      ensures HasExit(b)
    {
      assert Leaves(b, k);
    }

    /** Rotate the loop; `prev` is the block before it, if it has been rotated and there is one. */
    method Relink(bb: nat, dest: nat, first: nat, ghost p: nat)
      returns (first': nat, last: nat, prev: int, ghost q: nat)
      requires |visited| == |aux| == |succs| == |startOf| && WellFormed(succs) && Linked(aux, cur) && Distinct(cur)
      requires p < |cur| && dest == cur[p] && first == cur[0] && bb == cur[|cur| - 1]
      modifies this`aux
      ensures last == bb || HasExit(last)
      ensures p <= q < |cur| && aux == RotatedLinks(old(aux)[bb := dest], cur, p, q)
      ensures first' == Rotated(cur, p, q)[0] && last == Rotated(cur, p, q)[|cur| - 1]
      ensures (prev == NONE || (p > 0 && prev == cur[p - 1])) && (p > 0 ==> first' == first)
    {
      hide Mirrors, Linked, Distinct, WellFormed, Rotated, BestExit, HasExit;
      LinkedLoop(aux, cur, p);
      first', prev, aux := first, NONE, aux[bb := dest];
      var best;
      ghost var e, out;
      var fits: (nat, nat) -> bool := *;
      best, q, e, out := FindTail(dest, fits, p);
      if best != NONE {
        ExitLeaves(best, e, out);
      }
      if best == NONE {
        best, q := bb, |cur| - 1;
      } else if dest == first {
        LinkedAt(old(aux), cur, p, q);
        first' := aux[best];
      } else {
        prev := FindPrev(first, dest, p);
        aux := aux[prev := aux[best]];
      }
      last, aux := best, aux[best := NONE];
      LinkedAt(old(aux), cur, p, q);
      assert aux == RotatedLinks(old(aux)[bb := dest], cur, p, q);
      RotatedAt(cur, p, q, 0);
      RotatedAt(cur, p, q, |cur| - 1);
    }

    method Rotate(bb: nat, dest: nat, first: nat, ghost p: nat)
      returns (first': nat, last: nat, prev: int, ghost q: nat)
      requires Complete() && p < |cur| && dest == cur[p] && first == cur[0] && bb == cur[|cur| - 1]
      modifies this`aux, this`cur
      ensures Complete() && first' == cur[0] && last == cur[|cur| - 1]
      ensures last == bb || HasExit(last)
      ensures p <= q < |old(cur)| && cur == Rotated(old(cur), p, q)
      ensures (prev == NONE || (p > 0 && prev == old(cur)[p - 1])) && (p > 0 ==> first' == first)
    {
      hide Mirrors, Finished, Marked, SamePart, Waiting, Covered, Reached, Untouched, Closed, Linked, WellFormed,
          Distinct, Rotated, RotatedLinks, HasExit;
      Facts();
      first', last, prev, q := Relink(bb, dest, first, p);
      RotateAll(succs0, succs, part, old(aux), visited, startOf, endOf, traces, lists, cur, p, q);
      cur := Rotated(cur, p, q);
      assert Closed(aux, cur) && Finished(aux, part, startOf, endOf, lists, traces);
      assert Base();
    }

    lemma IsVisited(i: nat)
      requires Complete() && i < |cur|
      ensures |visited| == |succs| && cur[i] < |succs| && visited[cur[i]] != 0 && cur[i] >= 2
    {
      MarkOfCur(visited, lists, cur);
    }

    /**
     rotate_loop: the last block of the current trace has an edge back to `dest`; make the best block of the loop
     the last one, and perhaps duplicate the loop header after the block before the loop.
     */
    method RotateLoop(bb: nat, dest: nat, first: nat, ghost p: nat) returns (first': nat, last: nat, ghost q: nat)
      requires Complete() && Path(succs, cur) && p < |cur| && dest == cur[p] && first == cur[0] && bb == cur[|cur| - 1]
      modifies this`succs, this`part, this`aux, this`visited, this`startOf, this`endOf, this`cur, this`origin
      ensures Complete() && first' == cur[0] && last == cur[|cur| - 1]
      ensures p <= q < |old(cur)| && Unvisited(visited) == Unvisited(old(visited)) && (p > 0 ==> first' == first)
      ensures cur == Rotated(old(cur), p, q) || (p > 0 && cur == Ins(Rotated(old(cur), p, q), p, |old(succs)|))
      ensures last == bb || old(HasExit(last))
    {
      hide Mirrors, Complete, Path, Rotated, Ins, Duplicated, RotFrom, HasExit;
      ghost var cur0 := cur;
      var prev;
      PathAt(succs, cur, p);
      IsVisited(p);
      first', last, prev, q := Rotate(bb, dest, first, p);
      if prev != NONE && |succs[prev]| == 1 {
        var worth: bool := *;
        if worth {
          var header := succs[prev][0];
          RotatedPrefix(cur0, p, q);
          IsVisited(p - 1);
          var _ := CopyBlock(header, prev, 0, prev, p - 1);
          InsAt(Rotated(cur0, p, q), p, |old(succs)|, 0);
          InsAt(Rotated(cur0, p, q), p, |old(succs)|, |cur0|);
        }
      }
    }

    lemma Loops(bb: nat, best: int) returns (p: nat)
      requires AfterBlock(bb) && best != NONE && Suitable(bb, best) && visited[succs[bb][best]] == |traces| + 1
      requires Covered(succs0, visited, heap + newHeap, {succs[bb][best]}, {})
      ensures Complete() && Path(succs, cur) && bb == cur[|cur| - 1] && p < |cur| && cur[p] == succs[bb][best]
      ensures cur[p] in cur && cur[p] >= 2
    {
      var d := succs[bb][best];
      assert MarkOk(visited, lists, cur, d);
      p :| 0 <= p < |cur| && cur[p] == d;
      CoverSeen(succs0, visited, heap + newHeap, d);
    }

    /** The selected edge leads back into the current trace: rotate the loop, or copy its header, or do nothing. */
    method CloseLoop(bb: nat, best: int, first: nat) returns (first': nat, last: nat)
      requires AfterBlock(bb) && best != NONE && Suitable(bb, best) && visited[succs[bb][best]] == |traces| + 1
      requires Covered(succs0, visited, heap + newHeap, {succs[bb][best]}, {}) && first == cur[0]
      modifies this`succs, this`part, this`aux, this`visited, this`startOf, this`endOf, this`cur, this`origin
      ensures Complete() && first' == cur[0] && last == cur[|cur| - 1] && Unvisited(visited) == Unvisited(old(visited))
      ensures first == next ==> first' == first
    {
      hide Mirrors, Complete, Path, Rotated, Ins, Duplicated, AfterBlock, Unvisited, Covered;
      var dest := succs[bb][best];
      ghost var p := Loops(bb, best);
      first', last := first, bb;
      if dest != bb {
        var often: bool, worth: bool := *, *;
        if often {
          if dest != next {
            ghost var q;
            first', last, q := RotateLoop(bb, dest, first, p);
          }
        } else if |succs[bb]| == 1 && worth {
          IsVisited(|cur| - 1);
          last := CopyBlock(dest, bb, best, bb, |cur| - 1);
          InsAt(old(cur), |old(cur)|, last, 0);
          InsAt(old(cur), |old(cur)|, last, |old(cur)|);
        }
      }
    }

    /** Build one trace from block `start`. */
    method BuildTrace(start: nat, another: bool)
      requires AtBlock(start, start) && cur == []
      modifies this
      ensures Inv() && |traces| == |old(traces)| + 1 && old(traces) <= traces
      ensures start == next ==> traces[|traces| - 1].first == start
      ensures Unvisited(visited) < Unvisited(old(visited)) && (!another ==> newHeap <= old(newHeap))
    {
      hide Mirrors, Finished, Path, SamePart, Marked, Closed, Covered, Linked, Waiting, Untouched, Reached, Reachable,
          WellFormed, Unvisited;
      var first, last, bb, more := start, start, start, true;
      ghost var c := start;
      while more
        invariant more ==> AtBlock(bb, c) && (cur + [bb])[0] == first
        invariant !more ==> Complete() && cur[0] == first && cur[|cur| - 1] == last
        invariant if more then Unvisited(visited) <= Unvisited(old(visited))
                    else Unvisited(visited) < Unvisited(old(visited))
        invariant !another ==> newHeap <= old(newHeap)
        invariant traces == old(traces) && (start == next ==> first == start)
        decreases |Unvisited(visited)|, more
      {
        ghost var v := visited;
        UnvisitedVisit(visited, bb, |traces| + 1);
        Visit(bb, c);
        var best := ChooseAny(bb);
        Push(bb, best, another);
        if best == NONE {
          last, more := bb, false;
        } else if visited[succs[bb][best]] == |traces| + 1 {
          first, last := CloseLoop(bb, best, first);
          more := false;
        } else {
          bb, c := Move(bb, best);
        }
      }
      CloseTrace(first, last);
    }

    /** Take `bb` off the heap, as the possible start of a trace. */
    lemma Taken(heap': set<nat>, bb: nat)
      requires Inv() && bb in heap && heap' == heap - {bb}
      ensures Covered(succs0, visited, heap' + newHeap, {bb, bb}, {}) && Reached(succs0, visited, heap' + newHeap)
      ensures 2 <= bb < |succs| && visited[bb] == 0 && Reachable(succs0, bb) && Waiting(visited, heap')
      ensures Linked(aux, [bb]) && Path(succs, [bb]) && SamePart(part, [bb]) && bb < |succs0|
    {
      assert Reachable(succs0, bb);
      hide Mirrors, Finished, Marked, Path, Reachable;
      CoverTake(succs0, visited, heap + newHeap, heap' + newHeap, bb);
    }

    lemma Postponed(heap': set<nat>, newHeap': set<nat>, bb: nat)
      requires Inv() && bb in heap && heap' == heap - {bb} && newHeap' == newHeap + {bb}
      ensures heap' + newHeap' == heap + newHeap && Waiting(visited, heap') && Waiting(visited, newHeap')
    {}

    method Postpone(bb: nat)
      requires Inv() && bb in heap
      modifies this`heap, this`newHeap
      ensures Inv() && heap == old(heap) - {bb} && newHeap == old(newHeap) + {bb}
      ensures heap + newHeap == old(heap + newHeap)
    {
      hide Mirrors, Finished, Path, SamePart, Marked, Closed, Covered, Linked, Waiting, Untouched, Reached, Reachable,
          WellFormed;
      Postponed(heap - {bb}, newHeap + {bb}, bb);
      heap, newHeap := heap - {bb}, newHeap + {bb};
    }

    method Take(bb: nat)
      requires Inv() && bb in heap
      modifies this`heap
      ensures AtBlock(bb, bb) && heap == old(heap) - {bb}
    {
      hide Mirrors, Finished, Path, SamePart, Marked, Closed, Covered, Linked, Waiting, Untouched, Reached, Reachable,
          WellFormed;
      Taken(heap - {bb}, bb);
      heap := heap - {bb};
      assert cur + [bb] == [bb];
    }

    /** Each trace uses up a block, so that an array with room for one trace per original block is large enough. */
    ghost predicate Bounded()
      reads this`traces, this`visited
    {
      |traces| + |Unvisited(visited)| <= |succs0|
    }

    /**
     * If `next` is the only entry point, nothing else is waiting until the first trace is built, and that starts with
     * it.
     */
    ghost predicate StartsRight()
      reads this`traces, this`heap, this`newHeap
    {
      succs0 != [] && succs0[ENTRY] == [next] ==>
        if traces == [] then heap + newHeap <= {next} else traces[0].first == next
    }

    lemma Nothing()
      requires Inv()
      ensures cur == []
    {}

    /** Start a trace with a block taken off the heap. */
    method StartTrace(bb: nat, another: bool)
      requires Inv() && bb in heap && Bounded() && StartsRight()
      modifies this
      ensures Inv() && Bounded() && StartsRight() && traces != [] && |Unvisited(visited)| < |Unvisited(old(visited))|
      ensures !another ==> newHeap <= old(newHeap)
    {
      hide Base, Covered, Unvisited, AtBlock;
      ghost var v := visited;
      Nothing();
      Take(bb);
      BuildTrace(bb, another);
      Smaller(Unvisited(visited), Unvisited(v));
    }

    /** The blocks put off become the ones to start from. */
    method NextRound()
      requires Inv() && heap == {}
      modifies this`heap, this`newHeap
      ensures Inv() && newHeap == {} && heap == old(newHeap)
    {
      hide Mirrors, Finished, Path, SamePart, Marked, Closed, Covered, Linked, Waiting, Untouched, Reached, WellFormed;
      assert heap + newHeap == newHeap + {};
      heap, newHeap := newHeap, {};
      NoneWait(visited);
    }

    /** One round of finding traces: build traces until the heap is empty; the next round starts from `newHeap`. */
    method Round(another: bool)
      requires Inv() && newHeap == {} && Bounded() && StartsRight()
      modifies this
      ensures Inv() && newHeap == {} && (!another ==> heap == {}) && Bounded() && StartsRight()
      ensures (old(traces) != [] ==> traces != []) && (old(heap) != {} ==> traces != [] || heap != {})
    {
      hide Inv, Unvisited;
      while heap != {}
        invariant Inv() && (!another ==> newHeap == {}) && Bounded() && StartsRight()
        invariant old(traces) != [] ==> traces != []
        invariant old(heap) != {} ==> heap != {} || traces != [] || newHeap != {}
        decreases |Unvisited(visited)|, |heap|
      {
        var bb :| bb in heap;
        var later: bool := *;
        if another && later {
          Postpone(bb);
        } else {
          StartTrace(bb, another);
        }
      }
      NextRound();
    }

    /** Insert the entry points of the function into the heap. */
    method Enter()
      requires Initial() && EXIT !in succs[ENTRY]
      modifies this`heap
      ensures Inv() && newHeap == {} && traces == []
      ensures succs0[ENTRY] != [] ==> heap != {}
      ensures Bounded() && StartsRight()
    {
      hide Mirrors, Reachable, Path;
      for k := 0 to |succs[ENTRY]|
        invariant forall d :: d in heap <==> d in succs[ENTRY][..k]
      {
        heap := heap + {succs[ENTRY][k]};
      }
      assert succs[ENTRY][..|succs[ENTRY]|] == succs[ENTRY];
      ReachEntry(succs0);
      ReachNext(succs0, ENTRY);
      UnvisitedMost(visited);
      if succs[ENTRY] != [] {
        assert succs[ENTRY][0] in heap;
      }
    }

    /** find_traces: four rounds; the last one leaves nothing waiting. */
    method FindTraces()
      requires Initial() && EXIT !in succs[ENTRY]
      modifies this
      ensures Inv() && heap == newHeap == {} && (succs0[ENTRY] != [] ==> traces != []) && |traces| <= |succs0|
      ensures succs0[ENTRY] == [next] ==> traces[0].first == next
    {
      hide Mirrors, Base, Covered;
      Enter();
      for i := 0 to N_ROUNDS - 1
        invariant Inv() && newHeap == {} && (i == N_ROUNDS - 1 ==> heap == {}) && Bounded() && StartsRight()
        invariant succs0[ENTRY] != [] ==> traces != [] || heap != {}
      {
        Round(i < N_ROUNDS - 2);
      }
    }
  }

  lemma {:induction false} AllOnPath(succs0: Succs, visited: seq<nat>, p: seq<nat>, i: nat)
    requires WellFormed(succs0) && Covered(succs0, visited, {}, {}, {}) && Path(succs0, p) && 0 <= i < |p|
    requires p[0] == ENTRY
    ensures p[i] == ENTRY || p[i] == EXIT || visited[p[i]] != 0
  {
    if i > 0 {
      AllOnPath(succs0, visited, p, i - 1);
      assert p[i - 1 + 1] in succs0[p[i - 1]];
      assert Exits(succs0, visited, {}, {}, p[i - 1]);
    }
  }

  /** Once nothing waits, every block reachable from ENTRY is visited. */
  lemma AllVisited(succs0: Succs, visited: seq<nat>, b: nat)
    requires WellFormed(succs0) && Covered(succs0, visited, {}, {}, {}) && Reachable(succs0, b) && b != ENTRY
    ensures b == EXIT || visited[b] != 0
  {
    var p :| Walk(succs0, p, b);
    AllOnPath(succs0, visited, p, |p| - 1);
  }
}
