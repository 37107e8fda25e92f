/**
 The chain of traces as a value: what joining, prepending and copying do to the links.
 */
module Chains {
  import opened Reorder

  /** A trace that is not connected yet is as it was found. */
  ghost predicate Unjoined(aux: seq<int>, part: seq<Partition>, startOf: seq<int>, endOf: seq<int>, own: seq<nat>,
                           lists: seq<seq<nat>>, traces: seq<Trace>, connected: seq<bool>)
  {
    && |connected| == |lists| == |traces|
    && forall t :: 0 <= t < |lists| && !connected[t] ==>
         Done(aux, part, startOf, endOf, lists[t], traces[t], t) && MarkedAs(own, lists[t], t + 1)
  }

  ghost predicate Tables(startOf: seq<int>, endOf: seq<int>, traces: seq<Trace>, connected: seq<bool>)
  {
    && |connected| == |traces| && |startOf| == |endOf|
    && (forall b :: 0 <= b < |startOf| && startOf[b] != NONE ==>
        0 <= startOf[b] < |traces| && traces[startOf[b]].first == b)
    && (forall b :: 0 <= b < |endOf| && endOf[b] != NONE ==>
          0 <= endOf[b] < |traces| && (!connected[endOf[b]] ==> traces[endOf[b]].last == b))
  }

  /** A block with an owner is in the chain once its trace is connected, and before that in its trace. */
  ghost predicate OwnerOk(own: seq<nat>, lists: seq<seq<nat>>, connected: seq<bool>, s: seq<nat>, b: nat)
    requires b < |own| && |connected| == |lists|
  {
    own[b] != 0 ==> own[b] <= |lists| && if connected[own[b] - 1] then b in s else b in lists[own[b] - 1]
  }

  ghost predicate Owned(own: seq<nat>, lists: seq<seq<nat>>, connected: seq<bool>, s: seq<nat>)
  {
    |connected| == |lists| && forall b :: 0 <= b < |own| ==> OwnerOk(own, lists, connected, s, b)
  }

  /** `s` holds each of its blocks once, and only blocks of connected traces. */
  ghost predicate Placed(own: seq<nat>, connected: seq<bool>, s: seq<nat>)
  {
    Distinct(s) && forall i :: 0 <= i < |s| ==> s[i] < |own| && 0 < own[s[i]] <= |connected| && connected[own[s[i]] - 1]
  }

  ghost predicate Chained(aux: seq<int>, s: seq<nat>) { s == [] || Closed(aux, s) }

  /** `chain` is the chain so far, `frag` the run of traces about to be attached to it. */
  ghost predicate Joining(aux: seq<int>, part: seq<Partition>, startOf: seq<int>, endOf: seq<int>, own: seq<nat>,
                          lists: seq<seq<nat>>, traces: seq<Trace>, connected: seq<bool>, chain: seq<nat>,
                          frag: seq<nat>)
  {
    && |aux| == |part| == |startOf| == |own|
    && Unjoined(aux, part, startOf, endOf, own, lists, traces, connected) && Tables(startOf, endOf, traces, connected)
    && Owned(own, lists, connected, chain + frag) && Placed(own, connected, chain + frag)
    && Chained(aux, chain) && Chained(aux, frag)
  }

  lemma JoinLinks(aux: seq<int>, a: seq<nat>, b: seq<nat>)
    requires a != [] && b != [] && Closed(aux, a) && Closed(aux, b) && Distinct(a + b)
    ensures a[|a| - 1] < |aux| && Closed(aux[a[|a| - 1] := b[0]], a + b)
  {
    var s, x := a + b, aux[a[|a| - 1] := b[0]];
    forall i | 0 <= i < |s| ensures s[i] < |aux| && (i != |a| - 1 ==> s[i] != s[|a| - 1]) {
      assert s[|a| - 1] == a[|a| - 1];
    }
    forall i | 0 <= i < |s| - 1 ensures x[s[i]] == s[i + 1] {
      if i < |a| - 1 {
        assert aux[a[i]] == a[i + 1];
      } else if i >= |a| {
        assert aux[b[i - |a|]] == b[i - |a| + 1];
      }
    }
    assert s[|s| - 1] == b[|b| - 1];
  }

  /** A change of `aux` outside a list does not touch it. */
  lemma OtherLinks(aux: seq<int>, s: seq<nat>, x: nat, y: int)
    requires Chained(aux, s) && x < |aux| && x !in s
    ensures Chained(aux[x := y], s)
  {}

  lemma OtherDone(aux: seq<int>, part: seq<Partition>, startOf: seq<int>, endOf: seq<int>, own: seq<nat>,
                  lists: seq<seq<nat>>, traces: seq<Trace>, connected: seq<bool>, x: nat, y: int)
    requires Unjoined(aux, part, startOf, endOf, own, lists, traces, connected)
    requires x < |aux| == |own| && 0 < own[x] <= |connected| && connected[own[x] - 1]
    ensures Unjoined(aux[x := y], part, startOf, endOf, own, lists, traces, connected)
  {
    forall t | 0 <= t < |lists| && !connected[t]
      ensures Done(aux[x := y], part, startOf, endOf, lists[t], traces[t], t) && MarkedAs(own, lists[t], t + 1)
    {
      assert MarkedAs(own, lists[t], t + 1);
    }
  }

  lemma PlacingAt(a: seq<nat>, l: seq<nat>, b: seq<nat>, i: nat)
    requires i < |a| + |l| + |b|
    ensures var s := a + (l + b);
            && |s| == |a| + |l| + |b|
            && s[i] == if |a| <= i < |a| + |l| then l[i - |a|] else (a + b)[if i < |a| then i else i - |l|]
  {}

  /** Mark trace `t` connected and put its blocks in front of `frag`. */
  lemma Placing(own: seq<nat>, lists: seq<seq<nat>>, connected: seq<bool>, chain: seq<nat>, frag: seq<nat>, t: nat)
    requires Owned(own, lists, connected, chain + frag) && Placed(own, connected, chain + frag)
    requires t < |lists| && !connected[t] && MarkedAs(own, lists[t], t + 1)
    ensures Owned(own, lists, connected[t := true], chain + (lists[t] + frag))
    ensures Placed(own, connected[t := true], chain + (lists[t] + frag))
  {
    var s, s', c, l := chain + frag, chain + (lists[t] + frag), connected[t := true], lists[t];
    forall b | 0 <= b < |own| ensures OwnerOk(own, lists, c, s', b) {
      assert OwnerOk(own, lists, connected, s, b);
    }
    forall i | 0 <= i < |s'|
      ensures s'[i] < |own| && 0 < own[s'[i]] <= |c| && c[own[s'[i]] - 1]
                && (own[s'[i]] == t + 1 <==> |chain| <= i < |chain| + |l|)
    {
      PlacingAt(chain, l, frag, i);
    }
    forall i, j | 0 <= i < j < |s'| ensures s'[i] != s'[j] {
      PlacingAt(chain, l, frag, i);
      PlacingAt(chain, l, frag, j);
    }
  }

  lemma Connect(aux: seq<int>, part: seq<Partition>, startOf: seq<int>, endOf: seq<int>, own: seq<nat>,
                lists: seq<seq<nat>>, traces: seq<Trace>, connected: seq<bool>, t: nat)
    requires Unjoined(aux, part, startOf, endOf, own, lists, traces, connected)
    requires Tables(startOf, endOf, traces, connected)
    requires t < |connected|
    ensures Unjoined(aux, part, startOf, endOf, own, lists, traces, connected[t := true])
    ensures Tables(startOf, endOf, traces, connected[t := true])
  {
    forall u | 0 <= u < |lists| && !connected[t := true][u]
      ensures Done(aux, part, startOf, endOf, lists[u], traces[u], u) && MarkedAs(own, lists[u], u + 1) {}
  }

  lemma UnjoinedAt(aux: seq<int>, part: seq<Partition>, startOf: seq<int>, endOf: seq<int>, own: seq<nat>,
                   lists: seq<seq<nat>>, traces: seq<Trace>, connected: seq<bool>, t: nat)
    requires Unjoined(aux, part, startOf, endOf, own, lists, traces, connected) && t < |connected| && !connected[t]
    ensures |connected| == |lists| == |traces|
    ensures Done(aux, part, startOf, endOf, lists[t], traces[t], t) && MarkedAs(own, lists[t], t + 1)
  {}

  /** Start a fragment with an unconnected trace. */
  lemma StartFragment(aux: seq<int>, part: seq<Partition>, startOf: seq<int>, endOf: seq<int>, own: seq<nat>,
                      lists: seq<seq<nat>>, traces: seq<Trace>, connected: seq<bool>, chain: seq<nat>, t: nat)
    requires Joining(aux, part, startOf, endOf, own, lists, traces, connected, chain, []) && t < |connected|
    requires !connected[t]
    ensures Joining(aux, part, startOf, endOf, own, lists, traces, connected[t := true], chain, lists[t])
    ensures Done(aux, part, startOf, endOf, lists[t], traces[t], t)
  {
    assert Done(aux, part, startOf, endOf, lists[t], traces[t], t) && MarkedAs(own, lists[t], t + 1);
    assert lists[t] + [] == lists[t];
    hide Owned, Placed, Unjoined, Tables;
    UnjoinedAt(aux, part, startOf, endOf, own, lists, traces, connected, t);
    Placing(own, lists, connected, chain, [], t);
    Connect(aux, part, startOf, endOf, own, lists, traces, connected, t);
  }

  lemma PlacedParts(own: seq<nat>, connected: seq<bool>, a: seq<nat>, b: seq<nat>)
    requires Placed(own, connected, a + b)
    ensures Distinct(a) && Distinct(b) && (b != [] ==> b[0] !in a && b[|b| - 1] !in a && b[|b| - 1] < |own|)
    ensures a != [] ==> var x := a[|a| - 1]; x < |own| && 0 < own[x] <= |connected| && connected[own[x] - 1] && x !in b
    ensures b != [] ==> var x := b[|b| - 1]; x < |own| && 0 < own[x] <= |connected| && connected[own[x] - 1]
  {
    var s := a + b;
    forall i | 0 <= i < |a| ensures s[i] == a[i] {}
    forall j | 0 <= j < |b| ensures s[|a| + j] == b[j] {}
    if a != [] {
      assert s[|a| - 1] == a[|a| - 1];
    }
    if b != [] {
      assert s[|s| - 1] == b[|b| - 1];
    }
  }

  lemma DistinctTail(a: seq<nat>, b: seq<nat>, c: seq<nat>, x: nat)
    requires Distinct(a + (b + c)) && x in b
    ensures Distinct(b + c) && x !in a && x !in c
  {
    var s := a + (b + c);
    forall j | 0 <= j < |a| ensures s[j] == a[j] {}
    forall j | 0 <= j < |b + c| ensures s[|a| + j] == (b + c)[j] {}
    var k :| 0 <= k < |b| && b[k] == x;
    assert s[|a| + k] == x;
    forall j | 0 <= j < |c| ensures c[j] != x {
      assert s[|a| + |b| + j] == c[j];
    }
  }

  /** Put an unconnected trace in front of the fragment. */
  lemma Prepend(aux: seq<int>, part: seq<Partition>, startOf: seq<int>, endOf: seq<int>, own: seq<nat>,
                lists: seq<seq<nat>>, traces: seq<Trace>, connected: seq<bool>, chain: seq<nat>, frag: seq<nat>, t: nat)
    requires Joining(aux, part, startOf, endOf, own, lists, traces, connected, chain, frag) && frag != []
    requires t < |connected| && !connected[t]
    ensures t < |lists| == |traces| && traces[t].last < |aux|
    ensures Joining(aux[traces[t].last := frag[0]], part, startOf, endOf, own, lists, traces, connected[t := true],
              chain, lists[t] + frag)
    ensures Done(aux, part, startOf, endOf, lists[t], traces[t], t)
  {
    hide Owned, Unjoined, Tables, Distinct, Linked;
    UnjoinedAt(aux, part, startOf, endOf, own, lists, traces, connected, t);
    var l, src := lists[t], traces[t].last;
    Placing(own, lists, connected, chain, frag, t);
    Connect(aux, part, startOf, endOf, own, lists, traces, connected, t);
    assert l[|l| - 1] == src && src in l;
    DistinctTail(chain, l, frag, src);
    OtherDone(aux, part, startOf, endOf, own, lists, traces, connected[t := true], src, frag[0]);
    JoinLinks(aux, l, frag);
    OtherLinks(aux, chain, src, frag[0]);
  }

  /** Attach the fragment to the chain. */
  lemma Attach(aux: seq<int>, part: seq<Partition>, startOf: seq<int>, endOf: seq<int>, own: seq<nat>,
               lists: seq<seq<nat>>, traces: seq<Trace>, connected: seq<bool>, chain: seq<nat>, frag: seq<nat>)
    requires Joining(aux, part, startOf, endOf, own, lists, traces, connected, chain, frag) && frag != []
    ensures chain == [] ==> Joining(aux, part, startOf, endOf, own, lists, traces, connected, frag, [])
    ensures chain != [] ==> chain[|chain| - 1] < |aux|
    ensures chain != [] ==>
              Joining(aux[chain[|chain| - 1] := frag[0]], part, startOf, endOf, own, lists, traces, connected,
                  chain + frag, [])
  {
    hide Owned, Unjoined, Tables, Distinct, Linked;
    assert chain + frag + [] == chain + frag;
    if chain == [] {
      assert frag + [] == frag == chain + frag;
    } else {
      var x := chain[|chain| - 1];
      PlacedParts(own, connected, chain, frag);
      JoinLinks(aux, chain, frag);
      OtherDone(aux, part, startOf, endOf, own, lists, traces, connected, x, frag[0]);
    }
  }

  lemma CopyAtEnd(aux: seq<int>, chain: seq<nat>, n: nat)
    requires Closed(aux, chain) && Distinct(chain) && n == |aux|
    ensures var x := chain[|chain| - 1]; Closed(aux[x := n] + [aux[x]], chain + [n])
  {
    CopyLinks(aux, chain, |chain| - 1, n);
    assert Ins(chain, |chain|, n) == chain + [n];
  }

  lemma TablesCopy(startOf: seq<int>, endOf: seq<int>, traces: seq<Trace>, connected: seq<bool>, t: nat, n: nat)
    requires Tables(startOf, endOf, traces, connected) && t < |connected| && connected[t]
    ensures |startOf| == |endOf|
    ensures Tables(startOf + [NONE], endOf + [NONE], traces[t := traces[t].(last := n)], connected)
  {}

  lemma CopyUnjoined(aux: seq<int>, part: seq<Partition>, startOf: seq<int>, endOf: seq<int>, own: seq<nat>,
                     lists: seq<seq<nat>>, traces: seq<Trace>, connected: seq<bool>, chain: seq<nat>, t: nat,
                     p: Partition, n: nat)
    requires Joining(aux, part, startOf, endOf, own, lists, traces, connected, chain, []) && chain != []
    requires t < |connected| && connected[t]
    ensures t < |traces| && chain[|chain| - 1] < |aux| == |own|
    ensures var x := chain[|chain| - 1];
            Unjoined(aux[x := n] + [aux[x]], part + [p], startOf + [NONE], endOf + [NONE], own + [own[x]],
                       lists, traces[t := traces[t].(last := n)], connected)
  {
    var x := chain[|chain| - 1];
    PlacedParts(own, connected, chain, []);
    var a, tr := aux[x := n] + [aux[x]], traces[t := traces[t].(last := n)];
    OtherDone(aux, part, startOf, endOf, own, lists, traces, connected, x, n);
    forall u | 0 <= u < |lists| && !connected[u]
      ensures Done(a, part + [p], startOf + [NONE], endOf + [NONE], lists[u], tr[u], u)
      ensures MarkedAs(own + [own[x]], lists[u], u + 1)
    {
      assert Done(aux[x := n], part, startOf, endOf, lists[u], traces[u], u) && MarkedAs(own, lists[u], u + 1);
    }
  }

  lemma CopyPlaced(own: seq<nat>, lists: seq<seq<nat>>, connected: seq<bool>, s: seq<nat>, n: nat, o: nat)
    requires Owned(own, lists, connected, s) && Placed(own, connected, s) && n == |own| && 0 < o <= |connected|
    requires connected[o - 1]
    ensures Owned(own + [o], lists, connected, s + [n]) && Placed(own + [o], connected, s + [n])
  {
    forall b | 0 <= b <= n ensures OwnerOk(own + [o], lists, connected, s + [n], b) {
      if b < n {
        assert OwnerOk(own, lists, connected, s, b);
      }
    }
  }

  /** Append a duplicated block to the chain. */
  lemma AppendCopy(aux: seq<int>, part: seq<Partition>, startOf: seq<int>, endOf: seq<int>, own: seq<nat>,
                   lists: seq<seq<nat>>, traces: seq<Trace>, connected: seq<bool>, chain: seq<nat>, t: nat,
                   p: Partition, n: nat)
    requires Joining(aux, part, startOf, endOf, own, lists, traces, connected, chain, []) && chain != []
    requires t < |connected| && connected[t] && n == |aux|
    ensures t < |traces| && chain[|chain| - 1] < |aux| == |own|
    ensures var x := chain[|chain| - 1];
            Joining(aux[x := n] + [aux[x]], part + [p], startOf + [NONE], endOf + [NONE], own + [own[x]],
                      lists, traces[t := traces[t].(last := n)], connected, chain + [n], [])
  {
    hide Owned, Unjoined, Tables, Placed;
    var x := chain[|chain| - 1];
    PlacedParts(own, connected, chain, []);
    assert chain + [] == chain && chain + [n] + [] == chain + [n];
    var x' := aux[x := n] + [aux[x]];
    CopyUnjoined(aux, part, startOf, endOf, own, lists, traces, connected, chain, t, p, n);
    CopyPlaced(own, lists, connected, chain, n, own[x]);
    TablesCopy(startOf, endOf, traces, connected, t, n);
    CopyAtEnd(aux, chain, n);
  }
}
