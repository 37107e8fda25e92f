/**
 Alias sets: the table of descendants and the conflict test.
 */
module AliasSets {
  /** A recorded fact: `sub` is a subset of `sup`. */
  datatype Edge = Edge(sup: nat, sub: nat)

  datatype Entry = NoEntry | Entry(children: set<nat>, hasZeroChild: bool)

  /** A chain of recorded facts leads from `p[0]` down to the last set of `p`. */
  ghost predicate Path(edges: set<Edge>, p: seq<nat>)
  {
    |p| >= 2 && forall i {:trigger p[i]} :: 0 <= i < |p| - 1 ==> Edge(p[i], p[i + 1]) in edges
  }

  ghost predicate Chain(edges: set<Edge>, p: seq<nat>, a: nat, b: nat)
  {
    Path(edges, p) && p[0] == a && p[|p| - 1] == b
  }

  /** `b` is a proper descendant of `a`. */
  ghost predicate Reach(edges: set<Edge>, a: nat, b: nat)
  {
    exists p :: Chain(edges, p, a, b)
  }

  lemma ReachEdge(edges: set<Edge>, a: nat, b: nat)
    requires Edge(a, b) in edges
    ensures Reach(edges, a, b)
  {
    assert Chain(edges, [a, b], a, b);
  }

  lemma ReachTrans(edges: set<Edge>, a: nat, b: nat, c: nat)
    requires Reach(edges, a, b) && Reach(edges, b, c)
    ensures Reach(edges, a, c)
  {
    var p :| Chain(edges, p, a, b);
    var q :| Chain(edges, q, b, c);
    var r := p + q[1..];
    forall i | 0 <= i < |r| - 1 ensures Edge(r[i], r[i + 1]) in edges {
      if i < |p| - 1 {
        assert Edge(p[i], p[i + 1]) in edges;
      } else {
        assert r[i] == q[i - |p| + 1] && r[i + 1] == q[i - |p| + 2];
      }
    }
    assert Chain(edges, r, a, c);
  }

  lemma ReachMore(edges: set<Edge>, more: set<Edge>, a: nat, b: nat)
    requires Reach(edges, a, b) && edges <= more
    ensures Reach(more, a, b)
  {
    var p :| Chain(edges, p, a, b);
    assert Chain(more, p, a, b);
  }

  /** With one more fact, the new descendants are those below it for everything above it. */
  ghost predicate Through(edges: set<Edge>, e: Edge, a: nat, b: nat)
  {
    (a == e.sup || Reach(edges, a, e.sup)) && (b == e.sub || Reach(edges, e.sub, b))
  }

  /** A chain with the new fact either does without it or passes through it. */
  lemma {:induction false} Split(edges: set<Edge>, e: Edge, p: seq<nat>)
    requires Path(edges + {e}, p)
    ensures Reach(edges, p[0], p[|p| - 1]) || Through(edges, e, p[0], p[|p| - 1])
    decreases |p|
  {
    var a, c, b := p[0], p[1], p[|p| - 1];
    assert Edge(p[0], p[0 + 1]) in edges + {e};
    if |p| > 2 {
      var q := p[1..];
      forall i | 0 <= i < |q| - 1 ensures Edge(q[i], q[i + 1]) in edges + {e} {
        assert Edge(p[i + 1], p[i + 1 + 1]) in edges + {e};
      }
      Split(edges, e, q);
      if Edge(a, c) in edges {
        ReachEdge(edges, a, c);
        if Reach(edges, c, b) {
          ReachTrans(edges, a, c, b);
        } else if c != e.sup {
          ReachTrans(edges, a, c, e.sup);
        }
      }
    } else if Edge(a, c) in edges {
      ReachEdge(edges, a, c);
    }
  }

  lemma ReachAdded(edges: set<Edge>, e: Edge, a: nat, b: nat)
    ensures Reach(edges + {e}, a, b) <==> Reach(edges, a, b) || Through(edges, e, a, b)
  {
    var more := edges + {e};
    if Reach(edges, a, b) {
      ReachMore(edges, more, a, b);
    }
    if Through(edges, e, a, b) {
      ReachEdge(more, e.sup, e.sub);
      if a != e.sup {
        ReachMore(edges, more, a, e.sup);
        ReachTrans(more, a, e.sup, e.sub);
      }
      if b != e.sub {
        ReachMore(edges, more, e.sub, b);
        ReachTrans(more, a, e.sub, b);
      }
    }
    if Reach(more, a, b) {
      var p :| Chain(more, p, a, b);
      Split(edges, e, p);
    }
  }

  function Children(entry: Entry): set<nat>
  {
    match entry case NoEntry => {} case Entry(c, _) => c
  }

  function HasZero(entry: Entry): bool
  {
    match entry case NoEntry => false case Entry(_, z) => z
  }

  /** The entry of set `a` lists all its descendants. */
  ghost predicate EntryOk(edges: set<Edge>, entry: Entry, a: nat)
  {
    && (forall b :: b != 0 ==> (b in Children(entry) <==> Reach(edges, a, b)))
    && 0 !in Children(entry) && (HasZero(entry) <==> Reach(edges, a, 0))
  }

  /** The entry of set `a` lists only descendants. */
  ghost predicate EntrySound(edges: set<Edge>, entry: Entry, a: nat)
  {
    (forall b :: b in Children(entry) ==> Reach(edges, a, b)) && (HasZero(entry) ==> Reach(edges, a, 0))
  }

  /** Sets may conflict when they are equal, one is zero or reaches zero, or one reaches the other. */
  ghost predicate MayMeet(edges: set<Edge>, a: nat, b: nat)
  {
    a == b || a == 0 || b == 0 || Reach(edges, a, b) || Reach(edges, b, a) || Reach(edges, a, 0) || Reach(edges, b, 0)
  }

  /** What the table itself tells about two sets. */
  predicate Linked(sets: seq<Entry>, a: nat, b: nat)
    requires a < |sets| && b < |sets|
  {
    || a == b || a == 0 || b == 0 || HasZero(sets[a]) || HasZero(sets[b])
    || b in Children(sets[a]) || a in Children(sets[b])
  }

  lemma NoFacts(edges: set<Edge>, n: nat, a: nat)
    requires (forall e :: e in edges ==> e.sup < n) && a >= n
    ensures EntryOk(edges, NoEntry, a)
  {
  }

  /** The entry of `sup` as it is updated. */
  ghost predicate Updated(was: seq<Entry>, now: seq<Entry>, sup: nat, sub: nat)
    requires sup < |was| && sub < |was|
  {
    && |now| == |was| && (forall a :: 0 <= a < |was| && a != sup ==> now[a] == was[a])
    && Children(now[sup]) == Children(was[sup]) + (if sub == 0 then {} else Children(was[sub]) + {sub})
    && HasZero(now[sup]) == (HasZero(was[sup]) || sub == 0 || HasZero(was[sub]))
  }

  lemma RecordedSound(was: seq<Entry>, now: seq<Entry>, edges: set<Edge>, sup: nat, sub: nat, a: nat)
    requires sup != sub && sup < |was| && sub < |was| && was[0].NoEntry? && Updated(was, now, sup, sub) && a < |was|
    requires EntrySound(edges, was[a], a) && EntrySound(edges, was[sub], sub)
    ensures EntrySound(edges + {Edge(sup, sub)}, now[a], a)
  {
    hide Reach;
    var e := Edge(sup, sub);
    forall b ensures Reach(edges + {e}, a, b) <==> Reach(edges, a, b) || Through(edges, e, a, b) {
      ReachAdded(edges, e, a, b);
    }
  }

  lemma RecordedAt(was: seq<Entry>, now: seq<Entry>, edges: set<Edge>, sup: nat, sub: nat, a: nat)
    requires sup != sub && 0 < sup < |was| && sub < |was| && was[0].NoEntry? && Updated(was, now, sup, sub) && a < |was|
    requires EntryOk(edges, was[a], a) && EntryOk(edges, was[sub], sub) && EntryOk(edges, was[0], 0)
    ensures EntryOk(edges + {Edge(sup, sub)}, now[a], a) <==>
              (a != sup && Reach(edges, a, sup) ==> Reach(edges, a, sub))
  {
    hide Reach;
    var e := Edge(sup, sub);
    forall b ensures Reach(edges + {e}, a, b) <==> Reach(edges, a, b) || Through(edges, e, a, b) {
      ReachAdded(edges, e, a, b);
    }
    if a != sup {
      forall b | Reach(edges, a, sub) && Reach(edges, sub, b) ensures Reach(edges, a, b) {
        ReachTrans(edges, a, sub, b);
      }
    }
  }

  /** All entries are exact again just if everything above `sup` was above `sub` already. */
  lemma Recorded(was: seq<Entry>, now: seq<Entry>, edges: set<Edge>, sup: nat, sub: nat)
    requires sup != sub && 0 < sup < |was| && sub < |was| && was[0].NoEntry? && Updated(was, now, sup, sub)
    requires forall a :: 0 <= a < |was| ==> EntryOk(edges, was[a], a)
    ensures var more := edges + {Edge(sup, sub)};
            (forall a :: 0 <= a < |now| ==> EntryOk(more, now[a], a)) <==>
            (forall a: nat :: a < |now| && a != sup && Reach(edges, a, sup) ==> Reach(edges, a, sub))
  {
    forall a: nat | a < |now|
      ensures EntryOk(edges + {Edge(sup, sub)}, now[a], a) <==>
                (a != sup && Reach(edges, a, sup) ==> Reach(edges, a, sub))
    {
      RecordedAt(was, now, edges, sup, sub, a);
    }
  }

  class Table {
    /** Indexed by alias set number; empty until the first set is made. */
    var sets: seq<Entry>
    ghost var edges: set<Edge>

    /** Every entry lists exactly the descendants of its set. */
    ghost predicate Exact()
      reads this
    {
      forall a :: 0 <= a < |sets| ==> EntryOk(edges, sets[a], a)
    }

    /** Entries never list anything but descendants. */
    ghost predicate Valid()
      reads this
    {
      && (sets != [] ==> sets[0].NoEntry?)
      && (forall a :: 0 <= a < |sets| ==> EntrySound(edges, sets[a], a))
      && forall e :: e in edges ==> 0 < e.sup < |sets| && e.sub < |sets|
    }

    constructor ()
      ensures Valid() && Exact() && edges == {} && sets == []
    {
      sets, edges := [], {};
    }

    /** new_alias_set, with strict aliasing on. */
    method NewAliasSet() returns (set1: nat)
      requires Valid()
      modifies this`sets
      ensures Valid() && set1 != 0 && |old(sets)| <= set1 && |sets| == set1 + 1 && old(sets) <= sets
      ensures sets == (if old(sets) == [] then [NoEntry] else old(sets)) + [NoEntry]
      ensures old(Exact()) ==> Exact()
    {
      var was := sets;
      if sets == [] {
        sets := [NoEntry];
      }
      sets := sets + [NoEntry];
      set1 := |sets| - 1;
      if old(Exact()) {
        forall a | 0 <= a < |sets| ensures EntryOk(edges, sets[a], a) {
          if a < |was| {
            assert EntryOk(edges, was[a], a);
          } else {
            NoFacts(edges, |was|, a);
          }
        }
      }
    }

    /** record_alias_subset */
    method RecordSubset(sup: nat, sub: nat)
      requires Valid() && sup < |sets| && sub < |sets| && (sup != sub ==> sup != 0)
      modifies this
      ensures Valid() && |sets| == |old(sets)| && edges == old(edges) + (if sup == sub then {} else {Edge(sup, sub)})
      ensures sup != sub ==> Updated(old(sets), sets, sup, sub)
      ensures old(Exact()) ==>
        (Exact() <==>
           sup == sub ||
           forall a: nat :: a < |sets| && a != sup && Reach(old(edges), a, sup) ==> Reach(old(edges), a, sub))
    {
      hide Reach, EntrySound, EntryOk;
      if sup == sub {
        return;
      }
      ghost var e := Edge(sup, sub);
      var entry := if sets[sup].NoEntry? then Entry({}, false) else sets[sup];
      if sub == 0 {
        entry := entry.(hasZeroChild := true);
      } else {
        if sets[sub].Entry? {
          if sets[sub].hasZeroChild {
            entry := entry.(hasZeroChild := true);
          }
          entry := entry.(children := entry.children + sets[sub].children);
        }
        entry := entry.(children := entry.children + {sub});
      }
      ghost var was, edges0 := sets, edges;
      sets := sets[sup := entry];
      edges := edges + {e};
      forall a | 0 <= a < |sets| ensures EntrySound(edges, sets[a], a) {
        RecordedSound(was, sets, edges0, sup, sub, a);
      }
      if old(Exact()) {
        Recorded(was, sets, edges0, sup, sub);
      }
    }

    /** alias_sets_conflict_p */
    method Conflict(set1: nat, set2: nat) returns (r: bool)
      requires Valid() && (set1 != 0 && set2 != 0 && set1 != set2 ==> set1 < |sets| && set2 < |sets|)
      ensures set1 < |sets| && set2 < |sets| ==> (r <==> Linked(sets, set1, set2))
      ensures (r ==> MayMeet(edges, set1, set2)) && (Exact() ==> (r <==> MayMeet(edges, set1, set2)))
    {
      if set1 == 0 || set2 == 0 || set1 == set2 {
        return true;
      }
      assert EntrySound(edges, sets[set1], set1) && EntrySound(edges, sets[set2], set2);
      assert Exact() ==> EntryOk(edges, sets[set1], set1) && EntryOk(edges, sets[set2], set2);
      if sets[set1].Entry? && (sets[set1].hasZeroChild || set2 in sets[set1].children) {
        return true;
      }
      if sets[set2].Entry? && (sets[set2].hasZeroChild || set1 in sets[set2].children) {
        return true;
      }
      return false;
    }
  }

  /** A set that was never recorded as a subset has nothing above it. */
  lemma NothingAbove(edges: set<Edge>, a: nat, b: nat)
    requires forall e :: e in edges ==> e.sub != b
    ensures !Reach(edges, a, b)
  {
    forall p ensures !Chain(edges, p, a, b) {
      if Path(edges, p) {
        assert Edge(p[|p| - 2], p[|p| - 2 + 1]) in edges;
      }
    }
  }

  /** No set gains a subset after it was recorded as one itself. */
  ghost predicate Disciplined(facts: seq<Edge>)
  {
    forall i, j :: 0 <= i < j < |facts| && facts[j].sup != facts[j].sub && facts[i].sup != facts[i].sub ==>
        facts[i].sub != facts[j].sup
  }

  ghost function Proper(facts: seq<Edge>): set<Edge>
  {
    set e | e in facts && e.sup != e.sub
  }

  /** Recording any disciplined sequence of facts leaves every entry exact, so that the conflict test is. */
  method RecordAll(n: nat, facts: seq<Edge>) returns (t: Table)
    requires Disciplined(facts) && forall i :: 0 <= i < |facts| ==> 0 < facts[i].sup <= n && facts[i].sub <= n
    ensures fresh(t) && t.Valid() && t.Exact() && t.edges == Proper(facts)
  {
    hide Reach, EntryOk, EntrySound;
    t := new Table();
    var made := 0;
    while made < n
      invariant fresh(t) && t.Valid() && t.Exact() && t.edges == {} && made <= n
      invariant made == 0 ==> t.sets == []
      invariant made > 0 ==> |t.sets| > made
    {
      var s := t.NewAliasSet();
      made := made + 1;
    }
    assert Proper(facts[..0]) == {};
    for i := 0 to |facts|
      invariant fresh(t) && t.Valid() && t.Exact() && t.edges == Proper(facts[..i]) && (n > 0 ==> |t.sets| > n)
    {
      var e := facts[i];
      assert facts[..i + 1] == facts[..i] + [e];
      if e.sup != e.sub {
        forall a: nat ensures !Reach(t.edges, a, e.sup) {
          NothingAbove(t.edges, a, e.sup);
        }
      }
      t.RecordSubset(e.sup, e.sub);
    }
    assert facts[..|facts|] == facts;
  }

  /** Recording 2 below 1 and then 3 below 2 is not disciplined. */
  lemma LateSubset()
    ensures Reach({Edge(1, 2)}, 1, 2) && !Reach({Edge(1, 2)}, 1, 3)
    ensures Reach({Edge(1, 2), Edge(2, 3)}, 1, 3) && !Disciplined([Edge(1, 2), Edge(2, 3)])
  {
    var one, both := {Edge(1, 2)}, {Edge(1, 2), Edge(2, 3)};
    ReachEdge(one, 1, 2);
    NothingAbove(one, 1, 3);
    ReachEdge(both, 1, 2);
    ReachEdge(both, 2, 3);
    ReachTrans(both, 1, 2, 3);
    var facts := [Edge(1, 2), Edge(2, 3)];
    assert facts[0].sub == facts[1].sup;
  }

  /** In that order set 1 misses its descendant 3, and the conflict between the two is not found. */
  method RecordLate() returns (t: Table, found: bool)
    ensures fresh(t) && t.Valid() && t.edges == {Edge(1, 2), Edge(2, 3)} && |t.sets| == 4
    ensures !t.Exact() && !found && MayMeet(t.edges, 1, 3)
  {
    hide Reach, EntryOk, EntrySound, Disciplined, Table.Valid, Table.Exact;
    t := new Table();
    var _ := t.NewAliasSet();
    var _ := t.NewAliasSet();
    var _ := t.NewAliasSet();
    assert t.sets == [NoEntry, NoEntry, NoEntry, NoEntry];
    forall a: nat ensures !Reach({}, a, 1) {
      NothingAbove({}, a, 1);
    }
    t.RecordSubset(1, 2);
    assert t.edges == {Edge(1, 2)};
    LateSubset();
    t.RecordSubset(2, 3);
    found := t.Conflict(1, 3);
  }
}
