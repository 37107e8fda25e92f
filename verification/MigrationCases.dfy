/**
 Runs of the branch target register migration that lose a register: on a chain of blocks, one in which combining
 definitions forgets a shared block, and one in which a definition moves into the last block of another live range.
 */
module MigrationCases {
  import opened Reaching
  import opened LiveRanges
  import opened Migration

  /** The place of a block in the chain ENTRY, 2, 3, ..., n - 1, EXIT. */
  function Rank(n: nat, b: nat): nat
  {
    if b == ENTRY then 0 else if b == 1 then n else b
  }

  function ChainPreds(n: nat): (p: Preds)
    requires n > FIXED
    ensures |p| == n
  {
    seq(n, b requires 0 <= b < n => if b == ENTRY then [] else if b == 1 then [n - 1] else if b == 2 then [0]
        else [b - 1])
  }

  /** The flow graph of a chain of blocks. */
  function ChainGraph(n: nat): (f: Graph)
    requires n > FIXED
    ensures f.preds == ChainPreds(n) && |f.freq| == |f.depth| == |f.idom| == |f.dominates| == n
  {
    Graph(ChainPreds(n),
          seq(n, b requires 0 <= b < n => if b <= 2 then ENTRY else b - 1),
          seq(n, a requires 0 <= a < n => seq(n, b requires 0 <= b < n => Rank(n, a) <= Rank(n, b))),
          seq(n, b requires 0 <= b < n => 0),
          seq(n, b requires 0 <= b < n => Rank(n, b)), {})
  }

  /** Along a route the places go up one block at a time. */
  lemma {:induction false} RouteRank(n: nat, p: seq<nat>, b: nat, i: nat)
    requires n > FIXED && Route(ChainPreds(n), p, b) && i < |p|
    ensures Rank(n, p[i]) == if i == 0 then 0 else i + 1
  {
    if i > 0 {
      RouteRank(n, p, b, i - 1);
      assert p[i - 1] in ChainPreds(n)[p[i]];
    }
  }

  /** The route to a block. */
  function RouteTo(n: nat, b: nat): (p: seq<nat>)
    requires b < n && b != 1
    ensures p != [] && p[|p| - 1] == b && p[0] == ENTRY
  {
    if b == ENTRY then [ENTRY] else if b == 2 then [ENTRY, 2] else RouteTo(n, b - 1) + [b]
  }

  lemma {:induction false} RouteExists(n: nat, b: nat)
    requires n > FIXED && b < n && b != 1
    ensures Route(ChainPreds(n), RouteTo(n, b), b)
  {
    if b > 2 {
      RouteExists(n, b - 1);
    }
  }

  lemma ChainDom(n: nat, a: nat, b: nat)
    requires n > FIXED && a < n && b < n
    ensures Dom(ChainPreds(n), a, b) <==> Rank(n, a) <= Rank(n, b)
  {
    if Rank(n, a) <= Rank(n, b) {
      forall p | Route(ChainPreds(n), p, b) ensures a in p {
        RouteRank(n, p, b, |p| - 1);
        var i := if a == ENTRY then 0 else Rank(n, a) - 1;
        RouteRank(n, p, b, i);
        assert p[i] < n;
      }
    } else {
      RouteExists(n, b);
      var p := RouteTo(n, b);
      RouteRank(n, p, b, |p| - 1);
      if a in p {
        var i :| 0 <= i < |p| && p[i] == a;
        RouteRank(n, p, b, i);
      }
    }
  }

  lemma ChainOk(n: nat)
    requires n > FIXED
    ensures GraphOk(ChainGraph(n))
  {
    hide Dom, Route;
    var f := ChainGraph(n);
    forall a, b | 0 <= a < n && 0 <= b < n ensures f.dominates[a][b] <==> Dom(f.preds, a, b) {
      ChainDom(n, a, b);
    }
    forall b | 0 <= b < n && b != 1 ensures Reachable(f.preds, b) {
      RouteExists(n, b);
    }
    forall b | FIXED <= b < n ensures IdomOk(f, b) {
      ChainDom(n, f.idom[b], b);
    }
  }

  /** The blocks from `a` to `b`. */
  function Span(a: nat, b: nat): (s: set<nat>)
    ensures forall c :: c in s <==> a <= c <= b
  {
    if b < a then {} else if b == a then {a} else Span(a, b - 1) + {b}
  }

  lemma SpanRange(n: nat, a: nat, b: nat)
    requires FIXED <= a <= b < n
    ensures IsRange(ChainPreds(n), Span(a, b), a)
  {
    hide Dom;
    forall c | c in Span(a, b) ensures Dom(ChainPreds(n), a, c) {
      ChainDom(n, a, c);
    }
  }

  /** A definition in block `bb` with uses in the blocks `uses`, whose range ends at `last`. */
  ghost predicate Fits(n: nat, d: Def, last: nat)
  {
    && d.movable && FIXED <= d.bb <= last < n && d.cost == 0 && d.range == Range(Span(d.bb, last))
    && forall i :: 0 <= i < |d.uses| ==> d.bb <= d.uses[i] <= last
  }

  lemma FitsOk(n: nat, d: Def, last: nat)
    requires n > FIXED && Fits(n, d, last)
    ensures DefOk(ChainGraph(n), d) && RangeOk(ChainGraph(n), d.bb, d.uses, Span(d.bb, last))
  {
    hide Dom, IsRange;
    SpanRange(n, d.bb, last);
    forall i | 0 <= i < |d.uses| ensures Dom(ChainPreds(n), d.bb, d.uses[i]) {
      ChainDom(n, d.bb, d.uses[i]);
    }
  }

  function NewDef(bb: nat, group: nat, btr: nat, uses: seq<nat>, last: nat, before: bool, after: bool): Def
  {
    Def(bb, 0, true, group, btr, uses, Range(Span(bb, last)), before, after, false)
  }

  lemma DefsFit(n: nat, defs: seq<Def>, lasts: seq<nat>)
    requires n > FIXED && |lasts| == |defs| && forall j :: 0 <= j < |defs| ==> Fits(n, defs[j], lasts[j])
    ensures DefsOk(ChainGraph(n), defs)
    ensures WebsOk(ChainGraph(n), defs, seq(|defs|, j requires 0 <= j < |defs| => Span(defs[j].bb, lasts[j])))
  {
    hide GraphOk, DefOk, RangeOk, Span;
    ChainOk(n);
    forall j | 0 <= j < |defs|
      ensures DefOk(ChainGraph(n), defs[j]) && WebOk(ChainGraph(n), defs[j], Span(defs[j].bb, lasts[j]))
    {
      FitsOk(n, defs[j], lasts[j]);
    }
  }

  /** Definitions in blocks 3, 4 and 6: the second and the third share register 11 in block 6. */
  function ForgottenDefs(): seq<Def>
  {
    [NewDef(3, 1, 10, [7], 7, false, false), NewDef(4, 1, 11, [5, 6], 6, false, true),
     NewDef(6, 2, 11, [7], 7, true, false)]
  }

  function ForgottenLive(): Liveness
  {
    Liveness([{}, {}, {}, {}, {11}, {11}, {11}, {11}], [{}, {}, {}, {}, {11}, {11}, {11}, {}])
  }

  function ForgottenWeb(): Sets { [Span(3, 7), Span(4, 6), Span(6, 7)] }

  lemma ForgottenStart()
    ensures DefsOk(ChainGraph(8), ForgottenDefs())
    ensures Covered(8, ForgottenLive(), true, Span(3, 7), 3, {11}, Excuse({}, {}, {}))
    ensures FreeIn(ForgottenLive(), true, Span(3, 7), 3, 10, Excuse({}, {}, {})) && !AnyLive(ForgottenLive(), 12)
    ensures Holding(ForgottenLive(), ForgottenDefs(), ForgottenWeb(), 0)
    ensures Dom(ChainPreds(8), 3, 4)
  {
    hide DefsOk, Dom, WebsOk;
    DefsFit(8, ForgottenDefs(), [7, 6, 7]);
    ChainDom(8, 3, 4);
  }

  lemma ForgottenEnd(l: Liveness, defs: seq<Def>)
    requires |l.live| == 8 && |defs| == 3 && defs[2] == ForgottenDefs()[2] && 11 !in l.live[6]
    ensures !Holding(l, defs, ForgottenWeb(), 0)
  {
    assert Needs(defs, ForgottenWeb(), 0, 2, 6);
  }

  /**
   A shared block that is forgotten: definition 0 takes over definition 1, whose second use is in block 6, where
   definition 2 needs the same register; block 6 loses it. All but definition 0 had their registers before.
   */
  method EdgeForgotten() returns (m: Mover, ghost was: seq<Def>, ghost l0: Liveness)
    ensures m.Ok() && Holding(l0, was, m.web, 0) && !Holding(m.l, m.defs, m.web, 0)
    ensures |was| == |m.defs| == 3 && m.defs[2] == was[2] && was[2].bb == 6 && AtEdge(was[1], 6)
    ensures |m.l.live| == |l0.live| == 8 && was[2].btr in l0.live[6] && was[2].btr !in m.l.live[6]
  {
    hide DefsOk, Dom, Covered, FreeIn, AnyLive, Holding, UseCount, RangeOk, WebsOk, SharedLive, EdgesSurvive;
    ForgottenStart();
    m := new Mover(ChainGraph(8), {10, 11, 12}, [10, 11, 12], true, ForgottenDefs(), ForgottenLive(), {},
                   ForgottenWeb());
    was, l0 := m.defs, m.l;
    assert Eligible(m.f, m.defs, 0, 1);
    var _, taken := m.CombineWith(0, 1, {11}, Excuse({}, {}, {}), m.defs, false);
    assert taken == Range(Span(4, 6)) && !AtEdge(Spliced(was[1], was[0]), 6);
    assert was[1].uses[1] == 6;
    ForgottenEnd(m.l, m.defs);
  }

  /** Definitions in blocks 5 and 3; the range of the second ends in block 4. */
  function HeadDefs(): seq<Def>
  {
    [NewDef(5, 1, 8, [6], 6, false, false), NewDef(3, 2, 7, [4], 4, false, false)]
  }

  function HeadLive(): Liveness
  {
    Liveness([{}, {}, {}, {7}, {7}, {8}, {8}], [{}, {}, {}, {7}, {}, {8}, {}])
  }

  function HeadWeb(): Sets { [Span(5, 6), Span(3, 4)] }

  lemma HeadStart()
    ensures DefsOk(ChainGraph(7), HeadDefs()) && WebsOk(ChainGraph(7), HeadDefs(), HeadWeb())
    ensures Holding(HeadLive(), HeadDefs(), HeadWeb(), -1) && Sharing(HeadDefs(), HeadWeb(), -1)
    ensures Lifted(7, HeadLive(), false, Span(5, 6), 5, Span(4, 6), 4, {8}, Excuse({8}, {}, {}))
    ensures Reserved(HeadDefs(), HeadWeb(), 0, false, 4, Span(4, 6), {8})
  {
    hide DefsOk, WebsOk;
    DefsFit(7, HeadDefs(), [6, 4]);
    assert HeadWeb() == seq(2, j requires 0 <= j < 2 => Span(HeadDefs()[j].bb, [6, 4][j]));
  }

  lemma HeadRanges()
    ensures Dom(ChainPreds(7), 4, 5) && Dom(ChainPreds(7), 2, 3)
    ensures IsRange(ChainPreds(7), Span(4, 6), 4) && IsRange(ChainPreds(7), Span(2, 4), 2)
    ensures RangeOk(ChainGraph(7), 5, [6], Span(5, 6)) && RangeOk(ChainGraph(7), 3, [4], Span(3, 4))
  {
    hide Dom, IsRange;
    ChainDom(7, 4, 5);
    ChainDom(7, 2, 3);
    SpanRange(7, 4, 6);
    SpanRange(7, 2, 4);
    SpanRange(7, 5, 6);
    SpanRange(7, 3, 4);
  }

  /** After the first move the two definitions meet in block 4, where the second has no edge. */
  lemma HeadMet(defs: seq<Def>, web: Sets)
    requires |defs| == |web| == 2 && defs[1] == HeadDefs()[1] && defs[0].btr == 7 && defs[0].bb == 4
    requires WebsOk(ChainGraph(7), defs, web)
    ensures !HeadShared(defs, web, 0)
  {
    assert WebOk(ChainGraph(7), defs[1], web[1]);
    assert defs[1].uses[0] == 4 && Needs(defs, web, 0, 1, 4);
  }

  /** What is live after the first move. */
  lemma HeadMoved(l: Liveness, freed: Liveness)
    requires ClearedBy(HeadDefs()[0], Span(5, 6), HeadLive(), freed) && |l.live| == |l.atEnd| == |freed.live| == 7
    requires forall b :: 0 <= b < 7 ==> l.live[b] == freed.live[b] + if b in Span(4, 6) then {7} else {}
    requires forall b :: 0 <= b < 7 && b !in Span(4, 6) && b != 4 ==> l.atEnd[b] <= HeadLive().atEnd[b]
    ensures l.live[3] == l.live[4] == {7}
    ensures Lifted(7, l, false, Span(3, 4), 3, Span(2, 4), 2, {7}, Excuse({7}, {}, {}))
  {
    assert freed.live[3] == {7} && freed.live[4] == {7};
  }

  lemma HeadLost(l: Liveness, l': Liveness, freed: Liveness)
    requires |l.live| == |l'.live| == 7 && ClearedBy(HeadDefs()[1], Span(3, 4), l, freed)
    requires forall b :: 0 <= b < 7 ==> l'.live[b] == freed.live[b] + if b in Span(2, 4) then {9} else {}
    ensures 7 !in l'.live[4]
  {
    assert 7 !in freed.live[4];
  }

  /**
   A register that is lost when blocks are not exclusive: definition 0 moves to the end of block 4 with register 7,
   which definition 1 needs there before; when definition 1 moves in turn, block 4 loses register 7, although
   definition 0 needs it there. All definitions owned their registers at the start.
   */
  method LostInHead() returns (m: Mover, ghost was: seq<Def>, ghost l0: Liveness, ghost web0: Sets)
    ensures Holding(l0, was, web0, -1) && Sharing(was, web0, -1) && |was| == 2
    ensures m.Ok() && |m.defs| == 2 && m.defs[0].btr == 7 && m.defs[0].range == Range(Span(4, 6))
    ensures m.defs[0].bb == 4 && m.defs[0].uses == [6] && |m.l.live| == 7 && 7 !in m.l.live[4]
  {
    hide DefsOk, Dom, Covered, FreeIn, Holding, UseCount, RangeOk, WebsOk, Sharing, Reserved, Lifted, IsRange,
        ClearedBy,
        HeadShared, Alone, Leftover;
    HeadStart();
    HeadRanges();
    m := new Mover(ChainGraph(7), {7, 8, 9}, [7, 8, 9], false, HeadDefs(), HeadLive(), {}, HeadWeb());
    was, l0, web0 := m.defs, m.l, m.web;
    assert m.Ok() && m.Owned() && m.Sole(0);
    var _, freed := m.MoveDef(0, 4, 7, Span(4, 6), {8}, Excuse({8}, {}, {}), m.defs, true);
    if m.Owned() {
      HeadMet(m.defs, m.web);
    }
    assert !m.Owned();
    HeadMoved(m.l, freed);
    ghost var l1 := m.l;
    assert m.Sole(1);
    var _, freed' := m.MoveDef(1, 2, 9, Span(2, 4), {7}, Excuse({7}, {}, {}), m.defs, false);
    HeadLost(l1, m.l, freed');
  }
}
