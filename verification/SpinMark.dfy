/**
 flag_reachable_nodes: mark what can be reached from a node. Nodes are numbered; `kids[b]` lists a node's operands.
 */
module SpinMark {
  import opened Bytes
  import opened Mempool
  import opened SpinHeap
  import opened SpinWrite

  const NULL: int := -1

  type Kids = seq<seq<int>>

  ghost predicate KidsOk(kids: Kids)
  {
    forall b, k :: 0 <= b < |kids| && 0 <= k < |kids[b]| ==> kids[b][k] == NULL || 0 <= kids[b][k] < |kids|
  }

  ghost predicate Path(kids: Kids, p: seq<nat>, a: nat, b: nat)
  {
    && p != [] && p[0] == a && p[|p| - 1] == b && (forall i :: 0 <= i < |p| ==> p[i] < |kids|)
    && (forall i {:trigger p[i]} :: 0 < i < |p| ==> p[i] in kids[p[i - 1]])
  }

  ghost predicate Reach(kids: Kids, a: nat, b: nat)
  {
    exists p :: Path(kids, p, a, b)
  }

  lemma ReachSelf(kids: Kids, a: nat)
    requires a < |kids|
    ensures Reach(kids, a, a)
  {
    assert Path(kids, [a], a, a);
  }

  lemma ReachKid(kids: Kids, a: nat, c: nat, b: nat)
    requires a < |kids| && c in kids[a] && Reach(kids, c, b)
    ensures Reach(kids, a, b)
  {
    var p :| Path(kids, p, c, b);
    assert Path(kids, [a] + p, a, b);
  }

  ghost predicate KidMarked(marks: seq<bool>, k: int)
  {
    k == NULL || (0 <= k < |marks| && marks[k])
  }

  /** The operands of marked nodes are marked, except for nodes still being visited. */
  ghost predicate Settled(kids: Kids, marks: seq<bool>, open: set<nat>)
  {
    && |marks| == |kids|
    && forall b, k :: 0 <= b < |kids| && marks[b] && b !in open && 0 <= k < |kids[b]| ==> KidMarked(marks, kids[b][k])
  }

  ghost predicate Kept(was: seq<bool>, marks: seq<bool>)
  {
    |was| == |marks| && forall b :: 0 <= b < |was| && was[b] ==> marks[b]
  }

  /** Everything marked since `was` can be reached from `t`. */
  ghost predicate OnlyFrom(kids: Kids, was: seq<bool>, marks: seq<bool>, t: nat)
  {
    |was| == |marks| && forall b :: 0 <= b < |was| && marks[b] && !was[b] ==> Reach(kids, t, b)
  }

  ghost function Unmarked(marks: seq<bool>): set<nat>
  {
    set b: nat | b < |marks| && !marks[b]
  }

  lemma Fewer(was: seq<bool>, marks: seq<bool>, b: nat)
    requires Kept(was, marks) && b < |was| && marks[b] && !was[b]
    ensures |Unmarked(marks)| < |Unmarked(was)|
  {
    assert Unmarked(marks) <= Unmarked(was) - {b} && b in Unmarked(was);
    var rest := Unmarked(was) - {b} - Unmarked(marks);
    assert Unmarked(was) - {b} == Unmarked(marks) + rest;
  }

  lemma NoMore(was: seq<bool>, marks: seq<bool>)
    requires Kept(was, marks)
    ensures |Unmarked(marks)| <= |Unmarked(was)|
  {
    assert Unmarked(was) == Unmarked(marks) + (Unmarked(was) - Unmarked(marks));
  }

  method Flag(kids: Kids, marks: array<bool>, t: int, ghost open: set<nat>)
    requires KidsOk(kids) && marks.Length == |kids| && (t == NULL || 0 <= t < |kids|) && Settled(kids, marks[..], open)
    modifies marks
    ensures Settled(kids, marks[..], open) && Kept(old(marks[..]), marks[..]) && KidMarked(marks[..], t)
    ensures if t == NULL then marks[..] == old(marks[..]) else OnlyFrom(kids, old(marks[..]), marks[..], t)
    decreases |Unmarked(marks[..])|
  {
    if t == NULL || marks[t] {
      return;
    }
    ghost var was := marks[..];
    marks[t] := true;
    ReachSelf(kids, t);
    Fewer(was, marks[..], t);
    for j := 0 to |kids[t]|
      invariant Settled(kids, marks[..], open + {t}) && Kept(was, marks[..]) && marks[t]
      invariant OnlyFrom(kids, was, marks[..], t)
      invariant forall i :: 0 <= i < j ==> KidMarked(marks[..], kids[t][i])
      invariant |Unmarked(marks[..])| < |Unmarked(was)|
    {
      ghost var before := marks[..];
      Flag(kids, marks, kids[t][j], open + {t});
      NoMore(before, marks[..]);
      if kids[t][j] != NULL {
        forall b | 0 <= b < |kids| && marks[..][b] && !before[b] ensures Reach(kids, t, b) {
          ReachKid(kids, t, kids[t][j], b);
        }
      }
    }
  }

  lemma {:induction false} AllMarked(kids: Kids, marks: seq<bool>, p: seq<nat>, i: nat)
    requires Settled(kids, marks, {}) && p != [] && i < |p| && Path(kids, p, p[0], p[|p| - 1]) && p[0] < |marks|
    requires marks[p[0]]
    ensures p[i] < |marks| && marks[p[i]]
  {
    if i > 0 {
      AllMarked(kids, marks, p, i - 1);
      var k :| 0 <= k < |kids[p[i - 1]]| && kids[p[i - 1]][k] == p[i];
      assert KidMarked(marks, kids[p[i - 1]][k]);
    }
  }

  /** With nothing marked before, exactly what can be reached is marked. */
  method FlagReachable(kids: Kids, t: nat) returns (marks: array<bool>)
    requires KidsOk(kids) && t < |kids|
    ensures fresh(marks) && marks.Length == |kids| && forall b :: 0 <= b < |kids| ==> (marks[b] <==> Reach(kids, t, b))
  {
    marks := new bool[|kids|](_ => false);
    Flag(kids, marks, t, {});
    forall b | 0 <= b < |kids| && Reach(kids, t, b) ensures marks[b] {
      var p :| Path(kids, p, t, b);
      AllMarked(kids, marks[..], p, |p| - 1);
    }
  }

  /** The number of the node at address `w`, or none. */
  function NodeIndex(bases: seq<nat>, offs: seq<nat>, w: nat, from: nat): (k: int)
    requires from <= |offs|
    ensures k == NULL || (from <= k < |offs| && offs[k] / BLOCK < |bases| && Addr(bases, offs[k]) == w)
    ensures k == NULL ==> forall l :: from <= l < |offs| && offs[l] / BLOCK < |bases| ==> Addr(bases, offs[l]) != w
    decreases |offs| - from
  {
    if from == |offs| then NULL
    else if offs[from] / BLOCK < |bases| && Addr(bases, offs[from]) == w then from
    else NodeIndex(bases, offs, w, from + 1)
  }

  /** All nodes, with their operands, are in the image. */
  ghost predicate Inside(t: Codes, m: Image, offs: seq<nat>)
  {
    && CodesOk(t)
    && forall k :: 0 <= k < |offs| ==> offs[k] < |m.flat| && offs[k] + Size(t, m.flat, offs[k]) <= |m.flat|
  }

  function Kid(t: Codes, m: Image, offs: seq<nat>, k: nat, j: nat): int
    requires Inside(t, m, offs) && k < |offs| && j < Arity(t, m.flat, offs[k])
  {
    var w := Operand(m.flat, offs[k], j);
    if w == 0 then NULL else NodeIndex(m.bases, offs, w, 0)
  }

  /** The operands of the nodes of a heap, as node numbers. */
  function HeapKids(t: Codes, m: Image, offs: seq<nat>): (kids: Kids)
    requires Inside(t, m, offs)
    ensures |kids| == |offs| && forall k :: 0 <= k < |offs| ==> |kids[k]| == Arity(t, m.flat, offs[k])
    ensures forall k, j :: 0 <= k < |offs| && 0 <= j < |kids[k]| ==> kids[k][j] == Kid(t, m, offs, k, j)
  {
    seq(|offs|, k requires 0 <= k < |offs| =>
      seq(Arity(t, m.flat, offs[k]), j requires 0 <= j < Arity(t, m.flat, offs[k]) => Kid(t, m, offs, k, j)))
  }

  /** Operand `j` of node `a` holds the address of node `b`. */
  ghost predicate PointsTo(t: Codes, m: Image, offs: seq<nat>, a: nat, b: nat, j: nat)
    requires Inside(t, m, offs) && a < |offs| && b < |offs|
  {
    && j < Arity(t, m.flat, offs[a]) && offs[b] / BLOCK < |m.bases|
    && Operand(m.flat, offs[a], j) == Addr(m.bases, offs[b])
  }

  ghost predicate Leads(t: Codes, m: Image, offs: seq<nat>, a: nat, b: nat)
    requires Inside(t, m, offs) && a < |offs| && b < |offs|
  {
    exists j: nat :: PointsTo(t, m, offs, a, b, j)
  }

  ghost predicate HeapPath(t: Codes, m: Image, offs: seq<nat>, p: seq<nat>, a: nat, b: nat)
    requires Inside(t, m, offs)
  {
    && p != [] && p[0] == a && p[|p| - 1] == b && (forall i :: 0 <= i < |p| ==> p[i] < |offs|)
    && (forall i {:trigger p[i]} :: 0 < i < |p| ==> Leads(t, m, offs, p[i - 1], p[i]))
  }

  /** Node `b` can be reached from node `a` by following addresses in operands. */
  ghost predicate HeapReach(t: Codes, m: Image, offs: seq<nat>, a: nat, b: nat)
    requires Inside(t, m, offs)
  {
    exists p :: HeapPath(t, m, offs, p, a, b)
  }

  lemma HeapInside(t: Codes, m: Image, s: Image, offs: seq<nat>)
    requires Heap(t, m, s, offs)
    ensures Inside(t, m, offs)
  {
    forall k | 0 <= k < |offs| ensures offs[k] < |m.flat| && offs[k] + Size(t, m.flat, offs[k]) <= |m.flat| {
      assert NodeAt(t, m.flat, offs, m.len, k);
    }
  }

  /** Different nodes have different addresses. */
  lemma OneNode(t: Codes, m: Image, s: Image, offs: seq<nat>, k: nat, l: nat)
    requires Heap(t, m, s, offs) && k < |offs| && l < |offs|
    requires offs[k] / BLOCK < |m.bases| && offs[l] / BLOCK < |m.bases|
    requires Addr(m.bases, offs[k]) == Addr(m.bases, offs[l])
    ensures k == l
  {
    AddrInjective(m.bases, offs[k], offs[l]);
    if k < l {
      OffsMono(t, m.flat, offs, m.len, k, l);
    } else if l < k {
      OffsMono(t, m.flat, offs, m.len, l, k);
    }
  }

  lemma NodeAddress(m: Image, o: nat)
    requires ImageOk(m) && o / BLOCK < |m.bases|
    ensures Addr(m.bases, o) > 0
  {}

  lemma HeapImage(t: Codes, m: Image, s: Image, offs: seq<nat>)
    requires Heap(t, m, s, offs)
    ensures ImageOk(m)
  {}

  lemma KidIs(t: Codes, m: Image, s: Image, offs: seq<nat>, a: nat, b: nat, j: nat)
    requires Heap(t, m, s, offs) && Inside(t, m, offs) && a < |offs| && b < |offs| && PointsTo(t, m, offs, a, b, j)
    ensures j < Arity(t, m.flat, offs[a]) && Kid(t, m, offs, a, j) == b
  {
    hide Heap, CodesOk, Rd, ImageOk;
    HeapImage(t, m, s, offs);
    NodeAddress(m, offs[b]);
    OneNode(t, m, s, offs, NodeIndex(m.bases, offs, Operand(m.flat, offs[a], j), 0), b);
  }

  lemma IsKid(t: Codes, m: Image, offs: seq<nat>, a: nat, b: nat, j: nat)
    requires Inside(t, m, offs) && a < |offs| && b < |offs| && j < Arity(t, m.flat, offs[a])
    requires Kid(t, m, offs, a, j) == b
    ensures PointsTo(t, m, offs, a, b, j)
  {
    hide CodesOk, Rd;
  }

  /** The operand graph has an edge exactly where an operand holds the address of a node. */
  lemma LeadsKid(t: Codes, m: Image, s: Image, offs: seq<nat>, a: nat, b: nat)
    requires Heap(t, m, s, offs) && Inside(t, m, offs) && a < |offs| && b < |offs|
    ensures Leads(t, m, offs, a, b) <==> b in HeapKids(t, m, offs)[a]
  {
    hide Heap, Inside, PointsTo, Kid;
    var kids := HeapKids(t, m, offs);
    if Leads(t, m, offs, a, b) {
      var j: nat :| PointsTo(t, m, offs, a, b, j);
      KidIs(t, m, s, offs, a, b, j);
      assert kids[a][j] == b;
    }
    if b in kids[a] {
      var j :| 0 <= j < |kids[a]| && kids[a][j] == b;
      IsKid(t, m, offs, a, b, j);
    }
  }

  lemma SamePaths(t: Codes, m: Image, s: Image, offs: seq<nat>, p: seq<nat>, a: nat, b: nat)
    requires Heap(t, m, s, offs) && Inside(t, m, offs)
    ensures HeapPath(t, m, offs, p, a, b) <==> Path(HeapKids(t, m, offs), p, a, b)
  {
    hide Heap, Inside, Leads, HeapKids;
    forall i | 0 < i < |p| && p[i - 1] < |offs| && p[i] < |offs|
      ensures Leads(t, m, offs, p[i - 1], p[i]) <==> p[i] in HeapKids(t, m, offs)[p[i - 1]]
    {
      LeadsKid(t, m, s, offs, p[i - 1], p[i]);
    }
  }

  lemma HeapKidsOk(t: Codes, m: Image, offs: seq<nat>)
    requires Inside(t, m, offs)
    ensures KidsOk(HeapKids(t, m, offs))
  {}

  /** Marking a heap from a node marks exactly the nodes that can be reached by following addresses in operands. */
  method FlagHeap(t: Codes, m: Image, ghost s: Image, offs: seq<nat>, root: nat) returns (marks: array<bool>)
    requires Heap(t, m, s, offs) && root < |offs|
    ensures fresh(marks) && marks.Length == |offs| && Inside(t, m, offs)
    ensures forall k :: 0 <= k < |offs| ==> (marks[k] <==> HeapReach(t, m, offs, root, k))
  {
    hide Heap, Inside, HeapPath, Path;
    HeapInside(t, m, s, offs);
    HeapKidsOk(t, m, offs);
    marks := FlagReachable(HeapKids(t, m, offs), root);
    forall k | 0 <= k < |offs| ensures marks[k] <==> HeapReach(t, m, offs, root, k) {
      if marks[k] {
        var p :| Path(HeapKids(t, m, offs), p, root, k);
        SamePaths(t, m, s, offs, p, root, k);
      }
      if HeapReach(t, m, offs, root, k) {
        var p :| HeapPath(t, m, offs, p, root, k);
        SamePaths(t, m, s, offs, p, root, k);
      }
    }
  }
}
