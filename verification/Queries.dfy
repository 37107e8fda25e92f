/** The operations that only read: equality and the intersection tests. */
module Queries {
  import opened Words
  import opened Cells
  import opened Bitmaps

  lemma NonemptyMembers(s: seq<Cell>)
    requires Canonical(s)
    ensures s == [] <==> Members(s) == {}
  {
    if s != [] {
      var n := FirstMember(s);
      MembersHas(s, n);
    }
  }

  /** bitmap_equal_p. */
  method EqualP(a: Head, b: Head) returns (r: bool)
    requires Source(a) && Source(b)
    ensures r <==> Members(a.cells) == Members(b.cells)
  {
    hide Members, Distinct, Canonical;
    MembersDetermine(a.cells, b.cells);
    var aElt, bElt := a.first, b.first;
    ghost var k := 0;
    while aElt != null && bElt != null
      invariant k <= |a.elts| && k <= |b.elts| && aElt == At(a.elts, k) && bElt == At(b.elts, k)
      invariant a.cells[..k] == b.cells[..k]
      decreases |a.elts| - k
    {
      assert Node(a.elts, a.cells, k) && Node(b.elts, b.cells, k);
      if aElt.indx != bElt.indx {
        return false;
      }
      var ix := ELEMENT_WORDS;
      while ix > 0
        invariant 0 <= ix <= ELEMENT_WORDS
        invariant forall n :: ix <= n < ELEMENT_WORDS ==> aElt.bits[n] == bElt.bits[n]
      {
        ix := ix - 1;
        if aElt.bits[ix] != bElt.bits[ix] {
          return false;
        }
      }
      assert aElt.bits == bElt.bits;
      aElt, bElt, k := aElt.next, bElt.next, k + 1;
    }
    return aElt == null && bElt == null;
  }

  /** The word loop of the intersection tests: does `x op y` have a bit? */
  method AnyWord(op: BoolOp, x: Block, y: Block) returns (r: bool)
    ensures r <==> BlockOp(op, x, y) != ZERO
  {
    var ix := ELEMENT_WORDS;
    while ix > 0
      invariant 0 <= ix <= ELEMENT_WORDS
      invariant forall n :: ix <= n < ELEMENT_WORDS ==> WordOp(op, x[n], y[n]) == 0
    {
      ix := ix - 1;
      if WordOp(op, x[ix], y[ix]) != 0 {
        return true;
      }
    }
    return false;
  }

  /** bitmap_intersect_p. */
  method IntersectP(a: Head, b: Head) returns (r: bool)
    requires Source(a) && Source(b)
    ensures r <==> Members(a.cells) * Members(b.cells) != {}
  {
    hide Members, Distinct, Canonical, Merge, BlockOp;
    ghost var m := Merge(And, a.cells, b.cells);
    MergeMembers(And, a.cells, b.cells);
    NonemptyMembers(m);
    var aElt, bElt := a.first, b.first;
    ghost var i, j := 0, 0;
    assert a.cells[0..] == a.cells && b.cells[0..] == b.cells;
    while aElt != null && bElt != null
      invariant i <= |a.elts| && j <= |b.elts| && aElt == At(a.elts, i) && bElt == At(b.elts, j)
      invariant Merging(And, [], a.cells[i..], b.cells[j..], m)
      decreases |a.elts| - i + |b.elts| - j
    {
      assert Node(a.elts, a.cells, i) && Node(b.elts, b.cells, j);
      assert a.cells[i..][1..] == a.cells[i + 1..] && b.cells[j..][1..] == b.cells[j + 1..];
      if aElt.indx < bElt.indx {
        StepLeft(And, [], a.cells[i..], b.cells[j..], m);
        aElt, i := aElt.next, i + 1;
      } else if bElt.indx < aElt.indx {
        StepRight(And, [], a.cells[i..], b.cells[j..], m);
        bElt, j := bElt.next, j + 1;
      } else {
        StepBoth(And, [], a.cells[i..], b.cells[j..], m);
        var any := AnyWord(And, aElt.bits, bElt.bits);
        if any {
          return true;
        }
        aElt, i := aElt.next, i + 1;
        bElt, j := bElt.next, j + 1;
      }
    }
    MergeRest(And, a.cells[i..]);
    MergeRest(And, b.cells[j..]);
    assert a.cells[i..] == [] || b.cells[j..] == [];
    return false;
  }

  /** bitmap_intersect_compl_p. */
  method IntersectComplP(a: Head, b: Head) returns (r: bool)
    requires Source(a) && Source(b)
    ensures r <==> Members(a.cells) - Members(b.cells) != {}
  {
    hide Members, Distinct, Canonical, Merge, BlockOp;
    ghost var m := Merge(AndCompl, a.cells, b.cells);
    MergeMembers(AndCompl, a.cells, b.cells);
    NonemptyMembers(m);
    var aElt, bElt := a.first, b.first;
    ghost var i, j := 0, 0;
    assert a.cells[0..] == a.cells && b.cells[0..] == b.cells;
    while aElt != null && bElt != null
      invariant i <= |a.elts| && j <= |b.elts| && aElt == At(a.elts, i) && bElt == At(b.elts, j)
      invariant Merging(AndCompl, [], a.cells[i..], b.cells[j..], m)
      decreases |a.elts| - i + |b.elts| - j
    {
      assert Node(a.elts, a.cells, i) && Node(b.elts, b.cells, j);
      assert a.cells[i..][1..] == a.cells[i + 1..] && b.cells[j..][1..] == b.cells[j + 1..];
      if aElt.indx < bElt.indx {
        StepLeft(AndCompl, [], a.cells[i..], b.cells[j..], m);
        return true;
      } else if bElt.indx < aElt.indx {
        StepRight(AndCompl, [], a.cells[i..], b.cells[j..], m);
        bElt, j := bElt.next, j + 1;
      } else {
        StepBoth(AndCompl, [], a.cells[i..], b.cells[j..], m);
        var any := AnyWord(AndCompl, aElt.bits, bElt.bits);
        if any {
          return true;
        }
        aElt, i := aElt.next, i + 1;
        bElt, j := bElt.next, j + 1;
      }
    }
    MergeRest(AndCompl, a.cells[i..]);
    MergeRest(AndCompl, b.cells[j..]);
    return aElt != null;
  }
}
