/**
 Elements, the free list of lists, and bitmap heads: a sorted doubly linked list of blocks with a cached cursor.
 */
module Bitmaps {
  import opened Words
  import opened Cells

  class Element {
    var next: Element?
    var prev: Element?
    var indx: nat
    var bits: Block

    constructor ()
    {
      bits := ZERO;
    }
  }

  ghost function Elems(s: seq<Element>): set<Element> { set e | e in s }

  ghost predicate Distinct(s: seq<Element>)
  {
    forall i, j :: 0 <= i < j < |s| ==> s[i] != s[j]
  }

  ghost function Reverse(s: seq<Element>): seq<Element> { seq(|s|, i requires 0 <= i < |s| => s[|s| - 1 - i]) }

  ghost predicate Chained(list: seq<Element>, i: nat)
    requires i < |list|
    reads list[i]
  {
    list[i].next == if i + 1 == |list| then null else list[i + 1]
  }

  ghost predicate Linked(stack: seq<Element>, base: seq<nat>, p: nat)
    requires |base| == |stack| && p < |stack| && base[p] <= p
    reads stack[p]
  {
    && stack[p].next == (if base[p] == p then null else stack[p - 1])
    && (base[p] < p ==> base[p - 1] == base[p])
    && (p + 1 == |stack| || base[p + 1] == p + 1 ==>
          stack[p].prev == if base[p] == 0 then null else stack[base[p] - 1])
  }

  /**
   The free list is a list of lists: `prev` joins the lists, `next` joins the members of one.
   `stack` holds the free elements in the order they will be handed out, last one first, and
   `base[p]` is where the list that owns position `p` starts.
   */
  class Obstack {
    var elements: Element?
    ghost var stack: seq<Element>
    ghost var base: seq<nat>
    ghost var created: set<Element>

    ghost predicate Valid()
      reads this, stack
    {
      && |base| == |stack|
      && (forall p :: 0 <= p < |stack| ==> stack[p] in created)
      && Distinct(stack)
      && elements == (if stack == [] then null else stack[|stack| - 1])
      && (forall p :: 0 <= p < |base| ==> base[p] <= p)
      && (forall p {:trigger Linked(stack, base, p)} :: 0 <= p < |stack| ==> Linked(stack, base, p))
    }

    constructor ()
      ensures Valid() && created == {} && stack == []
    {
      elements, stack, base, created := null, [], [], {};
    }

    /** Unlink the first free element, using up its inner list before the next outer one. */
    method Take() returns (element: Element)
      requires Valid() && stack != []
      modifies this, stack
      ensures Valid() && created == old(created)
      ensures element == old(stack)[|old(stack)| - 1] && stack == old(stack)[..|old(stack)| - 1]
    {
      ghost var p := |stack| - 1;
      element := elements;
      assert Linked(stack, base, p);
      if element.next != null {
        assert Linked(stack, base, p - 1);
        elements := element.next;
        elements.prev := element.prev;
      } else {
        elements := element.prev;
      }
      stack, base := stack[..p], base[..p];
      forall q | 0 <= q < p ensures Linked(stack, base, q) {
        assert old(Linked(stack, base, q));
      }
    }

    method Allocate() returns (element: Element)
      requires Valid()
      modifies this, stack
      ensures Valid()
      ensures element.bits == ZERO && element !in stack
      ensures if old(stack) == [] then fresh(element) && stack == []
              else element == old(stack)[|old(stack)| - 1] && stack == old(stack)[..|old(stack)| - 1]
      ensures created == old(created) + {element}
    {
      if elements != null {
        element := Take();
      } else {
        element := new Element();
        created := created + {element};
      }
      label L:
      element.bits := ZERO;
      assert forall q :: 0 <= q < |stack| ==> old@L(Linked(stack, base, q));
    }

    /** Put the whole chain `list`, which starts at `elt`, onto the free list in one operation. */
    method Give(elt: Element, ghost list: seq<Element>)
      requires Valid() && list != [] && list[0] == elt && Distinct(list)
      requires forall i :: 0 <= i < |list| ==> list[i] in created && list[i] !in stack
      requires forall i :: 0 <= i < |list| ==> Chained(list, i)
      modifies this, elt`prev
      ensures Valid() && created == old(created)
      ensures stack == old(stack) + Reverse(list)
    {
      elt.prev := elements;
      elements := elt;
      ghost var n := |stack|;
      ghost var stack', base' := stack + Reverse(list), base + seq(|list|, i => n);
      stack, base := stack', base';
      forall p | 0 <= p < |stack'| ensures Linked(stack', base', p) {
        if p < n {
          assert old(Linked(stack, base, p));
        } else {
          assert stack'[p] == list[n + |list| - 1 - p];
          assert old(Chained(list, n + |list| - 1 - p));
        }
      }
    }
  }

  /** Element `i` of a bitmap list: its links and its contents. */
  ghost predicate Node(elts: seq<Element>, cells: seq<Cell>, i: nat)
    requires i < |elts| == |cells|
    reads elts[i]
  {
    && elts[i].next == (if i + 1 < |elts| then elts[i + 1] else null)
    && elts[i].prev == (if i > 0 then elts[i - 1] else null)
    && elts[i].indx == cells[i].indx
    && elts[i].bits == cells[i].bits
  }

  ghost function Drop<T>(s: seq<T>, k: nat): seq<T>
    requires k < |s|
  {
    s[..k] + s[k + 1..]
  }

  ghost function Insert<T>(s: seq<T>, k: nat, x: T): seq<T>
    requires k <= |s|
  {
    s[..k] + [x] + s[k..]
  }

  lemma DistinctEdit(s: seq<Element>, k: nat, x: Element)
    requires Distinct(s) && k <= |s|
    ensures x !in s ==> Distinct(Insert(s, k, x))
    ensures k < |s| ==> Distinct(Drop(s, k))
  {}

  /** No element is lost and only new ones are added, from (pool, created) to (pool', created'). */
  ghost predicate Grew(pool: set<Element>, created: set<Element>, pool': set<Element>, created': set<Element>)
  {
    created <= created' && pool' == pool + (created' - created)
  }

  lemma ElemsDrop(s: seq<Element>, k: nat)
    requires k < |s|
    ensures Elems(Drop(s, k)) + {s[k]} == Elems(s)
  {
    assert s == s[..k] + [s[k]] + s[k + 1..];
  }

  lemma ElemsInsert(s: seq<Element>, k: nat, x: Element)
    requires k <= |s|
    ensures Elems(Insert(s, k, x)) == Elems(s) + {x}
  {
    assert s == s[..k] + s[k..];
  }

  lemma ElemsCut(s: seq<Element>, k: nat)
    requires k <= |s|
    ensures Elems(s[..k]) + Elems(Reverse(s[k..])) == Elems(s)
  {
    var t, r := s[k..], Reverse(s[k..]);
    assert s == s[..k] + t;
    assert forall i :: 0 <= i < |t| ==> t[i] == r[|t| - 1 - i];
  }

  lemma CanonicalInsert(s: seq<Cell>, k: nat, c: Cell)
    requires Canonical(s) && k <= |s| && c.bits != ZERO
    requires k > 0 ==> s[k - 1].indx < c.indx
    requires k < |s| ==> c.indx < s[k].indx
    ensures Canonical(Insert(s, k, c))
  {
    var r := Insert(s, k, c);
    forall i, j | 0 <= i < j < |r| ensures r[i].indx < r[j].indx {
      assert i < k ==> r[i] == s[i] && s[i].indx < c.indx;
      assert j > k ==> r[j] == s[j - 1] && c.indx < s[j - 1].indx;
    }
  }

  class Head {
    var first: Element?
    var current: Element?
    var indx: nat
    const obstack: Obstack
    ghost var elts: seq<Element>
    ghost var cells: seq<Cell>

    /** The doubly linked list holds exactly `cells`, in order. */
    ghost predicate Chain()
      reads this`first, this`elts, this`cells, elts
    {
      && |cells| == |elts|
      && Distinct(elts)
      && first == (if elts == [] then null else elts[0])
      && (forall i {:trigger Node(elts, cells, i)} :: 0 <= i < |elts| ==> Node(elts, cells, i))
    }

    /** The elements are live: created by the obstack and not on its free list. */
    ghost predicate Live()
      reads this`elts, obstack, obstack.stack
    {
      && obstack.Valid()
      && (forall i :: 0 <= i < |elts| ==> elts[i] in obstack.created && elts[i] !in obstack.stack)
    }

    ghost predicate Listed()
      reads this`first, this`elts, this`cells, elts, obstack, obstack.stack
    {
      Chain() && Live()
    }

    /** The cached cursor names an element of the list and its index. */
    ghost predicate CursorOk()
      reads this`current, this`indx, this`elts, current
    {
      && (current == null <==> elts == [])
      && (current != null ==> current in elts && indx == current.indx)
    }

    ghost predicate Valid()
      reads this, elts, obstack, obstack.stack, current
    {
      Listed() && CursorOk() && Canonical(cells)
    }

    constructor (obstack: Obstack)
      requires obstack.Valid()
      ensures Valid() && this.obstack == obstack && cells == [] && elts == []
    {
      first, current := null, null;
      this.obstack := obstack;
      elts, cells := [], [];
    }

    /** Elements in this bitmap or free. */
    ghost function Pool(): set<Element>
      reads this`elts, obstack`stack
    {
      Elems(elts) + Elems(obstack.stack)
    }

    lemma DropAt(s: seq<Element>, k: nat, i: nat)
      requires k < |s| && i < |s| - 1
      ensures var r := Drop(s, k);
              && |r| == |s| - 1
              && r[i] == s[if i < k then i else i + 1]
              && (i + 1 < |r| ==> r[i + 1] == s[if i + 1 < k then i + 1 else i + 2])
              && (i > 0 ==> r[i - 1] == s[if i - 1 < k then i - 1 else i])
    {}

    /** Make the neighbours of an element point past it. */
    method Unlink(elt: Element, ghost k: nat)
      requires Chain()
      requires k < |elts| && elts[k] == elt
      modifies this`first, this`elts, this`cells, elts`next, elts`prev
      ensures Chain()
      ensures elts == Drop(old(elts), k) && cells == Drop(old(cells), k)
      ensures elt.next == old(elt.next) && elt.prev == old(elt.prev)
    {
      DistinctEdit(elts, k, elt);
      assert Node(elts, cells, k);
      if elt.prev != null {
        elt.prev.next := elt.next;
      }
      if elt.next != null {
        elt.next.prev := elt.prev;
      }
      if first == elt {
        first := elt.next;
      }
      elts, cells := Drop(elts, k), Drop(cells, k);
      forall i | 0 <= i < |elts| ensures Node(elts, cells, i) {
        ghost var j := if i < k then i else i + 1;
        DropAt(old(elts), k, i);
        assert old(Node(elts, cells, j));
      }
    }

    lemma CursorAfterDrop(s: seq<Element>, k: nat, e: Element)
      requires k < |s| && Distinct(s)
      ensures e in s && e != s[k] ==> e in Drop(s, k)
      ensures k + 1 < |s| ==> s[k + 1] in Drop(s, k)
      ensures k > 0 ==> s[k - 1] in Drop(s, k)
      ensures s[k] !in Drop(s, k)
    {
      if k + 1 < |s| { assert Drop(s, k)[k] == s[k + 1]; }
      if k > 0 { assert Drop(s, k)[k - 1] == s[k - 1]; }
      if e in s && e != s[k] {
        var i :| 0 <= i < |s| && s[i] == e;
        assert Drop(s, k)[if i < k then i else i - 1] == e;
      }
    }

    /** Unlink an element and move the cursor off it, to the next element in preference to the previous. */
    method Detach(elt: Element, ghost k: nat)
      requires Chain() && CursorOk()
      requires k < |elts| && elts[k] == elt
      modifies this, elts`next, elts`prev
      ensures Chain() && CursorOk()
      ensures elts == Drop(old(elts), k) && cells == Drop(old(cells), k)
    {
      assert Node(elts, cells, k);
      CursorAfterDrop(elts, k, current);
      Unlink(elt, k);
      if current == elt {
        current := if elt.next != null then elt.next else elt.prev;
        indx := if current != null then current.indx else 0;
      }
    }

    lemma OnlyOnce(k: nat)
      requires Chain() && k < |elts|
      ensures elts[k] !in Drop(elts, k)
    {}

    /** bitmap_element_free: detach one element and give it back. */
    method Free(elt: Element, ghost k: nat)
      requires Listed() && CursorOk()
      requires k < |elts| && elts[k] == elt
      modifies this, elts`next, elts`prev, obstack
      ensures Listed() && CursorOk()
      ensures elts == Drop(old(elts), k) && cells == Drop(old(cells), k)
      ensures Pool() == old(Pool()) && obstack.created == old(obstack.created)
    {
      hide Chain, Obstack.Valid;
      OnlyOnce(k);
      Detach(elt, k);
      elt.next := null;
      obstack.Give(elt, [elt]);
      ElemsDrop(old(elts), k);
    }

    /** Cut the list before element `k` and pull a cursor that compares above the cut back to it. */
    method Cut(elt: Element, ghost k: nat)
      requires Chain() && current != null
      requires k < |elts| && elts[k] == elt
      modifies this, elts`next
      ensures Chain()
      ensures elts == old(elts)[..k] && cells == old(cells)[..k]
      ensures forall i :: 0 <= i < |old(elts)| - k ==> old(Chained(elts[k..], i)) ==> Chained(old(elts)[k..], i)
      ensures k == 0 ==> current == null && indx == 0
      ensures k > 0 ==> if old(current.indx) > cells[k - 1].indx
                        then current == elts[k - 1] && indx == cells[k - 1].indx
                        else current == old(current) && indx == old(indx)
    {
      assert Node(elts, cells, k);
      var prev := elt.prev;
      if prev != null {
        assert Node(elts, cells, k - 1);
        prev.next := null;
        if current.indx > prev.indx {
          current := prev;
          indx := prev.indx;
        }
      } else {
        first := null;
        current := null;
        indx := 0;
      }
      elts, cells := elts[..k], cells[..k];
      forall i | 0 <= i < |elts| ensures Node(elts, cells, i) {
        assert old(Node(elts, cells, i));
      }
    }

    /** bitmap_elt_clear_from: cut the list before element `k` and give the rest back in one operation. */
    method ClearFrom(elt: Element, ghost k: nat)
      requires Listed() && current != null
      requires k < |elts| && elts[k] == elt
      modifies this, elts`next, elts`prev, obstack
      ensures Listed()
      ensures elts == old(elts)[..k] && cells == old(cells)[..k]
      ensures Pool() == old(Pool()) && obstack.created == old(obstack.created)
      ensures k == 0 ==> current == null && indx == 0
      ensures k > 0 ==> if old(current.indx) > cells[k - 1].indx
                        then current == elts[k - 1] && indx == cells[k - 1].indx
                        else current == old(current) && indx == old(indx)
      ensures forall i :: k <= i < |old(elts)| ==> old(elts)[i].next == old(elts[i].next)
    {
      ghost var tail := elts[k..];
      Cut(elt, k);
      forall i | 0 <= i < |tail| ensures Chained(tail, i) {
        assert old(Node(elts, cells, k + i));
      }
      forall i | k <= i < |old(elts)| ensures old(elts)[i].next == old(elts[i].next) {
        assert tail[i - k] == old(elts)[i] && Chained(tail, i - k) && old(Node(elts, cells, i));
      }
      obstack.Give(elt, tail);
      ElemsCut(old(elts), k);
    }

    /** Link `node` in front of the list. */
    method AttachFirst(node: Element, ghost c: Cell)
      requires Chain() && node !in elts && node.indx == c.indx && node.bits == c.bits
      modifies this`first, this`elts, this`cells, elts`next, elts`prev, node`next, node`prev
      ensures Chain()
      ensures elts == [node] + old(elts) && cells == [c] + old(cells)
    {
      node.next := first;
      if node.next != null {
        node.next.prev := node;
      }
      first := node;
      node.prev := null;
      elts, cells := [node] + elts, [c] + cells;
      forall i | 0 <= i < |elts| ensures Node(elts, cells, i) {
        if i != 0 {
          assert elts[i] == old(elts)[i - 1];
          assert old(Node(elts, cells, i - 1));
        }
      }
    }

    /** Link `node` right after `prev`, the element before position `k`. */
    method AttachAfter(prev: Element, node: Element, ghost k: nat, ghost c: Cell)
      requires Chain() && node !in elts && node.indx == c.indx && node.bits == c.bits
      requires 0 < k <= |elts| && prev == elts[k - 1]
      modifies this`elts, this`cells, elts`next, elts`prev, node`next, node`prev
      ensures Chain()
      ensures elts == Insert(old(elts), k, node) && cells == Insert(old(cells), k, c)
    {
      assert Node(elts, cells, k - 1);
      node.next := prev.next;
      if node.next != null {
        node.next.prev := node;
      }
      prev.next := node;
      node.prev := prev;
      elts, cells := Insert(elts, k, node), Insert(cells, k, c);
      forall i | 0 <= i < |elts| ensures Node(elts, cells, i) {
        if i != k {
          ghost var j := if i < k then i else i - 1;
          assert elts[i] == old(elts)[j];
          assert old(Node(elts, cells, j));
        }
      }
    }

    /**
     A cursor left on an element that was given back, the last one of its list: where a three-operand operation can
     leave it.
     */
    ghost predicate Stray()
      reads this`current, this`indx, this`elts, current
    {
      current != null && current !in elts && current.next == null && indx == current.indx
    }

    /**
     Walk forward to the first element whose index is not below `ix`, or to the last one: in the list from position
     `k0`, or from an element without a successor.
     */
    method Forward(from: Element, ix: nat, ghost k0: nat) returns (e: Element, ghost k: nat)
      requires from.next == null || (Chain() && k0 < |elts| && elts[k0] == from)
      ensures old(from.next) == null ==> e == from && k == k0
      ensures Chain() && k0 < |elts| && elts[k0] == from ==>
                && k0 <= k < |elts| == |cells| && e == elts[k] && e.indx == cells[k].indx
                && (forall i :: k0 <= i < k ==> cells[i].indx < ix)
                && (cells[k].indx < ix ==> k + 1 == |elts|)
    {
      e, k := from, k0;
      ghost var listed := Chain() && k0 < |elts| && elts[k0] == from;
      assert listed ==> Node(elts, cells, k);
      while e.next != null && e.indx < ix
        invariant !listed ==> e == from && k == k0 && e.next == null
        invariant listed ==> k0 <= k < |elts| == |cells| && e == elts[k] && Node(elts, cells, k)
        invariant listed ==> forall i :: k0 <= i < k ==> cells[i].indx < ix
        invariant from.next == null ==> e == from && k == k0
        decreases if listed then |elts| - k else 0
      {
        assert Node(elts, cells, k + 1);
        e, k := e.next, k + 1;
      }
    }

    /** Walk backward to the first element whose index is not above `ix`, or to the first one. */
    method Backward(from: Element, ix: nat, ghost k0: nat) returns (e: Element, ghost k: nat)
      requires Chain() && Sorted(cells) && k0 < |elts| && elts[k0] == from
      ensures k <= k0 && e == elts[k] && e.indx == cells[k].indx
      ensures forall i :: k < i <= k0 ==> ix < cells[i].indx
      ensures ix < cells[k].indx ==> k == 0
    {
      e, k := from, k0;
      assert Node(elts, cells, k);
      while e.prev != null && e.indx > ix
        invariant k <= k0 && e == elts[k] && Node(elts, cells, k)
        invariant forall i :: k < i <= k0 ==> ix < cells[i].indx
        decreases k
      {
        assert Node(elts, cells, k - 1);
        e, k := e.prev, k - 1;
      }
    }

    /** Position `k` is where index `ix` is, or next to where it would be. */
    ghost predicate Nearest(ix: nat, k: nat)
      requires k < |cells|
      reads this`cells
    {
      && (cells[k].indx < ix ==> k + 1 == |cells| || ix < cells[k + 1].indx)
      && (cells[k].indx > ix ==> k == 0 || cells[k - 1].indx < ix)
    }

    lemma NearestDecides(ix: nat, k: nat)
      requires Sorted(cells) && k < |cells| && Nearest(ix, k) && cells[k].indx != ix
      ensures forall i :: 0 <= i < |cells| ==> cells[i].indx != ix
    {}

    /** The three search directions: from the cursor forward or backward, or from the start. */
    method Search(ix: nat) returns (e: Element, ghost k: nat)
      requires Chain() && Sorted(cells) && if CursorOk() then elts != [] else Stray() && indx < ix
      ensures CursorOk() ==> k < |elts| == |cells| && e == elts[k] && e.indx == cells[k].indx && Nearest(ix, k)
      ensures !CursorOk() ==> e == current
    {
      if CursorOk() {
        k :| 0 <= k < |elts| && elts[k] == current;
        assert Node(elts, cells, k);
      } else {
        k := 0;
      }
      if indx < ix {
        e, k := Forward(current, ix, k);
      } else if indx / 2 < ix {
        e, k := Backward(current, ix, k);
      } else {
        e, k := Forward(first, ix, 0);
      }
    }

    /**
     bitmap_find_bit: the element that holds `bit`, or null. The cursor moves to the nearest
     element, position `k`. From a stray cursor nothing above its index is found, whatever the list holds.
     */
    method FindBit(bit: nat) returns (element: Element?, ghost k: nat)
      requires Valid() || (Listed() && Canonical(cells) && Stray() && indx < Index(bit))
      modifies this`current, this`indx
      ensures old(Valid()) ==> Valid()
      ensures old(Valid()) && elts != [] ==> k < |elts| == |cells| && current == elts[k] && Nearest(Index(bit), k)
      ensures old(Valid()) && element != null ==>
                elts != [] && element == current && k < |cells| && cells[k].indx == Index(bit)
      ensures old(Valid()) && element == null ==> forall i :: 0 <= i < |cells| ==> cells[i].indx != Index(bit)
      ensures !old(Valid()) ==> element == null && current == old(current) && indx == old(indx)
    {
      var ix := Index(bit);
      if current == null {
        return null, 0;
      }
      if indx == ix {
        assert CursorOk();
        element := current;
        k :| 0 <= k < |elts| && elts[k] == current;
        assert Node(elts, cells, k);
        return;
      }
      element, k := Search(ix);
      current := element;
      indx := element.indx;
      if element.indx != ix {
        if old(Valid()) {
          NearestDecides(ix, k);
        }
        element := null;
      }
    }

    /** The walk of bitmap_element_link: the element the new index follows, null for none. */
    method Predecessor(ix: nat) returns (prev: Element?, ghost k: nat)
      requires Chain() && CursorOk() && Sorted(cells) && elts != []
      requires forall i :: 0 <= i < |cells| ==> cells[i].indx != ix
      ensures k <= |elts| && prev == (if k == 0 then null else elts[k - 1])
      ensures k > 0 ==> cells[k - 1].indx < ix
      ensures k < |elts| ==> ix < cells[k].indx
    {
      var ptr := current;
      k :| 0 <= k < |elts| && elts[k] == ptr;
      assert Node(elts, cells, k);
      if ix < indx {
        while ptr.prev != null && ptr.prev.indx > ix
          invariant k < |elts| && ptr == elts[k] && Node(elts, cells, k) && ix < cells[k].indx
          decreases k
        {
          assert Node(elts, cells, k - 1);
          ptr, k := ptr.prev, k - 1;
        }
        assert k > 0 ==> Node(elts, cells, k - 1);
        prev := ptr.prev;
      } else {
        while ptr.next != null && ptr.next.indx < ix
          invariant k < |elts| && ptr == elts[k] && Node(elts, cells, k) && cells[k].indx < ix
          decreases |elts| - k
        {
          assert Node(elts, cells, k + 1);
          ptr, k := ptr.next, k + 1;
        }
        assert k + 1 < |elts| ==> Node(elts, cells, k + 1);
        prev, k := ptr, k + 1;
      }
    }

    /** Link a new block where its index belongs. */
    method LinkSorted(element: Element, ghost c: Cell) returns (ghost k: nat)
      requires Chain() && CursorOk() && Canonical(cells) && element !in elts
      requires element.indx == c.indx && element.bits == c.bits != ZERO
      requires forall i :: 0 <= i < |cells| ==> cells[i].indx != c.indx
      modifies this`first, this`elts, this`cells, elts`next, elts`prev, element`next, element`prev
      ensures Chain() && Canonical(cells)
      ensures k <= |old(elts)| && elts == Insert(old(elts), k, element) && cells == Insert(old(cells), k, c)
    {
      if first == null {
        k := 0;
        AttachFirst(element, c);
      } else {
        var prev;
        prev, k := Predecessor(element.indx);
        CanonicalInsert(cells, k, c);
        if prev != null {
          AttachAfter(prev, element, k, c);
        } else {
          AttachFirst(element, c);
        }
      }
    }

    /** bitmap_element_link: link a new block and make it the first element searched. */
    method Link(element: Element, ghost c: Cell) returns (ghost k: nat)
      requires Valid() && element !in elts && element !in obstack.stack && element in obstack.created
      requires element.indx == c.indx && element.bits == c.bits != ZERO
      requires forall i :: 0 <= i < |cells| ==> cells[i].indx != c.indx
      modifies this, elts`next, elts`prev, element`next, element`prev
      ensures Valid()
      ensures k <= |old(elts)| && Elems(elts) == Elems(old(elts)) + {element} && cells == Insert(old(cells), k, c)
      ensures current == element
    {
      k := LinkSorted(element, c);
      ElemsInsert(old(elts), k, element);
      current := element;
      indx := element.indx;
      assert elts[k] == element;
    }

    /** A new element of this bitmap's obstack. */
    method NewElement(ix: nat, bits: Block) returns (node: Element)
      requires Listed()
      modifies obstack, obstack.stack
      ensures Listed() && node !in elts && node !in obstack.stack && node in obstack.created
      ensures node.indx == ix && node.bits == bits
      ensures node in old(obstack.stack) || fresh(node)
      ensures Elems(obstack.stack) == Elems(old(obstack.stack)) - {node}
      ensures obstack.created == old(obstack.created) + {node}
    {
      node := obstack.Allocate();
      node.indx := ix;
      node.bits := bits;
      forall i | 0 <= i < |elts| ensures Node(elts, cells, i) {
        assert old(Node(elts, cells, i));
      }
    }

    /** Link `node` after `prev`, or in front for null. */
    method Attach(prev: Element?, node: Element, ghost k: nat, ghost c: Cell)
      requires Chain() && node !in elts && node.indx == c.indx && node.bits == c.bits
      requires k <= |elts| && prev == (if k == 0 then null else elts[k - 1])
      modifies this`first, this`elts, this`cells, elts`next, elts`prev, node`next, node`prev
      ensures Chain()
      ensures elts == Insert(old(elts), k, node) && cells == Insert(old(cells), k, c)
    {
      if prev == null {
        AttachFirst(node, c);
      } else {
        AttachAfter(prev, node, k, c);
      }
    }

    lemma ListedFacts()
      requires Listed()
      ensures |cells| == |elts| && forall e :: e in obstack.stack ==> e in obstack.created
    {}

    /** bitmap_elt_insert_after: a new element after `elt`, or in front for null. */
    method InsertAfter(elt: Element?, ix: nat, bits: Block, ghost k: nat) returns (node: Element)
      requires Listed() && (current == null <==> elts == [])
      requires k <= |elts| && elt == (if k == 0 then null else elts[k - 1])
      modifies this, elts`next, elts`prev, obstack, obstack.stack
      ensures Listed() && current != null
      ensures elts == Insert(old(elts), k, node) && cells == Insert(old(cells), k, Cell(ix, bits))
      ensures if old(current) == null then current == node && indx == ix
                else current == old(current) && indx == old(indx)
      ensures old(CursorOk()) ==> CursorOk()
      ensures Grew(old(Pool()), old(obstack.created), Pool(), obstack.created)
      ensures fresh(obstack.created - old(obstack.created))
    {
      hide Chain, Obstack.Valid;
      ListedFacts();
      node := NewElement(ix, bits);
      Attach(elt, node, k, Cell(ix, bits));
      ElemsInsert(old(elts), k, node);
      if current == null {
        current := node;
        indx := ix;
      }
      assert elts[k] == node && (current in old(elts) ==> current in Elems(elts));
    }

    /** Overwrite the index and the words of one element. */
    method Store(e: Element, ix: nat, bits: Block, ghost k: nat)
      requires Listed() && k < |elts| && elts[k] == e
      modifies this`cells, e`indx, e`bits
      ensures Listed() && cells == old(cells)[k := Cell(ix, bits)]
      ensures ix == old(e.indx) && old(CursorOk()) ==> CursorOk()
    {
      e.indx := ix;
      e.bits := bits;
      cells := cells[k := Cell(ix, bits)];
      forall i | 0 <= i < |elts| ensures Node(elts, cells, i) {
        assert old(Node(elts, cells, i));
      }
    }
  }

  /** Elements of `h` and free elements are neither lost nor invented; only new ones are added. */
  twostate predicate Conserves(h: Head)
    reads h, h.obstack
  {
    && Grew(old(h.Pool()), old(h.obstack.created), h.Pool(), h.obstack.created)
    && (forall e :: e in h.obstack.created ==> e in old(h.obstack.created) || fresh(e))
    && (forall e :: e in h.Pool() ==> e in old(h.Pool()) || fresh(e))
  }

  lemma GrewTrans(p: set<Element>, c: set<Element>, p1: set<Element>, c1: set<Element>, p2: set<Element>,
                  c2: set<Element>)
    requires Grew(p, c, p1, c1) && Grew(p1, c1, p2, c2)
    ensures Grew(p, c, p2, c2)
  {}

  lemma CanonicalEdit(s: seq<Cell>, k: nat, b: Block)
    requires Canonical(s) && k < |s|
    ensures Canonical(Drop(s, k))
    ensures b != ZERO ==> Canonical(s[k := Cell(s[k].indx, b)])
  {}

  /** `b` can be read while `a` changes. */
  ghost predicate Apart(a: Head, b: Head)
    reads a, b, a.obstack
  {
    a != b && forall i :: 0 <= i < |b.elts| ==> b.elts[i] !in a.Pool()
  }

  ghost predicate Source(b: Head)
    reads b, b.elts
  {
    b.Chain() && Canonical(b.cells)
  }

  ghost function At(s: seq<Element>, i: nat): Element?
    requires i <= |s|
  {
    if i < |s| then s[i] else null
  }

  ghost function PrevAt(s: seq<Element>, i: nat): Element?
  {
    if 0 < i <= |s| then s[i - 1] else null
  }

  lemma Same(p: set<Element>, c: set<Element>)
    ensures Grew(p, c, p, c)
  {}
}
