/**
 The round trip: a heap that is written and read back.
 */
module SpinRoundTrip {
  import opened Bytes
  import opened Mempool
  import opened SpinHeap
  import opened SpinWrite
  import opened SpinRead

  /** An operand leads to the counterpart of the node it led to. */
  ghost predicate SameOperand(m: Image, offs: seq<nat>, g: seq<Byte>, base: nat, o: nat, j: nat)
    requires o + 4 + 4 * j + 4 <= |g| && o + 4 + 4 * j + 4 <= |m.flat|
  {
    var w, v := Operand(m.flat, o, j), Operand(g, o, j);
    if w == 0 then v == 0
    else forall l :: 0 <= l < |offs| && offs[l] / BLOCK < |m.bases| && Addr(m.bases, offs[l]) == w ==>
        v == base + offs[l]
  }

  /** A string node leads to the same bytes. */
  ghost predicate SameString(m: Image, s: Image, g: seq<Byte>, base: nat, o: nat)
    requires o + 8 <= |g| && o + 8 <= |m.flat|
  {
    var n, v := StrLen(m.flat, o), Operand(g, o, 0);
    && base <= v && v - base + n <= |g|
    && exists x: nat :: StringAt(s, Operand(m.flat, o, 0), n, x) && x + n <= |s.flat|
        && g[v - base..v - base + n] == s.flat[x..x + n]
  }

  /** Node `k` reads back with the same code, length, payload, string and sharing. */
  ghost predicate SameNode(t: Codes, m: Image, s: Image, offs: seq<nat>, g: seq<Byte>, base: nat, o: nat)
    requires CodesOk(t) && o < |m.flat| && o + Size(t, m.flat, o) <= |m.flat| && o + Size(t, m.flat, o) <= |g|
  {
    && Rd(g, o) == Rd(m.flat, o)
    && (forall j :: 0 <= j < Arity(t, m.flat, o) ==> SameOperand(m, offs, g, base, o, j))
    && (m.flat[o] == t.str ==> SameString(m, s, g, base, o))
    && (Arity(t, m.flat, o) == 0 && m.flat[o] != t.str ==>
        forall x :: o <= x < o + Size(t, m.flat, o) ==> g[x] == m.flat[x])
  }

  /** The memory at `base` is a copy of the heap, with node offset `o` at address `base + o`; the root is at `base`. */
  ghost predicate Isomorphic(t: Codes, m: Image, s: Image, offs: seq<nat>, g: seq<Byte>, base: nat)
    requires Nodes(t, m.flat, offs, m.len) && m.len <= |g|
  {
    forall k :: 0 <= k < |offs| ==> NodeAt(t, m.flat, offs, m.len, k) && SameNode(t, m, s, offs, g, base, offs[k])
  }

  ghost predicate NoRootAt(t: Codes, m: Image, o: nat)
    requires CodesOk(t) && o < |m.flat| && o + Size(t, m.flat, o) <= |m.flat|
  {
    forall j :: 0 <= j < Arity(t, m.flat, o) ==> m.bases == [] || Operand(m.flat, o, j) != Addr(m.bases, 0)
  }

  /** No operand leads to the root, whose offset reads back as null. */
  ghost predicate NoRootOperand(t: Codes, m: Image, offs: seq<nat>)
    requires Nodes(t, m.flat, offs, m.len)
  {
    forall k :: 0 <= k < |offs| && NodeAt(t, m.flat, offs, m.len, k) ==> NoRootAt(t, m, offs[k])
  }

  lemma OperandIs(m: Image, offs: seq<nat>, f: seq<Byte>, o: nat, j: nat, l: nat)
    requires ImageOk(m) && o + 4 + 4 * j + 4 <= |f| && o + 4 + 4 * j + 4 <= |m.flat| && OperandWritten(m, f, o, j)
    requires l < |offs| && offs[l] / BLOCK < |m.bases| && Addr(m.bases, offs[l]) == Operand(m.flat, o, j)
    requires Operand(m.flat, o, j) != 0
    ensures Operand(f, o, j) == offs[l]
  {
    AddrInjective(m.bases, Operand(f, o, j), offs[l]);
  }

  /** The operand survives exactly when it does not lead to the root. */
  lemma OperandTrip(m: Image, offs: seq<nat>, f: seq<Byte>, g: seq<Byte>, base: nat, o: nat, j: nat)
    requires ImageOk(m) && o + 4 + 4 * j + 4 <= |f| == |g| && o + 4 + 4 * j + 4 <= |m.flat|
    requires OperandWritten(m, f, o, j)
    requires Operand(m.flat, o, j) == 0 || IsNode(m.bases, offs, Operand(m.flat, o, j))
    requires Operand(g, o, j) == Relocated(base, Operand(f, o, j)) && base > 0 && m.bases != [] && offs != []
    requires offs[0] == 0
    ensures SameOperand(m, offs, g, base, o, j) <==> Operand(m.flat, o, j) != Addr(m.bases, 0)
  {
    hide Rd, Operand;
    var w := Operand(m.flat, o, j);
    if w != 0 {
      var l :| 0 <= l < |offs| && offs[l] / BLOCK < |m.bases| && Addr(m.bases, offs[l]) == w;
      OperandIs(m, offs, f, o, j, l);
      forall l' | 0 <= l' < |offs| && offs[l'] / BLOCK < |m.bases| && Addr(m.bases, offs[l']) == w
        ensures offs[l'] == offs[l] {
        AddrInjective(m.bases, offs[l], offs[l']);
      }
      if w == Addr(m.bases, 0) {
        AddrInjective(m.bases, offs[l], 0);
      }
    }
  }

  lemma StringTrip(m: Image, s: Image, f: seq<Byte>, g: seq<Byte>, base: nat, o: nat)
    requires ImageOk(s) && o + 8 <= |f| == |g| && o + 8 <= |m.flat| && m.len + s.len <= |f| && StringWritten(m, s, f, o)
    requires Operand(g, o, 0) == base + Operand(f, o, 0) && forall x :: m.len <= x < |f| ==> g[x] == f[x]
    ensures SameString(m, s, g, base, o)
  {
    hide Rd, Operand;
    var x := Operand(f, o, 0) - m.len;
    var n := StrLen(m.flat, o);
    assert StringAt(s, Operand(m.flat, o, 0), n, x);
    var a, b := g[m.len + x..m.len + x + n], s.flat[x..x + n];
    forall y | 0 <= y < n ensures a[y] == b[y] {
      assert f[m.len + (x + y)] == s.flat[x + y];
    }
  }

  lemma NodeTrip(t: Codes, m: Image, s: Image, offs: seq<nat>, f: seq<Byte>, g: seq<Byte>, base: nat, o: nat)
    requires CodesOk(t) && o < |m.flat| && o + Size(t, m.flat, o) <= |m.flat| && ImageOk(m) && ImageOk(s)
    requires PointersAt(t, m, s, offs, o)
    requires o < |f| == |g| && o + Size(t, f, o) <= |f| && m.len + s.len <= |f| && WrittenAt(t, m, s, f, o)
    requires ReadAt(t, f, g, base, o)
    requires base > 0 && m.bases != [] && offs != [] && offs[0] == 0 && forall x :: m.len <= x < |f| ==> g[x] == f[x]
    ensures SameNode(t, m, s, offs, g, base, o) <==> NoRootAt(t, m, o)
  {
    hide Rd, Operand, IsNode, IsString, ImageOk, OperandWritten, StringWritten, SameOperand, SameString;
    forall j | 0 <= j < Arity(t, m.flat, o)
      ensures SameOperand(m, offs, g, base, o, j) <==> Operand(m.flat, o, j) != Addr(m.bases, 0)
    {
      assert OperandWritten(m, f, o, j);
      OperandTrip(m, offs, f, g, base, o, j);
    }
    if m.flat[o] == t.str {
      StringTrip(m, s, f, g, base, o);
    }
  }

  /** The round trip gives an isomorphic heap exactly when no operand leads to the root. */
  lemma RoundTrip(t: Codes, m: Image, s: Image, offs: seq<nat>, f: seq<Byte>, g: seq<Byte>, base: nat)
    requires Heap(t, m, s, offs) && offs != [] && Written(t, m, s, offs, f)
    requires Readable(t, f, offs, m.len) && Reading(t, f, g, base, offs, m.len, |offs|) && base > 0
    ensures Isomorphic(t, m, s, offs, g, base) <==> NoRootOperand(t, m, offs)
  {
    hide Rd, PointersAt, WrittenAt, ReadAt, SameNode, NoRootAt, InRange;
    assert NodeAt(t, m.flat, offs, m.len, 0);
    forall k | 0 <= k < |offs|
      ensures NodeAt(t, m.flat, offs, m.len, k)
      ensures SameNode(t, m, s, offs, g, base, offs[k]) <==> NoRootAt(t, m, offs[k])
    {
      assert NodeAt(t, m.flat, offs, m.len, k) && NodeAt(t, f, offs, m.len, k);
      NodeTrip(t, m, s, offs, f, g, base, offs[k]);
    }
  }

  lemma WrittenInRange(t: Codes, m: Image, s: Image, offs: seq<nat>, f: seq<Byte>, o: nat)
    requires CodesOk(t) && o < |m.flat| && o + Size(t, m.flat, o) <= |m.flat| && ImageOk(m)
    requires PointersAt(t, m, s, offs, o)
    requires o < |f| && o + Size(t, f, o) <= |f| == m.len + s.len && WrittenAt(t, m, s, f, o)
    requires (forall k :: 0 <= k < |offs| ==> offs[k] < m.len) && m.len > 0
    ensures InRange(t, f, m.len, o)
  {
    hide Rd, Operand, ImageOk;
    forall j | 0 <= j < Arity(t, f, o) ensures Operand(f, o, j) < |f| {
      assert OperandWritten(m, f, o, j);
      if Operand(m.flat, o, j) != 0 {
        var l :| 0 <= l < |offs| && offs[l] / BLOCK < |m.bases| && Addr(m.bases, offs[l]) == Operand(m.flat, o, j);
        OperandIs(m, offs, f, o, j, l);
      }
    }
  }

  /** What gs_write produces is something gs_read can take. */
  lemma WrittenReadable(t: Codes, m: Image, s: Image, offs: seq<nat>, f: seq<Byte>)
    requires Heap(t, m, s, offs) && offs != [] && Written(t, m, s, offs, f)
    ensures Readable(t, f, offs, m.len)
  {
    hide Rd, PointersAt, WrittenAt, InRange;
    OffsBelow(t, m, offs);
    forall k | 0 <= k < |offs| ensures NodeAt(t, f, offs, m.len, k) && InRange(t, f, m.len, offs[k]) {
      assert NodeAt(t, m.flat, offs, m.len, k) && NodeAt(t, f, offs, m.len, k);
      WrittenInRange(t, m, s, offs, f, offs[k]);
    }
  }

  /** Node `k` is the lowest string node. */
  ghost predicate FirstString(t: Codes, m: Image, offs: seq<nat>, k: nat)
    requires k < |offs| && forall l :: 0 <= l < |offs| ==> offs[l] < |m.flat|
  {
    m.flat[offs[k]] == t.str && forall j :: 0 <= j < k ==> m.flat[offs[j]] != t.str
  }

  /** The string arena is empty or starts with the string of the lowest string node. */
  ghost predicate OwnsStart(t: Codes, m: Image, s: Image, offs: seq<nat>)
    requires Nodes(t, m.flat, offs, m.len) && forall l :: 0 <= l < |offs| ==> offs[l] < m.len
  {
    s.len == 0 || exists k :: 0 <= k < |offs| && FirstString(t, m, offs, k) && s.bases != []
                              && NodeAt(t, m.flat, offs, m.len, k) && Operand(m.flat, offs[k], 0) == Addr(s.bases, 0)
  }

  lemma CodesSame(t: Codes, m: Image, s: Image, offs: seq<nat>, f: seq<Byte>)
    requires Nodes(t, m.flat, offs, m.len) && Written(t, m, s, offs, f)
    requires forall l :: 0 <= l < |offs| ==> offs[l] < m.len
    ensures forall l :: 0 <= l < |offs| ==> f[offs[l]] == m.flat[offs[l]]
  {
    hide Rd, OperandWritten, StringWritten;
    forall l | 0 <= l < |offs| ensures f[offs[l]] == m.flat[offs[l]] {
      assert NodeAt(t, m.flat, offs, m.len, l) && WrittenAt(t, m, s, f, offs[l]);
    }
  }

  /** Until a string node is met, the string section is not found. */
  lemma {:induction false} SectionBefore(t: Codes, f: seq<Byte>, offs: seq<nat>, len: nat, i: nat)
    requires Readable(t, f, offs, len) && i <= |offs|
    requires forall l :: 0 <= l < i ==> offs[l] < |f| && f[offs[l]] != t.str
    ensures Section(t, f, offs, len, i) == WORD + |f|
  {
    hide Rd, Operand, NodeAt, InRange, CodesOk, Nodes;
    if i > 0 {
      SectionBefore(t, f, offs, len, i - 1);
    }
  }

  lemma {:induction false} SectionAfter(t: Codes, f: seq<Byte>, offs: seq<nat>, len: nat, i: nat, j: nat)
    requires Readable(t, f, offs, len) && i <= j <= |offs| && Section(t, f, offs, len, i) < |f|
    ensures Section(t, f, offs, len, j) == Section(t, f, offs, len, i)
  {
    hide Rd, Operand, NodeAt, InRange, CodesOk, Nodes;
    if i < j {
      SectionAfter(t, f, offs, len, i, j - 1);
    }
  }

  lemma SectionAt(t: Codes, f: seq<Byte>, offs: seq<nat>, len: nat, k: nat)
    requires Readable(t, f, offs, len) && k < |offs| && NodeAt(t, f, offs, len, k) && f[offs[k]] == t.str
    requires Section(t, f, offs, len, k) == WORD + |f|
    ensures Section(t, f, offs, len, k + 1) == Operand(f, offs[k], 0) < |f|
  {
    hide Rd;
    assert InRange(t, f, len, offs[k]);
  }

  /** The lowest string node decides where the string section is taken to start. */
  lemma SectionFirst(t: Codes, f: seq<Byte>, offs: seq<nat>, len: nat, k: nat)
    requires Readable(t, f, offs, len) && k < |offs| && NodeAt(t, f, offs, len, k) && f[offs[k]] == t.str
    requires forall l :: 0 <= l < k ==> offs[l] < |f| && f[offs[l]] != t.str
    ensures Section(t, f, offs, len, |offs|) == Operand(f, offs[k], 0)
  {
    hide Rd, Operand, NodeAt, InRange, CodesOk, Section;
    SectionBefore(t, f, offs, len, k);
    SectionAt(t, f, offs, len, k);
    SectionAfter(t, f, offs, len, k + 1, |offs|);
  }

  /** The string of the lowest string node `k` is at offset `x` of the string arena. */
  ghost predicate StartsAt(t: Codes, m: Image, s: Image, offs: seq<nat>, k: nat, x: nat)
    requires Nodes(t, m.flat, offs, m.len) && forall l :: 0 <= l < |offs| ==> offs[l] < m.len
  {
    && k < |offs| && FirstString(t, m, offs, k) && NodeAt(t, m.flat, offs, m.len, k)
    && StringAt(s, Operand(m.flat, offs[k], 0), StrLen(m.flat, offs[k]), x)
  }

  /** A word-aligned byte `y` of the string arena belongs to no string node or is zero. */
  ghost predicate QuietAt(t: Codes, m: Image, s: Image, offs: seq<nat>, y: nat)
    requires Nodes(t, m.flat, offs, m.len)
  {
    y % 4 == 0 && Covered(t, m, s, offs, |offs|, y) ==> y < |s.flat| && s.flat[y] == DOT
  }

  /**
   When the heap reads back: what precedes the string of the lowest string node in the string arena is taken
   for padding. Without string nodes, the blank at the end of the file must not be where a node could start.
   */
  ghost predicate ReadsBack(t: Codes, m: Image, s: Image, offs: seq<nat>)
    requires Nodes(t, m.flat, offs, m.len) && forall l :: 0 <= l < |offs| ==> offs[l] < m.len
  {
    if exists k :: 0 <= k < |offs| && FirstString(t, m, offs, k)
    then exists k: nat, x: nat :: StartsAt(t, m, s, offs, k, x) && forall y :: 0 <= y < x ==> QuietAt(t, m, s, offs, y)
    else s.len % 4 != 1
  }

  lemma {:induction false} NoStrings(t: Codes, m: Image, offs: seq<nat>, k: nat)
    requires Nodes(t, m.flat, offs, m.len) && (forall l :: 0 <= l < |offs| ==> offs[l] < m.len) && k <= |offs|
    requires !exists l :: 0 <= l < |offs| && FirstString(t, m, offs, l)
    ensures forall l :: 0 <= l < k ==> m.flat[offs[l]] != t.str
  {
    if k > 0 {
      NoStrings(t, m, offs, k - 1);
      assert !FirstString(t, m, offs, k - 1);
    }
  }

  /** The file has the offset of the node's string. */
  lemma StringStart(t: Codes, m: Image, s: Image, f: seq<Byte>, o: nat) returns (x: nat)
    requires CodesOk(t) && o < |m.flat| && o + Size(t, m.flat, o) <= |m.flat| && WrittenAt(t, m, s, f, o)
    requires m.flat[o] == t.str
    ensures o + 8 <= |f| && Operand(f, o, 0) == m.len + x
    ensures StringAt(s, Operand(m.flat, o, 0), StrLen(m.flat, o), x)
  {
    hide Rd, Operand, OperandWritten;
    assert StringWritten(m, s, f, o);
    x := Operand(f, o, 0) - m.len;
  }

  lemma BlankBefore(t: Codes, m: Image, s: Image, offs: seq<nat>, f: seq<Byte>, x: nat)
    requires Nodes(t, m.flat, offs, m.len) && SectionDone(t, m, s, offs, f, |offs|) && x < s.len
    ensures AllBlank(f, m.len, m.len + x) <==> forall y :: 0 <= y < x ==> QuietAt(t, m, s, offs, y)
  {
    hide Covered, NodeAt, CodesOk;
    if AllBlank(f, m.len, m.len + x) {
      forall y | 0 <= y < x ensures QuietAt(t, m, s, offs, y) {
        assert SectionByte(t, m, s, offs, f, |offs|, y);
        assert y % 4 == 0 ==> f[m.len + y] == DOT;
      }
    }
    if forall y :: 0 <= y < x ==> QuietAt(t, m, s, offs, y) {
      forall z | m.len <= z < |f| && z < m.len + x && (z - m.len) % 4 == 0 ensures f[z] == DOT {
        var y := z - m.len;
        assert SectionByte(t, m, s, offs, f, |offs|, y) && QuietAt(t, m, s, offs, y);
      }
    }
  }

  lemma BlankAll(t: Codes, m: Image, s: Image, offs: seq<nat>, f: seq<Byte>)
    requires Nodes(t, m.flat, offs, m.len) && SectionDone(t, m, s, offs, f, |offs|)
    requires (forall l :: 0 <= l < |offs| ==> offs[l] < m.len && m.flat[offs[l]] != t.str)
    ensures AllBlank(f, m.len, WORD + |f|) <==> s.len % 4 != 1
  {
    hide CodesOk;
    forall z | m.len <= z < |f| ensures f[z] == BlankByte(|f|, z) {
      var y := z - m.len;
      assert SectionByte(t, m, s, offs, f, |offs|, y);
      assert !Covered(t, m, s, offs, |offs|, y);
    }
    if s.len % 4 == 1 {
      assert f[|f| - 1] == 32;
    }
  }

  /** Reading stays within the nodes exactly when the heap is such. */
  lemma ReadCondition(t: Codes, m: Image, s: Image, offs: seq<nat>, f: seq<Byte>)
    requires Heap(t, m, s, offs) && offs != [] && Written(t, m, s, offs, f) && Readable(t, f, offs, m.len)
    requires forall l :: 0 <= l < |offs| ==> offs[l] < m.len
    ensures Blanks(f, m.len, Section(t, f, offs, m.len, |offs|)) <==> ReadsBack(t, m, s, offs)
  {
    hide Rd, Operand, InRange, Section, PointersAt, WrittenAt, Blanks, AllBlank, Covered, SectionDone, NodeAt;
    BlanksIff(f, m.len, Section(t, f, offs, m.len, |offs|));
    CodesSame(t, m, s, offs, f);
    if k :| 0 <= k < |offs| && FirstString(t, m, offs, k) {
      assert NodeAt(t, m.flat, offs, m.len, k) && NodeAt(t, f, offs, m.len, k);
      NodeFits(t, m, offs, k);
      SectionFirst(t, f, offs, m.len, k);
      var x := StringStart(t, m, s, f, offs[k]);
      BlankBefore(t, m, s, offs, f, x);
      forall k': nat, x': nat | StartsAt(t, m, s, offs, k', x') ensures x' == x {
        assert k' == k;
        OneOffset(s, Operand(m.flat, offs[k], 0), StrLen(m.flat, offs[k]), x, x');
      }
      assert StartsAt(t, m, s, offs, k, x);
    } else {
      NoStrings(t, m, offs, |offs|);
      SectionBefore(t, f, offs, m.len, |offs|);
      BlankAll(t, m, s, offs, f);
    }
  }

  /** A heap whose lowest string node owns the start of the string arena reads back. */
  lemma OwnerReads(t: Codes, m: Image, s: Image, offs: seq<nat>)
    requires Heap(t, m, s, offs) && offs != [] && StringsSet(t, m, offs)
    requires (forall l :: 0 <= l < |offs| ==> offs[l] < m.len) && OwnsStart(t, m, s, offs)
    ensures ReadsBack(t, m, s, offs)
  {
    hide Rd, Operand, NodeAt, Covered, QuietAt;
    if k :| 0 <= k < |offs| && FirstString(t, m, offs, k) {
      assert NodeAt(t, m.flat, offs, m.len, k);
      NodeFits(t, m, offs, k);
      assert PointersAt(t, m, s, offs, offs[k]);
      var w, n := Operand(m.flat, offs[k], 0), StrLen(m.flat, offs[k]);
      var x: nat :| StringAt(s, w, n, x);
      assert StartsAt(t, m, s, offs, k, x);
      AddrInjective(s.bases, x, 0);
    }
  }

  lemma HeapFacts(t: Codes, m: Image, s: Image, offs: seq<nat>)
    requires Heap(t, m, s, offs) && m.len > 0
    ensures offs != [] && Nodes(t, m.flat, offs, m.len)
  {}

  /**
   Write the heap, map the file at `base` and read it. It is written exactly when the last node block has room left
   and every string node has its bytes; reading then stays within the nodes exactly when `ReadsBack`, for instance
   when the lowest string node owns the start of the string arena; and then the copy is isomorphic exactly when no
   operand leads to the root.
   */
  method WriteAndRead(t: Codes, nodes: Arena, strings: Arena, file: array<Byte>, memSeg: nat, base: nat,
                      ghost offs: seq<nat>) returns (written: bool, read: bool)
    requires nodes.Valid() && strings.Valid() && nodes != strings && Apart(nodes, file) && Apart(strings, file)
    requires Heap(t, nodes.image(), strings.image(), offs)
    requires file.Length == nodes.current + strings.current <= WORD && (file.Length > 0 ==> Blank(file[..]))
    requires 0 < base && base + file.Length <= WORD
    modifies nodes`cache, strings`cache, file
    ensures written <==> 0 < nodes.current < |nodes.flat| && StringsSet(t, nodes.image(), offs)
    ensures written ==> (read <==> ReadsBack(t, nodes.image(), strings.image(), offs))
    ensures written && OwnsStart(t, nodes.image(), strings.image(), offs) ==> read
    ensures written && read ==>
      (Isomorphic(t, nodes.image(), strings.image(), offs, file[..], base) <==> NoRootOperand(t, nodes.image(), offs))
  {
    hide Rd, Arena.Valid, Apart, Heap, Readable, Reading, Blank, Section, Blanks, Isomorphic, NoRootOperand, OwnsStart,
        ReadsBack;
    ghost var m, s := nodes.image(), strings.image();
    written := Write(t, nodes, strings, file, memSeg, offs);
    read := false;
    if written {
      ghost var f := file[..];
      HeapFacts(t, m, s, offs);
      WrittenReadable(t, m, s, offs, f);
      read := Read(t, file, base, offs, nodes.current);
      ReadCondition(t, m, s, offs, f);
      if OwnsStart(t, m, s, offs) {
        OwnerReads(t, m, s, offs);
      }
      RoundTrip(t, m, s, offs, f, file[..], base);
    }
  }

  /** A heap that does not survive: one node whose operand is the node itself, the root. */
  lemma RootOperand(t: Codes, code: Byte, base: nat) returns (m: Image, s: Image)
    requires CodesOk(t) && t.arity[code] == 1 && code != DOT && 0 < base && base + BLOCK <= WORD
    ensures Heap(t, m, s, [0]) && !NoRootOperand(t, m, [0])
  {
    hide Rd, Blit;
    var bytes := [code, 0, 0, 0] + Split(base);
    var f := Blit(Zeros(BLOCK), 0, bytes);
    BlitOutside(Zeros(BLOCK), 0, bytes);
    m, s := Image(f, [base], 8), Image([], [], 0);
    assert f[4..8] == Split(base)[0..4];
    RdSame(f, 4, Split(base), 0);
    SplitRd(base);
    assert Operand(f, 0, 0) == base == Addr([base], 0);
    assert IsNode([base], [0], base) by { assert [0][0] / BLOCK < |[base]|; }
    assert f[0] == code;
    assert ImageOk(m);
    assert NodeAt(t, f, [0], 8, 0);
    assert PointersAt(t, m, s, [0], 0);
    assert !NoRootAt(t, m, 0);
  }

  /** One block that starts with `bytes`. */
  function Stored(bytes: seq<Byte>, base: nat): Image
    requires |bytes| <= BLOCK
  {
    Image(Blit(Zeros(BLOCK), 0, bytes), [base], |bytes|)
  }

  lemma StoredIs(bytes: seq<Byte>, base: nat)
    requires 0 < |bytes| <= BLOCK && 0 < base && base + BLOCK <= WORD
    ensures ImageOk(Stored(bytes, base)) && |Stored(bytes, base).flat| == BLOCK
    ensures forall x :: 0 <= x < |bytes| ==> Stored(bytes, base).flat[x] == bytes[x]
  {
    hide Blit;
    BlitOutside(Zeros(BLOCK), 0, bytes);
  }

  lemma LengthOne(f: seq<Byte>, o: nat)
    requires o + 4 <= |f| && f[o + 1] == 2 && f[o + 2] == f[o + 3] == 0
    ensures StrLen(f, o) == 1
  {}

  lemma SwappedWords(t: Codes, f: seq<Byte>, base: nat, bytes: seq<Byte>)
    requires base + 1 < WORD && bytes == [t.str, 2, 0, 0] + Split(base + 1) + [t.str, 2, 0, 0] + Split(base)
    requires 16 <= |f| && forall x :: 0 <= x < 16 ==> f[x] == bytes[x]
    ensures f[0] == f[8] == t.str && StrLen(f, 0) == 1 && StrLen(f, 8) == 1
    ensures Operand(f, 0, 0) == base + 1 && Operand(f, 8, 0) == base
  {
    hide Split;
    var a, b := Split(base + 1), Split(base);
    assert f[4..8] == a[0..4] && f[12..16] == b[0..4];
    hide Rd;
    RdSame(f, 4, a, 0);
    RdSame(f, 12, b, 0);
    SplitRd(base + 1);
    SplitRd(base);
    LengthOne(f, 0);
    LengthOne(f, 8);
  }

  lemma CoveredBy(t: Codes, m: Image, s: Image, offs: seq<nat>, j: nat, y: nat)
    requires Nodes(t, m.flat, offs, m.len) && j < |offs| && NodeAt(t, m.flat, offs, m.len, j)
    requires Covers(t, m, s, offs[j], y)
    ensures Covered(t, m, s, offs, |offs|, y)
  {}

  /**
   A heap that does not read back: two string nodes with one byte each, of which the second got its byte first.
   */
  lemma StringsSwapped(t: Codes, nodeBase: nat, base: nat) returns (m: Image, s: Image)
    requires CodesOk(t) && 0 < nodeBase && nodeBase + BLOCK <= base && base + BLOCK <= WORD
    ensures Heap(t, m, s, [0, 8]) && StringsSet(t, m, [0, 8]) && 0 < m.len < |m.flat|
    ensures (forall l :: 0 <= l < 2 ==> [0, 8][l] < m.len) && !ReadsBack(t, m, s, [0, 8])
  {
    hide Rd, Blit, Split, ImageOk, Covered;
    var offs := [0, 8];
    var bytes := [t.str, 2, 0, 0] + Split(base + 1) + [t.str, 2, 0, 0] + Split(base);
    m, s := Stored(bytes, nodeBase), Stored([65, 66], base);
    StoredIs(bytes, nodeBase);
    StoredIs([65, 66], base);
    SwappedWords(t, m.flat, base, bytes);
    assert StringAt(s, base + 1, 1, 1) && StringAt(s, base, 1, 0);
    assert NodeAt(t, m.flat, offs, 16, 0) && NodeAt(t, m.flat, offs, 16, 1);
    assert PointersAt(t, m, s, offs, 0) && PointersAt(t, m, s, offs, 8);
    assert Heap(t, m, s, offs);
    assert FirstString(t, m, offs, 0) && StartsAt(t, m, s, offs, 0, 1);
    forall k: nat, x: nat | StartsAt(t, m, s, offs, k, x) ensures x == 1 {
      OneOffset(s, base + 1, 1, 1, x);
    }
    assert Covers(t, m, s, 8, 0);
    CoveredBy(t, m, s, offs, 1, 0);
    assert !QuietAt(t, m, s, offs, 0);
  }
}
