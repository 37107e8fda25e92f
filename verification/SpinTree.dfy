/**
 The operations that build the heap: new nodes, operands, strings and payload.
 */
module SpinTree {
  import opened Bytes
  import opened Mempool
  import opened SpinHeap
  import opened SpinWrite

  const LEN_LIMIT: nat := 0x800000

  /** Node offsets and the arena length are multiples of the word size. */
  lemma {:induction false} Aligned(t: Codes, f: seq<Byte>, offs: seq<nat>, len: nat, k: nat)
    requires Nodes(t, f, offs, len) && k <= |offs|
    ensures (if k < |offs| then offs[k] else len) % 4 == 0
  {
    if k > 0 {
      Aligned(t, f, offs, len, k - 1);
      assert NodeAt(t, f, offs, len, k - 1);
    }
  }

  /** Words of a node that does not overlap a changed region are as before. */
  lemma PointersKept(t: Codes, m: Image, m': Image, s: Image, s': Image, offs: seq<nat>, offs': seq<nat>, o: nat)
    requires CodesOk(t) && o < |m.flat| && o + Size(t, m.flat, o) <= |m.flat| <= |m'.flat|
    requires PointersAt(t, m, s, offs, o)
    requires forall x :: o <= x < o + Size(t, m.flat, o) ==> m'.flat[x] == m.flat[x]
    requires m.bases <= m'.bases && offs <= offs'
    requires s.bases <= s'.bases && s.len <= s'.len
    ensures Size(t, m'.flat, o) == Size(t, m.flat, o) && PointersAt(t, m', s', offs', o)
  {
    hide Rd;
    assert m'.flat[o] == m.flat[o];
    RdCopied(m'.flat, m.flat, o, Size(t, m.flat, o), o);
    forall j | 0 <= j < Arity(t, m.flat, o)
      ensures Operand(m'.flat, o, j) == 0 || IsNode(m'.bases, offs', Operand(m'.flat, o, j)) {
      RdCopied(m'.flat, m.flat, o, Size(t, m.flat, o), o + 4 + 4 * j);
      var w := Operand(m.flat, o, j);
      if w != 0 {
        var l :| 0 <= l < |offs| && offs[l] / BLOCK < |m.bases| && Addr(m.bases, offs[l]) == w;
        assert offs'[l] / BLOCK < |m'.bases| && Addr(m'.bases, offs'[l]) == w;
      }
    }
    if m.flat[o] == t.str {
      RdCopied(m'.flat, m.flat, o, Size(t, m.flat, o), o + 4);
      var w, n := Operand(m.flat, o, 0), StrLen(m.flat, o);
      if w != 0 {
        var x: nat :| StringAt(s, w, n, x);
        assert StringAt(s', w, n, x);
      }
    }
  }

  /** Nodes and the padding after them do not overlap. */
  lemma OtherNode(t: Codes, m: Image, offs: seq<nat>, k: nat, l: nat)
    requires Nodes(t, m.flat, offs, m.len) && k < |offs| && l < |offs|
    ensures offs[k] < |m.flat| && offs[l] < |m.flat|
    ensures l < k ==> End(offs, m.len, l) <= offs[k]
    ensures k < l ==> offs[k] + Size(t, m.flat, offs[k]) <= offs[l]
  {
    assert NodeAt(t, m.flat, offs, m.len, k) && NodeAt(t, m.flat, offs, m.len, l);
    if l < k {
      OffsMono(t, m.flat, offs, m.len, l, k);
      if l + 1 < k {
        OffsMono(t, m.flat, offs, m.len, l + 1, k);
      }
    } else if k < l {
      OffsMono(t, m.flat, offs, m.len, k, l);
    }
  }

  lemma TouchOther(t: Codes, m: Image, flat': seq<Byte>, s: Image, offs: seq<nat>, k: nat, l: nat)
    requires Nodes(t, m.flat, offs, m.len) && k < |offs| && l < |offs| && offs[k] < |m.flat|
    requires offs[k] + Size(t, m.flat, offs[k]) <= |m.flat|
    requires SameOutside(m.flat, flat', offs[k], offs[k] + Size(t, m.flat, offs[k]))
    requires flat'[offs[k]] == m.flat[offs[k]]
    requires offs[l] < |m.flat| && offs[l] + Size(t, m.flat, offs[l]) <= |m.flat| && PointersAt(t, m, s, offs, offs[l])
    ensures NodeAt(t, flat', offs, m.len, l) && offs[l] < |flat'| && offs[l] + Size(t, flat', offs[l]) <= |flat'|
    ensures l != k ==> PointersAt(t, m.(flat := flat'), s, offs, offs[l])
  {
    hide Rd, PointersAt;
    assert NodeAt(t, m.flat, offs, m.len, l) && NodeAt(t, m.flat, offs, m.len, k);
    OtherNode(t, m, offs, k, l);
    if l != k {
      PointersKept(t, m, m.(flat := flat'), s, s, offs, offs, offs[l]);
    }
  }

  lemma LenFits(m: Image, m': Image)
    requires ImageOk(m) && ImageOk(m') && m.bases <= m'.bases
    ensures m.len <= |m.flat| <= |m'.flat| && m'.len <= |m'.flat|
  {}

  /** Changing a node's bytes, but not its code, keeps the heap if the node's pointers are right. */
  lemma TouchNode(t: Codes, m: Image, flat': seq<Byte>, s: Image, offs: seq<nat>, k: nat)
    requires Heap(t, m, s, offs) && k < |offs| && offs[k] < |m.flat| && offs[k] + Size(t, m.flat, offs[k]) <= |m.flat|
    requires SameOutside(m.flat, flat', offs[k], offs[k] + Size(t, m.flat, offs[k]))
    requires flat'[offs[k]] == m.flat[offs[k]]
    requires ImageOk(m.(flat := flat')) && PointersAt(t, m.(flat := flat'), s, offs, offs[k])
    ensures Heap(t, m.(flat := flat'), s, offs)
  {
    hide Rd, PointersAt, ImageOk, NodeAt, CodesOk;
    LenFits(m, m);
    var m' := m.(flat := flat');
    forall l | 0 <= l < |offs|
      ensures NodeAt(t, flat', offs, m.len, l) && offs[l] < |flat'| && offs[l] + Size(t, flat', offs[l]) <= |flat'|
      ensures PointersAt(t, m', s, offs, offs[l])
    {
      assert NodeAt(t, m.flat, offs, m.len, l);
      NodeFits(t, m, offs, l);
      TouchOther(t, m, flat', s, offs, k, l);
    }
  }

  /** More strings do not disturb the heap. */
  lemma MoreStrings(t: Codes, m: Image, s: Image, s': Image, offs: seq<nat>)
    requires Heap(t, m, s, offs) && ImageOk(s') && s.bases <= s'.bases && s.len <= s'.len
    ensures Heap(t, m, s', offs)
  {
    hide Rd, PointersAt, ImageOk;
    forall k | 0 <= k < |offs| ensures NodeAt(t, m.flat, offs, m.len, k) && PointersAt(t, m, s', offs, offs[k]) {
      assert NodeAt(t, m.flat, offs, m.len, k);
      PointersKept(t, m, m, s, s', offs, offs, offs[k]);
    }
  }

  lemma LastNode(t: Codes, f: seq<Byte>, offs: seq<nat>, len: nat)
    requires CodesOk(t) && len <= |f| && offs != [] && offs[|offs| - 1] < len && f[offs[|offs| - 1]] != DOT
    requires var o := offs[|offs| - 1]; len == o + Size(t, f, o) && o % BLOCK + Size(t, f, o) <= BLOCK
    ensures NodeAt(t, f, offs, len, |offs| - 1)
  {}

  lemma SameSize(t: Codes, f: seq<Byte>, g: seq<Byte>, o: nat)
    requires CodesOk(t) && o < |f| && o < |g| && f[o] == g[o]
    ensures Size(t, f, o) == Size(t, g, o)
  {}

  lemma FourTimes(n: int)
    ensures 4 * n % 4 == 0
  {}

  lemma WholeWords(len: nat, o: nat)
    requires len % 4 == 0 && len <= o && (o == len || o % BLOCK == 0)
    ensures (o - len) % 4 == 0
  {
    if o != len {
      var q := o / BLOCK;
      assert o == 4 * (0x400000 * q) && len == 4 * (len / 4);
      FourTimes(0x400000 * q - len / 4);
    }
  }

  lemma OlderAt(t: Codes, m: Image, m': Image, offs: seq<nat>, o: nat, k: nat)
    requires Nodes(t, m.flat, offs, m.len) && m.len <= o < m'.len && m.len <= |m.flat| && m'.len <= |m'.flat|
    requires forall x :: 0 <= x < m.len ==> m'.flat[x] == m.flat[x]
    requires forall x :: m.len <= x < m'.len && x != o ==> m'.flat[x] == 0
    requires (o == m.len || o % BLOCK == 0) && k < |offs|
    ensures NodeAt(t, m'.flat, offs + [o], m'.len, k)
  {
    hide CodesOk, Size;
    Aligned(t, m.flat, offs, m.len, |offs|);
    WholeWords(m.len, o);
    assert NodeAt(t, m.flat, offs, m.len, k);
    assert m'.flat[offs[k]] == m.flat[offs[k]];
    SameSize(t, m.flat, m'.flat, offs[k]);
    assert End(offs + [o], m'.len, k) == if k + 1 < |offs| then End(offs, m.len, k) else o;
  }

  lemma OlderNode(t: Codes, m: Image, m': Image, s: Image, offs: seq<nat>, o: nat, k: nat)
    requires Nodes(t, m.flat, offs, m.len) && m.bases <= m'.bases && m.len <= o < m'.len
    requires m.len <= |m.flat| <= |m'.flat| && m'.len <= |m'.flat|
    requires forall x :: 0 <= x < m.len ==> m'.flat[x] == m.flat[x]
    requires forall x :: m.len <= x < m'.len && x != o ==> m'.flat[x] == 0
    requires o == m.len || o % BLOCK == 0
    requires k < |offs| && offs[k] < |m.flat| && offs[k] + Size(t, m.flat, offs[k]) <= |m.flat|
    requires PointersAt(t, m, s, offs, offs[k])
    ensures NodeAt(t, m'.flat, offs + [o], m'.len, k) && offs[k] < |m'.flat|
    ensures offs[k] + Size(t, m'.flat, offs[k]) <= |m'.flat|
    ensures PointersAt(t, m', s, offs + [o], offs[k])
  {
    hide Rd, PointersAt, NodeAt;
    assert NodeAt(t, m.flat, offs, m.len, k);
    NodeFits(t, m, offs, k);
    OlderAt(t, m, m', offs, o, k);
    PointersKept(t, m, m', s, s, offs, offs + [o], offs[k]);
  }

  lemma FreshNode(t: Codes, m: Image, s: Image, offs: seq<nat>, o: nat)
    requires CodesOk(t) && o < |m.flat| && o + Size(t, m.flat, o) <= |m.flat|
    requires forall x :: o < x < o + Size(t, m.flat, o) ==> m.flat[x] == 0
    ensures PointersAt(t, m, s, offs, o)
  {}

  /** A zeroed node with a code, at the end of the arena. */
  lemma MoreNodes(t: Codes, m: Image, m': Image, s: Image, offs: seq<nat>, o: nat)
    requires Heap(t, m, s, offs) && ImageOk(m') && m.bases <= m'.bases && m.len <= o < m'.len
    requires forall x :: 0 <= x < m.len ==> m'.flat[x] == m.flat[x]
    requires forall x :: m.len <= x < m'.len && x != o ==> m'.flat[x] == 0
    requires m'.flat[o] != DOT && m'.len == o + Size(t, m'.flat, o) && o % BLOCK + Size(t, m'.flat, o) <= BLOCK
    requires o == m.len || o % BLOCK == 0
    requires m.len == 0 ==> o == 0
    ensures Heap(t, m', s, offs + [o])
  {
    hide Rd, PointersAt, ImageOk, NodeAt;
    LenFits(m, m');
    var offs' := offs + [o];
    forall k | 0 <= k < |offs'|
      ensures NodeAt(t, m'.flat, offs', m'.len, k) && offs'[k] < |m'.flat|
      ensures offs'[k] + Size(t, m'.flat, offs'[k]) <= |m'.flat|
      ensures PointersAt(t, m', s, offs', offs'[k])
    {
      if k < |offs| {
        assert NodeAt(t, m.flat, offs, m.len, k);
        NodeFits(t, m, offs, k);
        OlderNode(t, m, m', s, offs, o, k);
      } else {
        LastNode(t, m'.flat, offs', m'.len);
        FreshNode(t, m', s, offs', o);
      }
    }
  }

  ghost function Mems(a: Arena): set<object>
    reads a`blocks
  {
    set k | 0 <= k < |a.blocks| :: a.blocks[k].mem
  }

  ghost function Chunks(a: Arena): set<object>
    reads a`blocks
  {
    set k | 0 <= k < |a.blocks| :: a.blocks[k]
  }

  /** The two arenas share nothing. */
  ghost predicate Separate(a: Arena, b: Arena)
    reads a`blocks, b`blocks
  {
    a != b && Mems(a) !! Mems(b) && Chunks(a) !! Chunks(b)
  }

  lemma ImagesOk(t: Codes, m: Image, s: Image, offs: seq<nat>)
    requires Heap(t, m, s, offs)
    ensures ImageOk(m) && ImageOk(s) && CodesOk(t)
  {}

  /** The heap after allocating a node and storing its code. */
  lemma GrownHeap(t: Codes, m: Image, s: Image, offs: seq<nat>, n: nat, base: nat, code: Byte)
    requires Heap(t, m, s, offs) && FreshBase(m.bases, base) && code != DOT && CodesOk(t) && n == t.size[code]
    ensures var a := Allocated(m, n, base);
            var o := a.len - n;
            && 0 <= o < |a.flat| && o % BLOCK + 1 <= BLOCK && o / BLOCK < |a.bases|
            && Blit(a.flat, o, [code])[o] == code
            && Heap(t, a.(flat := Blit(a.flat, o, [code])), s, offs + [o])
  {
    hide Heap, Rd, Blit, ImageOk, FreshBase;
    ImagesOk(t, m, s, offs);
    AllocatedOk(m, n, base);
    var a := Allocated(m, n, base);
    var o := a.len - n;
    LenFits(m, a);
    BlitOutside(a.flat, o, [code]);
    PutImage(a, o, [code]);
    MoreNodes(t, m, a.(flat := Blit(a.flat, o, [code])), s, offs, o);
  }

  lemma LastIn(a: Arena)
    requires a.Valid()
    ensures a.last == null || a.last in Chunks(a)
  {}

  /** Fresh blocks belong to no other arena. */
  lemma StillSeparate(a: Arena, b: Arena, was: seq<Block>)
    requires a != b && was <= a.blocks
    requires forall k :: 0 <= k < |was| ==> was[k].mem !in Mems(b) && was[k] !in Chunks(b)
    requires forall k :: |was| <= k < |a.blocks| ==> a.blocks[k].mem !in Mems(b) && a.blocks[k] !in Chunks(b)
    ensures Separate(a, b)
  {
    forall x | x in Mems(a) ensures x !in Mems(b) {
      var k :| 0 <= k < |a.blocks| && x == a.blocks[k].mem;
    }
    forall x | x in Chunks(a) ensures x !in Chunks(b) {
      var k :| 0 <= k < |a.blocks| && x == a.blocks[k];
    }
  }

  /** __gs: a new node; its operands are null and its payload zero. */
  method NewNode(t: Codes, nodes: Arena, strings: Arena, code: Byte, base: nat, ghost offs: seq<nat>)
    returns (b: Block, ofs: nat, ghost o: nat)
    requires nodes.Valid() && strings.Valid() && Separate(nodes, strings)
    requires Heap(t, nodes.image(), strings.image(), offs)
    requires code != DOT && FreshBase(nodes.bases, base)
    modifies nodes, nodes.last, Mems(nodes)
    ensures nodes.Valid() && strings.Valid() && Separate(nodes, strings)
    ensures Heap(t, nodes.image(), strings.image(), offs + [o])
    ensures o / BLOCK < |nodes.blocks| && b == nodes.blocks[o / BLOCK] && ofs == o % BLOCK && o < |nodes.flat|
    ensures nodes.flat[o] == code && old(nodes.current) <= o && nodes.current == o + t.size[code]
    ensures |old(nodes.flat)| <= |nodes.flat| && old(nodes.current) <= |old(nodes.flat)|
    ensures forall x :: 0 <= x < |nodes.flat| && x != o ==>
              nodes.flat[x] == if x < old(nodes.current) then old(nodes.flat)[x] else 0
  {
    hide Arena.Valid, Heap, Rd, Blit, ImageOk, FreshBase;
    ghost var m := nodes.image();
    ImagesOk(t, m, strings.image(), offs);
    LastIn(nodes);
    var n := t.size[code];
    GrownHeap(t, m, strings.image(), offs, n, base, code);
    b, ofs := nodes.Alloc(n, base);
    o := nodes.current - n;
    StillSeparate(nodes, strings, old(nodes.blocks));
    AllocatedOk(m, n, base);
    BlitOutside(nodes.flat, o, [code]);
    nodes.Put(b, ofs, [code], o);
  }

  /** The node at `o`, which is at `ofs` in block `b`. */
  ghost predicate IsAt(t: Codes, nodes: Arena, offs: seq<nat>, k: nat, b: Block, ofs: nat)
    reads nodes`blocks, nodes`flat, nodes`current
  {
    && k < |offs| && offs[k] / BLOCK < |nodes.blocks| && b == nodes.blocks[offs[k] / BLOCK] && ofs == offs[k] % BLOCK
    && CodesOk(t) && offs[k] < |nodes.flat| && offs[k] + Size(t, nodes.flat, offs[k]) <= nodes.current <= |nodes.flat|
    && ofs + Size(t, nodes.flat, offs[k]) <= BLOCK
  }

  lemma SameBlock(o: nat, d: nat)
    requires o % BLOCK + d < BLOCK
    ensures (o + d) / BLOCK == o / BLOCK && (o + d) % BLOCK == o % BLOCK + d
  {}

  lemma InMems(a: Arena, k: nat)
    requires k < |a.blocks|
    ensures a.blocks[k].mem in Mems(a)
  {}

  /** Store bytes in node `k`; the caller answers for the node's pointers. */
  method PutInNode(t: Codes, nodes: Arena, strings: Arena, b: Block, ofs: nat, d: nat, bytes: seq<Byte>,
                   ghost offs: seq<nat>, ghost k: nat)
    requires nodes.Valid() && strings.Valid() && Separate(nodes, strings)
    requires Heap(t, nodes.image(), strings.image(), offs)
    requires IsAt(t, nodes, offs, k, b, ofs) && 0 < d && bytes != [] && d + |bytes| <= Size(t, nodes.flat, offs[k])
    requires var m' := nodes.image().(flat := Blit(nodes.flat, offs[k] + d, bytes));
             Size(t, m'.flat, offs[k]) == Size(t, nodes.flat, offs[k]) ==>
                 PointersAt(t, m', strings.image(), offs, offs[k])
    modifies nodes`flat, b.mem
    ensures nodes.Valid() && strings.Valid() && Heap(t, nodes.image(), strings.image(), offs)
    ensures |old(nodes.flat)| >= offs[k] + d + |bytes| && nodes.flat == Blit(old(nodes.flat), offs[k] + d, bytes)
    ensures IsAt(t, nodes, offs, k, b, ofs)
  {
    hide Arena.Valid, Heap, Rd, Blit, ImageOk, PointersAt, CodesOk;
    ghost var m, o := nodes.image(), offs[k];
    BlitOutside(m.flat, o + d, bytes);
    InMems(nodes, o / BLOCK);
    SameBlock(o, d);
    nodes.Put(b, ofs + d, bytes, o + d);
    ImageIs(nodes);
    TouchNode(t, m, nodes.flat, strings.image(), offs, k);
  }

  lemma HeapAt(t: Codes, m: Image, s: Image, offs: seq<nat>, k: nat)
    requires Heap(t, m, s, offs) && k < |offs|
    ensures CodesOk(t) && offs[k] < |m.flat| && offs[k] + Size(t, m.flat, offs[k]) <= |m.flat|
    ensures PointersAt(t, m, s, offs, offs[k])
  {
    hide PointersAt;
    assert NodeAt(t, m.flat, offs, m.len, k);
  }

  lemma NewOperand(t: Codes, m: Image, s: Image, offs: seq<nat>, o: nat, j: nat, w: nat)
    requires CodesOk(t) && o < |m.flat| && o + Size(t, m.flat, o) <= |m.flat| && PointersAt(t, m, s, offs, o)
    requires j < Arity(t, m.flat, o) && w < WORD && (w == 0 || IsNode(m.bases, offs, w))
    ensures var m' := m.(flat := Wr(m.flat, o + 4 + 4 * j, w));
            Size(t, m'.flat, o) == Size(t, m.flat, o) && PointersAt(t, m', s, offs, o)
  {
    hide Rd, IsNode, IsString, Wr;
    var f' := Wr(m.flat, o + 4 + 4 * j, w);
    WrOutside(m.flat, o + 4 + 4 * j, w);
    assert f'[o] == m.flat[o];
    forall l | 0 <= l < Arity(t, m.flat, o) ensures Operand(f', o, l) == if l == j then w else Operand(m.flat, o, l) {
      if l != j {
        RdWrOther(m.flat, o + 4 + 4 * j, w, o + 4 + 4 * l);
      }
    }
  }

  /** gs_set_operand: operand `j` of node `k` becomes null or the address of a node. */
  method SetOperand(t: Codes, nodes: Arena, strings: Arena, b: Block, ofs: nat, j: nat, w: nat, ghost offs: seq<nat>,
                    ghost k: nat)
    requires nodes.Valid() && strings.Valid() && Separate(nodes, strings)
    requires Heap(t, nodes.image(), strings.image(), offs)
    requires IsAt(t, nodes, offs, k, b, ofs) && j < Arity(t, nodes.flat, offs[k])
    requires w < WORD && (w == 0 || IsNode(nodes.bases, offs, w))
    modifies nodes`flat, b.mem
    ensures nodes.Valid() && strings.Valid() && Heap(t, nodes.image(), strings.image(), offs)
    ensures IsAt(t, nodes, offs, k, b, ofs)
    ensures offs[k] + 4 + 4 * j + 4 <= |nodes.flat| == |old(nodes.flat)|
    ensures nodes.flat == Wr(old(nodes.flat), offs[k] + 4 + 4 * j, w)
  {
    hide Arena.Valid, Rd, Blit, Split, ImageOk, CodesOk, Heap, PointersAt, IsNode;
    HeapAt(t, nodes.image(), strings.image(), offs, k);
    NewOperand(t, nodes.image(), strings.image(), offs, offs[k], j, w);
    PutInNode(t, nodes, strings, b, ofs, 4 + 4 * j, Split(w), offs, k);
  }

  /** Setters of leaf nodes: any bytes behind the code. */
  method SetPayload(t: Codes, nodes: Arena, strings: Arena, b: Block, ofs: nat, d: nat, bytes: seq<Byte>,
                    ghost offs: seq<nat>, ghost k: nat)
    requires nodes.Valid() && strings.Valid() && Separate(nodes, strings)
    requires Heap(t, nodes.image(), strings.image(), offs)
    requires IsAt(t, nodes, offs, k, b, ofs) && 0 < d && bytes != [] && d + |bytes| <= Size(t, nodes.flat, offs[k])
    requires Arity(t, nodes.flat, offs[k]) == 0 && nodes.flat[offs[k]] != t.str
    modifies nodes`flat, b.mem
    ensures nodes.Valid() && strings.Valid() && Heap(t, nodes.image(), strings.image(), offs)
    ensures IsAt(t, nodes, offs, k, b, ofs)
    ensures |old(nodes.flat)| >= offs[k] + d + |bytes| && nodes.flat == Blit(old(nodes.flat), offs[k] + d, bytes)
  {
    hide Arena.Valid, Heap, Rd, Blit, ImageOk, CodesOk;
    BlitOutside(nodes.flat, offs[k] + d, bytes);
    PutInNode(t, nodes, strings, b, ofs, d, bytes, offs, k);
  }

  /** A node's first word with the string length `n` put in; the field has 23 bits. */
  function WithLength(word: nat, n: nat): (r: nat)
    ensures r < WORD && r % LEN_UNIT == word % LEN_UNIT && r / LEN_UNIT == n % LEN_LIMIT
  {
    word % LEN_UNIT + LEN_UNIT * (n % LEN_LIMIT)
  }

  /** The bytes of a string node behind its code. */
  function StringFields(word: nat, n: nat, a: nat): (r: seq<Byte>)
    requires a < WORD
    ensures |r| == 7
  {
    Split(WithLength(word, n))[1..] + Split(a)
  }

  lemma LowBits(w: int, h: int, x: int)
    requires w == 512 * h + x && 0 <= x < 512
    ensures w % 512 == x
  {}

  lemma Low(w: int, h: int, x: int)
    requires w == 0x100 * h + x && 0 <= x < 0x100
    ensures w % 0x100 == x
  {}

  lemma LowByte(w: nat, hi: int, b: int, r: nat)
    requires w == b + 0x100 * hi && 0 <= b < 0x100 && r % LEN_UNIT == w % LEN_UNIT
    ensures r % 0x100 == b
  {
    var e, h, k := hi % 2, hi / 2, r / LEN_UNIT;
    LowBits(w, h, b + 0x100 * e);
    Low(r, 2 * k + e, b);
  }

  lemma CodeKept(f: seq<Byte>, o: nat, n: nat)
    requires o + 4 <= |f|
    ensures Split(WithLength(Rd(f, o), n))[0] == f[o]
  {
    hide WithLength;
    var hi: int := (f[o + 1] as int) + 0x100 * (f[o + 2] as int) + 0x10000 * (f[o + 3] as int);
    assert Rd(f, o) == f[o] as int + 0x100 * hi;
    LowByte(Rd(f, o), hi, f[o], WithLength(Rd(f, o), n));
  }

  lemma FieldsStored(f: seq<Byte>, o: nat, n: nat, a: nat)
    requires o + 8 <= |f| && a < WORD
    ensures var g := Blit(f, o + 1, StringFields(Rd(f, o), n, a));
            && SameOutside(f, g, o + 1, o + 8) && Rd(g, o) / LEN_UNIT == n % LEN_LIMIT && Rd(g, o + 4) == a
            && Rd(g, o) % LEN_UNIT == Rd(f, o) % LEN_UNIT
  {
    var w := WithLength(Rd(f, o), n);
    var fields := StringFields(Rd(f, o), n, a);
    var g := Blit(f, o + 1, fields);
    BlitOutside(f, o + 1, fields);
    CodeKept(f, o, n);
    assert g[o] == Split(w)[0];
    assert g[o..o + 4] == Split(w)[0..4];
    RdSame(g, o, Split(w), 0);
    SplitRd(w);
    assert g[o + 4..o + 8] == Split(a)[0..4];
    RdSame(g, o + 4, Split(a), 0);
    SplitRd(a);
  }

  lemma AddrFacts(a: Arena, x: nat)
    requires a.Valid() && x / BLOCK < |a.blocks|
    ensures |a.bases| == |a.blocks| && a.blocks[x / BLOCK].base + x % BLOCK == Addr(a.bases, x)
    ensures 0 < Addr(a.bases, x) < WORD
  {
    hide Arena.Contents;
    a.ChainFacts(x / BLOCK);
  }

  /** What was allocated at `x` or behind it is new: the bytes in use before are as they were. */
  ghost predicate NewBytes(s: Image, s': Image, x: nat)
  {
    && s.len <= x && s.len <= |s.flat| <= |s'.flat| && s.len <= s'.len <= |s'.flat| && s.bases <= s'.bases
    && forall y :: 0 <= y < s.len ==> s'.flat[y] == s.flat[y]
  }

  /** Allocate and fill a string. */
  method Fill(strings: Arena, bytes: seq<Byte>, base: nat) returns (a: nat, ghost x: nat)
    requires strings.Valid() && 1 <= |bytes| <= BLOCK && FreshBase(strings.bases, base)
    modifies strings, strings.last, Mems(strings)
    ensures strings.Valid() && 0 < a < WORD && StringAt(strings.image(), a, |bytes|, x)
    ensures x + |bytes| <= |strings.flat| && strings.flat[x..x + |bytes|] == bytes
    ensures old(strings.blocks) <= strings.blocks && old(strings.bases) <= strings.bases
    ensures NewBytes(old(strings.image()), strings.image(), x)
    ensures forall k :: |old(strings.blocks)| <= k < |strings.blocks| ==>
              fresh(strings.blocks[k]) && fresh(strings.blocks[k].mem)
  {
    hide Arena.Valid, Blit, ImageOk, FreshBase;
    ghost var s := strings.image();
    ImageIs(strings);
    AllocatedOk(s, |bytes|, base);
    var sb, sofs := strings.Alloc(|bytes|, base);
    x := strings.current - |bytes|;
    ghost var f := strings.flat;
    BlitOutside(f, x, bytes);
    strings.Put(sb, sofs, bytes, x);
    BlitBack(f, x, bytes);
    AddrFacts(strings, x);
    a := sb.base + sofs;
  }

  method NewString(t: Codes, nodes: Arena, strings: Arena, bytes: seq<Byte>, base: nat, ghost offs: seq<nat>)
    returns (a: nat, ghost x: nat)
    requires nodes.Valid() && strings.Valid() && Separate(nodes, strings)
    requires Heap(t, nodes.image(), strings.image(), offs)
    requires 1 <= |bytes| <= BLOCK && FreshBase(strings.bases, base)
    modifies strings, strings.last, Mems(strings)
    ensures nodes.Valid() && strings.Valid() && Separate(nodes, strings)
    ensures Heap(t, nodes.image(), strings.image(), offs)
    ensures 0 < a < WORD && StringAt(strings.image(), a, |bytes|, x)
    ensures x + |bytes| <= |strings.flat| && strings.flat[x..x + |bytes|] == bytes
    ensures NewBytes(old(strings.image()), strings.image(), x)
  {
    hide Arena.Valid, Heap, ImageOk, FreshBase, StringAt;
    ghost var m, s := nodes.image(), strings.image();
    LastIn(strings);
    a, x := Fill(strings, bytes, base);
    StillSeparate(strings, nodes, old(strings.blocks));
    ImageIs(strings);
    MoreStrings(t, m, s, strings.image(), offs);
  }

  lemma StringPointer(t: Codes, m: Image, s: Image, offs: seq<nat>, o: nat, n: nat, a: nat, x: nat)
    requires CodesOk(t) && o + 8 <= |m.flat| && m.flat[o] == t.str && StringAt(s, a, n, x) && a < WORD
    ensures var m' := m.(flat := Blit(m.flat, o + 1, StringFields(Rd(m.flat, o), n, a)));
            m'.flat[o] == t.str && PointersAt(t, m', s, offs, o)
  {
    hide Rd, StringFields, Blit, Addr;
    FieldsStored(m.flat, o, n, a);
    assert StringAt(s, a, n % LEN_LIMIT, x);
  }

  /** If there is a string node at `o`, it leads to the same bytes as before, and as many. */
  ghost predicate SameString(t: Codes, m: Image, s: Image, m': Image, s': Image, o: nat)
  {
    o + 8 <= |m.flat| && m.flat[o] == t.str ==>
      && o + 8 <= |m'.flat| && m'.flat[o] == t.str
      && Operand(m'.flat, o, 0) == Operand(m.flat, o, 0) && StrLen(m'.flat, o) == StrLen(m.flat, o)
      && forall y: nat :: StringAt(s, Operand(m.flat, o, 0), StrLen(m.flat, o), y) ==>
           && StringAt(s', Operand(m.flat, o, 0), StrLen(m.flat, o), y)
           && y + StrLen(m.flat, o) <= |s.flat| && y + StrLen(m.flat, o) <= |s'.flat|
           && s'.flat[y..y + StrLen(m.flat, o)] == s.flat[y..y + StrLen(m.flat, o)]
  }

  /** A string of old bytes is where it was. */
  lemma OldString(s: Image, s': Image, x: nat, w: nat, n: nat, y: nat)
    requires NewBytes(s, s', x) && StringAt(s, w, n, y)
    ensures StringAt(s', w, n, y) && s'.flat[y..y + n] == s.flat[y..y + n]
  {}

  lemma RdKeptIn(f: seq<Byte>, g: seq<Byte>, o: nat, d: nat)
    requires |f| == |g| && o + 8 <= |f| && f[o..o + 8] == g[o..o + 8] && d + 4 <= 8
    ensures Rd(f, o + d) == Rd(g, o + d)
  {
    hide Rd;
    forall x | o <= x < o + 8 ensures f[x] == g[x] {
      assert f[x] == f[o..o + 8][x - o] && g[x] == g[o..o + 8][x - o];
    }
    RdKept(f, g, o + d);
  }

  lemma InUse(s: Image, s': Image, x: nat)
    requires NewBytes(s, s', x)
    ensures s.len <= |s.flat| && s'.len <= |s'.flat|
  {}

  lemma StringFits(s: Image, w: nat, n: nat, y: nat)
    requires StringAt(s, w, n, y)
    ensures y + n <= s.len
  {}

  lemma SameStringIf(t: Codes, m: Image, s: Image, m': Image, s': Image, o: nat, x: nat)
    requires NewBytes(s, s', x) && |m'.flat| == |m.flat|
    requires o + 8 <= |m.flat| ==> m'.flat[o..o + 8] == m.flat[o..o + 8]
    ensures SameString(t, m, s, m', s', o)
  {
    hide Rd, NewBytes, StringAt;
    if o + 8 <= |m.flat| && m.flat[o] == t.str {
      var f, g := m.flat[o..o + 8], m'.flat[o..o + 8];
      assert g[0] == f[0];
      RdKeptIn(m.flat, m'.flat, o, 0);
      RdKeptIn(m.flat, m'.flat, o, 4);
      InUse(s, s', x);
      var w, n := Operand(m.flat, o, 0), StrLen(m.flat, o);
      forall y: nat | StringAt(s, w, n, y)
        ensures StringAt(s', w, n, y) && y + n <= |s.flat| && y + n <= |s'.flat|
        ensures s'.flat[y..y + n] == s.flat[y..y + n]
      {
        OldString(s, s', x, w, n, y);
        StringFits(s, w, n, y);
      }
    }
  }

  lemma Away(f: seq<Byte>, g: seq<Byte>, lo: nat, hi: nat, o: nat)
    requires SameOutside(f, g, lo, hi) && (o + 8 <= lo || hi <= o)
    ensures |g| == |f| && (o + 8 <= |f| ==> g[o..o + 8] == f[o..o + 8])
  {}

  /** String nodes have eight bytes each. */
  lemma StringsApart(t: Codes, m: Image, s: Image, offs: seq<nat>, k: nat, l: nat)
    requires Heap(t, m, s, offs) && k < |offs| && l < |offs| && k != l && offs[k] < |m.flat| && offs[l] < |m.flat|
    requires m.flat[offs[k]] == t.str && m.flat[offs[l]] == t.str
    ensures offs[l] + 8 <= offs[k] || offs[k] + 8 <= offs[l]
  {
    hide PointersAt, NodeAt, ImageOk;
    if l < k { OffsMono(t, m.flat, offs, m.len, l, k); } else { OffsMono(t, m.flat, offs, m.len, k, l); }
  }

  lemma NoString(t: Codes, m: Image, s: Image, m': Image, s': Image, o: nat)
    requires o < |m.flat| && m.flat[o] != t.str
    ensures SameString(t, m, s, m', s', o)
  {}

  /** Setting the string of one node leaves the strings of all others alone. */
  lemma OthersKept(t: Codes, m: Image, s: Image, m': Image, s': Image, offs: seq<nat>, k: nat, x: nat)
    requires Heap(t, m, s, offs) && k < |offs| && offs[k] < |m.flat| && m.flat[offs[k]] == t.str
    requires SameOutside(m.flat, m'.flat, offs[k] + 1, offs[k] + 8) && NewBytes(s, s', x)
    ensures forall l :: 0 <= l < |offs| && l != k ==> SameString(t, m, s, m', s', offs[l])
  {
    hide NewBytes, SameString, Rd, ImageOk, PointersAt, Heap, SameOutside, CodesOk;
    forall l | 0 <= l < |offs| && l != k ensures SameString(t, m, s, m', s', offs[l]) {
      HeapAt(t, m, s, offs, k);
      HeapAt(t, m, s, offs, l);
      if m.flat[offs[l]] == t.str {
        StringsApart(t, m, s, offs, k, l);
        Away(m.flat, m'.flat, offs[k] + 1, offs[k] + 8, offs[l]);
        SameStringIf(t, m, s, m', s', offs[l], x);
      } else {
        NoString(t, m, s, m', s', offs[l]);
      }
    }
  }

  /** _gs_s: give string node `k` its bytes; of their number only the low 23 bits are recorded. */
  method SetString(t: Codes, nodes: Arena, strings: Arena, b: Block, ofs: nat, bytes: seq<Byte>, base: nat,
                   ghost offs: seq<nat>, ghost k: nat)
      returns (ghost x: nat)
    requires nodes.Valid() && strings.Valid() && Separate(nodes, strings)
    requires Heap(t, nodes.image(), strings.image(), offs)
    requires IsAt(t, nodes, offs, k, b, ofs) && nodes.flat[offs[k]] == t.str && 1 <= |bytes| <= BLOCK
    requires FreshBase(strings.bases, base)
    modifies nodes`flat, b.mem, strings, strings.last, Mems(strings)
    ensures nodes.Valid() && strings.Valid() && Separate(nodes, strings)
    ensures Heap(t, nodes.image(), strings.image(), offs)
    ensures IsAt(t, nodes, offs, k, b, ofs) && offs[k] + 8 <= |nodes.flat|
    ensures StrLen(nodes.flat, offs[k]) == |bytes| % LEN_LIMIT
    ensures StringAt(strings.image(), Operand(nodes.flat, offs[k], 0), |bytes|, x)
    ensures x + |bytes| <= |strings.flat| && strings.flat[x..x + |bytes|] == bytes
    ensures NewBytes(old(strings.image()), strings.image(), x)
    ensures SameOutside(old(nodes.flat), nodes.flat, offs[k] + 1, offs[k] + 8)
    ensures Rd(nodes.flat, offs[k]) % LEN_UNIT == Rd(old(nodes.flat), offs[k]) % LEN_UNIT
    ensures forall l :: 0 <= l < |offs| && l != k ==>
              SameString(t, old(nodes.image()), old(strings.image()), nodes.image(), strings.image(), offs[l])
  {
    hide Arena.Valid, Heap, Rd, Blit, ImageOk, FreshBase, StringFields, Addr, PointersAt, NewBytes, SameString,
        SameOutside;
    var a;
    a, x := NewString(t, nodes, strings, bytes, base, offs);
    BlockWord(nodes, offs[k], 0);
    var word := Load(b.mem, ofs);
    FieldsStored(nodes.flat, offs[k], |bytes|, a);
    StringPointer(t, nodes.image(), strings.image(), offs, offs[k], |bytes|, a, x);
    PutInNode(t, nodes, strings, b, ofs, 1, StringFields(word, |bytes|, a), offs, k);
    OthersKept(t, old(nodes.image()), old(strings.image()), nodes.image(), strings.image(), offs, k, x);
  }
}
