/**
 gs_write: lay the two arenas out in one file, with addresses turned into file offsets.
 */
module SpinWrite {
  import opened Bytes
  import opened Mempool
  import opened SpinHeap

  /** The file is not part of the arena. */
  ghost predicate Apart(a: Arena, file: array<Byte>)
    reads a`blocks
  {
    forall k :: 0 <= k < |a.blocks| ==> a.blocks[k].mem != file
  }

  /** Bytes `lo..hi` are the only ones that may differ. */
  ghost predicate SameOutside(f: seq<Byte>, g: seq<Byte>, lo: nat, hi: nat)
  {
    |f| == |g| && forall x :: 0 <= x < |f| && !(lo <= x < hi) ==> f[x] == g[x]
  }

  lemma RdKept(f: seq<Byte>, g: seq<Byte>, i: nat)
    requires i + 4 <= |f| == |g| && forall x :: i <= x < i + 4 ==> f[x] == g[x]
    ensures Rd(f, i) == Rd(g, i)
  {
    assert f[i..i + 4] == g[i..i + 4];
    RdSame(f, i, g, i);
  }

  lemma WrOutside(f: seq<Byte>, i: nat, w: nat)
    requires i + 4 <= |f| && w < WORD
    ensures SameOutside(f, Wr(f, i, w), i, i + 4) && Rd(Wr(f, i, w), i) == w
  {
    RdWr(f, i, w);
    forall x | 0 <= x < |f| && !(i <= x < i + 4) ensures f[x] == Wr(f, i, w)[x] {
      BlitAt(f, i, Split(w), x);
    }
  }

  lemma OperandKept(m: Image, f: seq<Byte>, g: seq<Byte>, o: nat, j: nat, lo: nat, hi: nat)
    requires o + 4 + 4 * j + 4 <= |f| && o + 4 + 4 * j + 4 <= |m.flat|
    requires OperandWritten(m, f, o, j) && SameOutside(f, g, lo, hi) && (hi <= o + 4 + 4 * j || o + 4 + 4 * j + 4 <= lo)
    ensures OperandWritten(m, g, o, j)
  {
    RdKept(f, g, o + 4 + 4 * j);
  }

  /** The offset found for an operand is that of the node it points to. */
  lemma OperandOffset(m: Image, offs: seq<nat>, w: nat, r: int)
    requires ImageOk(m) && IsNode(m.bases, offs, w) && (forall k :: 0 <= k < |offs| ==> offs[k] < m.len)
    requires r >= 0 && r / BLOCK < |m.bases| && Addr(m.bases, r) == w
    ensures r < m.len && r in offs
  {
    var k :| 0 <= k < |offs| && offs[k] / BLOCK < |m.bases| && Addr(m.bases, offs[k]) == w;
    AddrInjective(m.bases, r, offs[k]);
  }

  /** The address of a node lies in a block. */
  lemma NodeHeld(a: Arena, offs: seq<nat>, w: nat)
    requires a.Valid() && IsNode(a.bases, offs, w)
    ensures a.Held(w)
  {
    hide Arena.Contents;
    var k :| 0 <= k < |offs| && offs[k] / BLOCK < |a.bases| && Addr(a.bases, offs[k]) == w;
    AddrIn(a.bases, offs[k], offs[k] / BLOCK);
  }

  /** The address of a string lies in a block, null does not. */
  lemma StringHeld(a: Arena, w: nat, n: nat)
    requires a.Valid() && (w == 0 || IsString(a.image(), w, n))
    ensures a.Held(w) <==> w != 0
  {
    hide Arena.Contents;
    if w != 0 {
      var x: nat :| StringAt(a.image(), w, n, x);
      AddrIn(a.bases, x, x / BLOCK);
    }
  }

  lemma ImageIs(a: Arena)
    requires a.Valid()
    ensures ImageOk(a.image()) && |a.bases| == |a.blocks|
  {}

  /** A block's bytes are the image's. */
  lemma BlockBytes(a: Arena, i: nat, n: nat)
    requires a.Valid() && i / BLOCK < |a.blocks| && i % BLOCK + n <= BLOCK
    ensures var b := a.blocks[i / BLOCK];
            b.mem.Length == BLOCK && i + n <= |a.flat| && b.mem[..][i % BLOCK..i % BLOCK + n] == a.flat[i..i + n]
  {
    hide Arena.Chain, ImageOk;
    var k := i / BLOCK;
    var mem := a.blocks[k].mem;
    assert Holds(mem, a.flat, k);
    assert mem[..] == a.flat[k * BLOCK..(k + 1) * BLOCK];
    var l, r := mem[..][i % BLOCK..i % BLOCK + n], a.flat[i..i + n];
    forall x | 0 <= x < n ensures l[x] == r[x] {
      assert a.flat[k * BLOCK..(k + 1) * BLOCK][i % BLOCK + x] == a.flat[i + x];
    }
  }

  lemma BlockWord(a: Arena, i: nat, d: nat)
    requires a.Valid() && i / BLOCK < |a.blocks| && i % BLOCK + d + 4 <= BLOCK
    ensures var b := a.blocks[i / BLOCK];
            b.mem.Length == BLOCK && i + d + 4 <= |a.flat| && Rd(b.mem[..], i % BLOCK + d) == Rd(a.flat, i + d)
  {
    hide Arena.Valid, Rd;
    BlockBytes(a, i, d + 4);
    var b, ofs := a.blocks[i / BLOCK], i % BLOCK;
    assert b.mem[..][ofs + d..ofs + d + 4] == b.mem[..][ofs..ofs + d + 4][d..d + 4];
    assert a.flat[i + d..i + d + 4] == a.flat[i..i + d + 4][d..d + 4];
    RdSame(b.mem[..], ofs + d, a.flat, i + d);
  }

  method WriteOperand(nodes: Arena, file: array<Byte>, memSeg: nat, i: nat, b: Block, ofs: nat, j: nat,
                      ghost arity: nat, ghost offs: seq<nat>, ghost f0: seq<Byte>)
    requires nodes.Valid() && Apart(nodes, file) && i / BLOCK < |nodes.blocks| && b == nodes.blocks[i / BLOCK]
    requires ofs == i % BLOCK
    requires ofs + 4 + 4 * arity <= BLOCK && i + 4 + 4 * arity <= nodes.current <= file.Length <= WORD && j < arity
    requires b.mem.Length == BLOCK
    requires forall k :: 0 <= k < |offs| ==> offs[k] < nodes.current
    requires nodes.current <= |nodes.flat|
    requires Operand(nodes.flat, i, j) == 0 || IsNode(nodes.bases, offs, Operand(nodes.flat, i, j))
    requires |f0| == file.Length && Operand(f0, i, j) == Operand(nodes.flat, i, j)
    requires SameOutside(f0, file[..], i + 4, i + 4 + 4 * j)
    requires forall l :: 0 <= l < j ==> OperandWritten(nodes.image(), file[..], i, l)
    modifies nodes`cache, file
    ensures nodes.Valid() && SameOutside(f0, file[..], i + 4, i + 4 + 4 * (j + 1))
    ensures forall l :: 0 <= l <= j ==> OperandWritten(nodes.image(), file[..], i, l)
  {
    hide IsNode, ImageOk, Rd, Wr, Arena.Chain, Arena.Contents;
    BlockWord(nodes, i, 4 + 4 * j);
    ImageIs(nodes);
    RdKept(f0, file[..], i + 4 + 4 * j);
    var w := Load(b.mem, ofs + 4 + 4 * j);
    if w != 0 {
      NodeHeld(nodes, offs, w);
      var r, _ := nodes.Address2ByteOfst(w, true, memSeg);
      OperandOffset(nodes.image(), offs, w, r);
      ghost var f1 := file[..];
      WrOutside(f1, i + 4 + 4 * j, r);
      Store(file, i + 4 + 4 * j, r);
      forall l | 0 <= l < j ensures OperandWritten(nodes.image(), file[..], i, l) {
        OperandKept(nodes.image(), f1, file[..], i, l, i + 4 + 4 * j, i + 4 + 4 * j + 4);
      }
    }
  }

  /** Convert the operands of the node at `i`, which has been copied to the file, to offsets. */
  method WriteOperands(nodes: Arena, file: array<Byte>, memSeg: nat, i: nat, b: Block, ofs: nat, arity: nat,
                       ghost offs: seq<nat>)
    requires nodes.Valid() && Apart(nodes, file) && i / BLOCK < |nodes.blocks| && b == nodes.blocks[i / BLOCK]
    requires ofs == i % BLOCK
    requires ofs + 4 + 4 * arity <= BLOCK && i + 4 + 4 * arity <= nodes.current <= file.Length <= WORD
    requires b.mem.Length == BLOCK
    requires forall k :: 0 <= k < |offs| ==> offs[k] < nodes.current
    requires nodes.current <= |nodes.flat| && forall j :: 0 <= j < arity ==>
               Operand(nodes.flat, i, j) == 0 || IsNode(nodes.bases, offs, Operand(nodes.flat, i, j))
    requires forall j :: 0 <= j < arity ==> Operand(file[..], i, j) == Operand(nodes.flat, i, j)
    modifies nodes`cache, file
    ensures nodes.Valid() && SameOutside(old(file[..]), file[..], i + 4, i + 4 + 4 * arity)
    ensures forall j :: 0 <= j < arity ==> OperandWritten(nodes.image(), file[..], i, j)
  {
    hide Operand, OperandWritten, IsNode, ImageOk, Rd, Wr, Arena.Chain, Arena.Contents;
    ghost var f0 := file[..];
    var j := 0;
    while j < arity
      invariant j <= arity && nodes.Valid() && SameOutside(f0, file[..], i + 4, i + 4 + 4 * j)
      invariant forall l :: 0 <= l < j ==> OperandWritten(nodes.image(), file[..], i, l)
    {
      WriteOperand(nodes, file, memSeg, i, b, ofs, j, arity, offs, f0);
      j := j + 1;
    }
  }

  /** What writing a node may change: its own bytes, and string bytes to what they should be. */
  ghost predicate Stepped(f: seq<Byte>, g: seq<Byte>, lo: nat, hi: nat, len: nat, s: seq<Byte>)
  {
    |f| == |g| && forall x :: 0 <= x < |f| ==>
        f[x] == g[x] || lo <= x < hi || (len <= x < len + |s| && g[x] == s[x - len])
  }

  /** The offset found for a string is that of its bytes. */
  lemma StringOffset(s: Image, w: nat, n: nat, r: nat)
    requires ImageOk(s) && IsString(s, w, n) && r / BLOCK < |s.bases| && Addr(s.bases, r) == w
    ensures StringAt(s, w, n, r)
  {
    var x: nat :| StringAt(s, w, n, x);
    AddrInjective(s.bases, r, x);
  }

  lemma BlitOutside(f: seq<Byte>, i: nat, t: seq<Byte>)
    requires i + |t| <= |f|
    ensures SameOutside(f, Blit(f, i, t), i, i + |t|) && forall x :: i <= x < i + |t| ==> Blit(f, i, t)[x] == t[x - i]
  {
    forall x | 0 <= x < |f| ensures Blit(f, i, t)[x] == if i <= x < i + |t| then t[x - i] else f[x] {
      BlitAt(f, i, t, x);
    }
  }

  /** String bytes outside the string at address `w` do not change. */
  ghost predicate Elsewhere(s: Image, w: nat, n: nat, f: seq<Byte>, g: seq<Byte>, len: nat)
  {
    && |f| == |g| == len + s.len
    && forall y {:trigger InString(s, w, n, y)} :: 0 <= y < s.len && !InString(s, w, n, y) ==> g[len + y] == f[len + y]
  }

  lemma NothingElsewhere(s: Image, w: nat, n: nat, f: seq<Byte>, len: nat)
    requires |f| == len + s.len
    ensures Elsewhere(s, w, n, f, f, len)
  {}

  lemma OnlyString(s: Image, w: nat, n: nat, r: nat, f0: seq<Byte>, f1: seq<Byte>, f2: seq<Byte>, len: nat, i: nat)
    requires StringAt(s, w, n, r) && |f0| == len + s.len && i + 8 <= len
    requires SameOutside(f0, f1, i + 4, i + 8) && SameOutside(f1, f2, len + r, len + r + n)
    ensures Elsewhere(s, w, n, f0, f2, len)
  {
    hide StringAt;
    forall y | 0 <= y < s.len && !InString(s, w, n, y) ensures f2[len + y] == f0[len + y] {
      assert !(r <= y < r + n);
    }
  }

  /** A string node's pointer and bytes as they are stored. */
  lemma StringStored(m: Image, s: Image, f0: seq<Byte>, i: nat, r: nat)
    requires i + 8 <= m.len <= |m.flat| && |f0| == m.len + s.len <= WORD && s.len <= |s.flat|
    requires StringAt(s, Operand(m.flat, i, 0), StrLen(m.flat, i), r) && Rd(f0, i) == Rd(m.flat, i)
    ensures m.len + r < WORD && r + StrLen(m.flat, i) <= s.len && Rd(Wr(f0, i + 4, m.len + r), i) == Rd(m.flat, i)
    ensures var n := StrLen(m.flat, i);
            var f2 := Blit(Wr(f0, i + 4, m.len + r), m.len + r, s.flat[r..r + n]);
            && StringWritten(m, s, f2, i) && Rd(f2, i) == Rd(m.flat, i) && f2[i] == f0[i]
            && Stepped(f0, f2, i + 4, i + 8, m.len, s.flat) && Elsewhere(s, Operand(m.flat, i, 0), n, f0, f2, m.len)
  {
    hide Rd, Wr, Blit, InString, Addr;
    var n, f1 := StrLen(m.flat, i), Wr(f0, i + 4, m.len + r);
    var f2 := Blit(f1, m.len + r, s.flat[r..r + n]);
    WrOutside(f0, i + 4, m.len + r);
    BlitOutside(f1, m.len + r, s.flat[r..r + n]);
    RdKept(f0, f1, i);
    RdKept(f1, f2, i);
    RdKept(f1, f2, i + 4);
    OnlyString(s, Operand(m.flat, i, 0), n, r, f0, f1, f2, m.len, i);
  }

  lemma NothingStepped(f: seq<Byte>, lo: nat, hi: nat, len: nat, s: seq<Byte>)
    ensures Stepped(f, f, lo, hi, len, s)
  {}

  lemma LenOk(a: Arena)
    requires a.Valid()
    ensures a.current <= |a.flat| && (a.blocks != [] ==> a.current > 0)
  {}

  /** Convert the pointer of the string node at `i` to an offset and copy the string's bytes. */
  method WriteString(strings: Arena, file: array<Byte>, memSeg: nat, i: nat, w: nat, len: nat, ghost m: Image)
    returns (ok: bool)
    requires strings.Valid() && Apart(strings, file) && file.Length == len + strings.current <= WORD
    requires i + 8 <= len == m.len <= |m.flat| && Operand(m.flat, i, 0) == w
    requires w == 0 || IsString(strings.image(), w, StrLen(m.flat, i))
    requires Rd(file[..], i) == Rd(m.flat, i)
    modifies strings`cache, file
    ensures strings.Valid() && ok == (w != 0) && (!ok ==> file[..] == old(file[..]))
    ensures ok ==> StringWritten(m, strings.image(), file[..], i) && Rd(file[..], i) == Rd(m.flat, i)
    ensures Stepped(old(file[..]), file[..], i + 4, i + 8, len, strings.flat) && file[i] == old(file[i])
    ensures Elsewhere(strings.image(), w, StrLen(m.flat, i), old(file[..]), file[..], len)
  {
    hide IsString, ImageOk, Rd, Wr, Blit, Arena.Chain, Arena.Contents, Arena.Held, Elsewhere, Addr, StringWritten,
        Stepped;
    ImageIs(strings);
    LenOk(strings);
    ghost var s, f0 := strings.image(), file[..];
    StringHeld(strings, w, StrLen(m.flat, i));
    var r;
    r, ok := strings.Address2ByteOfst(w, false, memSeg);
    if !ok {
      NothingElsewhere(s, w, StrLen(m.flat, i), f0, len);
      NothingStepped(f0, i + 4, i + 8, len, strings.flat);
      return;
    }
    StringOffset(s, w, StrLen(m.flat, i), r);
    StringStored(m, s, f0, i, r);
    Store(file, i + 4, len + r);
    var word := Load(file, i);
    var n := word / LEN_UNIT;
    BlockBytes(strings, r, n);
    CopyTo(file, len + r, strings.cache.mem, r % BLOCK, n);
  }

  lemma {:induction false} OffsMono(t: Codes, f: seq<Byte>, offs: seq<nat>, len: nat, j: nat, k: nat)
    requires Nodes(t, f, offs, len) && j < k < |offs|
    ensures offs[j] < len && offs[k] < len && offs[j] + Size(t, f, offs[j]) <= offs[k]
    decreases k - j
  {
    assert NodeAt(t, f, offs, len, j) && NodeAt(t, f, offs, len, k);
    if j + 1 < k {
      OffsMono(t, f, offs, len, j + 1, k);
    }
  }

  /** A node written before is not disturbed. */
  lemma WrittenKept(t: Codes, m: Image, s: Image, f: seq<Byte>, g: seq<Byte>, o: nat, lo: nat, hi: nat)
    requires CodesOk(t) && o < |m.flat| && o + Size(t, m.flat, o) <= |m.flat| && WrittenAt(t, m, s, f, o)
    requires Stepped(f, g, lo, hi, m.len, s.flat) && o + Size(t, m.flat, o) <= lo <= m.len && hi <= m.len
    ensures WrittenAt(t, m, s, g, o)
  {
    hide Rd;
    var n := Size(t, m.flat, o);
    assert forall x :: o <= x < o + n ==> f[x] == g[x];
    RdKept(f, g, o);
    forall j | 0 <= j < Arity(t, m.flat, o) ensures OperandWritten(m, g, o, j) {
      assert OperandWritten(m, f, o, j);
      RdKept(f, g, o + 4 + 4 * j);
    }
    if m.flat[o] == t.str {
      RdKept(f, g, o + 4);
      assert StringWritten(m, s, f, o);
    }
  }

  /** The padding after node `j` is zero in the file. */
  ghost predicate Padded(t: Codes, m: Image, offs: seq<nat>, f: seq<Byte>, j: nat)
    requires j < |offs| && CodesOk(t) && offs[j] < |m.flat|
  {
    forall x :: offs[j] + Size(t, m.flat, offs[j]) <= x < End(offs, m.len, j) ==> x < |f| && f[x] == DOT
  }

  /** A new file. */
  ghost predicate Blank(f: seq<Byte>)
  {
    forall x :: 0 <= x < |f| ==> f[x] == BlankByte(|f|, x)
  }

  /** The first `k` nodes are in the file and the place of the others is untouched. */
  ghost predicate Progress(t: Codes, m: Image, s: Image, offs: seq<nat>, f: seq<Byte>, k: nat)
    requires Nodes(t, m.flat, offs, m.len)
  {
    && k <= |offs| && SectionDone(t, m, s, offs, f, k)
    && (forall j :: 0 <= j < k ==>
        NodeAt(t, m.flat, offs, m.len, j) && WrittenAt(t, m, s, f, offs[j]) && Padded(t, m, offs, f, j))
    && (k < |offs| ==> forall x :: offs[k] <= x < m.len && x < |f| - 1 ==> f[x] == 0)
  }

  /** String bytes outside the string of the node at `o` do not change. */
  ghost predicate OwnString(t: Codes, m: Image, s: Image, f: seq<Byte>, g: seq<Byte>, o: nat)
    requires CodesOk(t) && o < |m.flat| && o + Size(t, m.flat, o) <= |m.flat|
  {
    && |f| == |g| == m.len + s.len
    && forall y {:trigger Covers(t, m, s, o, y)} ::
         0 <= y < s.len && !Covers(t, m, s, o, y) ==> g[m.len + y] == f[m.len + y]
  }

  lemma CoveredStep(t: Codes, m: Image, s: Image, offs: seq<nat>, k: nat, y: nat)
    requires Nodes(t, m.flat, offs, m.len) && k < |offs| && offs[k] < |m.flat|
    requires offs[k] + Size(t, m.flat, offs[k]) <= |m.flat|
    ensures Covered(t, m, s, offs, k + 1, y) <==> Covered(t, m, s, offs, k, y) || Covers(t, m, s, offs[k], y)
  {
    hide Covers;
    assert NodeAt(t, m.flat, offs, m.len, k);
  }

  /** A string has one offset. */
  lemma OneOffset(s: Image, w: nat, n: nat, x: nat, y: nat)
    requires ImageOk(s) && StringAt(s, w, n, x) && StringAt(s, w, n, y)
    ensures x == y
  {
    AddrInjective(s.bases, x, y);
  }

  /** Bytes of the node's string are in the file. */
  lemma CoversWritten(t: Codes, m: Image, s: Image, g: seq<Byte>, o: nat, y: nat)
    requires CodesOk(t) && o < |m.flat| && o + Size(t, m.flat, o) <= |m.flat| && ImageOk(s)
    requires WrittenAt(t, m, s, g, o) && Covers(t, m, s, o, y)
    ensures m.len + y < |g| && y < |s.flat| && g[m.len + y] == s.flat[y]
  {
    hide Rd, Operand, OperandWritten, ImageOk, Addr;
    var w, n := Operand(m.flat, o, 0), StrLen(m.flat, o);
    assert StringWritten(m, s, g, o);
    var x: nat :| StringAt(s, w, n, x) && x <= y < x + n;
    OneOffset(s, w, n, x, Operand(g, o, 0) - m.len);
  }

  lemma NodeFits(t: Codes, m: Image, offs: seq<nat>, k: nat)
    requires CodesOk(t) && m.len <= |m.flat| && k < |offs| && NodeAt(t, m.flat, offs, m.len, k)
    ensures offs[k] < |m.flat| && offs[k] + Size(t, m.flat, offs[k]) <= m.len && m.flat[offs[k]] != DOT
    ensures offs[k] % BLOCK + Size(t, m.flat, offs[k]) <= BLOCK
  {}

  /** The string section after one more node. */
  lemma SectionStep(t: Codes, m: Image, s: Image, offs: seq<nat>, f: seq<Byte>, g: seq<Byte>, k: nat)
    requires Nodes(t, m.flat, offs, m.len) && k < |offs| && SectionDone(t, m, s, offs, f, k) && offs[k] < |m.flat|
    requires offs[k] + Size(t, m.flat, offs[k]) <= |m.flat| && WrittenAt(t, m, s, g, offs[k]) && ImageOk(s)
    requires OwnString(t, m, s, f, g, offs[k])
    requires Stepped(f, g, offs[k], offs[k] + Size(t, m.flat, offs[k]), m.len, s.flat)
    ensures SectionDone(t, m, s, offs, g, k + 1)
  {
    hide NodeAt, WrittenAt, Covers, CodesOk;
    assert NodeAt(t, m.flat, offs, m.len, k);
    NodeFits(t, m, offs, k);
    var k' := k + 1;
    forall y | 0 <= y < s.len ensures SectionByte(t, m, s, offs, g, k', y) {
      assert SectionByte(t, m, s, offs, f, k, y);
      CoveredStep(t, m, s, offs, k, y);
      if Covers(t, m, s, offs[k], y) {
        CoversWritten(t, m, s, g, offs[k], y);
      }
    }
  }

  lemma PriorKept(t: Codes, m: Image, s: Image, offs: seq<nat>, f: seq<Byte>, g: seq<Byte>, j: nat, k: nat)
    requires Nodes(t, m.flat, offs, m.len) && Progress(t, m, s, offs, f, k) && j < k < |offs| && offs[k] < |m.flat|
    requires offs[k] + Size(t, m.flat, offs[k]) <= |m.flat|
    requires Stepped(f, g, offs[k], offs[k] + Size(t, m.flat, offs[k]), m.len, s.flat)
    ensures NodeAt(t, m.flat, offs, m.len, j) && WrittenAt(t, m, s, g, offs[j]) && Padded(t, m, offs, g, j)
  {
    hide WrittenAt, Rd;
    assert NodeAt(t, m.flat, offs, m.len, j) && NodeAt(t, m.flat, offs, m.len, k) && Padded(t, m, offs, f, j);
    OffsMono(t, m.flat, offs, m.len, j, k);
    if j + 1 < k {
      OffsMono(t, m.flat, offs, m.len, j + 1, k);
    }
    WrittenKept(t, m, s, f, g, offs[j], offs[k], offs[k] + Size(t, m.flat, offs[k]));
  }

  lemma ProgressStep(t: Codes, m: Image, s: Image, offs: seq<nat>, f: seq<Byte>, g: seq<Byte>, k: nat)
    requires Nodes(t, m.flat, offs, m.len) && Progress(t, m, s, offs, f, k) && k < |offs| && offs[k] < |m.flat|
    requires offs[k] + Size(t, m.flat, offs[k]) <= |m.flat| && WrittenAt(t, m, s, g, offs[k])
    requires Stepped(f, g, offs[k], offs[k] + Size(t, m.flat, offs[k]), m.len, s.flat)
    requires OwnString(t, m, s, f, g, offs[k]) && ImageOk(s)
    ensures Progress(t, m, s, offs, g, k + 1)
  {
    hide WrittenAt, Rd, SectionDone, ImageOk;
    SectionStep(t, m, s, offs, f, g, k);
    var lo, hi := offs[k], offs[k] + Size(t, m.flat, offs[k]);
    assert NodeAt(t, m.flat, offs, m.len, k);
    if k + 1 < |offs| {
      OffsMono(t, m.flat, offs, m.len, k, k + 1);
    }
    forall j | 0 <= j < k
      ensures NodeAt(t, m.flat, offs, m.len, j) && WrittenAt(t, m, s, g, offs[j]) && Padded(t, m, offs, g, j) {
      PriorKept(t, m, s, offs, f, g, j, k);
    }
  }

  lemma SameLayout(t: Codes, m: Image, s: Image, offs: seq<nat>, f: seq<Byte>, k: nat)
    requires CodesOk(t) && m.len <= |m.flat| && k < |offs| && NodeAt(t, m.flat, offs, m.len, k) && m.len <= |f|
    requires offs[k] < |m.flat| && offs[k] + Size(t, m.flat, offs[k]) <= |m.flat|
    requires WrittenAt(t, m, s, f, offs[k]) && Padded(t, m, offs, f, k)
    ensures NodeAt(t, f, offs, m.len, k)
  {
    hide OperandWritten, StringWritten, Rd;
  }

  /** When all nodes are in the file it has the same layout as the arena. */
  lemma AllWritten(t: Codes, m: Image, s: Image, offs: seq<nat>, f: seq<Byte>)
    requires Nodes(t, m.flat, offs, m.len) && Progress(t, m, s, offs, f, |offs|)
    ensures Written(t, m, s, offs, f)
  {
    hide NodeAt, WrittenAt, Padded, CodesOk, Rd;
    forall k | 0 <= k < |offs|
      ensures NodeAt(t, m.flat, offs, m.len, k) && offs[k] < |m.flat| && offs[k] + Size(t, m.flat, offs[k]) <= |m.flat|
      ensures NodeAt(t, f, offs, m.len, k)
    {
      assert NodeAt(t, m.flat, offs, m.len, k);
      NodeFits(t, m, offs, k);
      SameLayout(t, m, s, offs, f, k);
    }
  }

  /** `g` is `f` with `n` bytes of `flat` copied to the same place. */
  ghost predicate Copied(f: seq<Byte>, g: seq<Byte>, flat: seq<Byte>, i: nat, n: nat)
  {
    && SameOutside(f, g, i, i + n) && i + n <= |g| && i + n <= |flat|
    && forall x :: i <= x < i + n ==> g[x] == flat[x]
  }

  /** Copy `n` bytes of the arena from index `i` to the same offset in the file. */
  method CopyNode(nodes: Arena, file: array<Byte>, i: nat, b: Block, ofs: nat, n: nat)
    requires nodes.Valid() && Apart(nodes, file) && i / BLOCK < |nodes.blocks| && b == nodes.blocks[i / BLOCK]
    requires ofs == i % BLOCK && ofs + n <= BLOCK && i + n <= file.Length
    modifies file
    ensures nodes.Valid() && i + n <= |nodes.flat| && Copied(old(file[..]), file[..], nodes.flat, i, n)
  {
    hide Rd, Blit, Arena.Chain, Arena.Contents;
    BlockBytes(nodes, i, n);
    BlitOutside(file[..], i, nodes.flat[i..i + n]);
    CopyTo(file, i, b.mem, ofs, n);
  }

  lemma RdCopied(f: seq<Byte>, g: seq<Byte>, lo: nat, n: nat, i: nat)
    requires lo + n <= |f| && lo + n <= |g| && lo <= i && i + 4 <= lo + n
    requires forall x :: lo <= x < lo + n ==> f[x] == g[x]
    ensures Rd(f, i) == Rd(g, i)
  {
    assert f[i..i + 4] == g[i..i + 4];
    RdSame(f, i, g, i);
  }

  lemma CopiedWord(f: seq<Byte>, g: seq<Byte>, flat: seq<Byte>, i: nat, n: nat, x: nat)
    requires Copied(f, g, flat, i, n) && i <= x && x + 4 <= i + n
    ensures Rd(g, x) == Rd(flat, x)
  {
    RdCopied(g, flat, i, n, x);
  }

  lemma CopiedOperands(t: Codes, m: Image, f: seq<Byte>, g: seq<Byte>, i: nat)
    requires CodesOk(t) && i < |m.flat| && i + Size(t, m.flat, i) <= |m.flat|
    requires Copied(f, g, m.flat, i, Size(t, m.flat, i))
    ensures forall j :: 0 <= j < Arity(t, m.flat, i) ==> Operand(g, i, j) == Operand(m.flat, i, j)
  {
    hide Rd;
    forall j | 0 <= j < Arity(t, m.flat, i) ensures Operand(g, i, j) == Operand(m.flat, i, j) {
      CopiedWord(f, g, m.flat, i, Size(t, m.flat, i), i + 4 + 4 * j);
    }
  }

  /** A leaf without pointers is written by copying it. */
  lemma LeafWritten(t: Codes, m: Image, s: Image, f: seq<Byte>, g: seq<Byte>, i: nat)
    requires CodesOk(t) && i < |m.flat| && i + Size(t, m.flat, i) <= m.len <= |m.flat| && |f| == m.len + s.len
    requires Copied(f, g, m.flat, i, Size(t, m.flat, i)) && Arity(t, m.flat, i) == 0 && m.flat[i] != t.str
    ensures WrittenAt(t, m, s, g, i) && OwnString(t, m, s, f, g, i)
    ensures Stepped(f, g, i, i + Size(t, m.flat, i), m.len, s.flat)
  {
    hide Rd;
    RdCopied(g, m.flat, i, Size(t, m.flat, i), i);
  }

  /** An inner node is written by copying it and converting its operands. */
  lemma InnerWritten(t: Codes, m: Image, s: Image, f: seq<Byte>, g: seq<Byte>, h: seq<Byte>, i: nat)
    requires CodesOk(t) && i < |m.flat| && i + Size(t, m.flat, i) <= m.len <= |m.flat| && |f| == m.len + s.len
    requires Copied(f, g, m.flat, i, Size(t, m.flat, i)) && Arity(t, m.flat, i) > 0
    requires SameOutside(g, h, i + 4, i + Size(t, m.flat, i))
    requires forall j :: 0 <= j < Arity(t, m.flat, i) ==> OperandWritten(m, h, i, j)
    ensures WrittenAt(t, m, s, h, i) && OwnString(t, m, s, f, h, i)
    ensures Stepped(f, h, i, i + Size(t, m.flat, i), m.len, s.flat)
  {
    hide Rd, OperandWritten;
    RdCopied(g, m.flat, i, Size(t, m.flat, i), i);
    RdKept(g, h, i);
  }

  /** A string node is written by copying it, converting its pointer and copying its bytes. */
  lemma StringNodeWritten(t: Codes, m: Image, s: Image, f: seq<Byte>, g: seq<Byte>, h: seq<Byte>, i: nat, ok: bool)
    requires CodesOk(t) && i < |m.flat| && i + 8 <= m.len <= |m.flat| && |f| == m.len + s.len
    requires Copied(f, g, m.flat, i, 8) && m.flat[i] == t.str && |h| == |g| && h[i] == g[i]
    requires Stepped(g, h, i + 4, i + 8, m.len, s.flat)
    requires Elsewhere(s, Operand(m.flat, i, 0), StrLen(m.flat, i), g, h, m.len)
    requires ok ==> StringWritten(m, s, h, i) && Rd(h, i) == Rd(m.flat, i)
    ensures ok ==> WrittenAt(t, m, s, h, i)
    ensures OwnString(t, m, s, f, h, i) && Stepped(f, h, i, i + 8, m.len, s.flat)
  {
    hide Rd, StringWritten, InString;
    assert Arity(t, m.flat, i) == 0;
  }

  lemma OffsBelow(t: Codes, m: Image, offs: seq<nat>)
    requires Nodes(t, m.flat, offs, m.len)
    ensures forall k :: 0 <= k < |offs| ==> offs[k] < m.len
  {
    forall k | 0 <= k < |offs| ensures offs[k] < m.len {
      assert NodeAt(t, m.flat, offs, m.len, k);
    }
  }

  /** Copy the node at `i` to the file and turn its pointers into offsets; fails on a string node without bytes. */
  method WriteNode(t: Codes, nodes: Arena, strings: Arena, file: array<Byte>, memSeg: nat, i: nat, b: Block, ofs: nat,
                   ghost offs: seq<nat>, ghost k: nat)
      returns (ok: bool)
    requires nodes.Valid() && strings.Valid() && nodes != strings && Apart(nodes, file) && Apart(strings, file)
    requires Heap(t, nodes.image(), strings.image(), offs) && k < |offs| && i == offs[k] && i / BLOCK < |nodes.blocks|
    requires b == nodes.blocks[i / BLOCK] && ofs == i % BLOCK && file.Length == nodes.current + strings.current <= WORD
    requires i < |nodes.flat| && i + Size(t, nodes.flat, i) <= nodes.current && b.mem.Length == BLOCK
    requires b.mem[ofs] == nodes.flat[i]
    modifies nodes`cache, strings`cache, file
    ensures nodes.Valid() && strings.Valid() && i + Size(t, nodes.flat, i) <= |nodes.flat|
    ensures ok == (nodes.flat[i] == t.str ==> Operand(nodes.flat, i, 0) != 0)
    ensures ok ==> WrittenAt(t, nodes.image(), strings.image(), file[..], i)
    ensures Stepped(old(file[..]), file[..], i, i + Size(t, nodes.flat, i), nodes.current, strings.flat)
    ensures OwnString(t, nodes.image(), strings.image(), old(file[..]), file[..], i)
  {
    hide Rd, Arena.Chain, Arena.Contents, IsNode, IsString, ImageOk, NodeAt, OperandWritten, StringWritten;
    hide WrittenAt, OwnString, Stepped, Copied, Elsewhere;
    LenOk(nodes);
    LenOk(strings);
    assert NodeAt(t, nodes.flat, offs, nodes.current, k);
    NodeFits(t, nodes.image(), offs, k);
    ghost var m, s, f0 := nodes.image(), strings.image(), file[..];
    var code := b.mem[ofs];
    var n := t.size[code];
    CopyNode(nodes, file, i, b, ofs, n);
    ghost var f1 := file[..];
    ok := true;
    if t.arity[code] > 0 {
      CopiedOperands(t, m, f0, f1, i);
      OffsBelow(t, m, offs);
      WriteOperands(nodes, file, memSeg, i, b, ofs, t.arity[code], offs);
      assert nodes.image() == m;
      InnerWritten(t, m, s, f0, f1, file[..], i);
    } else if code == t.str {
      CopiedWord(f0, f1, m.flat, i, n, i);
      BlockWord(nodes, i, 4);
      var w := Load(b.mem, ofs + 4);
      ok := WriteString(strings, file, memSeg, i, w, nodes.current, m);
      StringNodeWritten(t, m, s, f0, f1, file[..], i, ok);
    } else {
      LeafWritten(t, m, s, f0, f1, i);
    }
  }

  lemma FlatIs(a: Arena)
    requires a.Valid()
    ensures |a.flat| == |a.blocks| * BLOCK
  {}

  lemma ByteAt(a: Arena, i: nat)
    requires a.Valid() && i / BLOCK < |a.blocks|
    ensures var b := a.blocks[i / BLOCK]; b.mem.Length == BLOCK && i < |a.flat| && b.mem[i % BLOCK] == a.flat[i]
  {
    BlockBytes(a, i, 1);
    var mem := a.blocks[i / BLOCK].mem;
    assert mem[..][i % BLOCK..i % BLOCK + 1][0] == mem[i % BLOCK] && a.flat[i..i + 1][0] == a.flat[i];
  }

  /** Move from `i` over padding to the next node, or to the end of the arena. */
  method SkipPadding(nodes: Arena, i0: nat, b0: Block, ofs0: nat, ghost e: nat) returns (i: nat, b: Block?, ofs: nat)
    requires nodes.Valid() && i0 / BLOCK < |nodes.blocks| && b0 == nodes.blocks[i0 / BLOCK] && ofs0 == i0 % BLOCK
    requires i0 <= e <= nodes.current <= |nodes.flat| && (e - i0) % 4 == 0
    requires e < nodes.current ==> nodes.flat[e] != DOT
    requires forall x :: i0 <= x < e ==> nodes.flat[x] == DOT
    modifies nodes`cache
    ensures nodes.Valid() && (b == null <==> e / BLOCK >= |nodes.blocks|)
    ensures b != null ==> i == e && b == nodes.blocks[i / BLOCK] && ofs == i % BLOCK
  {
    hide Arena.Chain, Arena.Contents, ImageOk;
    i, b, ofs := i0, b0, ofs0;
    FlatIs(nodes);
    while true
      invariant nodes.Valid() && i0 <= i <= e && (e - i) % 4 == 0 && i / BLOCK < |nodes.blocks|
      invariant b == nodes.blocks[i / BLOCK] && ofs == i % BLOCK
      decreases e - i
    {
      ByteAt(nodes, i);
      if !(i < nodes.current && b.mem[ofs] == DOT) {
        break;
      }
      i := i + 4;
      b, ofs := nodes.Idx2Address(i);
      if b == null {
        return;
      }
    }
  }

  /** The state of the write loop: `k` nodes are done and `i` is where the next one starts. */
  ghost predicate Writing(t: Codes, nodes: Arena, strings: Arena, file: array<Byte>, offs: seq<nat>, k: nat, i: nat,
                          b: Block?, ofs: nat)
    reads nodes, nodes.blocks, set k | 0 <= k < |nodes.blocks| :: nodes.blocks[k].mem
    reads strings, strings.blocks, set k | 0 <= k < |strings.blocks| :: strings.blocks[k].mem
    reads file
  {
    && nodes.Valid() && strings.Valid() && nodes != strings && Apart(nodes, file) && Apart(strings, file)
    && file.Length == nodes.current + strings.current <= WORD && Heap(t, nodes.image(), strings.image(), offs)
    && Progress(t, nodes.image(), strings.image(), offs, file[..], k)
    && i == (if k < |offs| then offs[k] else nodes.current)
    && i / BLOCK < |nodes.blocks| && b == nodes.blocks[i / BLOCK] && ofs == i % BLOCK
  }

  /** The strings of the first `k` nodes have their bytes. */
  ghost predicate SetUpTo(t: Codes, m: Image, offs: seq<nat>, k: nat)
  {
    && Nodes(t, m.flat, offs, m.len) && k <= |offs|
    && forall j :: 0 <= j < k && NodeAt(t, m.flat, offs, m.len, j) && m.flat[offs[j]] == t.str ==>
        Operand(m.flat, offs[j], 0) != 0
  }

  lemma NodeEnd(t: Codes, m: Image, offs: seq<nat>, k: nat)
    requires Nodes(t, m.flat, offs, m.len) && k < |offs| && NodeAt(t, m.flat, offs, m.len, k) && offs[k] < |m.flat|
    ensures var e, i := End(offs, m.len, k), offs[k] + Size(t, m.flat, offs[k]);
            && i <= e <= m.len && (e - i) % 4 == 0 && (e < m.len ==> m.flat[e] != DOT)
            && (forall x :: i <= x < e ==> m.flat[x] == DOT)
            && (k + 1 < |offs| ==> e < m.len) && (k + 1 == |offs| ==> i == e)
  {
    if k + 1 < |offs| {
      assert NodeAt(t, m.flat, offs, m.len, k + 1);
    }
  }

  /** One turn of the write loop. */
  method WriteTurn(t: Codes, nodes: Arena, strings: Arena, file: array<Byte>, memSeg: nat, i: nat, b: Block, ofs: nat,
                   ghost offs: seq<nat>, ghost k: nat)
      returns (ok: bool, i': nat, b': Block?, ofs': nat)
    requires Writing(t, nodes, strings, file, offs, k, i, b, ofs) && k < |offs| && SetUpTo(t, nodes.image(), offs, k)
    modifies nodes`cache, strings`cache, file
    ensures ok ==> Writing(t, nodes, strings, file, offs, k + 1, i', b', ofs') && SetUpTo(t, nodes.image(), offs, k + 1)
    ensures nodes.Valid() && strings.Valid()
    ensures !ok ==> (k + 1 == |offs| && nodes.current >= |nodes.flat|) || !StringsSet(t, nodes.image(), offs)
  {
    hide Rd, Wr, Blit, Arena.Chain, Arena.Contents, IsNode, IsString, ImageOk, NodeAt, WrittenAt, Stepped, Progress,
        Addr;
    ghost var m, s, f0 := nodes.image(), strings.image(), file[..];
    LenOk(nodes);
    FlatIs(nodes);
    assert NodeAt(t, m.flat, offs, m.len, k);
    NodeFits(t, m, offs, k);
    NodeEnd(t, m, offs, k);
    ByteAt(nodes, i);
    i', b', ofs' := i, b, ofs;
    ok := WriteNode(t, nodes, strings, file, memSeg, i, b, ofs, offs, k);
    if !ok {
      return;
    }
    ProgressStep(t, m, s, offs, f0, file[..], k);
    i' := i + t.size[b.mem[ofs]];
    b', ofs' := nodes.Idx2Address(i');
    if b' == null {
      ok := false;
      return;
    }
    i', b', ofs' := SkipPadding(nodes, i', b', ofs', End(offs, m.len, k));
    if b' == null {
      ok := false;
    }
  }

  lemma AllDone(t: Codes, m: Image, offs: seq<nat>, k: nat, i: nat)
    requires Nodes(t, m.flat, offs, m.len) && k <= |offs| && i == (if k < |offs| then offs[k] else m.len) && i >= m.len
    ensures k == |offs|
  {
    OffsBelow(t, m, offs);
  }

  lemma BlankProgress(t: Codes, m: Image, s: Image, offs: seq<nat>, f: seq<Byte>)
    requires Nodes(t, m.flat, offs, m.len) && |f| == m.len + s.len && (f != [] ==> Blank(f)) && ImageOk(s)
    ensures Progress(t, m, s, offs, f, 0)
  {}

  /** gs_write: `ok` is false where the original dereferences a null pointer or aborts. */
  method Write(t: Codes, nodes: Arena, strings: Arena, file: array<Byte>, memSeg: nat, ghost offs: seq<nat>)
    returns (ok: bool)
    requires nodes.Valid() && strings.Valid() && nodes != strings && Apart(nodes, file) && Apart(strings, file)
    requires Heap(t, nodes.image(), strings.image(), offs)
    requires file.Length == nodes.current + strings.current <= WORD && (file.Length > 0 ==> Blank(file[..]))
    modifies nodes`cache, strings`cache, file
    ensures nodes.Valid() && strings.Valid()
    ensures ok <==> 0 < nodes.current < |nodes.flat| && StringsSet(t, nodes.image(), offs)
    ensures ok ==> Written(t, nodes.image(), strings.image(), offs, file[..])
  {
    hide Rd, Wr, Blit, Arena.Chain, Arena.Contents, IsNode, IsString, ImageOk, NodeAt, WrittenAt, Stepped, Progress;
    FlatIs(nodes);
    LenOk(nodes);
    var i: nat := 0;
    var b, ofs := nodes.Idx2Address(0);
    if b == null {
      return false;
    }
    ImageIs(strings);
    BlankProgress(t, nodes.image(), strings.image(), offs, file[..]);
    ghost var k := 0;
    ok := true;
    while i < nodes.current
      invariant b != null && Writing(t, nodes, strings, file, offs, k, i, b, ofs) && k <= |offs|
      invariant SetUpTo(t, nodes.image(), offs, k)
      invariant ok
      decreases |offs| - k
    {
      ok, i, b, ofs := WriteTurn(t, nodes, strings, file, memSeg, i, b, ofs, offs, k);
      k := k + 1;
      if !ok {
        return;
      }
    }
    AllDone(t, nodes.image(), offs, k, i);
    AllWritten(t, nodes.image(), strings.image(), offs, file[..]);
  }
}
