/**
 The node heap that is serialised, and what its serialised and its reloaded forms hold.
 */
module SpinHeap {
  import opened Bytes
  import opened Mempool

  const DOT: nat := 0
  /** The low bits of a node's first word: 8 bits of code and the emitted flag; the rest is a string length. */
  const LEN_UNIT: nat := 512

  /** Arity and size in bytes of each code, and the code of string nodes. */
  datatype Codes = Codes(arity: seq<nat>, size: seq<nat>, str: Byte)

  ghost predicate CodesOk(t: Codes)
  {
    && |t.arity| == |t.size| == 0x100
    && (forall c :: 0 <= c < 0x100 ==> t.size[c] % 4 == 0 && 4 <= t.size[c] <= BLOCK)
    && (forall c :: 0 <= c < 0x100 && t.arity[c] > 0 ==> t.size[c] == 4 * (1 + t.arity[c]))
    && t.str != DOT && t.arity[t.str] == 0 && t.size[t.str] == 8
  }

  function Size(t: Codes, f: seq<Byte>, o: nat): (n: nat)
    requires CodesOk(t) && o < |f|
    ensures 4 <= n <= BLOCK && n % 4 == 0
  {
    t.size[f[o]]
  }

  function Arity(t: Codes, f: seq<Byte>, o: nat): (n: nat)
    requires CodesOk(t) && o < |f|
    ensures n > 0 ==> Size(t, f, o) == 4 * (1 + n)
  {
    t.arity[f[o]]
  }

  /** Where the part of the image that belongs to node `k` ends. */
  function End(offs: seq<nat>, len: nat, k: nat): nat
    requires k < |offs|
  {
    if k + 1 < |offs| then offs[k + 1] else len
  }

  /** Node `k` is at its offset, within one block, and only zero padding separates it from the next. */
  ghost predicate NodeAt(t: Codes, f: seq<Byte>, offs: seq<nat>, len: nat, k: nat)
    requires CodesOk(t) && k < |offs| && len <= |f|
  {
    var o, e := offs[k], End(offs, len, k);
    && o < e <= len && f[o] != DOT
    && var n := Size(t, f, o);
       && o + n <= e && (e - o - n) % 4 == 0 && (k + 1 == |offs| ==> o + n == e) && o % BLOCK + n <= BLOCK
       && forall x :: o + n <= x < e ==> f[x] == DOT
  }

  /** The nodes at `offs` fill the first `len` bytes. */
  ghost predicate Nodes(t: Codes, f: seq<Byte>, offs: seq<nat>, len: nat)
  {
    && CodesOk(t) && len <= |f| && (offs == [] <==> len == 0) && (offs != [] ==> offs[0] == 0)
    && forall k :: 0 <= k < |offs| ==> NodeAt(t, f, offs, len, k)
  }

  function Operand(f: seq<Byte>, o: nat, j: nat): (w: nat)
    requires o + 4 + 4 * j + 4 <= |f|
    ensures w < WORD
  {
    Rd(f, o + 4 + 4 * j)
  }

  function StrLen(f: seq<Byte>, o: nat): nat
    requires o + 4 <= |f|
  {
    Rd(f, o) / LEN_UNIT
  }

  /** `w` is the address of a node. */
  ghost predicate IsNode(bases: seq<nat>, offs: seq<nat>, w: nat)
  {
    exists m :: 0 <= m < |offs| && offs[m] / BLOCK < |bases| && Addr(bases, offs[m]) == w
  }

  ghost predicate StringAt(s: Image, w: nat, n: nat, x: nat)
  {
    x / BLOCK < |s.bases| && Addr(s.bases, x) == w && x < s.len && x + n <= s.len && x % BLOCK + n <= BLOCK
  }

  /** `w` is the address of `n` allocated bytes in one block of the string arena. */
  ghost predicate IsString(s: Image, w: nat, n: nat)
  {
    exists x :: StringAt(s, w, n, x)
  }

  /** Pointers of the node at `o` are null or lead to nodes and strings. */
  ghost predicate PointersAt(t: Codes, m: Image, s: Image, offs: seq<nat>, o: nat)
    requires CodesOk(t) && o < |m.flat| && o + Size(t, m.flat, o) <= |m.flat|
  {
    && (forall j :: 0 <= j < Arity(t, m.flat, o) ==>
        Operand(m.flat, o, j) == 0 || IsNode(m.bases, offs, Operand(m.flat, o, j)))
    && (m.flat[o] == t.str ==> Operand(m.flat, o, 0) == 0 || IsString(s, Operand(m.flat, o, 0), StrLen(m.flat, o)))
  }

  /** A heap built by the node constructors and setters. */
  ghost predicate Heap(t: Codes, m: Image, s: Image, offs: seq<nat>)
  {
    && ImageOk(m) && ImageOk(s) && Nodes(t, m.flat, offs, m.len)
    && forall k :: 0 <= k < |offs| ==> NodeAt(t, m.flat, offs, m.len, k) && PointersAt(t, m, s, offs, offs[k])
  }

  /** Every string node has been given its bytes. */
  ghost predicate StringsSet(t: Codes, m: Image, offs: seq<nat>)
    requires Nodes(t, m.flat, offs, m.len)
  {
    forall k :: 0 <= k < |offs| && NodeAt(t, m.flat, offs, m.len, k) && m.flat[offs[k]] == t.str ==>
        Operand(m.flat, offs[k], 0) != 0
  }

  ghost predicate OperandWritten(m: Image, f: seq<Byte>, o: nat, j: nat)
    requires o + 4 + 4 * j + 4 <= |f| && o + 4 + 4 * j + 4 <= |m.flat|
  {
    var w, r := Operand(m.flat, o, j), Operand(f, o, j);
    if w == 0 then r == 0 else r / BLOCK < |m.bases| && Addr(m.bases, r) == w
  }

  ghost predicate StringWritten(m: Image, s: Image, f: seq<Byte>, o: nat)
    requires o + 8 <= |f| && o + 8 <= |m.flat| && m.len + s.len <= |f|
  {
    var x, n := Operand(f, o, 0) - m.len, StrLen(m.flat, o);
    && x >= 0 && StringAt(s, Operand(m.flat, o, 0), n, x) && s.len <= |s.flat|
    && forall y :: x <= y < x + n ==> f[m.len + y] == s.flat[y]
  }

  /** The node at `o` as the file has it: operands are offsets of nodes, a string is an offset behind the nodes. */
  ghost predicate WrittenAt(t: Codes, m: Image, s: Image, f: seq<Byte>, o: nat)
    requires CodesOk(t) && o < |m.flat| && o + Size(t, m.flat, o) <= |m.flat|
  {
    && m.len + s.len <= |f| && o + Size(t, m.flat, o) <= |f| && f[o] == m.flat[o] && Rd(f, o) == Rd(m.flat, o)
    && (forall j :: 0 <= j < Arity(t, m.flat, o) ==> OperandWritten(m, f, o, j))
    && (m.flat[o] == t.str ==> StringWritten(m, s, f, o))
    && (Arity(t, m.flat, o) == 0 && m.flat[o] != t.str ==>
        forall x :: o <= x < o + Size(t, m.flat, o) ==> f[x] == m.flat[x])
  }

  /** Byte `y` of the string arena belongs to the string of `n` bytes at address `w`. */
  ghost predicate InString(s: Image, w: nat, n: nat, y: nat)
  {
    exists x: nat :: StringAt(s, w, n, x) && x <= y < x + n
  }

  /** Byte `y` of the string arena belongs to the string of the node at `o`. */
  ghost predicate Covers(t: Codes, m: Image, s: Image, o: nat, y: nat)
    requires CodesOk(t) && o < |m.flat| && o + Size(t, m.flat, o) <= |m.flat|
  {
    m.flat[o] == t.str && InString(s, Operand(m.flat, o, 0), StrLen(m.flat, o), y)
  }

  /** Byte `y` of the string arena belongs to the string of one of the first `k` nodes. */
  ghost predicate Covered(t: Codes, m: Image, s: Image, offs: seq<nat>, k: nat, y: nat)
    requires Nodes(t, m.flat, offs, m.len) && k <= |offs|
  {
    exists j :: 0 <= j < k && NodeAt(t, m.flat, offs, m.len, j) && Covers(t, m, s, offs[j], y)
  }

  /** A new file of `n` bytes: zeros, and a blank written as its last byte to give it its length. */
  function BlankByte(n: nat, x: nat): Byte
  {
    if x + 1 == n then 32 else 0
  }

  ghost predicate SectionByte(t: Codes, m: Image, s: Image, offs: seq<nat>, f: seq<Byte>, k: nat, y: nat)
    requires Nodes(t, m.flat, offs, m.len) && k <= |offs| && |f| == m.len + s.len && y < s.len <= |s.flat|
  {
    f[m.len + y] == if Covered(t, m, s, offs, k, y) then s.flat[y] else BlankByte(|f|, m.len + y)
  }

  /** Behind the nodes are the strings of the first `k` nodes, and otherwise what a new file holds. */
  ghost predicate SectionDone(t: Codes, m: Image, s: Image, offs: seq<nat>, f: seq<Byte>, k: nat)
    requires Nodes(t, m.flat, offs, m.len) && k <= |offs|
  {
    && |f| == m.len + s.len && s.len <= |s.flat|
    && forall y :: 0 <= y < s.len ==> SectionByte(t, m, s, offs, f, k, y)
  }

  /** The file holds all nodes, with zeros between them, and their strings. */
  ghost predicate Written(t: Codes, m: Image, s: Image, offs: seq<nat>, f: seq<Byte>)
    requires Nodes(t, m.flat, offs, m.len)
  {
    && Nodes(t, f, offs, m.len) && SectionDone(t, m, s, offs, f, |offs|)
    && forall k :: 0 <= k < |offs| ==> NodeAt(t, m.flat, offs, m.len, k) && WrittenAt(t, m, s, f, offs[k])
  }
}
