/**
 gs_read: turn the offsets in a file back into addresses.
 */
module SpinRead {
  import opened Bytes
  import opened Mempool
  import opened SpinHeap
  import opened SpinWrite

  /** An offset in a file mapped at address `base`, as an address; zero stays null. */
  function Relocated(base: nat, w: nat): nat
  {
    if w == 0 then 0 else base + w
  }

  /** The node at `o` after reading (`g`) compared with the file (`f`). */
  ghost predicate ReadAt(t: Codes, f: seq<Byte>, g: seq<Byte>, base: nat, o: nat)
    requires CodesOk(t) && o < |f| == |g| && o + Size(t, f, o) <= |f|
  {
    && g[o] == f[o] && Rd(g, o) == Rd(f, o)
    && (forall j :: 0 <= j < Arity(t, f, o) ==> Operand(g, o, j) == Relocated(base, Operand(f, o, j)))
    && (f[o] == t.str ==> Operand(g, o, 0) == base + Operand(f, o, 0))
    && (Arity(t, f, o) == 0 && f[o] != t.str ==> forall x :: o <= x < o + Size(t, f, o) ==> g[x] == f[x])
  }

  /** Offsets in the node at `o` lie in the file, those of strings behind the nodes. */
  ghost predicate InRange(t: Codes, f: seq<Byte>, len: nat, o: nat)
    requires CodesOk(t) && o < |f| && o + Size(t, f, o) <= |f|
  {
    && (forall j :: 0 <= j < Arity(t, f, o) ==> Operand(f, o, j) < |f|)
    && (f[o] == t.str ==> len <= Operand(f, o, 0) < |f|)
  }

  ghost predicate Readable(t: Codes, f: seq<Byte>, offs: seq<nat>, len: nat)
  {
    && Nodes(t, f, offs, len) && offs != []
    && forall k :: 0 <= k < |offs| ==> NodeAt(t, f, offs, len, k) && InRange(t, f, len, offs[k])
  }

  /** Where the string section is taken to start after `k` nodes: at the string of the first string node. */
  ghost function Section(t: Codes, f: seq<Byte>, offs: seq<nat>, len: nat, k: nat): (sec: nat)
    requires Readable(t, f, offs, len) && k <= |offs|
    ensures len <= sec
  {
    if k == 0 then WORD + |f|
    else
      var sec := Section(t, f, offs, len, k - 1);
      assert NodeAt(t, f, offs, len, k - 1) && InRange(t, f, len, offs[k - 1]);
      if sec >= |f| && f[offs[k - 1]] == t.str then Operand(f, offs[k - 1], 0) else sec
  }

  /** Stepping by words from `p`, only zero bytes are met before the string section or the end. */
  predicate Blanks(f: seq<Byte>, p: nat, sec: nat)
    decreases |f| - p
  {
    p >= |f| || p >= sec || (f[p] == DOT && Blanks(f, p + 4, sec))
  }

  /** Every fourth byte from `p` to the string section or the end is zero. */
  ghost predicate AllBlank(f: seq<Byte>, p: nat, sec: nat)
  {
    forall x :: p <= x < |f| && x < sec && (x - p) % 4 == 0 ==> f[x] == DOT
  }

  lemma {:induction false} BlanksIff(f: seq<Byte>, p: nat, sec: nat)
    ensures Blanks(f, p, sec) <==> AllBlank(f, p, sec)
    decreases |f| - p
  {
    if p < |f| && p < sec {
      BlanksIff(f, p + 4, sec);
      if f[p] == DOT && AllBlank(f, p + 4, sec) {
        forall x | p <= x < |f| && x < sec && (x - p) % 4 == 0 ensures f[x] == DOT {
          assert x == p || (x >= p + 4 && (x - (p + 4)) % 4 == 0);
        }
      }
      if AllBlank(f, p, sec) {
        forall x | p + 4 <= x < |f| && x < sec && (x - (p + 4)) % 4 == 0 ensures f[x] == DOT {
          assert (x - p) % 4 == 0;
        }
      }
    }
  }

  /** Read the node at `o` and relocate what it points to. */
  method ReadOperands(file: array<Byte>, base: nat, o: nat, arity: nat)
    requires o + 4 + 4 * arity <= file.Length && 0 < base && base + file.Length <= WORD
    requires forall j :: 0 <= j < arity ==> Operand(file[..], o, j) < file.Length
    modifies file
    ensures SameOutside(old(file[..]), file[..], o + 4, o + 4 + 4 * arity)
    ensures forall j :: 0 <= j < arity ==> Operand(file[..], o, j) == Relocated(base, Operand(old(file[..]), o, j))
  {
    hide Rd, Wr;
    ghost var f := file[..];
    for j := 0 to arity
      invariant SameOutside(f, file[..], o + 4, o + 4 + 4 * j)
      invariant forall l :: 0 <= l < j ==> Operand(file[..], o, l) == Relocated(base, Operand(f, o, l))
    {
      ghost var g := file[..];
      RdKept(f, g, o + 4 + 4 * j);
      assert Operand(f, o, j) < file.Length;
      var w := Load(file, o + 4 + 4 * j);
      if w != 0 {
        WrOutside(g, o + 4 + 4 * j, base + w);
        Store(file, o + 4 + 4 * j, base + w);
        forall l | 0 <= l < j ensures Operand(file[..], o, l) == Relocated(base, Operand(f, o, l)) {
          RdKept(g, file[..], o + 4 + 4 * l);
        }
      }
    }
  }

  method ReadNode(t: Codes, file: array<Byte>, base: nat, o: nat, sec: nat, ghost len: nat) returns (sec': nat)
    requires CodesOk(t) && o < file.Length && o + Size(t, file[..], o) <= file.Length && InRange(t, file[..], len, o)
    requires 0 < base && base + file.Length <= WORD
    modifies file
    ensures ReadAt(t, old(file[..]), file[..], base, o)
    ensures SameOutside(old(file[..]), file[..], o, o + Size(t, old(file[..]), o))
    ensures sec' == if sec >= file.Length && old(file[o]) == t.str then Operand(old(file[..]), o, 0) else sec
  {
    hide Rd, Wr;
    ghost var f := file[..];
    sec' := sec;
    var code := file[o];
    if t.arity[code] > 0 {
      assert Arity(t, f, o) == t.arity[code];
      ReadOperands(file, base, o, t.arity[code]);
      RdKept(f, file[..], o);
    } else if code == t.str {
      var w := Load(file, o + 4);
      if sec >= file.Length {
        sec' := w;
      }
      WrOutside(f, o + 4, base + w);
      Store(file, o + 4, base + w);
      RdKept(f, file[..], o);
    }
  }

  /** `k` nodes are read; the rest of the file is untouched. */
  ghost predicate Reading(t: Codes, f: seq<Byte>, g: seq<Byte>, base: nat, offs: seq<nat>, len: nat, k: nat)
    requires Readable(t, f, offs, len)
  {
    && |g| == |f| && k <= |offs|
    && (forall j :: 0 <= j < k ==> NodeAt(t, f, offs, len, j) && ReadAt(t, f, g, base, offs[j]))
    && (forall x :: (if k < |offs| then offs[k] else len) <= x < |f| ==> g[x] == f[x])
  }

  lemma ReadKept(t: Codes, f: seq<Byte>, g: seq<Byte>, h: seq<Byte>, base: nat, o: nat, lo: nat, hi: nat)
    requires CodesOk(t) && o < |f| == |g| && o + Size(t, f, o) <= |f| && ReadAt(t, f, g, base, o)
    requires SameOutside(g, h, lo, hi) && o + Size(t, f, o) <= lo
    ensures ReadAt(t, f, h, base, o)
  {
    hide Rd;
    RdKept(g, h, o);
    forall j | 0 <= j < Arity(t, f, o) ensures Operand(h, o, j) == Relocated(base, Operand(f, o, j)) {
      RdKept(g, h, o + 4 + 4 * j);
    }
    if f[o] == t.str {
      RdKept(g, h, o + 4);
    }
  }

  /** A node not read yet looks in memory as in the file. */
  lemma StillThere(t: Codes, f: seq<Byte>, g: seq<Byte>, len: nat, o: nat)
    requires CodesOk(t) && o < |f| == |g| && o + Size(t, f, o) <= |f| && InRange(t, f, len, o)
    requires forall x :: o <= x < |f| ==> g[x] == f[x]
    ensures InRange(t, g, len, o) && Size(t, g, o) == Size(t, f, o) && Arity(t, g, o) == Arity(t, f, o)
    ensures Rd(g, o) == Rd(f, o)
    ensures forall j :: 0 <= j < Arity(t, f, o) ==> Operand(g, o, j) == Operand(f, o, j)
    ensures f[o] == t.str ==> Operand(g, o, 0) == Operand(f, o, 0)
  {
    hide Rd;
    RdKept(f, g, o);
    forall j | 0 <= j < Arity(t, f, o) ensures Operand(g, o, j) == Operand(f, o, j) {
      RdKept(f, g, o + 4 + 4 * j);
    }
    if f[o] == t.str {
      RdKept(f, g, o + 4);
    }
  }

  lemma ReadNew(t: Codes, f: seq<Byte>, g: seq<Byte>, h: seq<Byte>, base: nat, len: nat, o: nat)
    requires CodesOk(t) && o < |f| == |g| == |h| && o + Size(t, f, o) <= |f| && InRange(t, f, len, o)
    requires forall x :: o <= x < |f| ==> g[x] == f[x]
    requires Size(t, g, o) == Size(t, f, o) && ReadAt(t, g, h, base, o)
    ensures ReadAt(t, f, h, base, o)
  {
    hide Rd;
    StillThere(t, f, g, len, o);
    assert g[o] == f[o];
    forall j | 0 <= j < Arity(t, f, o) ensures Operand(h, o, j) == Relocated(base, Operand(f, o, j)) {
      assert Operand(h, o, j) == Relocated(base, Operand(g, o, j));
    }
  }

  lemma NodeSpan(t: Codes, f: seq<Byte>, offs: seq<nat>, len: nat, k: nat)
    requires CodesOk(t) && k < |offs| && len <= |f| && NodeAt(t, f, offs, len, k)
    ensures offs[k] < len && offs[k] + Size(t, f, offs[k]) <= End(offs, len, k) <= len && f[offs[k]] != DOT
    ensures (End(offs, len, k) - offs[k] - Size(t, f, offs[k])) % 4 == 0
    ensures forall x :: offs[k] + Size(t, f, offs[k]) <= x < End(offs, len, k) ==> f[x] == DOT
  {}

  lemma NodeFacts(t: Codes, f: seq<Byte>, g: seq<Byte>, base: nat, offs: seq<nat>, len: nat, k: nat)
    requires Readable(t, f, offs, len) && Reading(t, f, g, base, offs, len, k) && k < |offs|
    ensures CodesOk(t) && offs[k] < |f| == |g| && offs[k] + Size(t, f, offs[k]) <= End(offs, len, k) <= len <= |f|
    ensures InRange(t, f, len, offs[k])
    ensures (End(offs, len, k) - offs[k] - Size(t, f, offs[k])) % 4 == 0
    ensures forall x :: offs[k] + Size(t, f, offs[k]) <= x < End(offs, len, k) ==> f[x] == DOT
    ensures forall x :: offs[k] <= x < |f| ==> g[x] == f[x]
    ensures k + 1 < |offs| ==> End(offs, len, k) == offs[k + 1] < len && f[offs[k + 1]] != DOT
    ensures k + 1 == |offs| ==> End(offs, len, k) == len
  {
    hide Rd, ReadAt, InRange, NodeAt, CodesOk, Size;
    NodeSpan(t, f, offs, len, k);
    if k + 1 < |offs| {
      NodeSpan(t, f, offs, len, k + 1);
    }
  }

  lemma ReadingStep(t: Codes, f: seq<Byte>, g: seq<Byte>, h: seq<Byte>, base: nat, offs: seq<nat>, len: nat, k: nat)
    requires Readable(t, f, offs, len) && Reading(t, f, g, base, offs, len, k) && k < |offs| && |h| == |g|
    requires offs[k] < |f| && offs[k] + Size(t, f, offs[k]) <= |f|
    requires Size(t, g, offs[k]) == Size(t, f, offs[k])
    requires ReadAt(t, g, h, base, offs[k]) && SameOutside(g, h, offs[k], offs[k] + Size(t, g, offs[k]))
    ensures Reading(t, f, h, base, offs, len, k + 1)
  {
    hide Rd, ReadAt, InRange;
    NodeFacts(t, f, g, base, offs, len, k);
    forall j | 0 <= j <= k ensures NodeAt(t, f, offs, len, j) && ReadAt(t, f, h, base, offs[j]) {
      assert NodeAt(t, f, offs, len, j);
      if j < k {
        OffsMono(t, f, offs, len, j, k);
        ReadKept(t, f, g, h, base, offs[j], offs[k], offs[k] + Size(t, f, offs[k]));
      } else {
        ReadNew(t, f, g, h, base, len, offs[k]);
      }
    }
  }

  /** Step over zero words after a node. */
  method SkipBlanks(file: array<Byte>, p0: nat, sec: nat, ghost e: nat) returns (p: nat)
    requires p0 <= e <= file.Length && e <= sec && (e - p0) % 4 == 0 && forall x :: p0 <= x < e ==> file[x] == DOT
    ensures e <= p && (e < file.Length && e < sec && file[e] != DOT ==> p == e)
    ensures Blanks(file[..], e, sec) <==> p >= file.Length || p >= sec
  {
    p := p0;
    while p < file.Length && p < sec && file[p] == DOT
      invariant p0 <= p && (p <= e ==> (e - p) % 4 == 0) && (p > e ==> e < file.Length && e < sec && file[e] == DOT)
      invariant p >= e ==> (Blanks(file[..], e, sec) <==> Blanks(file[..], p, sec))
      decreases file.Length - p
    {
      p := p + 4;
    }
  }

  lemma {:induction false} BlanksSame(f: seq<Byte>, g: seq<Byte>, p: nat, sec: nat)
    requires |f| == |g| && forall x :: p <= x < |f| ==> f[x] == g[x]
    ensures Blanks(f, p, sec) == Blanks(g, p, sec)
    decreases |f| - p
  {
    if p < |f| && p < sec && f[p] == DOT {
      BlanksSame(f, g, p + 4, sec);
    }
  }

  lemma TableLength(t: Codes)
    requires CodesOk(t)
    ensures |t.size| == |t.arity| == 0x100
  {}

  method ReadTurn(t: Codes, file: array<Byte>, base: nat, p: nat, sec: nat, ghost offs: seq<nat>, ghost len: nat,
                  ghost k: nat, ghost f: seq<Byte>)
      returns (p': nat, sec': nat)
    requires Readable(t, f, offs, len) && Reading(t, f, file[..], base, offs, len, k) && k < |offs| && p == offs[k]
    requires sec == Section(t, f, offs, len, k) && 0 < base && base + file.Length <= WORD
    modifies file
    ensures Reading(t, f, file[..], base, offs, len, k + 1) && sec' == Section(t, f, offs, len, k + 1)
    ensures k + 1 < |offs| ==> p' == offs[k + 1] < len
    ensures k + 1 == |offs| ==> p' >= len && (Blanks(f, len, sec') <==> p' >= file.Length || p' >= sec')
  {
    hide Rd, ReadAt, Blanks, NodeAt, InRange, CodesOk, Nodes;
    ghost var g := file[..];
    NodeFacts(t, f, g, base, offs, len, k);
    StillThere(t, f, g, len, p);
    TableLength(t);
    var n := t.size[file[p]];
    sec' := ReadNode(t, file, base, p, sec, len);
    ReadingStep(t, f, g, file[..], base, offs, len, k);
    assert sec' == Section(t, f, offs, len, k + 1);
    ghost var e := End(offs, len, k);
    p' := SkipBlanks(file, p + n, sec', e);
    BlanksSame(f, file[..], e, sec');
  }

  /**
   gs_read on a file mapped at address `base`: `ok` is false when the loop would take bytes of the string section
   for a node, which happens exactly when the first string node does not lead to the start of that section and
   the bytes before its string are not blank.
   */
  method Read(t: Codes, file: array<Byte>, base: nat, ghost offs: seq<nat>, len: nat) returns (ok: bool)
    requires Readable(t, file[..], offs, len) && 0 < base && base + file.Length <= WORD
    modifies file
    ensures ok <==> Blanks(old(file[..]), len, Section(t, old(file[..]), offs, len, |offs|))
    ensures Readable(t, old(file[..]), offs, len) && Reading(t, old(file[..]), file[..], base, offs, len, |offs|)
  {
    hide Rd, ReadAt, Blanks, NodeAt, InRange, CodesOk;
    ghost var f, k := file[..], 0;
    var p: nat, sec := 0, WORD + file.Length;
    NodeFacts(t, f, f, base, offs, len, 0);
    assert Nodes(t, f, offs, len);
    while p < file.Length && p < sec && p < len
      invariant k <= |offs| && Reading(t, f, file[..], base, offs, len, k) && sec == Section(t, f, offs, len, k)
      invariant k < |offs| ==> p == offs[k] < len
      invariant k == |offs| ==> p >= len && (Blanks(f, len, sec) <==> p >= file.Length || p >= sec)
      decreases |offs| - k
    {
      p, sec := ReadTurn(t, file, base, p, sec, offs, len, k, f);
      k := k + 1;
    }
    ok := p >= file.Length || p >= sec;
  }
}
