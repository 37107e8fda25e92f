/**
 Memory as bytes: little-endian 32-bit words and block copies.
 */
module Bytes {
  const WORD: nat := 0x1_0000_0000

  type Byte = b: nat | b < 0x100

  /** The word at offset `i`. */
  function Rd(s: seq<Byte>, i: nat): (w: nat)
    requires i + 4 <= |s|
    ensures w < WORD
  {
    (s[i] as int) + 0x100 * (s[i + 1] as int) + 0x10000 * (s[i + 2] as int) + 0x1000000 * (s[i + 3] as int)
  }

  function Split(w: nat): (s: seq<Byte>)
    requires w < WORD
    ensures |s| == 4
  {
    [w % 0x100, w / 0x100 % 0x100, w / 0x10000 % 0x100, w / 0x1000000]
  }

  /** `s` with the bytes `t` stored at offset `i`. */
  function Blit(s: seq<Byte>, i: nat, t: seq<Byte>): (r: seq<Byte>)
    requires i + |t| <= |s|
    ensures |r| == |s|
  {
    s[..i] + t + s[i + |t|..]
  }

  function Wr(s: seq<Byte>, i: nat, w: nat): (r: seq<Byte>)
    requires i + 4 <= |s| && w < WORD
    ensures |r| == |s|
  {
    Blit(s, i, Split(w))
  }

  lemma BlitAt(s: seq<Byte>, i: nat, t: seq<Byte>, x: nat)
    requires i + |t| <= |s| && x < |s|
    ensures Blit(s, i, t)[x] == if i <= x < i + |t| then t[x - i] else s[x]
  {}

  lemma BlitBack(s: seq<Byte>, i: nat, t: seq<Byte>)
    requires i + |t| <= |s|
    ensures Blit(s, i, t)[i..i + |t|] == t
  {}

  /** Equal bytes make equal words. */
  lemma RdSame(s: seq<Byte>, i: nat, t: seq<Byte>, j: nat)
    requires i + 4 <= |s| && j + 4 <= |t| && s[i..i + 4] == t[j..j + 4]
    ensures Rd(s, i) == Rd(t, j)
  {
    assert s[i] == s[i..i + 4][0] && s[i + 1] == s[i..i + 4][1] && s[i + 2] == s[i..i + 4][2]
        && s[i + 3] == s[i..i + 4][3];
    assert t[j] == t[j..j + 4][0] && t[j + 1] == t[j..j + 4][1] && t[j + 2] == t[j..j + 4][2]
        && t[j + 3] == t[j..j + 4][3];
  }

  lemma SplitRd(w: nat)
    requires w < WORD
    ensures Rd(Split(w), 0) == w
  {
    var a, b := w / 0x100, w / 0x10000;
    assert a / 0x100 == b && b / 0x100 == w / 0x1000000;
  }

  lemma RdWr(s: seq<Byte>, i: nat, w: nat)
    requires i + 4 <= |s| && w < WORD
    ensures Rd(Wr(s, i, w), i) == w
  {
    SplitRd(w);
    assert Wr(s, i, w)[i..i + 4] == Split(w)[0..0 + 4];
    RdSame(Wr(s, i, w), i, Split(w), 0);
  }

  lemma RdWrOther(s: seq<Byte>, i: nat, w: nat, j: nat)
    requires i + 4 <= |s| && w < WORD && j + 4 <= |s| && (j + 4 <= i || i + 4 <= j)
    ensures Rd(Wr(s, i, w), j) == Rd(s, j)
  {
    forall x | j <= x < j + 4 ensures Wr(s, i, w)[x] == s[x] {
      BlitAt(s, i, Split(w), x);
    }
    assert Wr(s, i, w)[j..j + 4] == s[j..j + 4];
    RdSame(Wr(s, i, w), j, s, j);
  }

  method Load(a: array<Byte>, i: nat) returns (w: nat)
    requires i + 4 <= a.Length
    ensures w == Rd(a[..], i)
  {
    w := (a[i] as int) + 0x100 * (a[i + 1] as int) + 0x10000 * (a[i + 2] as int) + 0x1000000 * (a[i + 3] as int);
  }

  method StoreBytes(a: array<Byte>, i: nat, t: seq<Byte>)
    requires i + |t| <= a.Length
    modifies a
    ensures a[..] == Blit(old(a[..]), i, t)
  {
    for x := 0 to |t|
      invariant forall y :: 0 <= y < a.Length ==> a[y] == if i <= y < i + x then t[y - i] else old(a[y])
    {
      a[i + x] := t[x];
    }
    forall y | 0 <= y < a.Length ensures a[..][y] == Blit(old(a[..]), i, t)[y] {
      BlitAt(old(a[..]), i, t, y);
    }
  }

  method Store(a: array<Byte>, i: nat, w: nat)
    requires i + 4 <= a.Length && w < WORD
    modifies a
    ensures a[..] == Wr(old(a[..]), i, w)
  {
    StoreBytes(a, i, Split(w));
  }

  /** memcpy */
  method CopyTo(a: array<Byte>, i: nat, src: array<Byte>, j: nat, n: nat)
    requires a != src && i + n <= a.Length && j + n <= src.Length
    modifies a
    ensures a[..] == Blit(old(a[..]), i, src[j..j + n])
  {
    StoreBytes(a, i, src[j..j + n]);
  }
}
