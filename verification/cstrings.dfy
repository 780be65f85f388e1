/** NUL-terminated byte strings as the queue stores them, and the two C
    library routines the queue relies on: `strcmp` to order values and
    `strncpy` to copy them. */
module CStrings {

  /** An unsigned byte: the unit `strcmp` compares and `strncpy` writes. */
  newtype byte = b: int | 0 <= b < 256

  /** One byte of a string's contents: any byte except the NUL terminator. */
  newtype Char = c: int | 1 <= c < 256 witness 1

  /** The contents of a NUL-terminated string, terminator excluded. */
  type Str = seq<Char>

  function Min(a: int, b: int): int {
    if a <= b then a else b
  }

  /** `strcmp(a, b)`: the difference of the first pair of bytes that differ,
      where the terminator reads as byte 0. Callers only use its sign. */
  function Strcmp(a: Str, b: Str): (r: int)
    ensures r == 0 <==> a == b
    ensures -255 <= r <= 255
    decreases |a|
  {
    if |a| == 0 && |b| == 0 then 0
    else if |a| == 0 then 0 - b[0] as int
    else if |b| == 0 then a[0] as int
    else if a[0] != b[0] then a[0] as int - b[0] as int
    else
      assert a == [a[0]] + a[1..] && b == [b[0]] + b[1..];
      Strcmp(a[1..], b[1..])
  }

  /** The non-strict order the sort and the merge use: `strcmp(a, b) <= 0`. */
  predicate Leq(a: Str, b: Str) {
    Strcmp(a, b) <= 0
  }

  lemma {:induction false} StrcmpAntisymmetric(a: Str, b: Str)
    ensures Strcmp(b, a) == -Strcmp(a, b)
    decreases |a|
  {
    if |a| > 0 && |b| > 0 && a[0] == b[0] {
      StrcmpAntisymmetric(a[1..], b[1..]);
    }
  }

  lemma LeqReflexive(a: Str)
    ensures Leq(a, a)
  {}

  lemma LeqAntisymmetric(a: Str, b: Str)
    requires Leq(a, b) && Leq(b, a)
    ensures a == b
  {
    StrcmpAntisymmetric(a, b);
  }

  lemma LeqTotal(a: Str, b: Str)
    ensures Leq(a, b) || Leq(b, a)
  {
    StrcmpAntisymmetric(a, b);
  }

  lemma {:induction false} LeqTransitive(a: Str, b: Str, c: Str)
    requires Leq(a, b) && Leq(b, c)
    ensures Leq(a, c)
    decreases |a|
  {
    if |a| > 0 && |b| > 0 && |c| > 0 && a[0] == b[0] && b[0] == c[0] {
      LeqTransitive(a[1..], b[1..], c[1..]);
    }
  }

  /** Lexicographic order on strings, stated without `strcmp`: `a` is a
      proper prefix of `b`, or the first byte where they differ is smaller
      in `a`. */
  ghost predicate LexLess(a: Str, b: Str) {
    || (|a| < |b| && a == b[..|a|])
    || exists k :: 0 <= k < |a| && k < |b| && a[..k] == b[..k] && a[k] < b[k]
  }

  /** `strcmp` orders strings lexicographically by unsigned byte value. */
  lemma {:induction false} StrcmpIsLexicographic(a: Str, b: Str)
    ensures Strcmp(a, b) < 0 <==> LexLess(a, b)
    decreases |a|
  {
    if |a| == 0 && |b| == 0 {
    } else if |a| == 0 {
      assert a == b[..0];
    } else if |b| == 0 {
    } else if a[0] != b[0] {
      if a[0] < b[0] {
        assert a[..0] == b[..0];
      } else {
        forall k | 0 < k <= |a| && k <= |b|
          ensures a[..k] != b[..k]
        {
          assert a[..k][0] != b[..k][0];
        }
      }
    } else {
      var a', b' := a[1..], b[1..];
      StrcmpIsLexicographic(a', b');
      if LexLess(a', b') {
        if |a'| < |b'| && a' == b'[..|a'|] {
          assert a == [a[0]] + a' && b[..|a|] == [b[0]] + b'[..|a'|];
        } else {
          var k :| 0 <= k < |a'| && k < |b'| && a'[..k] == b'[..k] && a'[k] < b'[k];
          assert a[..k + 1] == [a[0]] + a'[..k] && b[..k + 1] == [b[0]] + b'[..k];
          assert a[k + 1] < b[k + 1];
        }
      }
      if LexLess(a, b) {
        if |a| < |b| && a == b[..|a|] {
          assert a' == b'[..|a'|];
        } else {
          var k :| 0 <= k < |a| && k < |b| && a[..k] == b[..k] && a[k] < b[k];
          assert k > 0;
          assert a'[..k - 1] == a[1..k] && b'[..k - 1] == b[1..k];
          assert a[1..k] == a[..k][1..];
          assert a'[k - 1] < b'[k - 1];
        }
      }
    }
  }

  /** `strncpy(dst, src, n)`: writes exactly `n` bytes, the string's bytes
      followed by NUL padding; no terminator at all when `|src| >= n`. */
  function Strncpy(src: Str, n: nat): (dst: seq<byte>)
    ensures |dst| == n
    ensures forall i | 0 <= i < n :: dst[i] == if i < |src| then src[i] as byte else 0
  {
    if n == 0 then []
    else if |src| == 0 then [0 as byte] + Strncpy(src, n - 1)
    else [src[0] as byte] + Strncpy(src[1..], n - 1)
  }

  /** The string a C reader finds in a buffer: the bytes before the first
      NUL (the whole buffer when it holds none). */
  function ReadStr(buf: seq<byte>): (s: Str)
    ensures |s| <= |buf|
    ensures forall i | 0 <= i < |s| :: buf[i] == s[i] as byte
    ensures |s| < |buf| ==> buf[|s|] == 0
  {
    if |buf| == 0 || buf[0] == 0 then []
    else [buf[0] as Char] + ReadStr(buf[1..])
  }

  /** A buffer holding the bytes of `t` followed by a NUL reads back as `t`. */
  lemma ReadStrExact(buf: seq<byte>, t: Str)
    requires |t| < |buf| && buf[|t|] == 0
    requires forall i | 0 <= i < |t| :: buf[i] == t[i] as byte
    ensures ReadStr(buf) == t
  {
  }

  /** Copying a string with `strncpy` into a buffer one byte longer than
      the string, as element_new does, reproduces the string. */
  lemma {:induction false} StrncpyRoundTrip(s: Str)
    ensures ReadStr(Strncpy(s, |s| + 1)) == s
  {
    ReadStrExact(Strncpy(s, |s| + 1), s);
  }
}
