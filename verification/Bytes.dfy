/** Bytes, C strings and the few value types every other module shares. */
module Bytes {

  type Byte = b: int | 0 <= b < 256

  const NUL: Byte := 0
  const NEWLINE: Byte := 10
  const RETURN: Byte := 13
  const SPACE: Byte := 32

  /** One past the largest 32-bit unsigned value. */
  const TWO_32: nat := 0x1_0000_0000

  const INT_MIN: int := -0x8000_0000

  datatype Option<+T> = None | Some(value: T)

  function Min(a: int, b: int): int {
    if a <= b then a else b
  }

  function Max(a: int, b: int): int {
    if a >= b then a else b
  }

  function Pow2(k: nat): (r: nat)
    ensures r >= 1
  {
    if k == 0 then 1 else 2 * Pow2(k - 1)
  }

  /** 32-bit unsigned addition, with its wrap-around. */
  function Plus32(a: nat, b: nat): (r: nat)
    requires a < TWO_32 && b < TWO_32
    ensures r == (a + b) % TWO_32
  {
    if a + b < TWO_32 then a + b else a + b - TWO_32
  }

  /** The unsigned reading of a 32-bit signed value. */
  function Unsigned(x: int): (u: nat)
    requires INT_MIN <= x < -INT_MIN
    ensures u < TWO_32
  {
    if x < 0 then x + TWO_32 else x
  }

  /** The value of a C string: what precedes the first NUL. */
  function CString(s: seq<Byte>): (r: seq<Byte>)
    ensures |r| <= |s| && r == s[..|r|] && NUL !in r
    ensures NUL in s ==> |r| < |s| && s[|r|] == NUL
    ensures NUL !in s ==> r == s
  {
    if s == [] || s[0] == NUL then [] else [s[0]] + CString(s[1..])
  }

  /** The first n elements, or all of them when there are fewer. */
  function Take(s: seq<Byte>, n: nat): seq<Byte> {
    if n <= |s| then s[..n] else s
  }

  /** `after` is `before` with `data` stored from `at` on. */
  ghost predicate Stored(before: seq<Byte>, after: seq<Byte>, at: nat, data: seq<Byte>) {
    && |after| == |before|
    && at + |data| <= |before|
    && (forall k :: at <= k < at + |data| ==> after[k] == data[k - at])
    && (forall k :: 0 <= k < |before| && !(at <= k < at + |data|) ==> after[k] == before[k])
  }

  /** The C string at the front of `s` is pinned down by where its NUL is. */
  lemma {:induction false} CStringIs(s: seq<Byte>, n: nat)
    requires n < |s| && s[n] == NUL && NUL !in s[..n]
    ensures CString(s) == s[..n]
  {
    if n > 0 {
      assert s[0] == s[..n][0] && NUL !in s[1..][..n - 1] by { assert s[1..][..n - 1] == s[..n][1..]; }
      CStringIs(s[1..], n - 1);
    }
  }

  /** Without a NUL in its first n bytes, a C string starts with them. */
  lemma CStringStarts(s: seq<Byte>, n: nat)
    requires NUL in s && n <= |s| && NUL !in s[..n]
    ensures n <= |CString(s)| && Take(CString(s), n) == s[..n]
  {
  }

  /** Two C strings that agree up to i and stop or differ there: they agree over
      n > i bytes only when both stop. */
  lemma AgreementDecided(s1: seq<Byte>, s2: seq<Byte>, i: nat, n: nat)
    requires NUL in s1 && NUL in s2 && i < n && i < |s1| && i < |s2|
    requires NUL !in s1[..i] && s1[..i] == s2[..i] && (s1[i] != s2[i] || s1[i] == NUL)
    ensures Take(CString(s1), n) == Take(CString(s2), n) <==> s1[i] == s2[i]
  {
    var c1, c2 := CString(s1), CString(s2);
    if s1[i] == NUL {
      CStringIs(s1, i);
      if s2[i] == NUL {
        CStringIs(s2, i);
      } else {
        NotStoppedAt(s2, i);
      }
    } else if s2[i] == NUL {
      CStringIs(s2, i);
      NotStoppedAt(s1, i);
    } else {
      NotStoppedAt(s1, i);
      NotStoppedAt(s2, i);
      assert Take(c1, n)[i] == s1[i] && Take(c2, n)[i] == s2[i];
    }
  }

  lemma AgreeFurther(s1: seq<Byte>, s2: seq<Byte>, i: nat)
    requires NUL in s1 && NUL in s2 && i < |s1| && i < |s2| && s1[i] == s2[i] != NUL
    requires NUL !in s1[..i] && s1[..i] == s2[..i]
    ensures i + 1 < |s1| && i + 1 < |s2| && NUL !in s1[..i + 1] && s1[..i + 1] == s2[..i + 1]
  {
    assert s1[..i + 1] == s1[..i] + [s1[i]] && s2[..i + 1] == s2[..i] + [s2[i]];
    assert s1[..|s1|] == s1 && s2[..|s2|] == s2;
  }

  lemma NotStoppedAt(s: seq<Byte>, i: nat)
    requires NUL in s && i < |s| && NUL !in s[..i] && s[i] != NUL
    ensures i < |CString(s)| && CString(s)[i] == s[i]
  {
    assert s[..i + 1] == s[..i] + [s[i]];
    CStringStarts(s, i + 1);
  }

  /** Counts the bytes before the first NUL. */
  method Strlen(s: seq<Byte>) returns (len: nat)
    requires NUL in s
    ensures len == |CString(s)|
  {
    len := 0;
    while s[len] != NUL
      invariant len < |s| && NUL !in s[..len] && NUL in s[len..]
      decreases |s| - len
    {
      len := len + 1;
    }
    CStringIs(s, len);
  }
}
