/** Numbers as text: itoa with its in-place reversal, and the number cases of printf. */
module Digits {
  import opened Bytes

  const ZERO: Byte := 48
  const MINUS: Byte := 45

  function DigitChar(i: nat): Byte
    requires i < 36
  {
    if i < 10 then ZERO + i else 55 + i
  }

  /** The value of a digit, -1 for any other character. */
  function DigitOf(c: Byte): int {
    if 48 <= c < 58 then c - 48 else if 65 <= c < 91 then c - 55 else -1
  }

  /** The digits in order of their values, and nothing else is one. */
  lemma DigitsInOrder(c: Byte, i: nat)
    ensures i < 10 ==> (DigitOf(c) == i <==> c == "0123456789"[i] as int)
    ensures i < 26 ==> (DigitOf(c) == 10 + i <==> c == "ABCDEFGHIJKLMNOPQRSTUVWXYZ"[i] as int)
    ensures DigitOf(c) == -1 || 0 <= DigitOf(c) < 36
  {
  }

  ghost predicate Radix(r: nat) {
    2 <= r <= 36
  }

  lemma CharBack(c: Byte)
    ensures 0 <= DigitOf(c) < 36 ==> DigitChar(DigitOf(c)) == c
  {
  }

  /** Reading a numeral from left to right. */
  function Decode(s: seq<Byte>, r: nat): int {
    if s == [] then 0 else Decode(s[..|s| - 1], r) * r + DigitOf(s[|s| - 1])
  }

  /** Digits below the radix, at least one, and no leading zero but in "0" itself. */
  ghost predicate Canonical(s: seq<Byte>, r: nat) {
    && s != [] && (forall i :: 0 <= i < |s| ==> 0 <= DigitOf(s[i]) < r)
    && (|s| > 1 ==> s[0] != ZERO)
  }

  lemma {:induction false} MulCompare(p: int, q: int, r: nat)
    ensures p >= q ==> p * r >= q * r
    ensures p >= q + 1 ==> p * r >= q * r + r
    ensures p <= q - 1 ==> p * r <= q * r - r
  {
    if r > 0 {
      MulCompare(p, q, r - 1);
      assert p * r == p * (r - 1) + p && q * r == q * (r - 1) + q;
    }
  }

  lemma NextPlace(v: nat, r: nat)
    requires 2 <= r <= v
    ensures 0 < v / r < v && v == v / r * r + v % r
  {
    var q := v / r;
    assert v == r * q + v % r;
    MulCompare(r, 2, q);
    MulCompare(0, q, r);
  }

  function Numeral(v: nat, r: nat): (s: seq<Byte>)
    requires Radix(r)
    ensures s != []
  {
    if v < r then [DigitChar(v)]
    else
      NextPlace(v, r);
      Numeral(v / r, r) + [DigitChar(v % r)]
  }

  /** The numeral of v reads as v and is canonical. */
  lemma {:induction false} NumeralDecodes(v: nat, r: nat)
    requires Radix(r)
    ensures Decode(Numeral(v, r), r) == v && Canonical(Numeral(v, r), r)
    ensures v > 0 ==> Numeral(v, r)[0] != ZERO
  {
    var s := Numeral(v, r);
    if v < r {
      assert s[..0] == [];
    } else {
      NextPlace(v, r);
      NumeralDecodes(v / r, r);
      assert s[..|s| - 1] == Numeral(v / r, r);
    }
  }

  lemma DivideBack(q: nat, r: nat, d: nat)
    requires d < r
    ensures (q * r + d) / r == q && (q * r + d) % r == d
  {
    var v := q * r + d;
    var p := v / r;
    assert v == r * p + v % r;
    MulCompare(p, q, r);
  }

  lemma {:induction false} LeadingDigitCounts(s: seq<Byte>, r: nat)
    requires Radix(r) && Canonical(s, r)
    ensures Decode(s, r) >= 0 && (s[0] != ZERO ==> Decode(s, r) > 0)
  {
    if |s| > 1 {
      LeadingDigitCounts(s[..|s| - 1], r);
      MulCompare(Decode(s[..|s| - 1], r), 0, r);
    } else {
      assert s[..0] == [];
    }
  }

  /** It is the only canonical numeral of its value. */
  lemma {:induction false} NumeralUnique(s: seq<Byte>, r: nat)
    requires Radix(r) && Canonical(s, r)
    ensures Decode(s, r) >= 0 && Numeral(Decode(s, r), r) == s
  {
    hide DigitOf, DigitChar;
    var n := |s| - 1;
    CharBack(s[n]);
    if n == 0 {
      assert s[..0] == [];
    } else {
      var q, d := Decode(s[..n], r), DigitOf(s[n]);
      NumeralUnique(s[..n], r);
      LeadingDigitCounts(s[..n], r);
      DivideBack(q, r, d);
      MulCompare(q, 1, r);
      assert s == s[..n] + [s[n]];
    }
  }

  function Power(r: nat, k: nat): nat {
    if k == 0 then 1 else r * Power(r, k - 1)
  }

  lemma {:induction false} NumeralLength(v: nat, r: nat, k: nat)
    requires Radix(r) && 1 <= k && v < Power(r, k)
    ensures |Numeral(v, r)| <= k
  {
    if v >= r {
      NextPlace(v, r);
      MulCompare(v / r, Power(r, k - 1), r);
      NumeralLength(v / r, r, k - 1);
    }
  }

  function Reversed(s: seq<Byte>): (r: seq<Byte>) {
    seq(|s|, i requires 0 <= i < |s| => s[|s| - 1 - i])
  }

  /** The digits of v still to be written when the lower ones have been; none at the end. */
  function Rest(v: nat, r: nat): seq<Byte>
    requires Radix(r)
  {
    if v == 0 then [] else Numeral(v, r)
  }

  lemma RestStep(v: nat, r: nat, written: seq<Byte>)
    requires Radix(r) && v > 0
    ensures v / r < v
    ensures Rest(v, r) + Reversed(written) == Rest(v / r, r) + Reversed(written + [DigitChar(v % r)])
  {
    assert Reversed(written + [DigitChar(v % r)]) == [DigitChar(v % r)] + Reversed(written);
    if v >= r { NextPlace(v, r); } else { DivideBack(0, r, v); }
  }

  /** Of the bytes from lo up to hi, those before a and those from b on have changed
      places with their mirror images. */
  ghost predicate Turned(was: seq<Byte>, now: seq<Byte>, lo: nat, hi: nat, a: int, b: int) {
    && |was| == |now| && lo <= a <= hi && lo <= b <= hi <= |was|
    && (forall j :: lo <= j < a ==> now[j] == was[lo + hi - 1 - j])
    && (forall j :: b <= j < hi ==> now[j] == was[lo + hi - 1 - j])
    && (forall j :: 0 <= j < |was| && (j < lo || hi <= j || a <= j < b) ==> now[j] == was[j])
  }

  lemma TurnFurther(was: seq<Byte>, now: seq<Byte>, lo: nat, hi: nat, a: nat, b: nat)
    requires Turned(was, now, lo, hi, a, b) && a + b == lo + hi && a + 1 < b
    ensures Turned(was, now[b - 1 := now[a]][a := now[b - 1]], lo, hi, a + 1, b - 1)
  {
  }

  lemma AllTurned(was: seq<Byte>, now: seq<Byte>, lo: nat, hi: nat, a: int, b: int)
    requires lo <= hi && Turned(was, now, lo, hi, a, b) && a + b == lo + hi && a + 1 >= b
    ensures Stored(was, now, lo, Reversed(was[lo..hi]))
  {
  }

  method Swap(buf: array<Byte>, i: nat, j: nat)
    requires i < j < buf.Length
    modifies buf
    ensures buf[..] == old(buf[..][j := buf[i]][i := buf[j]])
  {
    var tmp := buf[j];
    buf[j] := buf[i];
    buf[i] := tmp;
  }

  /** strrev's loop swaps ends until they meet. */
  method ReverseRange(buf: array<Byte>, lo: nat, hi: nat)
    requires lo <= hi <= buf.Length
    modifies buf
    ensures Stored(old(buf[..]), buf[..], lo, Reversed(old(buf[..])[lo..hi]))
  {
    ghost var was := buf[..];
    var beg: int, end: int := lo, hi;
    assert Turned(was, buf[..], lo, hi, beg, end);
    hide Turned, Reversed, Stored;
    while beg < end - 1
      invariant lo <= beg <= hi && end <= hi && beg + end == lo + hi
      invariant Turned(was, buf[..], lo, hi, beg, end)
      decreases end - beg
    {
      TurnFurther(was, buf[..], lo, hi, beg, end);
      Swap(buf, beg, end - 1);
      beg, end := beg + 1, end - 1;
    }
    AllTurned(was, buf[..], lo, hi, beg, end);
  }

  method Strrev(buf: array<Byte>, at: nat)
    requires at <= buf.Length && NUL in buf[at..]
    modifies buf
    ensures Stored(old(buf[..]), buf[..], at, Reversed(CString(old(buf[at..]))))
  {
    hide Reversed, Stored;
    var len := Strlen(buf[at..]);
    assert CString(buf[at..]) == buf[..][at..at + len];
    ReverseRange(buf, at, at + len);
  }

  /** itoa's loop: the digits from the lowest on. */
  method WriteDigits(value: nat, buf: array<Byte>, at: nat, radix: nat) returns (end: nat, ghost written: seq<Byte>)
    requires Radix(radix) && 0 < value && at + |Numeral(value, radix)| < buf.Length
    modifies buf
    ensures Numeral(value, radix) == Reversed(written) && |written| == |Numeral(value, radix)|
    ensures end == at + |written| && Stored(old(buf[..]), buf[..], at, written)
  {
    hide DigitChar, Numeral;
    ghost var was := buf[..];
    written := [];
    end := at;
    var newval: nat := value;
    while newval > 0
      invariant end == at + |written| && Rest(value, radix) == Rest(newval, radix) + Reversed(written)
      invariant Stored(was, buf[..], at, written)
    {
      RestStep(newval, radix, written);
      buf[end] := DigitChar(newval % radix);
      written := written + [buf[end]];
      end := end + 1;
      newval := newval / radix;
    }
  }

  lemma NumeralHasNoNul(v: nat, r: nat)
    requires Radix(r)
    ensures NUL !in Numeral(v, r)
  {
    NumeralDecodes(v, r);
  }

  /** itoa writes the numeral of value and a NUL. */
  method Itoa(value: nat, buf: array<Byte>, at: nat, radix: nat)
    requires Radix(radix) && at + |Numeral(value, radix)| < buf.Length
    modifies buf
    ensures Stored(old(buf[..]), buf[..], at, Numeral(value, radix) + [NUL])
  {
    if value == 0 {
      buf[at], buf[at + 1] := ZERO, NUL;
      return;
    }
    hide Numeral, Radix;
    NumeralHasNoNul(value, radix);
    var end; ghost var written;
    end, written := WriteDigits(value, buf, at, radix);
    assert forall i :: 0 <= i < |written| ==> written[i] == Reversed(written)[|written| - 1 - i];
    buf[end] := NUL;
    assert buf[at..][..|written|] == written;
    CStringIs(buf[at..], |written|);
    Strrev(buf, at);
  }

  function Zeros(n: nat): seq<Byte> {
    seq(n, _ => ZERO)
  }

  lemma {:induction false} DecodePadded(n: nat, s: seq<Byte>, r: nat)
    ensures Decode(Zeros(n) + s, r) == Decode(s, r)
    decreases n + |s|
  {
    var p := Zeros(n) + s;
    if s != [] {
      assert p[..|p| - 1] == Zeros(n) + s[..|s| - 1];
      DecodePadded(n, s[..|s| - 1], r);
    } else if n > 0 {
      assert p[..|p| - 1] == Zeros(n - 1) + s;
      DecodePadded(n - 1, s, r);
    }
  }

  ghost predicate HexDigits(s: seq<Byte>) {
    forall i :: 0 <= i < |s| ==> 0 <= DigitOf(s[i]) < 16
  }

  /** Eight digits are enough for a 32-bit value; with zeros in front they are as good. */
  lemma HexPadded(value: nat, s: seq<Byte>)
    requires value < TWO_32 && s == Numeral(value, 16)
    ensures |s| <= 8 && NUL !in s
    ensures Decode(Zeros(8 - |s|) + s, 16) == value && HexDigits(Zeros(8 - |s|) + s)
  {
    assert Power(16, 8) == TWO_32;
    NumeralLength(value, 16, 8);
    NumeralDecodes(value, 16);
    DecodePadded(8 - |s|, s, 16);
  }

  lemma StringAt(buf: array<Byte>, at: nat, s: seq<Byte>)
    requires NUL !in s && at + |s| < buf.Length && buf[at..at + |s|] == s && buf[at + |s|] == NUL
    ensures NUL in buf[at..] && CString(buf[at..]) == s
  {
    assert buf[at..][..|s|] == s && buf[at..][|s|] == NUL;
    CStringIs(buf[at..], |s|);
  }

  /** printf's %#x: always eight hexadecimal digits with the value of the argument. */
  method PrintHexPadded(value: nat) returns (printed: seq<Byte>)
    requires value < TWO_32
    ensures |printed| == 8 && Decode(printed, 16) == value && HexDigits(printed)
  {
    hide Numeral, Decode, HexDigits, CString;
    var conv := new Byte[64];
    ghost var s := Numeral(value, 16);
    HexPadded(value, s);
    Itoa(value, conv, 8, 16);
    StringAt(conv, 8, s);
    var start := Strlen(conv[8..]);
    FillZeros(conv, start);
    ghost var padded := Zeros(8 - start) + s;
    assert NUL !in padded && conv[start..start + 8] == padded;
    StringAt(conv, start, padded);
    printed := CString(conv[start..]);
  }

  /** The padding loop of %#x. */
  method FillZeros(conv: array<Byte>, start: nat)
    requires start <= 8 <= conv.Length
    modifies conv
    ensures Stored(old(conv[..]), conv[..], start, Zeros(8 - start))
  {
    var i := start;
    while i < 8
      invariant start <= i <= 8 && Stored(old(conv[..]), conv[..], start, Zeros(i - start))
    {
      conv[i] := ZERO;
      i := i + 1;
    }
  }

  /** printf's %d, also of the least integer. */
  method PrintSigned(value: int) returns (printed: seq<Byte>)
    requires INT_MIN <= value < -INT_MIN
    ensures value < 0 ==> 1 < |printed| && printed[0] == '-' as int
                          && Decode(printed[1..], 10) == -value && Canonical(printed[1..], 10)
    ensures value >= 0 ==> Decode(printed, 10) == value && Canonical(printed, 10)
  {
    hide Numeral, CString, Canonical, Decode;
    var conv := new Byte[36];
    ghost var size: nat := if value < 0 then -value else value;
    assert Power(10, 10) > size;
    NumeralLength(size, 10, 10);
    NumeralHasNoNul(size, 10);
    NumeralDecodes(size, 10);
    if value < 0 {
      conv[0] := MINUS;
      Itoa(-value, conv, 1, 10);
    } else {
      Itoa(value, conv, 0, 10);
    }
    StringAt(conv, 0, if value < 0 then [MINUS] + Numeral(-value, 10) else Numeral(value, 10));
    printed := CString(conv[0..]);
    assert value < 0 ==> printed[1..] == Numeral(-value, 10);
  }
}
