/** The streaming search of ece391grep: a file is read through a sliding buffer of
    1024 bytes, and the lines that contain the pattern are printed. */
module Grep {
  import opened Bytes
  import opened FileSystem
  import opened SysCalls
  import Rtc

  const BUFSIZE: nat := 1024
  const COLON: Byte := 58

  /** "file open failed" and a newline. */
  const OPEN_FAILED: seq<Byte> :=
    [102, 105, 108, 101, 32, 111, 112, 101, 110, 32, 102, 97, 105, 108, 101, 100, 10]

  // ----- what the search means -----

  /** Where the first line of f ends: at its first newline, or at its end. */
  ghost function LineLength(f: seq<Byte>): (n: nat)
    ensures n <= |f|
  {
    if f == [] || f[0] == NEWLINE then 0 else 1 + LineLength(f[1..])
  }

  /** What follows the first line and its newline. */
  ghost function AfterLine(f: seq<Byte>): (r: seq<Byte>)
    requires f != []
    ensures |r| < |f|
  {
    if LineLength(f) < |f| then f[LineLength(f) + 1..] else []
  }

  /** The lines of a file, without their newlines. */
  ghost function Lines(f: seq<Byte>): seq<seq<Byte>>
    decreases |f|
  {
    if f == [] then [] else [f[..LineLength(f)]] + Lines(AfterLine(f))
  }

  /** The lines of a file as the buffer lets grep see them: every 1024 bytes without
      a newline end a piece. */
  ghost function Pieces(f: seq<Byte>): seq<seq<Byte>>
    decreases |f|
  {
    if f == [] then []
    else if LineLength(f) >= BUFSIZE then [f[..BUFSIZE]] + Pieces(f[BUFSIZE..])
    else [f[..LineLength(f)]] + Pieces(AfterLine(f))
  }

  ghost predicate OccursAt(line: seq<Byte>, pat: seq<Byte>, i: int) {
    0 <= i <= |line| - |pat| && line[i..i + |pat|] == pat
  }

  /** A line contains the pattern somewhere.  The empty pattern is never looked for. */
  ghost predicate Matches(line: seq<Byte>, pat: seq<Byte>) {
    pat != [] && exists i :: OccursAt(line, pat, i)
  }

  ghost function Printed(fname: seq<Byte>, line: seq<Byte>): seq<Byte> {
    fname + [COLON] + line + [NEWLINE]
  }

  /** The output for a list of lines: each matching one, once, in order. */
  ghost function Report(fname: seq<Byte>, pat: seq<Byte>, lines: seq<seq<Byte>>): seq<Byte> {
    if lines == [] then []
    else (if Matches(lines[0], pat) then Printed(fname, lines[0]) else []) + Report(fname, pat, lines[1..])
  }

  lemma {:induction false} ReportJoins(fname: seq<Byte>, pat: seq<Byte>, a: seq<seq<Byte>>, b: seq<seq<Byte>>)
    ensures Report(fname, pat, a + b) == Report(fname, pat, a) + Report(fname, pat, b)
  {
    if a == [] {
      assert a + b == b;
    } else {
      assert (a + b)[1..] == a[1..] + b;
      ReportJoins(fname, pat, a[1..], b);
    }
  }

  // ----- lines -----

  /** c does not occur in w between lo and hi. */
  ghost predicate Without(w: seq<Byte>, lo: nat, hi: nat, c: Byte)
    requires hi <= |w|
  {
    forall j :: lo <= j < hi ==> w[j] != c
  }

  lemma {:induction false} LineLengthIs(f: seq<Byte>, n: nat)
    requires n <= |f| && Without(f, 0, n, NEWLINE) && (n == |f| || f[n] == NEWLINE)
    ensures LineLength(f) == n
  {
    if n > 0 {
      LineLengthIs(f[1..], n - 1);
    }
  }

  lemma {:induction false} LineHasNoNewline(f: seq<Byte>)
    ensures Without(f, 0, LineLength(f), NEWLINE)
    ensures LineLength(f) < |f| ==> f[LineLength(f)] == NEWLINE
  {
    if f != [] && f[0] != NEWLINE {
      LineHasNoNewline(f[1..]);
      assert forall j :: 1 <= j < |f| ==> f[j] == f[1..][j - 1];
    }
  }

  /** Text that ends in a newline can be cut off before counting lines. */
  ghost predicate Whole(a: seq<Byte>) {
    a == [] || a[|a| - 1] == NEWLINE
  }

  lemma LinesUnfold(f: seq<Byte>)
    requires f != []
    ensures Lines(f) == [f[..LineLength(f)]] + Lines(AfterLine(f))
  {
  }

  lemma Associate(a: seq<seq<Byte>>, b: seq<seq<Byte>>, c: seq<seq<Byte>>)
    ensures a + (b + c) == a + b + c
  {
  }

  lemma FirstLineOfWhole(a: seq<Byte>, rest: seq<Byte>)
    requires Whole(a) && a != []
    ensures LineLength(a) < |a| && LineLength(a + rest) == LineLength(a)
    ensures (a + rest)[..LineLength(a)] == a[..LineLength(a)]
    ensures AfterLine(a + rest) == AfterLine(a) + rest && Whole(AfterLine(a))
  {
    var n := LineLength(a);
    LineHasNoNewline(a);
    assert (a + rest)[..n] == a[..n];
    LineLengthIs(a + rest, n);
    assert (a + rest)[n + 1..] == a[n + 1..] + rest;
  }

  /** Whole lines that fit the buffer come through unbroken, whatever follows them. */
  lemma {:induction false} WholeLinesFirst(a: seq<Byte>, rest: seq<Byte>)
    requires Whole(a) && |a| <= BUFSIZE
    ensures Pieces(a + rest) == Lines(a) + Pieces(rest)
    decreases |a|
  {
    if a == [] {
      assert a + rest == rest;
    } else {
      var first, later := [a[..LineLength(a)]], AfterLine(a);
      FirstLineOfWhole(a, rest);
      WholeLinesFirst(later, rest);
      LinesUnfold(a);
      Associate(first, Lines(later), Pieces(rest));
    }
  }

  /** A file that fits the buffer is not broken up. */
  lemma {:induction false} ShortPieces(f: seq<Byte>)
    requires |f| <= BUFSIZE
    ensures Pieces(f) == Lines(f)
    decreases |f|
  {
    if f != [] {
      if LineLength(f) < BUFSIZE {
        ShortPieces(AfterLine(f));
      } else {
        assert f[BUFSIZE..] == [];
      }
    }
  }

  /** A full buffer without a newline is one piece. */
  lemma FullPiece(w: seq<Byte>, rest: seq<Byte>)
    requires |w| == BUFSIZE && Without(w, 0, |w|, NEWLINE)
    ensures Pieces(w + rest) == [w] + Pieces(rest) && Lines(w) == [w]
  {
    LineHasNoNewline(w + rest);
    LineHasNoNewline(w);
    assert w[..|w|] == w;
    LineLengthIs(w, |w|);
    assert Lines([]) == [];
    assert (w + rest)[..BUFSIZE] == w && (w + rest)[BUFSIZE..] == rest;
  }

  /** A line starts at n: at the front, or after a newline. */
  ghost predicate LineStart(w: seq<Byte>, n: nat) {
    n <= |w| && (n == 0 || w[n - 1] == NEWLINE)
  }

  /** Where the last, unterminated line of w starts. */
  ghost function TailStart(w: seq<Byte>): (k: nat)
    ensures LineStart(w, k) && Without(w, k, |w|, NEWLINE)
  {
    if w == [] || w[|w| - 1] == NEWLINE then |w| else
      assert forall j :: 0 <= j < |w| - 1 ==> w[..|w| - 1][j] == w[j];
      TailStart(w[..|w| - 1])
  }

  lemma TailStartIs(w: seq<Byte>, k: nat)
    requires LineStart(w, k) && Without(w, k, |w|, NEWLINE)
    ensures TailStart(w) == k
  {
  }

  /** Cutting whole lines off first. */
  lemma {:induction false} LinesJoin(a: seq<Byte>, rest: seq<Byte>)
    requires Whole(a)
    ensures Lines(a + rest) == Lines(a) + Lines(rest)
    decreases |a|
  {
    if a == [] {
      assert a + rest == rest;
    } else {
      var first, later := [a[..LineLength(a)]], AfterLine(a);
      FirstLineOfWhole(a, rest);
      LinesJoin(later, rest);
      LinesUnfold(a);
      LinesUnfold(a + rest);
      Associate(first, Lines(later), Lines(rest));
    }
  }

  /** One more line, terminated or final. */
  lemma LineAdded(a: seq<Byte>, line: seq<Byte>, end: seq<Byte>)
    requires Whole(a) && Without(line, 0, |line|, NEWLINE) && (end == [NEWLINE] || (end == [] && line != []))
    ensures Lines(a + (line + end)) == Lines(a) + [line]
  {
    var l := line + end;
    LinesJoin(a, l);
    assert l[..|line|] == line;
    LineLengthIs(l, |line|);
    assert AfterLine(l) == [] && Lines(AfterLine(l)) == [];
  }

  // ----- string routines of the user library -----

  /** Compares two strings over at most n bytes. */
  method Strncmp(s1: seq<Byte>, s2: seq<Byte>, n: nat) returns (r: int)
    requires NUL in s1 && NUL in s2
    ensures r == 0 <==> Take(CString(s1), n) == Take(CString(s2), n)
  {
    if n == 0 {
      return 0;
    }
    var i: nat, m := 0, n;
    while s1[i] == s2[i]
      invariant i < n && m == n - i && i < |s1| && i < |s2| && NUL !in s1[..i] && s1[..i] == s2[..i]
      decreases m
    {
      if s1[i] == NUL {
        AgreementDecided(s1, s2, i, n);
        return 0;
      }
      AgreeFurther(s1, s2, i);
      m := m - 1;
      if m == 0 {
        CStringStarts(s1, n);
        CStringStarts(s2, n);
        return 0;
      }
      i := i + 1;
    }
    AgreementDecided(s1, s2, i, n);
    return s1[i] as int - s2[i] as int;
  }

  /** Copies the string at `src` down to the start of the buffer.  The two may overlap. */
  method Strcpy(data: array<Byte>, src: nat, ghost n: nat)
    requires src + n < data.Length && data[src + n] == NUL && forall j :: src <= j < src + n ==> data[j] != NUL
    modifies data
    ensures data[..n + 1] == old(data[src..src + n + 1])
    ensures data[n + 1..] == old(data[n + 1..])
  {
    var d: nat := 0;
    while true
      invariant d <= n
      invariant forall j :: 0 <= j < d ==> data[j] == old(data[src + j])
      invariant forall j :: d <= j < data.Length ==> data[j] == old(data[j])
      decreases n - d
    {
      data[d] := data[src + d];
      if data[d] == NUL {
        break;
      }
      d := d + 1;
    }
  }

  // ----- the search -----

  /** One place of the line searched, at index i. */
  lemma SearchedAt(line: seq<Byte>, pat: seq<Byte>, i: nat)
    requires i <= |line|
    ensures OccursAt(line, pat, i) <==> Take(line[i..], |pat|) == pat
  {
    if |line| - i >= |pat| {
      assert line[i..][..|pat|] == line[i..i + |pat|];
    }
  }

  /** The first byte decides against a place before the pattern is compared. */
  lemma FirstByteDiffers(line: seq<Byte>, s: seq<Byte>, i: nat)
    requires NUL in s && i < |line| && line[i] != s[0]
    ensures CString(s) != [] ==> !OccursAt(line, CString(s), i)
  {
    var pat := CString(s);
    if pat != [] {
      assert pat[0] == s[0];
      if i + |pat| <= |line| { assert line[i..i + |pat|][0] == line[i]; }
    }
  }

  /** The string at `check` is the rest of the line up to the NUL at its end. */
  lemma LineFrom(d: seq<Byte>, start: nat, end: nat, check: nat)
    requires start <= check <= end < |d| && d[end] == NUL && Without(d, start, end, NUL)
    ensures NUL in d[check..] && CString(d[check..]) == d[start..end][check - start..]
  {
    assert d[check..][end - check] == NUL;
    assert d[check..][..end - check] == d[start..end][check - start..];
    CStringIs(d[check..], end - check);
  }

  /** The two tests the search makes at one place of the line. */
  method FoundAt(data: array<Byte>, s: seq<Byte>, sLen: nat, ghost start: nat, ghost end: nat, check: nat)
    returns (found: bool)
    requires start <= check < end < data.Length && data[end] == NUL && forall j :: start <= j < end ==> data[j] != NUL
    requires NUL in s && sLen == |CString(s)|
    ensures found == (CString(s) != [] && OccursAt(data[start..end], CString(s), check - start))
  {
    ghost var line, i := data[start..end], check - start;
    assert line[i] == data[check];
    if s[0] == data[check] {
      LineFrom(data[..], start, end, check);
      assert data[check..] == data[..][check..];
      SearchedAt(line, CString(s), i);
      var cmp := Strncmp(data[check..], s, sLen);
      found := cmp == 0;
    } else {
      FirstByteDiffers(line, s, i);
      found := false;
    }
  }

  /** Prints the line at `start` if the pattern s occurs in it. */
  method SearchLine(data: array<Byte>, s: seq<Byte>, sLen: nat, fname: seq<Byte>, start: nat, end: nat)
    returns (out: seq<Byte>)
    requires start <= end < data.Length && data[end] == NUL && forall j :: start <= j < end ==> data[j] != NUL
    requires NUL in s && sLen == |CString(s)| && NUL in fname
    ensures out == Report(CString(fname), CString(s), [data[start..end]])
    ensures out == if Matches(data[start..end], CString(s)) then CString(fname) + [58] + data[start..end] + [10] else []
  {
    ghost var line, pat := data[start..end], CString(s);
    assert Report(CString(fname), pat, []) == [];
    for check := start to end
      invariant pat != [] ==> forall i :: 0 <= i < check - start ==> !OccursAt(line, pat, i)
    {
      var found := FoundAt(data, s, sLen, start, end, check);
      if found {
        LineFrom(data[..], start, end, start);
        assert data[start..] == data[..][start..] && line[0..] == line;
        return CString(fname) + [COLON] + CString(data[start..]) + [NEWLINE];
      }
    }
    return [];
  }

  /** From `start` on, the buffer still holds what was read: w, ending at `last`. */
  ghost predicate Unread(data: array<Byte>, w: seq<Byte>, start: nat)
    requires start <= |w| <= data.Length
    reads data
  {
    forall j :: start <= j < |w| ==> data[j] == w[j]
  }

  method FindNewline(data: array<Byte>, start: nat, last: nat, ghost w: seq<Byte>) returns (end: nat)
    requires start <= last == |w| < data.Length && Unread(data, w, start)
    ensures start <= end <= last && Without(w, start, end, NEWLINE)
    ensures end == last || data[end] == w[end] == NEWLINE
  {
    end := start;
    while end < last && data[end] != NEWLINE
      invariant start <= end <= last && Without(w, start, end, NEWLINE)
    {
      end := end + 1;
    }
  }

  /** Whether the unfinished last line of a buffer w is kept for the next read: something
      was read, a whole line precedes it, and the byte after w is not a newline. */
  ghost predicate Carries(w: seq<Byte>, stray: bool, cnt: nat) {
    cnt != 0 && 0 < TailStart(w) < |w| && !stray
  }

  /** An empty last line prints nothing. */
  lemma ReportLine(fname: seq<Byte>, pat: seq<Byte>, a: seq<Byte>, line: seq<Byte>, end: seq<Byte>)
    requires Whole(a) && Without(line, 0, |line|, NEWLINE) && (end == [NEWLINE] || end == [])
    requires line + end == [] ==> a == []
    ensures Report(fname, pat, Lines(a)) + Report(fname, pat, [line]) == Report(fname, pat, Lines(a + (line + end)))
  {
    if line + end == [] {
      assert a + (line + end) == [] && line == [] && Lines([]) == [];
      assert !Matches([], pat);
      assert Report(fname, pat, []) == [];
    } else {
      LineAdded(a, line, end);
      ReportJoins(fname, pat, Lines(a), [line]);
    }
  }

  /** The lines before `n` have been reported. */
  ghost predicate Reported(w: seq<Byte>, n: nat, fname: seq<Byte>, pat: seq<Byte>, out: seq<Byte>) {
    LineStart(w, n) && out == Report(fname, pat, Lines(w[..n]))
  }

  /** Searching a terminated line reports one line more. */
  lemma LineReported(w: seq<Byte>, start: nat, end: nat, fname: seq<Byte>, pat: seq<Byte>,
                     out: seq<Byte>, found: seq<Byte>)
    requires start <= end < |w| && Without(w, start, end, NEWLINE) && w[end] == NEWLINE
    requires Reported(w, start, fname, pat, out) && found == Report(fname, pat, [w[start..end]])
    ensures Reported(w, end + 1, fname, pat, out + found)
  {
    SplitLine(w, start, end);
    ReportLine(fname, pat, w[..start], w[start..end], [NEWLINE]);
  }

  lemma SplitLine(w: seq<Byte>, start: nat, end: nat)
    requires start <= end < |w| && w[end] == NEWLINE
    ensures w[..end + 1] == w[..start] + (w[start..end] + [NEWLINE])
  {
  }

  lemma SplitTail(w: seq<Byte>, start: nat)
    requires start <= |w|
    ensures w == w[..start] + w[start..|w|]
  {
  }

  /** Searching the unterminated line, or nothing, reports all of w. */
  lemma TailReported(w: seq<Byte>, start: nat, fname: seq<Byte>, pat: seq<Byte>,
                     out: seq<Byte>, found: seq<Byte>)
    requires Reported(w, start, fname, pat, out) && Without(w, start, |w|, NEWLINE) && (start < |w| || |w| == 0)
    requires found == Report(fname, pat, [w[start..|w|]])
    ensures out + found == Report(fname, pat, Lines(w))
    ensures TailStart(w) == start
  {
    SplitTail(w, start);
    ReportTail(fname, pat, w[..start], w[start..|w|]);
    TailStartIs(w, start);
  }

  lemma ReportTail(fname: seq<Byte>, pat: seq<Byte>, a: seq<Byte>, tail: seq<Byte>)
    requires Whole(a) && Without(tail, 0, |tail|, NEWLINE) && (tail == [] ==> a == [])
    ensures Report(fname, pat, Lines(a)) + Report(fname, pat, [tail]) == Report(fname, pat, Lines(a + tail))
  {
    assert tail + [] == tail;
    ReportLine(fname, pat, a, tail, []);
  }

  lemma AllReported(w: seq<Byte>, fname: seq<Byte>, pat: seq<Byte>, out: seq<Byte>)
    requires Reported(w, |w|, fname, pat, out)
    ensures out == Report(fname, pat, Lines(w)) && TailStart(w) == |w|
  {
    assert w[..|w|] == w;
    TailStartIs(w, |w|);
  }

  /** Ends the line with a NUL and searches it. */
  method MarkAndSearch(data: array<Byte>, s: seq<Byte>, sLen: nat, fname: seq<Byte>,
                       start: nat, end: nat, ghost w: seq<Byte>) returns (out: seq<Byte>)
    requires start <= end <= |w| < data.Length && Unread(data, w, start) && Without(w, 0, |w|, NUL)
    requires NUL in s && sLen == |CString(s)| && NUL in fname
    modifies data
    ensures out == Report(CString(fname), CString(s), [w[start..end]])
    ensures data[end] == NUL && forall j :: 0 <= j < data.Length && j != end ==> data[j] == old(data[j])
  {
    data[end] := NUL;
    assert data[start..end] == w[start..end];
    out := SearchLine(data, s, sLen, fname, start, end);
  }

  /** Searches the line from `start` to `end` after all lines before it. */
  method SearchNext(data: array<Byte>, s: seq<Byte>, sLen: nat, fname: seq<Byte>,
                    start: nat, end: nat, ghost w: seq<Byte>, out: seq<Byte>) returns (out': seq<Byte>)
    requires start <= end <= |w| < data.Length && Unread(data, w, start) && Without(w, 0, |w|, NUL)
    requires NUL in s && sLen == |CString(s)| && NUL in fname
    requires Without(w, start, end, NEWLINE) && (end == |w| || w[end] == NEWLINE) && (start < |w| || |w| == 0)
    requires Reported(w, start, CString(fname), CString(s), out)
    modifies data
    ensures end + 1 < |w| ==> Reported(w, end + 1, CString(fname), CString(s), out')
    ensures end + 1 >= |w| ==> out' == Report(CString(fname), CString(s), Lines(w))
                               && TailStart(w) == if end == |w| then start else |w|
    ensures data[end] == NUL && forall j :: 0 <= j < data.Length && j != end ==> data[j] == old(data[j])
  {
    hide Report, Lines, TailStart, Reported, CString;
    ghost var fn, pat := CString(fname), CString(s);
    var found := MarkAndSearch(data, s, sLen, fname, start, end, w);
    out' := out + found;
    if end == |w| {
      TailReported(w, start, fn, pat, out, found);
    } else {
      LineReported(w, start, end, fn, pat, out, found);
      if end + 1 == |w| {
        AllReported(w, fn, pat, out');
      }
    }
  }

  /** Moves the unfinished line down to the front. */
  method CarryDown(data: array<Byte>, start: nat, ghost w: seq<Byte>)
    requires 0 < start < |w| < data.Length && Unread(data, w, start) && Without(w, 0, |w|, NUL) && data[|w|] == NUL
    modifies data
    ensures data[..|w| - start] == w[start..]
    ensures forall j :: |w| < j < data.Length ==> data[j] == old(data[j])
    ensures data[|w|] == NUL
  {
    ghost var n := |w| - start;
    assert data[start..start + n] == w[start..];
    Strcpy(data, start, n);
    assert data[|w|] == old(data[n + 1..])[start - 1];
    forall j | |w| < j < data.Length
      ensures data[j] == old(data[j])
    {
      assert data[n + 1..][j - n - 1] == old(data[n + 1..])[j - n - 1];
    }
  }

  /** What one pass over the first `last` bytes of the buffer reports, keeps and marks. */
  ghost predicate Scanned(before: seq<Byte>, after: seq<Byte>, last: nat, last': nat, cnt: nat,
                          fname: seq<Byte>, pat: seq<Byte>, out: seq<Byte>)
    requires |before| == |after| == BUFSIZE + 1 && last <= BUFSIZE && last' <= BUFSIZE
  {
    var w, k := before[..last], TailStart(before[..last]);
    && (if Carries(w, before[last] == NEWLINE, cnt)
        then out == Report(fname, pat, Lines(w[..k])) && after[..last'] == w[k..]
        else out == Report(fname, pat, Lines(w)) && after[..last'] == [])
    && after[BUFSIZE] == if last == BUFSIZE && k < last then NUL else before[BUFSIZE]
  }

  lemma NothingReported(w: seq<Byte>, fname: seq<Byte>, pat: seq<Byte>)
    ensures Reported(w, 0, fname, pat, [])
  {
    assert Lines(w[..0]) == [];
  }

  lemma TailCarried(before: seq<Byte>, after: seq<Byte>, last: nat, start: nat, cnt: nat,
                    fname: seq<Byte>, pat: seq<Byte>, out: seq<Byte>)
    requires |before| == |after| == BUFSIZE + 1 && 0 < start < last <= BUFSIZE
    requires Reported(before[..last], start, fname, pat, out) && Without(before[..last], start, last, NEWLINE)
    requires before[last] != NEWLINE && cnt != 0 && after[..last - start] == before[..last][start..]
    requires after[BUFSIZE] == if last == BUFSIZE then NUL else before[BUFSIZE]
    ensures Scanned(before, after, last, last - start, cnt, fname, pat, out)
  {
    TailStartIs(before[..last], start);
    hide TailStart, Report, Lines;
  }

  /** Ends the buffer with a NUL and moves the unfinished line to the front. */
  method KeepTail(data: array<Byte>, ghost before: seq<Byte>, last: nat, start: nat, ghost cnt: nat,
                  ghost fname: seq<Byte>, ghost pat: seq<Byte>, ghost out: seq<Byte>)
    requires data.Length == |before| == BUFSIZE + 1 && 0 < start < last <= BUFSIZE
    requires Unread(data, before[..last], start) && Without(before, 0, last, NUL)
    requires forall j :: last <= j < data.Length ==> data[j] == before[j]
    requires Reported(before[..last], start, fname, pat, out) && Without(before[..last], start, last, NEWLINE)
    requires before[last] != NEWLINE && cnt != 0
    modifies data
    ensures Scanned(before, data[..], last, last - start, cnt, fname, pat, out)
  {
    hide Reported, Scanned;
    data[last] := NUL;
    CarryDown(data, start, before[..last]);
    assert data[..][..last - start] == data[..last - start];
    TailCarried(before, data[..], last, start, cnt, fname, pat, out);
  }

  lemma AllSearched(before: seq<Byte>, after: seq<Byte>, last: nat, end: nat, cnt: nat,
                    fname: seq<Byte>, pat: seq<Byte>, out: seq<Byte>)
    requires |before| == |after| == BUFSIZE + 1 && end <= last <= BUFSIZE
    requires out == Report(fname, pat, Lines(before[..last]))
    requires !Carries(before[..last], before[last] == NEWLINE, cnt)
    requires TailStart(before[..last]) < last ==> end == last
    requires TailStart(before[..last]) == last ==> end < last || last == 0
    requires after[BUFSIZE] == if end == BUFSIZE then NUL else before[BUFSIZE]
    ensures Scanned(before, after, last, 0, cnt, fname, pat, out)
  {
    hide TailStart, Report, Lines;
  }

  /** The buffer as a pass finds it: from `start` on it is as before the pass. */
  ghost predicate Ongoing(data: array<Byte>, before: seq<Byte>, last: nat, start: nat)
    reads data
  {
    && data.Length == |before| == BUFSIZE + 1 && last <= BUFSIZE && start <= last && (start < last || last == 0)
    && Without(before, 0, last, NUL)
    && forall j :: start <= j < data.Length ==> data[j] == before[j]
  }

  /** One turn of the inner loop: find the next newline, then search the line, or keep
      what is left of it for the next buffer. */
  method NextLine(data: array<Byte>, s: seq<Byte>, sLen: nat, fname: seq<Byte>, last: nat, cnt: nat,
                  start: nat, out: seq<Byte>, ghost before: seq<Byte>)
    returns (done: bool, start': nat, last': nat, out': seq<Byte>)
    requires Ongoing(data, before, last, start) && NUL in s && sLen == |CString(s)| && NUL in fname
    requires Reported(before[..last], start, CString(fname), CString(s), out)
    modifies data
    ensures done ==> last' <= BUFSIZE && data.Length == |before| == BUFSIZE + 1 && last <= BUFSIZE
                     && Scanned(before, data[..], last, last', cnt, CString(fname), CString(s), out')
    ensures !done ==> start < start' && Ongoing(data, before, last, start')
                      && Reported(before[..last], start', CString(fname), CString(s), out')
  {
    hide Report, Lines, TailStart, Reported, Scanned, CString;
    ghost var w, fn, pat := before[..last], CString(fname), CString(s);
    var end := FindNewline(data, start, last, w);
    if data[end] != NEWLINE && cnt != 0 && start != 0 {
      KeepTail(data, before, last, start, cnt, fn, pat, out);
      return true, start, last - start, out;
    }
    out' := SearchNext(data, s, sLen, fname, start, end, w, out);
    start' := end + 1;
    done := start' >= last;
    last' := if done then 0 else last;
    if done {
      AllSearched(before, data[..], last, end, cnt, fn, pat, out');
    }
  }

  /** One pass over the buffer's first `last` bytes: every line in them is searched, but
      for an unfinished last one that moves to the front. */
  method ScanWindow(data: array<Byte>, s: seq<Byte>, sLen: nat, fname: seq<Byte>, last: nat, cnt: nat)
    returns (last': nat, out: seq<Byte>)
    requires data.Length == BUFSIZE + 1 && last <= BUFSIZE && Without(data[..], 0, last, NUL)
    requires NUL in s && sLen == |CString(s)| && NUL in fname
    modifies data
    ensures last' <= BUFSIZE && Scanned(old(data[..]), data[..], last, last', cnt, CString(fname), CString(s), out)
  {
    hide Reported, Scanned, CString;
    ghost var before := data[..];
    var done, start: nat := false, 0;
    last', out := last, [];
    NothingReported(before[..last], CString(fname), CString(s));
    while !done
      invariant !done ==> Ongoing(data, before, last, start)
                          && Reported(before[..last], start, CString(fname), CString(s), out)
      invariant done ==> last' <= BUFSIZE
                         && Scanned(before, data[..], last, last', cnt, CString(fname), CString(s), out)
      decreases !done, last - start
    {
      done, start, last', out := NextLine(data, s, sLen, fname, last, cnt, start, out, before);
    }
  }

  // ----- buffer after buffer -----

  /** What the search does with a file while the byte after the buffer, which the program
      never sets, is a newline: a buffer that ends inside a line is then taken to end it,
      and the byte is overwritten. */
  ghost function Windows(f: seq<Byte>): seq<seq<Byte>>
    decreases |f|
  {
    if |f| < BUFSIZE then Lines(f)
    else
      var w := f[..BUFSIZE];
      Lines(w) + if TailStart(w) == BUFSIZE then Windows(f[BUFSIZE..]) else Pieces(f[BUFSIZE..])
  }

  /** The lines the search sees, by whether that byte is a newline. */
  ghost function Ahead(stray: bool, f: seq<Byte>): seq<seq<Byte>> {
    if stray then Windows(f) else Pieces(f)
  }

  lemma AheadShort(stray: bool, f: seq<Byte>)
    requires |f| < BUFSIZE
    ensures Ahead(stray, f) == Lines(f)
  {
    ShortPieces(f);
  }

  lemma CutLines(w: seq<Byte>, k: nat)
    requires LineStart(w, k)
    ensures Lines(w) == Lines(w[..k]) + Lines(w[k..])
  {
    assert w == w[..k] + w[k..];
    LinesJoin(w[..k], w[k..]);
  }

  /** A buffer w that ends the file, its last line kept for later. */
  lemma LastWindowCut(stray: bool, w: seq<Byte>, k: nat)
    requires |w| < BUFSIZE && LineStart(w, k)
    ensures Ahead(stray, w) == Lines(w[..k]) + Ahead(stray, w[k..])
  {
    AheadShort(stray, w);
    AheadShort(stray, w[k..]);
    CutLines(w, k);
  }

  /** A buffer w that ends the file, searched to its end. */
  lemma LastWindow(stray: bool, w: seq<Byte>)
    requires |w| < BUFSIZE
    ensures Ahead(stray, w) == Lines(w) + Ahead(stray, [])
  {
    AheadShort(stray, w);
    AheadShort(stray, []);
    AppendNil(Lines(w));
  }

  lemma AppendNil(a: seq<seq<Byte>>)
    ensures a == a + Lines([])
  {
  }

  /** A full buffer w followed by `rest`, the byte after it not a newline. */
  lemma FullWindow(w: seq<Byte>, rest: seq<Byte>)
    requires |w| == BUFSIZE
    ensures var k := TailStart(w);
            if 0 < k < |w| then Pieces(w + rest) == Lines(w[..k]) + Pieces(w[k..] + rest)
            else Pieces(w + rest) == Lines(w) + Pieces(rest)
  {
    var k := TailStart(w);
    if k == 0 {
      FullPiece(w, rest);
    } else if k == |w| {
      WholeLinesFirst(w, rest);
    } else {
      assert w + rest == w[..k] + (w[k..] + rest);
      WholeLinesFirst(w[..k], w[k..] + rest);
    }
  }

  lemma StrayWindow(w: seq<Byte>, rest: seq<Byte>)
    requires |w| == BUFSIZE
    ensures Windows(w + rest) == Lines(w) + Ahead(TailStart(w) == |w|, rest)
  {
    assert (w + rest)[..BUFSIZE] == w && (w + rest)[BUFSIZE..] == rest;
  }

  /** One round: what the pass over buffer w reports, and what it leaves. */
  lemma WindowStep(stray: bool, w: seq<Byte>, rest: seq<Byte>, next: bool, cnt: nat)
    requires |w| <= BUFSIZE && cnt != 0
    requires |w| == BUFSIZE ==> next == stray
    requires |w| < BUFSIZE ==> rest == []
    ensures var k := TailStart(w);
            var stray' := stray && !(|w| == BUFSIZE && k < |w|);
            if Carries(w, next, cnt) then Ahead(stray, w + rest) == Lines(w[..k]) + Ahead(stray', w[k..] + rest)
            else Ahead(stray, w + rest) == Lines(w) + Ahead(stray', [] + rest)
  {
    var k := TailStart(w);
    assert [] + rest == rest;
    if |w| < BUFSIZE {
      assert w + rest == w && w[k..] + rest == w[k..];
      LastWindow(stray, w);
      LastWindowCut(stray, w, k);
    } else if stray {
      StrayWindow(w, rest);
    } else {
      FullWindow(w, rest);
    }
  }

  // ----- the program -----

  /** All descriptors but k. */
  ghost function Others(files: map<(nat, nat), Fd>, k: (nat, nat)): map<(nat, nat), Fd> {
    files - {k}
  }

  /** Descriptor k reads `file` and has come to `pos`; the others are as given. */
  ghost predicate ReadingIn(disk: seq<Byte>, s: State, k: (nat, nat), file: seq<Byte>, pos: nat,
                            others: map<(nat, nat), Fd>)
    requires WellFormed(disk)
  {
    && Others(s.files, k) == others
    && k.0 in s.live && 2 <= k.1 < FILE_ARRAY_LEN && k in s.files && s.files[k].live
    && s.files[k].fops == Some(File) && Contents(disk, s.files[k].inodeNum) == file
    && s.files[k].pos == pos <= |file|
  }

  lemma ReadingAdvances(disk: seq<Byte>, s: State, k: (nat, nat), n: nat, file: seq<Byte>, pos: nat,
                        others: map<(nat, nat), Fd>)
    requires WellFormed(disk) && ReadingIn(disk, s, k, file, pos, others) && k in s.delivered
    ensures Returned(disk, s.files[k], n) == Payload(disk, s.files[k], n) == Slice(file, pos, n)
    ensures forall c :: ReadingIn(disk, Advanced(s, k, Slice(file, pos, n)).(clock := c), k, file,
                                  pos + |Slice(file, pos, n)|, others)
  {
    assert Others(Advanced(s, k, Slice(file, pos, n)).files, k) == Others(s.files, k);
  }

  ghost predicate Reading(t: Tables, p: nat, fd: nat, file: seq<Byte>, pos: nat, others: map<(nat, nat), Fd>)
    reads t, t.live, t.files, t.rtc, t.rtc.procs
  {
    t.Valid() && ReadingIn(t.disk, t.View(), (p, fd), file, pos, others)
  }

  /** Fills the buffer up from the file. */
  method ReadChunk(t: Tables, p: nat, fd: nat, data: array<Byte>, last: nat, ghost file: seq<Byte>, ghost pos: nat,
                   ghost others: map<(nat, nat), Fd>)
    returns (cnt: int)
    requires Reading(t, p, fd, file, pos, others) && data.Length == BUFSIZE + 1 && last <= BUFSIZE
    modifies t, t.files, t.rtc.procs, data
    ensures cnt == |Slice(file, pos, BUFSIZE - last)|
    ensures Reading(t, p, fd, file, pos + cnt, others)
    ensures Stored(old(data[..]), data[..], last, Slice(file, pos, BUFSIZE - last))
  {
    ReadReady(t.disk, t.View(), (p, fd), BUFSIZE - last);
    ReadingAdvances(t.disk, t.View(), (p, fd), BUFSIZE - last, file, pos, others);
    cnt := t.Read(p, fd, data, last, BUFSIZE - last);
  }

  /** What is still to be printed after a pass over buffer w that printed `found` and left
      the bytes `kept`. */
  lemma RoundReported(fname: seq<Byte>, pat: seq<Byte>, stray: bool, w: seq<Byte>, rest: seq<Byte>, next: bool,
                      cnt: nat, found: seq<Byte>, kept: seq<Byte>)
    requires |w| <= BUFSIZE && (|w| == BUFSIZE ==> next == stray)
    requires |w| < BUFSIZE ==> rest == []
    requires if Carries(w, next, cnt) then found == Report(fname, pat, Lines(w[..TailStart(w)]))
                                           && kept == w[TailStart(w)..]
             else found == Report(fname, pat, Lines(w)) && kept == []
    ensures cnt != 0 ==>
              var stray' := stray && !(|w| == BUFSIZE && TailStart(w) < |w|);
              Report(fname, pat, Ahead(stray, w + rest)) == found + Report(fname, pat, Ahead(stray', kept + rest))
    ensures cnt == 0 && |w| < BUFSIZE ==> Report(fname, pat, Ahead(stray, w + rest)) == found
  {
    var stray' := stray && !(|w| == BUFSIZE && TailStart(w) < |w|);
    if cnt != 0 {
      WindowStep(stray, w, rest, next, cnt);
      ReportJoins(fname, pat, if Carries(w, next, cnt) then Lines(w[..TailStart(w)]) else Lines(w),
                  Ahead(stray', kept + rest));
    } else if |w| < BUFSIZE {
      assert w + rest == w;
      AheadShort(stray, w);
    }
  }

  /** The buffer after a chunk: what was kept, then what was read. */
  lemma Filled(before: seq<Byte>, after: seq<Byte>, last: nat, file: seq<Byte>, pos: nat, n: nat)
    requires last <= BUFSIZE < |before| == |after| && pos <= |file| && n == |Slice(file, pos, BUFSIZE - last)|
    requires Stored(before, after, last, Slice(file, pos, BUFSIZE - last))
    requires Without(before, 0, last, NUL) && Without(file, 0, |file|, NUL)
    ensures last + n <= BUFSIZE && pos + n <= |file|
    ensures before[..last] + file[pos..] == after[..last + n] + file[pos + n..]
    ensures Without(after, 0, last + n, NUL) && (last + n < BUFSIZE ==> file[pos + n..] == [])
    ensures after[BUFSIZE] == before[BUFSIZE]
  {
    var slice := Slice(file, pos, BUFSIZE - last);
    assert after[..last + n] == before[..last] + slice;
    assert file[pos..] == slice + file[pos + n..];
    forall j | 0 <= j < last + n
      ensures after[j] != NUL
    {
      if j < last {
        assert after[j] == before[j];
      } else {
        assert after[j] == file[pos + j - last];
      }
    }
  }

  /** With `last` bytes kept in the buffer and the file read up to `pos`, `out` and what
      the rest will print make up `total`. */
  ghost predicate Pending(data: seq<Byte>, last: nat, file: seq<Byte>, pos: nat, fname: seq<Byte>, pat: seq<Byte>,
                          out: seq<Byte>, total: seq<Byte>)
    requires |data| == BUFSIZE + 1 && last <= BUFSIZE && pos <= |file|
  {
    && Without(data, 0, last, NUL)
    && out + Report(fname, pat, Ahead(data[BUFSIZE] == NEWLINE, data[..last] + file[pos..])) == total
  }

  /** A pass over the filled buffer keeps the promise, or, at the end of the file, meets it. */
  lemma PassKeeps(before: seq<Byte>, after: seq<Byte>, last: nat, last': nat, cnt: nat, file: seq<Byte>, pos: nat,
                  fname: seq<Byte>, pat: seq<Byte>, out: seq<Byte>, found: seq<Byte>, total: seq<Byte>)
    requires |before| == |after| == BUFSIZE + 1 && last <= BUFSIZE && last' <= BUFSIZE && pos <= |file|
    requires (last < BUFSIZE ==> pos == |file|) && (cnt == 0 ==> last < BUFSIZE)
    requires Pending(before, last, file, pos, fname, pat, out, total)
    requires Scanned(before, after, last, last', cnt, fname, pat, found)
    ensures last' < BUFSIZE && (cnt != 0 ==> Pending(after, last', file, pos, fname, pat, out + found, total))
    ensures cnt == 0 ==> out + found == total
  {
    hide Report, Lines, Ahead, TailStart;
    var w, stray, next := before[..last], before[BUFSIZE] == NEWLINE, before[last] == NEWLINE;
    RoundReported(fname, pat, stray, w, file[pos..], next, cnt, found, after[..last']);
    KeptWithout(w, next, cnt, after[..last']);
    forall j | 0 <= j < last'
      ensures after[j] != NUL
    {
      assert after[j] == after[..last'][j];
    }
  }

  lemma KeptWithout(w: seq<Byte>, next: bool, cnt: nat, kept: seq<Byte>)
    requires Without(w, 0, |w|, NUL)
    requires kept == if Carries(w, next, cnt) then w[TailStart(w)..] else []
    ensures Without(kept, 0, |kept|, NUL)
  {
  }

  method Pass(data: array<Byte>, s: seq<Byte>, sLen: nat, fname: seq<Byte>, last: nat, cnt: nat, out: seq<Byte>,
              ghost file: seq<Byte>, ghost pos: nat, ghost total: seq<Byte>)
    returns (last': nat, out': seq<Byte>)
    requires data.Length == BUFSIZE + 1 && last <= BUFSIZE && pos <= |file|
    requires last < BUFSIZE ==> pos == |file|
    requires cnt == 0 ==> last < BUFSIZE
    requires NUL in s && sLen == |CString(s)| && NUL in fname
    requires Pending(data[..], last, file, pos, CString(fname), CString(s), out, total)
    modifies data
    ensures last' < BUFSIZE && (cnt != 0 ==> Pending(data[..], last', file, pos, CString(fname), CString(s), out', total))
    ensures cnt == 0 ==> out' == total
  {
    ghost var before := data[..];
    var found;
    last', found := ScanWindow(data, s, sLen, fname, last, cnt);
    PassKeeps(before, data[..], last, last', cnt, file, pos, CString(fname), CString(s), out, found, total);
    out' := out + found;
  }

  method Fill(t: Tables, p: nat, fd: nat, data: array<Byte>, last: nat, ghost file: seq<Byte>, ghost pos: nat,
              ghost fname: seq<Byte>, ghost pat: seq<Byte>, ghost out: seq<Byte>, ghost total: seq<Byte>,
              ghost others: map<(nat, nat), Fd>)
    returns (cnt: nat)
    requires pos <= |file| && Reading(t, p, fd, file, pos, others) && Without(file, 0, |file|, NUL)
    requires data.Length == BUFSIZE + 1 && last < BUFSIZE
    requires Pending(data[..], last, file, pos, fname, pat, out, total)
    modifies t, t.files, t.rtc.procs, data
    ensures last + cnt <= BUFSIZE && pos + cnt <= |file| && Reading(t, p, fd, file, pos + cnt, others)
    ensures Pending(data[..], last + cnt, file, pos + cnt, fname, pat, out, total)
    ensures last + cnt < BUFSIZE ==> pos + cnt == |file|
  {
    ghost var before := data[..];
    cnt := ReadChunk(t, p, fd, data, last, file, pos, others);
    Filled(before, data[..], last, file, pos, cnt);
  }

  /** One round of the program's loop: fill the buffer, then pass over it. */
  method Round(t: Tables, p: nat, fd: nat, s: seq<Byte>, sLen: nat, fname: seq<Byte>, data: array<Byte>, last: nat,
               out: seq<Byte>, ghost file: seq<Byte>, ghost pos: nat, ghost total: seq<Byte>,
               ghost others: map<(nat, nat), Fd>)
    returns (cnt: nat, last': nat, out': seq<Byte>)
    requires pos <= |file| && Reading(t, p, fd, file, pos, others) && Without(file, 0, |file|, NUL)
    requires data.Length == BUFSIZE + 1 && last < BUFSIZE && NUL in s && sLen == |CString(s)| && NUL in fname
    requires Pending(data[..], last, file, pos, CString(fname), CString(s), out, total)
    modifies t, t.files, t.rtc.procs, data
    ensures pos + cnt <= |file| && Reading(t, p, fd, file, pos + cnt, others) && last' < BUFSIZE
    ensures cnt != 0 ==> Pending(data[..], last', file, pos + cnt, CString(fname), CString(s), out', total)
    ensures cnt == 0 ==> pos == |file| && out' == total
  {
    hide Reading, Pending, CString;
    cnt := Fill(t, p, fd, data, last, file, pos, CString(fname), CString(s), out, total, others);
    label filled:
    last', out' := Pass(data, s, sLen, fname, last + cnt, cnt, out, file, pos + cnt, total);
    assert Reading(t, p, fd, file, pos + cnt, others) by {
      assert old@filled(Reading(t, p, fd, file, pos + cnt, others));
    }
  }

  /** Reads the file chunk by chunk and searches every buffer. */
  method SearchFile(t: Tables, p: nat, fd: nat, s: seq<Byte>, sLen: nat, fname: seq<Byte>, data: array<Byte>,
                    ghost file: seq<Byte>, ghost others: map<(nat, nat), Fd>)
    returns (out: seq<Byte>)
    requires Reading(t, p, fd, file, 0, others) && data.Length == BUFSIZE + 1 && Without(file, 0, |file|, NUL)
    requires NUL in s && sLen == |CString(s)| && NUL in fname
    modifies t, t.files, t.rtc.procs, data
    ensures Reading(t, p, fd, file, |file|, others)
    ensures out == Report(CString(fname), CString(s), Ahead(old(data[BUFSIZE]) == NEWLINE, file))
  {
    hide Reading, Pending, Report, Ahead, CString;
    ghost var total := Report(CString(fname), CString(s), Ahead(data[BUFSIZE] == NEWLINE, file));
    NothingRead(data[..], file, CString(fname), CString(s));
    ghost var pos: nat := 0;
    var last: nat, cnt: nat := 0, 1;
    out := [];
    while cnt != 0
      invariant pos <= |file| && Reading(t, p, fd, file, pos, others) && last < BUFSIZE
      invariant cnt != 0 ==> Pending(data[..], last, file, pos, CString(fname), CString(s), out, total)
      invariant cnt == 0 ==> pos == |file| && out == total
      decreases |file| - pos, cnt
    {
      cnt, last, out := Round(t, p, fd, s, sLen, fname, data, last, out, file, pos, total, others);
      pos := pos + cnt;
    }
  }

  lemma NothingRead(data: seq<Byte>, file: seq<Byte>, fname: seq<Byte>, pat: seq<Byte>)
    requires |data| == BUFSIZE + 1
    ensures Pending(data, 0, file, 0, fname, pat, [], Report(fname, pat, Ahead(data[BUFSIZE] == NEWLINE, file)))
  {
    assert data[..0] + file[0..] == file;
  }

  /** The file the name stands for, if any. */
  ghost function FileNamed(disk: seq<Byte>, name: seq<Byte>): Option<seq<Byte>>
    requires WellFormed(disk)
  {
    match EntryNamed(disk, name)
    case Some(e) => if |e| == 64 then Some(Contents(disk, EntryInode(e))) else None
    case None => None
  }

  lemma OpenedReads(disk: seq<Byte>, s: State, k: (nat, nat), inodeNum: nat)
    requires WellFormed(disk) && k.0 in s.live && 2 <= k.1 < FILE_ARRAY_LEN && k in s.files && s.files[k].pos == 0
    ensures ReadingIn(disk, Installed(s, k, Some(File), inodeNum), k, Contents(disk, inodeNum), 0, Others(s.files, k))
  {
    assert Others(Installed(s, k, Some(File), inodeNum).files, k) == Others(s.files, k);
  }

  /** Every descriptor is what it was, but that a free one may be left naming another inode. */
  ghost predicate GivenBack(was: map<(nat, nat), Fd>, now: map<(nat, nat), Fd>) {
    && now.Keys == was.Keys
    && forall j :: j in was ==> now[j] == was[j] || (!was[j].live && !now[j].live && now[j].fops == None && now[j].pos == 0)
  }

  lemma NothingTaken(files: map<(nat, nat), Fd>)
    ensures GivenBack(files, files)
  {
  }

  lemma ReleasedIsFree(disk: seq<Byte>, s: State, k: (nat, nat))
    requires WellFormed(disk) && Inv(disk, s) && k.0 in s.live && k in s.files
    ensures k.0 < |s.clock.procs| && Rtc.NonZeroRates(s.clock.procs)
    ensures Freed(Released(s, k).files, k, Others(s.files, k))
  {
    assert Others(Released(s, k).files, k) == Others(s.files, k);
  }

  lemma ClosedIsBack(was: map<(nat, nat), Fd>, now: map<(nat, nat), Fd>, k: (nat, nat))
    requires k in was && k in now && Others(now, k) == Others(was, k)
    requires !was[k].live && !now[k].live && now[k].fops == None && now[k].pos == 0
    ensures GivenBack(was, now)
  {
    forall j
      ensures j in now <==> j in was
    {
      assert j in Others(now, k) <==> j in Others(was, k);
    }
    forall j | j in was && j != k
      ensures now[j] == was[j]
    {
      assert j in Others(was, k) && Others(now, k)[j] == now[j];
    }
  }

  /** The search, and the close that frees the descriptor. */
  method SearchAndClose(t: Tables, p: nat, fd: nat, s: seq<Byte>, sLen: nat, fname: seq<Byte>, data: array<Byte>,
                        ghost file: seq<Byte>, ghost others: map<(nat, nat), Fd>)
    returns (out: seq<Byte>)
    requires Reading(t, p, fd, file, 0, others) && data.Length == BUFSIZE + 1 && Without(file, 0, |file|, NUL)
    requires NUL in s && sLen == |CString(s)| && NUL in fname
    modifies t, t.files, t.rtc, t.rtc.procs, data
    ensures t.Valid() && out == Report(CString(fname), CString(s), Ahead(old(data[BUFSIZE]) == NEWLINE, file))
    ensures Freed(t.Files(), (p, fd), others)
  {
    hide Report, Ahead, CString, Inv, Freed, Released;
    out := SearchFile(t, p, fd, s, sLen, fname, data, file, others);
    ghost var before := t.View();
    var closed := t.Close(p, fd);
    ReleasedIsFree(t.disk, before, (p, fd));
  }

  ghost predicate Freed(files: map<(nat, nat), Fd>, k: (nat, nat), others: map<(nat, nat), Fd>) {
    && Others(files, k) == others && k in files
    && !files[k].live && files[k].fops == None && files[k].pos == 0
  }

  /** Prints every line of the file that contains the pattern, each once and in order, after
      the name and a colon;
      fails only when the file cannot be opened, and gives the descriptor back.  What is
      printed is right exactly when no line with the pattern is too long or cut.  The byte
      data[1024] and all the others of the buffer are whatever the stack held. */
  method DoOneFile(t: Tables, p: nat, s: seq<Byte>, fname: seq<Byte>, data: array<Byte>)
    returns (r: int, out: seq<Byte>)
    requires t.Valid() && p in t.Live() && NUL in s && NUL in fname && data.Length == BUFSIZE + 1
    requires EntryNamed(t.disk, CString(fname)).Some? ==>
               DeviceOf(EntryType(EntryNamed(t.disk, CString(fname)).value)) == Some(File)
    requires FileNamed(t.disk, CString(fname)).Some? ==>
               var file := FileNamed(t.disk, CString(fname)).value; Without(file, 0, |file|, NUL)
    modifies t, t.files, t.rtc, t.rtc.procs, data
    ensures t.Valid()
    ensures r == 0 <==> FileNamed(t.disk, CString(fname)).Some?
                        && exists g: nat :: 2 <= g < FILE_ARRAY_LEN && !old(t.Files())[(p, g)].live
    ensures r == 0 ==> out == Report(CString(fname), CString(s),
                                     Ahead(old(data[BUFSIZE]) == NEWLINE, FileNamed(t.disk, CString(fname)).value))
    ensures r == 0 ==>
              var file, pat := FileNamed(t.disk, CString(fname)).value, CString(s);
              (out == Report(CString(fname), pat, Lines(file))
               <==> ShortMatches(Lines(file), pat) && !(old(data[BUFSIZE]) == NEWLINE && CutMatches(file, pat)))
    ensures r == 0 && 10 !in CString(fname) ==>
              PrintsEach(out, CString(fname), Found(CString(s), Ahead(old(data[BUFSIZE]) == NEWLINE,
                                                                      FileNamed(t.disk, CString(fname)).value)))
    ensures r != 0 ==> r == -1 && out == OPEN_FAILED
    ensures t.Live() == old(t.Live()) && GivenBack(old(t.Files()), t.Files())
  {
    hide Report, Ahead, Lines, ShortMatches, CutMatches, GivenBack, Inv, CString, Stored, Found, PrintsEach;
    ghost var before := t.View();
    var sLen := Strlen(s);
    var fd := t.Open(p, fname);
    if fd == -1 {
      NothingTaken(t.Files());
      return -1, OPEN_FAILED;
    }
    ghost var file := FileNamed(t.disk, CString(fname)).value;
    ghost var k := (p, fd as nat);
    FreeAtZero(t.disk, before, k);
    OpenedReads(t.disk, before, k, EntryInode(EntryNamed(t.disk, CString(fname)).value));
    ghost var others := Others(before.files, k);
    OutputIsRight(CString(fname), CString(s), data[BUFSIZE] == NEWLINE, file);
    if 10 !in CString(fname) { OutputEntries(CString(fname), CString(s), data[BUFSIZE] == NEWLINE, file); }
    out := SearchAndClose(t, p, fd, s, sLen, fname, data, file, others);
    ClosedIsBack(before.files, t.Files(), k);
    r := 0;
  }

  lemma FreeAtZero(disk: seq<Byte>, s: State, k: (nat, nat))
    requires WellFormed(disk) && Inv(disk, s) && k.0 in s.live && k in s.files && !s.files[k].live
    ensures s.files[k].pos == 0
  {
  }

  // ----- what that means for ordinary text -----

  ghost function Unlines(lines: seq<seq<Byte>>): seq<Byte> {
    if lines == [] then [] else lines[0] + [NEWLINE] + Unlines(lines[1..])
  }

  /** The lines are the file cut at its newlines: put together again they give the file,
      ended by a newline, and none of them holds one. */
  lemma {:induction false} LinesAreTheFile(f: seq<Byte>)
    ensures Unlines(Lines(f)) == if LineStart(f, |f|) then f else f + [NEWLINE]
    ensures forall line :: line in Lines(f) ==> Without(line, 0, |line|, NEWLINE)
    decreases |f|
  {
    if f != [] {
      var n, after := LineLength(f), AfterLine(f);
      LineHasNoNewline(f);
      LinesAreTheFile(after);
      LinesUnfold(f);
      assert Unlines(Lines(f)) == f[..n] + [NEWLINE] + Unlines(Lines(after)) by {
        assert ([f[..n]] + Lines(after))[1..] == Lines(after);
      }
      if n == |f| {
        assert Lines(after) == [];
      }
      hide Lines, LineLength, Unlines, Without;
      Rejoin(f, n);
    }
  }

  lemma Rejoin(f: seq<Byte>, n: nat)
    requires n <= |f|
    ensures n < |f| && f[n] == NEWLINE ==> f == f[..n] + [NEWLINE] + f[n + 1..]
                                           && f + [NEWLINE] == f[..n] + [NEWLINE] + (f[n + 1..] + [NEWLINE])
    ensures n == |f| ==> f + [NEWLINE] == f[..n] + [NEWLINE] + []
  {
  }

  // ----- when the output is right -----

  /** The lines that contain the pattern. */
  ghost function Found(pat: seq<Byte>, lines: seq<seq<Byte>>): seq<seq<Byte>> {
    if lines == [] then []
    else (if Matches(lines[0], pat) then [lines[0]] else []) + Found(pat, lines[1..])
  }

  ghost function AllPrinted(fname: seq<Byte>, lines: seq<seq<Byte>>): seq<Byte> {
    if lines == [] then [] else fname + [58] + lines[0] + [10] + AllPrinted(fname, lines[1..])
  }

  ghost predicate NewlineFree(lines: seq<seq<Byte>>) {
    forall line :: line in lines ==> Without(line, 0, |line|, NEWLINE)
  }

  lemma {:induction false} ReportPrints(fname: seq<Byte>, pat: seq<Byte>, lines: seq<seq<Byte>>)
    ensures Report(fname, pat, lines) == AllPrinted(fname, Found(pat, lines))
    ensures forall line :: line in Found(pat, lines) <==> line in lines && Matches(line, pat)
  {
    if lines != [] {
      ReportPrints(fname, pat, lines[1..]);
      var found := Found(pat, lines);
      if Matches(lines[0], pat) {
        assert found[1..] == Found(pat, lines[1..]);
      } else {
        assert found == Found(pat, lines[1..]);
      }
    }
  }

  lemma {:induction false} FoundJoins(pat: seq<Byte>, a: seq<seq<Byte>>, b: seq<seq<Byte>>)
    ensures Found(pat, a + b) == Found(pat, a) + Found(pat, b)
  {
    if a == [] {
      assert a + b == b;
    } else {
      assert (a + b)[1..] == a[1..] + b;
      FoundJoins(pat, a[1..], b);
    }
  }

  lemma FirstPrinted(fname: seq<Byte>, line: seq<Byte>, more: seq<Byte>)
    requires Without(line, 0, |line|, NEWLINE)
    ensures var out := (Printed(fname, line) + more)[|fname| + 1..];
            LineLength(out) == |line| < |out| && out[..|line|] == line && out[|line| + 1..] == more
  {
    var out := (Printed(fname, line) + more)[|fname| + 1..];
    assert out == line + [NEWLINE] + more;
    LineLengthIs(out, |line|);
  }

  /** What is printed can be told apart: it says which lines were found. */
  lemma {:induction false} PrintedTells(fname: seq<Byte>, a: seq<seq<Byte>>, b: seq<seq<Byte>>)
    requires NewlineFree(a) && NewlineFree(b) && AllPrinted(fname, a) == AllPrinted(fname, b)
    ensures a == b
  {
    if a != [] && b != [] {
      FirstPrinted(fname, a[0], AllPrinted(fname, a[1..]));
      FirstPrinted(fname, b[0], AllPrinted(fname, b[1..]));
      PrintedTells(fname, a[1..], b[1..]);
      assert a == [a[0]] + a[1..] && b == [b[0]] + b[1..];
    }
  }

  /** The output has a line for each line found, in order: the name, a colon (58), the line. */
  ghost predicate PrintsEach(out: seq<Byte>, name: seq<Byte>, found: seq<seq<Byte>>) {
    && |Lines(out)| == |found| && (out == [] || out[|out| - 1] == 10)
    && forall i :: 0 <= i < |found| ==> Lines(out)[i] == name + [58] + found[i]
  }

  lemma {:induction false} EachIsPrinted(name: seq<Byte>, found: seq<seq<Byte>>)
    requires 10 !in name && NewlineFree(found)
    ensures PrintsEach(AllPrinted(name, found), name, found)
  {
    if found != [] {
      var entry, rest := name + [58] + found[0], AllPrinted(name, found[1..]);
      EachIsPrinted(name, found[1..]);
      EntryFirst(name, found[0], rest);
      assert AllPrinted(name, found) == entry + [10] + rest;
    }
  }

  lemma EntryFirst(name: seq<Byte>, line: seq<Byte>, rest: seq<Byte>)
    requires 10 !in name && Without(line, 0, |line|, NEWLINE)
    ensures Lines(name + [58] + line + [10] + rest) == [name + [58] + line] + Lines(rest)
  {
    var entry := name + [58] + line;
    forall j | 0 <= j < |entry|
      ensures entry[j] != NEWLINE
    {
      if j < |name| { assert entry[j] == name[j]; }
    }
    hide Lines;
    LineAdded([], entry, [10]);
    assert [] + (entry + [10]) == entry + [10];
    LinesJoin(entry + [10], rest);
    NoLines();
    assert Lines([]) + [entry] == [entry];
  }

  lemma NoLines()
    ensures Lines([]) == []
  {
  }

  lemma AheadIsNewlineFree(stray: bool, f: seq<Byte>)
    ensures NewlineFree(Ahead(stray, f))
  {
    if stray { WindowsAreNewlineFree(f); } else { PiecesAreShort(f); }
  }

  /** What is printed is an entry for each line found, and so is the report of the lines. */
  lemma OutputEntries(name: seq<Byte>, pat: seq<Byte>, stray: bool, f: seq<Byte>)
    requires 10 !in name
    ensures PrintsEach(Report(name, pat, Ahead(stray, f)), name, Found(pat, Ahead(stray, f)))
    ensures PrintsEach(Report(name, pat, Lines(f)), name, Found(pat, Lines(f)))
  {
    hide Ahead, PrintsEach, Lines;
    AheadIsNewlineFree(stray, f);
    ReportPrints(name, pat, Ahead(stray, f));
    EachIsPrinted(name, Found(pat, Ahead(stray, f)));
    LinesAreTheFile(f);
    ReportPrints(name, pat, Lines(f));
    EachIsPrinted(name, Found(pat, Lines(f)));
  }

  lemma SameReport(fname: seq<Byte>, pat: seq<Byte>, a: seq<seq<Byte>>, b: seq<seq<Byte>>)
    requires NewlineFree(a) && NewlineFree(b)
    ensures Report(fname, pat, a) == Report(fname, pat, b) <==> Found(pat, a) == Found(pat, b)
  {
    ReportPrints(fname, pat, a);
    ReportPrints(fname, pat, b);
    if Report(fname, pat, a) == Report(fname, pat, b) {
      PrintedTells(fname, Found(pat, a), Found(pat, b));
    }
  }

  /** No line that contains the pattern is longer than the buffer. */
  ghost predicate ShortMatches(lines: seq<seq<Byte>>, pat: seq<Byte>) {
    forall line :: line in lines && Matches(line, pat) ==> |line| <= 1024
  }

  lemma MatchesWithin(a: seq<Byte>, line: seq<Byte>, b: seq<Byte>, pat: seq<Byte>)
    ensures Matches(line, pat) ==> Matches(a + line + b, pat)
  {
    if Matches(line, pat) {
      var i :| OccursAt(line, pat, i);
      assert (a + line + b)[|a| + i..|a| + i + |pat|] == line[i..i + |pat|];
      assert OccursAt(a + line + b, pat, |a| + i);
    }
  }

  lemma DropTwice(f: seq<Byte>, k: nat, m: nat)
    requires k + m <= |f|
    ensures f[k..][m..] == f[k + m..] && f[k..][..m] == f[k..k + m]
  {
  }

  lemma LongLineLength(f: seq<Byte>, k: nat)
    requires k <= LineLength(f)
    ensures LineLength(f[k..]) == LineLength(f) - k
  {
    var n := LineLength(f);
    LineHasNoNewline(f);
    hide LineLength;
    forall j | 0 <= j < n - k
      ensures f[k..][j] != NEWLINE
    {
      assert f[k + j] != NEWLINE;
    }
    LineLengthIs(f[k..], n - k);
  }

  /** The first line is longer than k: what is left of it, and the lines after it. */
  lemma LongLineRest(f: seq<Byte>, k: nat)
    requires k < LineLength(f)
    ensures Lines(f[k..]) == [f[k..LineLength(f)]] + Lines(AfterLine(f))
  {
    hide Lines, LineLength, AfterLine;
    LongLineLength(f, k);
    AfterLongLine(f, k);
    DropTwice(f, k, LineLength(f) - k);
    LinesUnfold(f[k..]);
  }

  lemma AfterLongLine(f: seq<Byte>, k: nat)
    requires k < LineLength(f) && LineLength(f[k..]) == LineLength(f) - k
    ensures AfterLine(f[k..]) == AfterLine(f)
  {
    hide LineLength;
    var n := LineLength(f);
    if n < |f| { DropTwice(f, k, n - k + 1); }
  }

  lemma FoundFirst(pat: seq<Byte>, line: seq<Byte>, lines: seq<seq<Byte>>)
    ensures Found(pat, [line] + lines) == (if Matches(line, pat) then [line] else []) + Found(pat, lines)
  {
    assert ([line] + lines)[1..] == lines;
  }

  lemma ShortFirst(line: seq<Byte>, lines: seq<seq<Byte>>, pat: seq<Byte>)
    ensures ShortMatches([line] + lines, pat) <==> (Matches(line, pat) ==> |line| <= BUFSIZE) && ShortMatches(lines, pat)
  {
    assert line in [line] + lines;
    assert forall l :: l in lines ==> l in [line] + lines;
  }

  /** An empty rest of a line, ended or not, shows nothing. */
  lemma EndedLine(f: seq<Byte>, pat: seq<Byte>)
    requires f == [] || f[0] == NEWLINE
    ensures var after := if f == [] then [] else f[1..];
            Found(pat, Lines(f)) == Found(pat, Lines(after)) && Found(pat, Pieces(f)) == Found(pat, Pieces(after))
            && (ShortMatches(Lines(f), pat) <==> ShortMatches(Lines(after), pat))
  {
    if f != [] {
      assert f[..0] == [] && !Matches([], pat);
      FoundFirst(pat, [], Lines(f[1..]));
      FoundFirst(pat, [], Pieces(f[1..]));
      ShortFirst([], Lines(f[1..]), pat);
    }
  }

  /** Pieces show what lines do when no matching line is too long. */
  lemma {:induction false} PiecesShow(f: seq<Byte>, pat: seq<Byte>)
    requires ShortMatches(Lines(f), pat)
    ensures Found(pat, Pieces(f)) == Found(pat, Lines(f))
    decreases |f|
  {
    if f != [] {
      var n, after := LineLength(f), AfterLine(f);
      var line := f[..n];
      LinesUnfold(f);
      ShortFirst(line, Lines(after), pat);
      FoundFirst(pat, line, Lines(after));
      if n < BUFSIZE {
        PiecesShow(after, pat);
        FoundFirst(pat, line, Pieces(after));
      } else {
        CutLineShows(f, pat);
      }
    }
  }

  lemma {:induction false} CutLineShows(f: seq<Byte>, pat: seq<Byte>)
    requires LineLength(f) >= BUFSIZE && ShortMatches(Lines(f), pat)
    ensures Found(pat, Pieces(f)) == Found(pat, Lines(f))
    decreases |f|, 0
  {
    hide Lines, LineLength, Found, Matches, ShortMatches;
    var n, after := LineLength(f), AfterLine(f);
    var line, rest := f[..n], f[BUFSIZE..];
    LinesUnfold(f);
    ShortFirst(line, Lines(after), pat);
    FoundFirst(pat, line, Lines(after));
    FoundFirst(pat, f[..BUFSIZE], Pieces(rest));
    if n == BUFSIZE {
      LineHasNoNewline(f);
      EndedLine(rest, pat);
      assert after == if rest == [] then [] else rest[1..];
      PiecesShow(rest, pat);
    } else {
      LongLineRest(f, BUFSIZE);
      MatchesWithin([], f[..BUFSIZE], f[BUFSIZE..n], pat);
      MatchesWithin(f[..BUFSIZE], f[BUFSIZE..n], [], pat);
      assert [] + f[..BUFSIZE] + f[BUFSIZE..n] == line && f[..BUFSIZE] + f[BUFSIZE..n] + [] == line;
      ShortFirst(f[BUFSIZE..n], Lines(after), pat);
      FoundFirst(pat, f[BUFSIZE..n], Lines(after));
      PiecesShow(rest, pat);
    }
  }

  lemma {:induction false} PiecesAreShort(f: seq<Byte>)
    ensures NewlineFree(Pieces(f)) && forall piece :: piece in Pieces(f) ==> |piece| <= BUFSIZE
    decreases |f|
  {
    if f != [] {
      LineHasNoNewline(f);
      PiecesAreShort(if LineLength(f) >= BUFSIZE then f[BUFSIZE..] else AfterLine(f));
    }
  }

  /** They do exactly then. */
  lemma PiecesShowIff(f: seq<Byte>, pat: seq<Byte>)
    ensures Found(pat, Pieces(f)) == Found(pat, Lines(f)) <==> ShortMatches(Lines(f), pat)
  {
    if ShortMatches(Lines(f), pat) { PiecesShow(f, pat); }
    PiecesAreShort(f);
    ReportPrints([], pat, Lines(f));
    ReportPrints([], pat, Pieces(f));
  }

  // ----- with a newline in the byte after the buffer -----

  /** The first full buffer that does not end in a newline ends inside a line, and that
      line contains the pattern. */
  ghost predicate CutMatches(f: seq<Byte>, pat: seq<Byte>)
    decreases |f|
  {
    |f| >= 1024 &&
    var w, rest := f[..1024], f[1024..];
    if TailStart(w) == 1024 then CutMatches(rest, pat)
    else rest != [] && rest[0] != NEWLINE && Matches(w[TailStart(w)..] + rest[..LineLength(rest)], pat)
  }

  lemma ShortJoin(a: seq<seq<Byte>>, b: seq<seq<Byte>>, pat: seq<Byte>)
    ensures ShortMatches(a + b, pat) <==> ShortMatches(a, pat) && ShortMatches(b, pat)
  {
    assert forall line :: line in a + b <==> line in a || line in b;
  }

  lemma {:induction false} LinesAreNoLonger(f: seq<Byte>)
    ensures forall line :: line in Lines(f) ==> |line| <= |f|
    decreases |f|
  {
    if f != [] { LinesAreNoLonger(AfterLine(f)); }
  }

  /** A line in two parts, of which the second goes on from the first: the parts show what
      the line does exactly when it does not contain the pattern. */
  lemma PartsShow(tail: seq<Byte>, rest: seq<Byte>, pat: seq<Byte>)
    requires tail != [] && |tail| <= BUFSIZE && rest != [] && rest[0] != NEWLINE
    ensures var line, after := tail + rest[..LineLength(rest)], AfterLine(rest);
            Found(pat, [tail] + Pieces(rest)) == Found(pat, [line] + Lines(after))
            <==> ShortMatches([line] + Lines(after), pat) && !Matches(line, pat)
  {
    var n, after := LineLength(rest), AfterLine(rest);
    var next := rest[..n];
    var line := tail + next;
    MatchesWithin([], tail, next, pat);
    MatchesWithin(tail, next, [], pat);
    assert [] + tail + next == line && tail + next + [] == line;
    LinesUnfold(rest);
    FoundFirst(pat, tail, Pieces(rest));
    FoundFirst(pat, line, Lines(after));
    FoundFirst(pat, next, Lines(after));
    ShortFirst(line, Lines(after), pat);
    ShortFirst(next, Lines(after), pat);
    PiecesShowIff(rest, pat);
    if Matches(line, pat) { PartsDiffer(tail, rest, pat); }
  }

  lemma PartsDiffer(tail: seq<Byte>, rest: seq<Byte>, pat: seq<Byte>)
    requires tail != [] && |tail| <= BUFSIZE && rest != [] && rest[0] != NEWLINE
    requires Matches(tail + rest[..LineLength(rest)], pat)
    ensures Found(pat, [tail] + Pieces(rest)) != Found(pat, [tail + rest[..LineLength(rest)]] + Lines(AfterLine(rest)))
  {
    var n, after := LineLength(rest), AfterLine(rest);
    var line := tail + rest[..n];
    var parts, whole := Found(pat, [tail] + Pieces(rest)), Found(pat, [line] + Lines(after));
    FoundFirst(pat, tail, Pieces(rest));
    FoundFirst(pat, line, Lines(after));
    PiecesAreShort(rest);
    ReportPrints([], pat, Pieces(rest));
    ReportPrints([], pat, Lines(after));
    if parts == whole {
      assert whole[0] == line;
      assert forall l :: l in parts ==> |l| <= BUFSIZE;
      assert forall l :: l in Found(pat, Lines(after)) ==> l in whole;
      PiecesShow(after, pat);
      FoundFirst(pat, rest[..n], Pieces(after));
    }
  }

  lemma TailedLines(w: seq<Byte>, k: nat)
    requires LineStart(w, k) && k < |w| && Without(w, k, |w|, NEWLINE)
    ensures Whole(w[..k]) && Lines(w) == Lines(w[..k]) + [w[k..]]
  {
    hide Lines;
    forall j | 0 <= j < |w| - k
      ensures w[k..][j] != NEWLINE
    {
      assert w[k + j] != NEWLINE;
    }
    LineAdded(w[..k], w[k..], []);
    assert w[k..] + [] == w[k..] && w[..k] + w[k..] == w;
  }

  lemma LineAcross(tail: seq<Byte>, rest: seq<Byte>)
    requires Without(tail, 0, |tail|, NEWLINE) && rest != []
    ensures Lines(tail + rest) == [tail + rest[..LineLength(rest)]] + Lines(AfterLine(rest))
  {
    var n, f := LineLength(rest), tail + rest;
    LineHasNoNewline(rest);
    hide Lines, LineLength;
    LineLengthIs(f, |tail| + n);
    assert f[..|tail| + n] == tail + rest[..n];
    if n < |rest| { assert f[|tail| + n + 1..] == rest[n + 1..]; }
    assert AfterLine(f) == AfterLine(rest);
    LinesUnfold(f);
  }

  lemma AllShort(lines: seq<seq<Byte>>, pat: seq<Byte>)
    requires forall line :: line in lines ==> |line| <= BUFSIZE
    ensures ShortMatches(lines, pat)
  {
  }

  /** Short lines in front make no difference. */
  lemma PrefixShows(pat: seq<Byte>, a: seq<seq<Byte>>, b: seq<seq<Byte>>, c: seq<seq<Byte>>, cut: bool)
    requires forall line :: line in a ==> |line| <= BUFSIZE
    requires Found(pat, b) == Found(pat, c) <==> ShortMatches(c, pat) && !cut
    ensures Found(pat, a + b) == Found(pat, a + c) <==> ShortMatches(a + c, pat) && !cut
  {
    hide Found, Matches;
    AllShort(a, pat);
    hide ShortMatches;
    FoundJoins(pat, a, b);
    FoundJoins(pat, a, c);
    ShortJoin(a, c, pat);
    Cancel(Found(pat, a), Found(pat, b), Found(pat, c));
  }

  lemma Cancel(p: seq<seq<Byte>>, x: seq<seq<Byte>>, y: seq<seq<Byte>>)
    ensures p + x == p + y <==> x == y
  {
    assert (p + x)[|p|..] == x && (p + y)[|p|..] == y;
  }

  ghost predicate GoesOn(tail: seq<Byte>, rest: seq<Byte>, pat: seq<Byte>) {
    rest != [] && rest[0] != NEWLINE && Matches(tail + rest[..LineLength(rest)], pat)
  }

  lemma TailEnds(tail: seq<Byte>, pat: seq<Byte>)
    requires tail != [] && |tail| <= BUFSIZE && Without(tail, 0, |tail|, NEWLINE)
    ensures [tail] + Pieces([]) == Lines(tail + []) && ShortMatches(Lines(tail + []), pat)
  {
    LineAdded([], tail, []);
    assert [] + (tail + []) == tail + [];
    assert Lines([]) + [tail] == [tail];
    assert [tail] + Pieces([]) == [tail];
    AllShort([tail], pat);
  }

  lemma TailIsLine(tail: seq<Byte>, rest: seq<Byte>)
    requires Without(tail, 0, |tail|, NEWLINE) && rest != [] && rest[0] == NEWLINE
    ensures Lines(tail + rest) == [tail] + Lines(rest[1..])
  {
    hide Lines;
    LineAcross(tail, rest);
    assert LineLength(rest) == 0;
    assert tail + rest[..0] == tail;
  }

  lemma EndedTailShows(tail: seq<Byte>, rest: seq<Byte>, pat: seq<Byte>)
    requires |tail| <= BUFSIZE && Without(tail, 0, |tail|, NEWLINE) && rest != [] && rest[0] == NEWLINE
    ensures Found(pat, [tail] + Pieces(rest)) == Found(pat, Lines(tail + rest)) <==> ShortMatches(Lines(tail + rest), pat)
  {
    hide Lines, Pieces, Found, ShortMatches, Matches, LineLength;
    var after := rest[1..];
    TailIsLine(tail, rest);
    EndedLine(rest, pat);
    assert Found(pat, Pieces(rest)) == Found(pat, Pieces(after));
    FoundFirst(pat, tail, Pieces(rest));
    FoundFirst(pat, tail, Lines(after));
    ShortFirst(tail, Lines(after), pat);
    PiecesShowIff(after, pat);
    Cancel(if Matches(tail, pat) then [tail] else [], Found(pat, Pieces(after)), Found(pat, Lines(after)));
  }

  /** tail is the part of a line that a full buffer ends in, rest what follows the buffer. */
  lemma TailShows(tail: seq<Byte>, rest: seq<Byte>, pat: seq<Byte>)
    requires tail != [] && |tail| <= BUFSIZE && Without(tail, 0, |tail|, NEWLINE)
    ensures Found(pat, [tail] + Pieces(rest)) == Found(pat, Lines(tail + rest))
            <==> ShortMatches(Lines(tail + rest), pat) && !GoesOn(tail, rest, pat)
  {
    hide Lines, Pieces, Found, ShortMatches, Matches, LineLength;
    if rest == [] {
      TailEnds(tail, pat);
    } else if rest[0] == NEWLINE {
      EndedTailShows(tail, rest, pat);
    } else {
      LineAcross(tail, rest);
      PartsShow(tail, rest, pat);
    }
  }

  lemma CutWindow(w: seq<Byte>, rest: seq<Byte>, pat: seq<Byte>)
    requires |w| == BUFSIZE && TailStart(w) < BUFSIZE
    ensures var a, tail := w[..TailStart(w)], w[TailStart(w)..];
            && Windows(w + rest) == Lines(a) + ([tail] + Pieces(rest)) && Lines(w + rest) == Lines(a) + Lines(tail + rest)
            && Without(tail, 0, |tail|, NEWLINE) && (CutMatches(w + rest, pat) <==> GoesOn(tail, rest, pat))
  {
    hide Lines, Pieces, Matches, TailStart, LineLength, Windows;
    var k := TailStart(w);
    var a, tail := w[..k], w[k..];
    assert (w + rest)[..BUFSIZE] == w && (w + rest)[BUFSIZE..] == rest;
    StrayWindow(w, rest);
    TailedLines(w, k);
    Associate(Lines(a), [tail], Pieces(rest));
    assert w + rest == a + (tail + rest);
    LinesJoin(a, tail + rest);
    forall j | 0 <= j < |tail|
      ensures tail[j] != NEWLINE
    {
      assert w[k + j] != NEWLINE;
    }
  }

  lemma WholeWindow(w: seq<Byte>, rest: seq<Byte>, pat: seq<Byte>)
    requires |w| == BUFSIZE && TailStart(w) == BUFSIZE
    ensures Windows(w + rest) == Lines(w) + Windows(rest) && Lines(w + rest) == Lines(w) + Lines(rest)
    ensures CutMatches(w + rest, pat) <==> CutMatches(rest, pat)
  {
    assert (w + rest)[..BUFSIZE] == w && (w + rest)[BUFSIZE..] == rest;
    hide Lines, Pieces, Matches, TailStart;
    StrayWindow(w, rest);
    LinesJoin(w, rest);
  }

  lemma {:induction false} WindowsShowIff(f: seq<Byte>, pat: seq<Byte>)
    ensures Found(pat, Windows(f)) == Found(pat, Lines(f)) <==> ShortMatches(Lines(f), pat) && !CutMatches(f, pat)
    decreases |f|
  {
    hide Lines, Pieces, Found, ShortMatches, Matches, TailStart, GoesOn;
    if |f| < BUFSIZE {
      LinesAreNoLonger(f);
      AllShort(Lines(f), pat);
    } else {
      var w, rest := f[..BUFSIZE], f[BUFSIZE..];
      assert f == w + rest;
      hide Windows, CutMatches;
      if TailStart(w) == BUFSIZE {
        LinesAreNoLonger(w);
        WholeWindow(w, rest, pat);
        WindowsShowIff(rest, pat);
        PrefixShows(pat, Lines(w), Windows(rest), Lines(rest), CutMatches(rest, pat));
      } else {
        var a, tail := w[..TailStart(w)], w[TailStart(w)..];
        LinesAreNoLonger(a);
        CutWindow(w, rest, pat);
        TailShows(tail, rest, pat);
        PrefixShows(pat, Lines(a), [tail] + Pieces(rest), Lines(tail + rest), GoesOn(tail, rest, pat));
      }
    }
  }

  lemma {:induction false} WindowsAreNewlineFree(f: seq<Byte>)
    ensures NewlineFree(Windows(f))
    decreases |f|
  {
    if |f| < BUFSIZE {
      LinesAreTheFile(f);
    } else {
      LinesAreTheFile(f[..BUFSIZE]);
      PiecesAreShort(f[BUFSIZE..]);
      WindowsAreNewlineFree(f[BUFSIZE..]);
    }
  }

  /** What the search prints is the report of the file's lines exactly when no line that
      contains the pattern is longer than the buffer and, if the byte after the buffer is a
      newline, the line it cuts does not contain the pattern. */
  lemma OutputIsRight(fname: seq<Byte>, pat: seq<Byte>, stray: bool, f: seq<Byte>)
    ensures Report(fname, pat, Ahead(stray, f)) == Report(fname, pat, Lines(f))
            <==> ShortMatches(Lines(f), pat) && !(stray && CutMatches(f, pat))
  {
    LinesAreTheFile(f);
    if stray {
      WindowsAreNewlineFree(f);
      WindowsShowIff(f, pat);
    } else {
      PiecesAreShort(f);
      PiecesShowIff(f, pat);
    }
    SameReport(fname, pat, Ahead(stray, f), Lines(f));
  }

  /** So, without that newline, the output is right for every pattern exactly when every
      line fits the buffer. */
  lemma OutputIsRightForAll(fname: seq<Byte>, f: seq<Byte>)
    ensures (forall pat :: RightFor(fname, pat, f)) <==> forall line :: line in Lines(f) ==> |line| <= 1024
  {
    hide Lines, Ahead, Report, Matches;
    if forall line :: line in Lines(f) ==> |line| <= BUFSIZE {
      forall pat
        ensures RightFor(fname, pat, f)
      {
        OutputIsRight(fname, pat, false, f);
      }
    }
    forall line | line in Lines(f) && |line| > BUFSIZE
      ensures !RightFor(fname, line, f)
    {
      MatchesItself(line);
      OutputIsRight(fname, line, false, f);
    }
  }

  ghost predicate RightFor(fname: seq<Byte>, pat: seq<Byte>, f: seq<Byte>) {
    Report(fname, pat, Ahead(false, f)) == Report(fname, pat, Lines(f))
  }

  lemma MatchesItself(line: seq<Byte>)
    requires line != []
    ensures Matches(line, line)
  {
    assert OccursAt(line, line, 0);
  }
}
