/** A terminal's line discipline: the keyboard fills a line buffer, Enter commits the line,
    a waiting read takes bytes from the front. */
module Terminal {
  import opened Bytes
  import opened Memory
  import opened Screen
  import Paging

  const LINE_BUF_MAX: nat := 128
  const BACKSPACE: Byte := 8

  // ----- the queue with an editable tail -----

  /** Committed bytes not yet delivered, then the line being edited. */
  datatype Queue = Queue(committed: seq<Byte>, editing: seq<Byte>)

  ghost function Size(q: Queue): nat {
    |q.committed| + |q.editing|
  }

  /** The keys that reach the line discipline. */
  ghost predicate IsKey(k: Byte) {
    k == 13 || k == 8 || 32 <= k <= 126
  }

  /** A backspace takes back a byte of the line; Enter commits the line when there is a
      reader and drops everything when there is none; room is kept for the newline. */
  ghost function Keyed(q: Queue, reading: bool, k: Byte): Queue {
    if k == RETURN then
      if reading then Queue(q.committed + q.editing + [NEWLINE], []) else Queue([], [])
    else if k == BACKSPACE then
      if q.editing == [] then q else q.(editing := q.editing[..|q.editing| - 1])
    else if Size(q) < 126 then q.(editing := q.editing + [k]) else q
  }

  ghost function Taken(q: Queue, n: nat): seq<Byte> {
    Take(q.committed, Min(n, LINE_BUF_MAX))
  }

  ghost function AfterRead(q: Queue, n: nat): Queue {
    q.(committed := q.committed[|Taken(q, n)|..])
  }

  // ----- reads deliver the edited text -----

  /** A key that types or erases, the start of a read, or Enter with the waiting read of n
      bytes it completes, if one waits. */
  datatype Act = Type(c: Byte) | Rub | Begin | Enter(n: nat)

  /** The line buffer and whether a reader waits. */
  datatype Input = Input(q: Queue, reading: bool)

  ghost predicate ActOk(a: Act) {
    a.Type? ==> 32 <= a.c <= 126
  }

  /** The input after the act and what was delivered by it. */
  ghost function Acted(l: Input, a: Act): (Input, seq<Byte>) {
    match a
    case Type(c) => (l.(q := Keyed(l.q, l.reading, c)), [])
    case Rub => (l.(q := Keyed(l.q, l.reading, BACKSPACE)), [])
    case Begin => (l.(reading := true), [])
    case Enter(n) =>
      var entered := Keyed(l.q, l.reading, RETURN);
      if l.reading then (Input(AfterRead(entered, n), false), Taken(entered, n)) else (l.(q := entered), [])
  }

  /** ls are the inputs before, between and after the acts, outs what each act delivered. */
  ghost predicate TypingRun(ls: seq<Input>, outs: seq<seq<Byte>>, acts: seq<Act>) {
    && |ls| == |acts| + 1 && |outs| == |acts|
    && forall i :: 0 <= i < |acts| ==> ActOk(acts[i]) && (ls[i + 1], outs[i]) == Acted(ls[i], acts[i])
  }

  ghost function Delivered(outs: seq<seq<Byte>>): seq<Byte> {
    if outs == [] then [] else Delivered(outs[..|outs| - 1]) + outs[|outs| - 1]
  }

  /** What was typed, as text: the finished lines that are not lost, of which the first
      `taken` bytes were delivered, the line in hand, and whether a read has begun. */
  datatype Text = Text(sent: seq<Byte>, line: seq<Byte>, taken: nat, begun: bool)

  ghost predicate TextOk(t: Text) {
    t.taken <= |t.sent|
  }

  /** A character is typed while fewer than 126 bytes wait, whether or not a read has begun;
      a backspace takes one back from the line.  Enter finishes the line, and the read that
      has begun gets up to n bytes, at most 128; without one all that waits is lost. */
  ghost function Edited(t: Text, a: Act): (r: Text)
    requires TextOk(t)
    ensures TextOk(r)
  {
    match a
    case Type(c) => if |t.sent| - t.taken + |t.line| < 126 then t.(line := t.line + [c]) else t
    case Rub => if t.line == [] then t else t.(line := t.line[..|t.line| - 1])
    case Begin => t.(begun := true)
    case Enter(n) =>
      if t.begun then
        var sent := t.sent + t.line + [10];
        Text(sent, [], Min(t.taken + Min(n, 128), |sent|), false)
      else Text(t.sent[..t.taken], [], t.taken, false)
  }

  ghost function AllEdited(t: Text, acts: seq<Act>): (r: Text)
    requires TextOk(t)
    ensures TextOk(r)
    decreases |acts|
  {
    if acts == [] then t else Edited(AllEdited(t, acts[..|acts| - 1]), acts[|acts| - 1])
  }

  /** The buffer is the text that waits. */
  ghost predicate Buffers(l: Input, t: Text) {
    TextOk(t) && l.q.committed == t.sent[t.taken..] && l.q.editing == t.line && l.reading == t.begun
  }

  lemma ActKeepsText(l: Input, a: Act, t: Text)
    requires ActOk(a) && Buffers(l, t)
    ensures var (l', out) := Acted(l, a);
            var t' := Edited(t, a);
            Buffers(l', t') && t'.sent[..t'.taken] == t.sent[..t.taken] + out
  {
    match a
    case Type(_) =>
    case Rub =>
    case Begin =>
    case Enter(n) =>
      if t.begun {
        var sent, waits := t.sent + t.line + [10], l.q.committed + l.q.editing + [10];
        assert sent == t.sent[..t.taken] + waits;
        var m := Min(Min(n, 128), |waits|);
        assert sent[t.taken + m..] == waits[m..];
        assert sent[..t.taken + m] == t.sent[..t.taken] + waits[..m];
      }
  }

  /** Over every run of keys and reads, of whatever sizes and whenever they begin, the bytes
      delivered are those of the text as typed and edited, in order, none lost or repeated
      but those an Enter without a reader drops, and the buffer holds the rest. */
  lemma {:induction false} ReadsDeliverText(ls: seq<Input>, outs: seq<seq<Byte>>, acts: seq<Act>)
    requires TypingRun(ls, outs, acts) && ls[0] == Input(Queue([], []), false)
    ensures var t := AllEdited(Text([], [], 0, false), acts);
            Buffers(ls[|acts|], t) && Delivered(outs) == t.sent[..t.taken]
    decreases |acts|
  {
    hide Acted, Edited, ActOk;
    var t0 := Text([], [], 0, false);
    if acts != [] {
      var n := |acts| - 1;
      assert ls[..n + 1][n] == ls[n] && ls[..n + 1][0] == ls[0];
      ReadsDeliverText(ls[..n + 1], outs[..n], acts[..n]);
      assert ActOk(acts[n]) && (ls[n + 1], outs[n]) == Acted(ls[n], acts[n]);
      ActKeepsText(ls[n], acts[n], AllEdited(t0, acts[..n]));
    }
  }

  ghost function Types(s: seq<Byte>): (acts: seq<Act>)
    ensures |acts| == |s|
  {
    seq(|s|, i requires 0 <= i < |s| => Type(s[i]))
  }

  lemma {:induction false} TypesAdd(t: Text, acts: seq<Act>, s: seq<Byte>)
    requires TextOk(t)
    requires var u := AllEdited(t, acts); |u.sent| - u.taken + |u.line| + |s| <= 126
    ensures var u := AllEdited(t, acts); AllEdited(t, acts + Types(s)) == u.(line := u.line + s)
    decreases |s|
  {
    if s == [] {
      assert acts + Types(s) == acts;
      assert AllEdited(t, acts).line + s == AllEdited(t, acts).line;
    } else {
      var n := |s| - 1;
      TypesAdd(t, acts, s[..n]);
      assert (acts + Types(s))[..|acts| + n] == acts + Types(s[..n]);
      assert AllEdited(t, acts).line + s[..n] + [s[n]] == AllEdited(t, acts).line + s;
    }
  }

  lemma AllEditedThen(t: Text, acts: seq<Act>, a: Act)
    requires TextOk(t)
    ensures AllEdited(t, acts + [a]) == Edited(AllEdited(t, acts), a)
  {
    assert (acts + [a])[..|acts|] == acts;
  }

  lemma LineInHand(a: seq<Byte>, b: seq<Byte>)
    requires |a| + |b| <= 126
    ensures AllEdited(Text([], [], 0, false), Types(a) + [Begin] + Types(b)) == Text([], a + b, 0, true)
  {
    var t0, before := Text([], [], 0, false), Types(a) + [Begin];
    NothingYet(t0);
    TypesAdd(t0, [], a);
    assert [] + Types(a) == Types(a) && t0.line + a == a;
    AllEditedThen(t0, Types(a), Begin);
    hide AllEdited, Types;
    assert AllEdited(t0, before) == Text([], a, 0, true);
    TypesAdd(t0, before, b);
  }

  /** A line typed in part before the read began and in part after it is delivered whole. */
  lemma LineIsDelivered(ls: seq<Input>, outs: seq<seq<Byte>>, a: seq<Byte>, b: seq<Byte>)
    requires |a| + |b| <= 126
    requires TypingRun(ls, outs, Types(a) + [Begin] + Types(b) + [Enter(128)]) && ls[0] == Input(Queue([], []), false)
    ensures Delivered(outs) == a + b + [10]
  {
    var typed, line := Types(a) + [Begin] + Types(b), a + b;
    hide AllEdited, Types, TypingRun, Delivered, Buffers;
    ReadsDeliverText(ls, outs, typed + [Enter(128)]);
    LineInHand(a, b);
    AllEditedThen(Text([], [], 0, false), typed, Enter(128));
    assert [] + line + [10] == line + [10];
  }

  lemma NothingYet(t: Text)
    requires TextOk(t)
    ensures AllEdited(t, []) == t
  {
  }

  /** A line that fills the buffer, entered for a read of nothing. */
  ghost predicate Stuck(l: Input, a: Act) {
    a.Enter? && l.reading && a.n == 0 && Size(l.q) == 126
  }

  lemma ActSize(l: Input, a: Act)
    requires ActOk(a) && Size(l.q) <= 126
    ensures Size(Acted(l, a).0.q) <= 126 <==> !Stuck(l, a)
  {
  }

  /** There is room for the next newline, always, unless a full line is entered for a read
      of nothing. */
  lemma {:induction false} RoomIsKept(ls: seq<Input>, outs: seq<seq<Byte>>, acts: seq<Act>)
    requires TypingRun(ls, outs, acts) && Size(ls[0].q) <= 126
    ensures (forall i :: 0 <= i < |ls| ==> Size(ls[i].q) <= 126) <==> forall i :: 0 <= i < |acts| ==> !Stuck(ls[i], acts[i])
  {
    forall i | 0 <= i < |acts| && Size(ls[i].q) <= 126
      ensures Size(ls[i + 1].q) <= 126 <==> !Stuck(ls[i], acts[i])
    {
      assert ActOk(acts[i]) && (ls[i + 1], outs[i]) == Acted(ls[i], acts[i]);
      ActSize(ls[i], acts[i]);
    }
    if forall i :: 0 <= i < |acts| ==> !Stuck(ls[i], acts[i]) { AllFit(ls, acts, |acts|); }
    if forall i :: 0 <= i < |ls| ==> Size(ls[i].q) <= 126 {
      forall i | 0 <= i < |acts|
        ensures !Stuck(ls[i], acts[i])
      {
        assert Size(ls[i].q) <= 126 && Size(ls[i + 1].q) <= 126;
      }
    }
  }

  lemma {:induction false} AllFit(ls: seq<Input>, acts: seq<Act>, n: nat)
    requires |ls| == |acts| + 1 && n <= |acts| && Size(ls[0].q) <= 126
    requires forall i :: 0 <= i < |acts| && Size(ls[i].q) <= 126 ==> (Size(ls[i + 1].q) <= 126 <==> !Stuck(ls[i], acts[i]))
    requires forall i :: 0 <= i < |acts| ==> !Stuck(ls[i], acts[i])
    ensures forall i :: 0 <= i <= n ==> Size(ls[i].q) <= 126
  {
    if n > 0 {
      AllFit(ls, acts, n - 1);
      assert !Stuck(ls[n - 1], acts[n - 1]);
    }
  }

  // ----- the terminal -----

  /** Writing at this address reaches terminal `number`'s screen, whichever page directory is
      loaded; or, if `own`, when that of one of the terminal's own processes is. */
  ghost predicate Reaches(address: int, number: nat, own: bool) {
    forall m, term, pid, mapped, offset ::
      InPage(m, number, term, offset) && (own ==> term == number) ==>
        ReachesByte(m, term, pid, mapped, address, number, offset)
  }

  ghost predicate InPage(m: Paging.Tables, number: nat, term: nat, offset: nat) {
    Paging.TablesReady(m) && number < |m.vid| && term < |m.vid| && offset < 4000
  }

  ghost predicate ReachesByte(m: Paging.Tables, term: nat, pid: nat, mapped: bool, address: int, number: nat, offset: nat)
    requires Paging.TablesShape(m)
  {
    && 0 <= address + offset < TWO_32
    && Paging.Translate(m, Paging.Dir(m, term, pid, mapped), address + offset)
       == Paging.To(Paging.ScreenByte(number, offset), false, true)
  }

  lemma ShiftedReaches(number: nat)
    ensures Reaches(0xB8000 + 0x1000 * (number + 1), number, false)
  {
    var address := 0xB8000 + 0x1000 * (number + 1);
    forall m, term, pid, mapped, offset | InPage(m, number, term, offset)
      ensures ReachesByte(m, term, pid, mapped, address, number, offset)
    {
      Paging.EchoReachesDisplayed(m, term, pid, mapped, number, offset);
    }
  }

  lemma PlainReaches(number: nat)
    ensures Reaches(0xB8000, number, true)
  {
    var address := 0xB8000;
    forall m, term, pid, mapped, offset | InPage(m, number, term, offset) && term == number
      ensures ReachesByte(m, term, pid, mapped, address, number, offset)
    {
      Paging.EchoReachesDisplayed(m, term, pid, mapped, number, offset);
    }
  }

  ghost function Padded(data: seq<Byte>, n: nat): (r: seq<Byte>)
    requires |data| <= n
    ensures |r| == n
  {
    data + seq(n - |data|, _ => NUL)
  }

  /** A line buffer holding count bytes, once the first n places are gone. */
  ghost function Shifted(buf: seq<Byte>, count: nat, n: nat): (r: seq<Byte>)
    requires count <= |buf|
    ensures |r| == |buf|
  {
    Padded(if n <= count then buf[n..count] else [], |buf|)
  }

  lemma ShiftedIs(l0: seq<Byte>, l1: seq<Byte>, l2: seq<Byte>, count: nat, n: nat)
    requires Cleared(l0, count) && n <= |l0|
    requires var left := Max(count - n, 0);
             Stored(l0, l1, 0, l0[n..n + left]) && Stored(l1, l2, left, Repeated(0, n))
    ensures l2 == Shifted(l0, count, n)
  {
  }

  /** What this means for a buffer that holds only committed bytes. */
  lemma ShiftedViews(buf: seq<Byte>, count: nat, n: nat, nbytes: nat)
    requires Cleared(buf, count) && |buf| == 128 && n == Min(nbytes, LINE_BUF_MAX)
    ensures var q, left := Queue(buf[..count], []), Max(count - n, 0);
            Shifted(buf, count, n)[..left] == AfterRead(q, nbytes).committed
            && Cleared(Shifted(buf, count, n), left)
            && |Taken(q, nbytes)| == (if n > count then count else n)
            && buf[..n] == Padded(Taken(q, nbytes), n)
  {
  }

  lemma AfterReadLine(q: Queue, n: nat)
    ensures AfterRead(q, n).editing == q.editing
  {
  }

  ghost predicate Cleared(buf: seq<Byte>, n: nat) {
    n <= |buf| && forall i :: n <= i < |buf| ==> buf[i] == NUL
  }

  class Terminal {
    const screen: Screen
    const lineBuf: array<Byte>
    /** The address of the line buffer. */
    const base: nat
    /** Which terminal this is, and the address its screen is written through. */
    const number: nat
    var videoMem: int
    var bufCount: nat
    var inputLen: nat
    var hitEnter: bool
    var reading: bool

    /** The address is the plain one between calls, the counts fit, the buffer is zero after the bytes it holds, a line just entered
        for a reader is all committed, and what can be erased is on the screen. */
    ghost predicate Valid()
      reads this, lineBuf, screen
    {
      && lineBuf.Length == 128 && lineBuf != screen.mem && screen.Valid() && videoMem == 0xB8000
      && inputLen <= bufCount <= (if reading && hitEnter then 127 else 126)
      && (reading && hitEnter ==> inputLen == 0)
      && inputLen <= 80 * screen.y + screen.x
      && Cleared(lineBuf[..], bufCount)
    }

    ghost function View(): (q: Queue)
      reads this, lineBuf
      requires inputLen <= bufCount <= lineBuf.Length
    {
      Queue(lineBuf[..bufCount - inputLen], lineBuf[bufCount - inputLen..bufCount])
    }

    constructor (page: array<Byte>, base: nat, number: nat)
      requires page.Length == 4000
      ensures Valid() && View() == Queue([], []) && !reading && !hitEnter
      ensures fresh(lineBuf) && fresh(screen) && screen.mem == page && this.number == number
    {
      hide Put, Blank, Screen.Coloured, Screen.View;
      lineBuf := new Byte[128](_ => NUL);
      screen := new Screen(page);
      this.base, this.number, videoMem := base, number, 0xB8000;
      bufCount, inputLen, hitEnter, reading := 0, 0, false, false;
    }

    /** A key, with no entered line still to be taken by a reader.  The screen follows. */
    method Update(key: Byte)
      requires Valid() && IsKey(key) && !(reading && hitEnter)
      modifies this, lineBuf, screen, screen.mem
      ensures Valid() && View() == Keyed(old(View()), old(reading), key)
      ensures reading == old(reading) && hitEnter == (old(hitEnter) || key == 13)
      ensures screen.View() == if View() == old(View()) && key != 13 then old(screen.View())
                               else if key == 8 then Backspaced(old(screen.View()))
                               else Put(old(screen.View()), key)
    {
      if key == RETURN {
        EnterKey();
      } else if key == BACKSPACE {
        if inputLen != 0 { RubKey(); }
      } else if bufCount < 126 {
        CharKey(key);
      }
    }

    /** The keyboard writes through the page that always maps this terminal's screen. */
    method ShiftAddress()
      requires videoMem == 0xB8000
      modifies this`videoMem
      ensures videoMem == 0xB8000 + 0x1000 * (number + 1) && Reaches(videoMem, number, false)
    {
      videoMem := videoMem + 0x1000 * (number + 1);
      ShiftedReaches(number);
    }

    method UnshiftAddress()
      requires videoMem == 0xB8000 + 0x1000 * (number + 1)
      modifies this`videoMem
      ensures videoMem == 0xB8000
    {
      videoMem := videoMem - 0x1000 * (number + 1);
    }

    /** The screen is written only through an address that reaches it. */
    method Put1(c: Byte, ghost own: bool)
      requires Reaches(videoMem, number, own) && screen.Valid()
      modifies screen, screen.mem
      ensures screen.Valid() && screen.View() == Put(old(screen.View()), c)
      ensures old(screen.Coloured()) ==> screen.Coloured()
    {
      screen.Putc(c);
    }

    method Erase1()
      requires Reaches(videoMem, number, false) && screen.Valid() && !AtOrigin(screen.View())
      modifies screen, screen.mem
      ensures screen.Valid() && screen.View() == Backspaced(old(screen.View()))
    {
      screen.Backspace();
    }

    method Clear1()
      requires Reaches(videoMem, number, false) && screen.Valid()
      modifies screen, screen.mem
      ensures screen.Valid() && screen.View() == Blank() && screen.Coloured()
    {
      screen.ClearTerminal();
    }

    method EnterKey()
      requires Valid() && !(reading && hitEnter)
      modifies this, lineBuf, screen, screen.mem
      ensures Valid() && View() == Keyed(old(View()), old(reading), RETURN)
      ensures reading == old(reading) && hitEnter
      ensures screen.View() == Put(old(screen.View()), RETURN)
    {
      hide Reaches, Keyed, Cleared;
      ShiftAddress();
      Put1(RETURN, false);
      UnshiftAddress();
      CommitLine();
    }

    /** What Enter does to the line buffer. */
    method CommitLine()
      requires lineBuf.Length == 128 && inputLen <= bufCount <= 126 && Cleared(lineBuf[..], bufCount)
      modifies this`bufCount, this`inputLen, this`hitEnter, lineBuf
      ensures hitEnter && inputLen == 0 && bufCount <= (if reading then 127 else 126) && Cleared(lineBuf[..], bufCount)
      ensures View() == Keyed(old(View()), reading, RETURN)
    {
      lineBuf[bufCount] := NEWLINE;
      bufCount := bufCount + 1;
      hitEnter := true;
      inputLen := 0;
      if !reading {
        MemSet(lineBuf, base, 0, 0, 128);
        bufCount := 0;
      }
    }

    method RubKey()
      requires Valid() && !(reading && hitEnter) && inputLen > 0
      modifies this, lineBuf, screen, screen.mem
      ensures Valid() && View() == Keyed(old(View()), old(reading), BACKSPACE)
      ensures reading == old(reading) && hitEnter == old(hitEnter)
      ensures screen.View() == Backspaced(old(screen.View()))
    {
      hide Reaches, Keyed, Cleared;
      ShiftAddress();
      Erase1();
      UnshiftAddress();
      DropByte();
    }

    method DropByte()
      requires lineBuf.Length == 128 && 0 < inputLen <= bufCount <= 126 && Cleared(lineBuf[..], bufCount)
      modifies this`bufCount, this`inputLen, lineBuf
      ensures bufCount == old(bufCount) - 1 && inputLen == old(inputLen) - 1 && Cleared(lineBuf[..], bufCount)
      ensures View() == Keyed(old(View()), reading, BACKSPACE)
    {
      bufCount := bufCount - 1;
      inputLen := inputLen - 1;
      lineBuf[bufCount] := NUL;
    }

    method CharKey(key: Byte)
      requires Valid() && !(reading && hitEnter) && bufCount < 126 && 32 <= key <= 126
      modifies this, lineBuf, screen, screen.mem
      ensures Valid() && View() == Keyed(old(View()), old(reading), key)
      ensures reading == old(reading) && hitEnter == old(hitEnter)
      ensures screen.View() == Put(old(screen.View()), key)
    {
      hide Reaches, Keyed, Cleared;
      ShiftAddress();
      Put1(key, false);
      UnshiftAddress();
      AppendByte(key);
    }

    method AppendByte(key: Byte)
      requires lineBuf.Length == 128 && inputLen <= bufCount < 126 && Cleared(lineBuf[..], bufCount) && 32 <= key <= 126
      modifies this`bufCount, this`inputLen, lineBuf
      ensures bufCount == old(bufCount) + 1 && inputLen == old(inputLen) + 1 && Cleared(lineBuf[..], bufCount)
      ensures View() == Keyed(old(View()), reading, key)
    {
      lineBuf[bufCount] := key;
      bufCount := bufCount + 1;
      inputLen := inputLen + 1;
    }

    /** Ctrl-L: the screen is cleared and what is in the buffer printed again. */
    method ClearAndReprint()
      requires Valid()
      modifies this`videoMem, screen, screen.mem
      ensures Valid() && screen.View() == PutAll(Blank(), lineBuf[..bufCount]) && screen.Coloured()
    {
      hide Reaches, PutAll, Blank, Cleared, Screen.Coloured, Screen.View;
      ShiftAddress();
      Reprint();
      UnshiftAddress();
    }

    method Reprint()
      requires Reaches(videoMem, number, false) && screen.Valid() && lineBuf != screen.mem
      requires bufCount <= 127 && bufCount <= lineBuf.Length
      modifies screen, screen.mem
      ensures screen.Valid() && screen.View() == PutAll(Blank(), lineBuf[..bufCount]) && screen.Coloured()
      ensures bufCount <= 80 * screen.y + screen.x
    {
      hide Reaches, PutAll, Blank, Screen.Coloured, Screen.View;
      Clear1();
      PrintAll(lineBuf, bufCount, false);
    }

    method PrintAll(buf: array<Byte>, n: nat, ghost own: bool)
      requires Reaches(videoMem, number, own) && screen.Valid() && n <= buf.Length && buf != screen.mem
      modifies screen, screen.mem
      ensures screen.Valid() && screen.View() == PutAll(old(screen.View()), buf[..n])
      ensures old(screen.Coloured()) ==> screen.Coloured()
      ensures 80 * screen.y + screen.x >= Min(old(80 * screen.y + screen.x) + n, 1920)
    {
      hide Reaches, Screen.Coloured;
      var i := 0;
      while i < n
        invariant 0 <= i <= n && screen.Valid()
        invariant screen.View() == PutAll(old(screen.View()), buf[..i])
        invariant old(screen.Coloured()) ==> screen.Coloured()
      {
        assert buf[..i + 1][..i] == buf[..i];
        Put1(buf[i], own);
        i := i + 1;
      }
      PutAllMovesOn(old(screen.View()), buf[..n]);
    }

    /** terminal_write. */
    method Write(buf: array<Byte>, n: int) returns (r: int)
      requires Valid() && n <= buf.Length && buf != screen.mem
      modifies screen, screen.mem
      ensures Valid() && r == n
      ensures screen.View() == PutAll(old(screen.View()), buf[..if n < 0 then 0 else n])
    {
      hide Reaches;
      var m := if n < 0 then 0 else n;
      PlainReaches(number);
      PrintAll(buf, m, true);
      r := n;
    }

    /** terminal_read up to its waiting. */
    method BeginRead()
      requires Valid() && !(reading && hitEnter)
      modifies this`reading, this`hitEnter
      ensures Valid() && View() == old(View()) && reading && !hitEnter
    {
      reading := true;
      hitEnter := false;
    }

    /** terminal_read once Enter was hit: the bytes delivered are the first of the user's
        buffer, followed there by NULs.  Room for the next newline is left unless nothing was
        read of a full buffer. */
    method FinishRead(buf: array<Byte>, at: nat, userBase: nat, nbytes: nat) returns (r: nat)
      requires Valid() && reading && hitEnter
      requires at + Min(nbytes, 128) <= buf.Length && buf != lineBuf && buf != screen.mem
      modifies this, lineBuf, buf
      ensures !reading && !hitEnter && inputLen <= bufCount <= lineBuf.Length
      ensures View() == AfterRead(old(View()), nbytes)
      ensures Valid() <==> nbytes >= 1 || old(bufCount) <= 126
      ensures r == |Taken(old(View()), nbytes)|
      ensures Stored(old(buf[..]), buf[..], at, Padded(Taken(old(View()), nbytes), Min(nbytes, 128)))
    {
      hide Stored, Padded, Cleared, Taken, AfterRead;
      r := TakeFront(buf, at, userBase, nbytes);
      reading := false;
      hitEnter := false;
    }

    /** What a read does to the line buffer. */
    method TakeFront(buf: array<Byte>, at: nat, userBase: nat, nbytes: nat) returns (r: nat)
      requires lineBuf.Length == 128 && inputLen == 0 && bufCount <= 127 && Cleared(lineBuf[..], bufCount)
      requires at + Min(nbytes, 128) <= buf.Length && buf != lineBuf
      modifies this`bufCount, lineBuf, buf
      ensures bufCount <= lineBuf.Length && (bufCount <= 126 <==> nbytes >= 1 || old(bufCount) <= 126)
      ensures Cleared(lineBuf[..], bufCount)
      ensures View() == AfterRead(old(View()), nbytes) && r == |Taken(old(View()), nbytes)|
      ensures Stored(old(buf[..]), buf[..], at, Padded(Taken(old(View()), nbytes), Min(nbytes, 128)))
    {
      hide Stored, Shifted, Padded, Cleared, Taken, AfterRead;
      var n: nat := if nbytes > 128 then 128 else nbytes;
      r := if n > bufCount then bufCount else n;
      assert View() == Queue(lineBuf[..bufCount], []);
      ShiftedViews(lineBuf[..], bufCount, n, nbytes);
      AfterReadLine(View(), nbytes);
      bufCount := ShiftOut(buf, at, userBase, n);
    }

    /** The three memory calls of terminal_read. */
    method ShiftOut(buf: array<Byte>, at: nat, userBase: nat, n: nat) returns (left: nat)
      requires lineBuf.Length == 128 && bufCount <= 128 && Cleared(lineBuf[..], bufCount) && n <= 128
      requires at + n <= buf.Length && buf != lineBuf
      modifies lineBuf, buf
      ensures left == Max(bufCount - n, 0) && lineBuf[..] == Shifted(old(lineBuf[..]), bufCount, n)
      ensures Stored(old(buf[..]), buf[..], at, old(lineBuf[..n]))
    {
      hide Stored, Cleared, Shifted;
      var diff := bufCount - n;
      if diff < 0 { diff := 0; }
      ghost var l0 := lineBuf[..];
      assert lineBuf[0..0 + n] == lineBuf[..n];
      MemCpy(buf, userBase, at, lineBuf, 0, n);
      MemMove(lineBuf, 0, n, diff);
      ghost var l1 := lineBuf[..];
      MemSet(lineBuf, base, diff, 0, n);
      ShiftedIs(l0, l1, lineBuf[..], bufCount, n);
      left := diff;
    }
  }
}
