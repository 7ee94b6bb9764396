/** The fish program's blinking cells: a linked list, newest first, whose nodes come from a
    pool of slots; every tick of the clock counts each cell down and makes it blink. */
module Blink {
  import opened Bytes

  /** Values of 16-bit words read as signed. */
  type Int16 = x: int | -0x8000 <= x < 0x8000

  /** What a slot says of its cell; status is 1 while the on character is to be seen. */
  datatype Entry = Entry(location: nat, onChar: Byte, offChar: Byte, onLength: Int16, offLength: Int16,
                         countdown: Int16, status: nat)

  /** A slot of the pool; next is the number of another slot, or -1 for none. */
  datatype Slot = Slot(e: Entry, next: int)

  const NULL: int := -1
  const FREE: Slot := Slot(Entry(0, 0, 0, 0, 0, 0, 0), 0)

  // ----- the list as a sequence of entries -----

  /** An entry as it is put in the list. */
  function Fresh(e: Entry): Entry {
    e.(status := 1, countdown := e.onLength)
  }

  /** The place of the newest entry at a location, or the length if there is none. */
  function Newest(es: seq<Entry>, location: nat): (i: nat)
    ensures i <= |es| && (i < |es| ==> es[i].location == location)
    ensures forall j :: 0 <= j < i ==> es[j].location != location
  {
    if es == [] || es[0].location == location then 0 else 1 + Newest(es[1..], location)
  }

  function Without(es: seq<Entry>, i: nat): seq<Entry>
    requires i < |es|
  {
    es[..i] + es[i + 1..]
  }

  function Removed(es: seq<Entry>, location: nat): seq<Entry> {
    var i := Newest(es, location);
    if i < |es| then Without(es, i) else es
  }

  /** The entries at one location, newest first. */
  ghost function Stack(es: seq<Entry>, location: nat): seq<Entry> {
    if es == [] then []
    else if es[0].location == location then [es[0]] + Stack(es[1..], location)
    else Stack(es[1..], location)
  }

  /** Finding looks at the top of a location's stack. */
  lemma {:induction false} FindsTop(es: seq<Entry>, location: nat)
    ensures Newest(es, location) < |es| <==> Stack(es, location) != []
    ensures Newest(es, location) < |es| ==> es[Newest(es, location)] == Stack(es, location)[0]
  {
    if es != [] && es[0].location != location { FindsTop(es[1..], location); }
  }

  /** Removing pops it, so the entry before it is found next, and no other location is touched. */
  lemma {:induction false} RemovePops(es: seq<Entry>, location: nat, other: nat)
    requires Newest(es, location) < |es|
    ensures Stack(es, location) != []
    ensures Stack(Removed(es, location), other) ==
            if other == location then Stack(es, location)[1..] else Stack(es, other)
  {
    var r := Removed(es, location);
    if es[0].location == location {
      assert r == es[1..];
    } else {
      RemovePops(es[1..], location, other);
      assert r[0] == es[0] && r[1..] == Removed(es[1..], location);
    }
  }

  lemma AddPushes(es: seq<Entry>, e: Entry, location: nat)
    ensures Stack([e] + es, location) == if e.location == location then [e] + Stack(es, location) else Stack(es, location)
  {
    assert ([e] + es)[1..] == es;
  }

  // ----- blinking -----

  /** 16-bit decrement. */
  function Decremented(x: Int16): Int16 {
    if x == -0x8000 then 0x7fff else x - 1
  }

  predicate IsOn(e: Entry) {
    e.status % 2 == 1
  }

  predicate Toggles(e: Entry) {
    Decremented(e.countdown) <= 0
  }

  function Flipped(e: Entry): Entry {
    if IsOn(e) then e.(status := e.status - 1, countdown := e.offLength)
    else e.(status := e.status + 1, countdown := e.onLength)
  }

  function Ticked(e: Entry): Entry {
    if Toggles(e) then Flipped(e) else e.(countdown := Decremented(e.countdown))
  }

  function AllTicked(es: seq<Entry>): (r: seq<Entry>)
    ensures |r| == |es|
  {
    seq(|es|, i requires 0 <= i < |es| => Ticked(es[i]))
  }

  function After(e: Entry, ticks: nat): Entry
    decreases ticks
  {
    if ticks == 0 then e else After(Ticked(e), ticks - 1)
  }

  /** How many ticks a phase of the given length lasts: a length of zero and most of those
      that are negative as signed words last a single tick. */
  function PhaseTicks(length: Int16): (n: nat)
    ensures n >= 1
  {
    if length >= 1 then length else if length == -0x8000 then 0x8000 else 1
  }

  /** The unsigned reading of a length. */
  function Length(x: Int16): nat {
    if x < 0 then x + 0x10000 else x
  }

  /** A phase keeps its state until its ticks are over; then the other phase begins, with its
      own length, and nothing else has changed.  The ticks are the length as the user gave it
      exactly for 1 to 32768. */
  lemma {:induction false} PhaseLasts(e: Entry, k: nat)
    requires k <= PhaseTicks(e.countdown)
    ensures k < PhaseTicks(e.countdown) ==> IsOn(After(e, k)) == IsOn(e)
    ensures k == PhaseTicks(e.countdown) ==>
              && IsOn(After(e, k)) != IsOn(e)
              && After(e, k).countdown == if IsOn(e) then e.offLength else e.onLength
    ensures After(e, k) == e.(countdown := After(e, k).countdown, status := After(e, k).status)
    ensures PhaseTicks(e.countdown) == Length(e.countdown) <==> 1 <= Length(e.countdown) <= 0x8000
    decreases k
  {
    if k > 0 {
      if Toggles(e) {
        assert k == 1 && After(Ticked(e), 0) == Flipped(e);
      } else {
        PhaseLasts(Ticked(e), k - 1);
      }
    }
  }

  // ----- the screen -----

  function Face(e: Entry): Byte {
    if IsOn(e) then e.onChar else e.offChar
  }

  ghost predicate Placed(es: seq<Entry>) {
    forall i :: 0 <= i < |es| ==> es[i].location < 2000
  }

  /** The screen after a tick of the entries, one after the other. */
  function Poked(chars: seq<Byte>, es: seq<Entry>): (r: seq<Byte>)
    requires |chars| == 2000 && Placed(es)
    ensures |r| == 2000
  {
    if es == [] then chars
    else
      var n := |es| - 1;
      var before := Poked(chars, es[..n]);
      if Toggles(es[n]) then before[es[n].location := Face(Flipped(es[n]))] else before
  }

  ghost predicate Apart(es: seq<Entry>) {
    forall i, j :: 0 <= i < |es| && 0 <= j < |es| && es[i].location == es[j].location ==> i == j
  }

  /** Every listed cell shows the character of its status. */
  ghost predicate Showing(chars: seq<Byte>, es: seq<Entry>)
    requires |chars| == 2000 && Placed(es)
  {
    forall i :: 0 <= i < |es| ==> chars[es[i].location] == Face(es[i])
  }

  lemma {:induction false} PokedAt(chars: seq<Byte>, es: seq<Entry>, i: nat)
    requires |chars| == 2000 && Placed(es) && Apart(es) && i < |es|
    requires chars[es[i].location] == Face(es[i])
    ensures Poked(chars, es)[es[i].location] == Face(Ticked(es[i]))
    decreases |es|
  {
    var n := |es| - 1;
    if i < n {
      PokedAt(chars, es[..n], i);
      assert es[i].location != es[n].location;
    } else {
      PokedElsewhere(chars, es[..n], es[n].location);
    }
  }

  lemma {:induction false} PokedElsewhere(chars: seq<Byte>, es: seq<Entry>, location: nat)
    requires |chars| == 2000 && Placed(es) && location < 2000
    requires forall j :: 0 <= j < |es| ==> es[j].location != location
    ensures Poked(chars, es)[location] == chars[location]
  {
    if es != [] { PokedElsewhere(chars, es[..|es| - 1], location); }
  }

  /** A tick keeps the screen right when no two entries share a location. */
  lemma TickShows(chars: seq<Byte>, es: seq<Entry>)
    requires |chars| == 2000 && Placed(es) && Apart(es) && Showing(chars, es)
    ensures Placed(AllTicked(es)) && Apart(AllTicked(es)) && Showing(Poked(chars, es), AllTicked(es))
  {
    forall i | 0 <= i < |es|
      ensures Poked(chars, es)[AllTicked(es)[i].location] == Face(AllTicked(es)[i])
    {
      PokedAt(chars, es, i);
    }
  }

  // ----- whole runs on entries -----

  datatype Event = Add(e: Entry) | Remove(location: nat) | Tick

  datatype View = View(es: seq<Entry>, chars: seq<Byte>)

  ghost predicate ViewOk(v: View) {
    |v.chars| == 2000 && Placed(v.es)
  }

  /** Adding fails off the screen or when the pool is used up; what is added is on. */
  ghost function Happened(v: View, ev: Event): (r: View)
    requires ViewOk(v)
    ensures ViewOk(r)
  {
    match ev
    case Add(e) =>
      if e.location >= 2000 || |v.es| == 2000 then v
      else View([Fresh(e)] + v.es, v.chars[e.location := e.onChar])
    case Remove(location) => v.(es := Removed(v.es, location))
    case Tick => View(AllTicked(v.es), Poked(v.chars, v.es))
  }

  /** Each location is a stack of entries: an accepted add pushes, a remove pops, a tick
      changes every entry in its place, and no other location is touched. */
  lemma StacksFollow(v: View, ev: Event, location: nat)
    requires ViewOk(v)
    ensures var was, now := Stack(v.es, location), Stack(Happened(v, ev).es, location);
            match ev
            case Add(e) => now == if e.location == location && e.location < 2000 && |v.es| != 2000
                                 then [e.(status := 1, countdown := e.onLength)] + was else was
            case Remove(l) => now == if l == location && was != [] then was[1..] else was
            case Tick => now == AllTicked(was)
  {
    match ev
    case Add(e) => AddPushes(v.es, Fresh(e), location);
    case Remove(l) =>
      FindsTop(v.es, l);
      if Newest(v.es, l) < |v.es| { RemovePops(v.es, l, location); }
    case Tick => TickStacks(v.es, location);
  }

  lemma {:induction false} TickStacks(es: seq<Entry>, location: nat)
    ensures Stack(AllTicked(es), location) == AllTicked(Stack(es, location))
  {
    if es != [] {
      TickStacks(es[1..], location);
      assert AllTicked(es)[1..] == AllTicked(es[1..]);
    }
  }

  /** No two entries at a location, at any time. */
  ghost predicate Tidy(v: View, ev: Event) {
    ev.Add? ==> forall i :: 0 <= i < |v.es| ==> v.es[i].location != ev.e.location
  }

  ghost predicate ViewRun(vs: seq<View>, evs: seq<Event>) {
    && |vs| == |evs| + 1
    && forall i :: 0 <= i < |evs| ==> ViewOk(vs[i]) && Tidy(vs[i], evs[i]) && vs[i + 1] == Happened(vs[i], evs[i])
  }

  lemma RemovedIsPart(es: seq<Entry>, location: nat)
    requires Apart(es)
    ensures Apart(Removed(es, location))
    ensures forall i :: 0 <= i < |Removed(es, location)| ==> Removed(es, location)[i] in es
  {
    var r, n := Removed(es, location), Newest(es, location);
    if n < |es| {
      assert forall i :: 0 <= i < |r| ==> r[i] == es[if i < n then i else i + 1];
    }
  }

  lemma EventShows(v: View, ev: Event)
    requires ViewOk(v) && Tidy(v, ev) && Apart(v.es) && Showing(v.chars, v.es)
    ensures Apart(Happened(v, ev).es) && Showing(Happened(v, ev).chars, Happened(v, ev).es)
  {
    match ev
    case Add(e) =>
    case Remove(location) => RemovedIsPart(v.es, location);
    case Tick => TickShows(v.chars, v.es);
  }

  /** After any run every listed cell shows its on or off character according to its status. */
  lemma {:induction false} RunsShow(vs: seq<View>, evs: seq<Event>)
    requires ViewRun(vs, evs) && ViewOk(vs[0]) && vs[0].es == []
    ensures ViewOk(vs[|evs|]) && Apart(vs[|evs|].es) && Showing(vs[|evs|].chars, vs[|evs|].es)
    decreases |evs|
  {
    if evs != [] {
      var n := |evs| - 1;
      RunsShow(vs[..n + 1], evs[..n]);
      assert vs[n + 1] == Happened(vs[n], evs[n]);
      EventShows(vs[n], evs[n]);
    }
  }

  /** No event changes the screen where no cell is listed, but for an add there. */
  lemma ScreenStays(v: View, ev: Event, l: nat)
    requires ViewOk(v) && l < 2000 && Stack(v.es, l) == [] && (ev.Add? ==> ev.e.location != l)
    ensures Stack(Happened(v, ev).es, l) == [] && Happened(v, ev).chars[l] == v.chars[l]
  {
    StacksFollow(v, ev, l);
    NoneAt(v.es, l);
    if ev.Tick? { PokedElsewhere(v.chars, v.es, l); }
  }

  /** So a place keeps what it shows, from a remove there or from the start, until an add. */
  lemma {:induction false} PlaceRests(vs: seq<View>, evs: seq<Event>, l: nat)
    requires ViewRun(vs, evs) && ViewOk(vs[0]) && l < 2000 && Stack(vs[0].es, l) == []
    requires forall i :: 0 <= i < |evs| && evs[i].Add? ==> evs[i].e.location != l
    ensures ViewOk(vs[|evs|]) && Stack(vs[|evs|].es, l) == [] && vs[|evs|].chars[l] == vs[0].chars[l]
    decreases |evs|
  {
    hide Stack, Happened;
    if evs != [] {
      var n := |evs| - 1;
      PlaceRests(vs[..n + 1], evs[..n], l);
      assert vs[n + 1] == Happened(vs[n], evs[n]);
      ScreenStays(vs[n], evs[n], l);
    }
  }

  /** A remove leaves the screen as it is, and nothing listed at its place. */
  lemma RemoveRests(v: View, l: nat)
    requires ViewOk(v) && Apart(v.es) && l < 2000
    ensures Stack(Happened(v, Remove(l)).es, l) == [] && Happened(v, Remove(l)).chars == v.chars
  {
    RemovedIsPart(v.es, l);
    NoneAt(Removed(v.es, l), l);
  }

  // ----- the rhythm of a cell -----

  lemma {:induction false} AfterMore(e: Entry, a: nat, b: nat)
    ensures After(e, a + b) == After(After(e, a), b)
    decreases a
  {
    if a > 0 { AfterMore(Ticked(e), a - 1, b); }
  }

  /** An entry at the start of an on phase, with these lengths. */
  ghost predicate StartsOn(e: Entry) {
    1 <= e.onLength && 1 <= e.offLength && e.status == 1 && e.countdown == e.onLength
  }

  ghost function PeriodOf(e: Entry): nat
    requires 1 <= e.onLength && 1 <= e.offLength
  {
    (e.onLength as int) + (e.offLength as int)
  }

  /** After its on and its off phase it is where it was. */
  lemma OnePeriod(e: Entry)
    requires StartsOn(e)
    ensures After(e, PeriodOf(e)) == e
    ensures forall k: nat :: k < PeriodOf(e) ==> (IsOn(After(e, k)) <==> k < e.onLength)
  {
    var on: nat, off: nat := e.onLength, e.offLength;
    var dark := After(e, on);
    PhaseLasts(e, on);
    OnThenOff(e);
    PhaseLasts(dark, off);
    AfterMore(e, on, off);
    OffThenOn(dark);
    forall k: nat | k < PeriodOf(e)
      ensures IsOn(After(e, k)) <==> k < on
    {
      if k < on {
        PhaseLasts(e, k);
      } else {
        AfterMore(e, on, k - on);
        PhaseLasts(dark, k - on);
      }
    }
  }

  lemma OnThenOff(e: Entry)
    requires StartsOn(e)
    ensures After(e, e.onLength) == e.(status := 0, countdown := e.offLength)
  {
    PhaseLasts(e, e.onLength);
    StatusAfter(e, e.onLength);
  }

  lemma OffThenOn(e: Entry)
    requires e.status == 0 && e.countdown == e.offLength >= 1
    ensures After(e, e.offLength) == e.(status := 1, countdown := e.onLength)
  {
    PhaseLasts(e, e.offLength);
    StatusAfter(e, e.offLength);
  }

  lemma {:induction false} StatusAfter(e: Entry, k: nat)
    requires e.status <= 1
    ensures After(e, k).status <= 1
    decreases k
  {
    if k > 0 { StatusAfter(Ticked(e), k - 1); }
  }

  lemma {:induction false} Rhythm(e: Entry, k: nat)
    requires StartsOn(e)
    ensures IsOn(After(e, k)) <==> k % ((e.onLength as int) + (e.offLength as int)) < e.onLength
    decreases k
  {
    var period := PeriodOf(e);
    OnePeriod(e);
    if k >= period {
      AfterMore(e, period, k - period);
      Rhythm(e, k - period);
      Period(k, period);
    } else {
      BelowPeriod(k, period);
    }
  }

  lemma Quotient(k: nat, n: nat, q: int)
    requires 0 < n && 0 <= k - n * q < n
    ensures k % n == k - n * q
  {
    var d := k / n - q;
    assert k == n * (k / n) + k % n;
    assert n * (k / n) == n * q + n * d;
    Multiples(n, d);
  }

  lemma Multiples(n: nat, d: int)
    ensures d >= 1 ==> n * d >= n
    ensures d <= -1 ==> n * d <= -(n as int)
  {
  }

  lemma BelowPeriod(k: nat, n: nat)
    requires k < n
    ensures k % n == k
  {
  }

  lemma Period(k: nat, n: nat)
    requires 0 < n <= k
    ensures k % n == (k - n) % n
  {
    var q := (k - n) / n;
    assert k - n == n * q + (k - n) % n;
    assert n * (q + 1) == n * q + n;
    Quotient(k, n, q + 1);
  }

  ghost function Ticks(evs: seq<Event>): nat {
    if evs == [] then 0 else Ticks(evs[..|evs| - 1]) + if evs[|evs| - 1].Tick? then 1 else 0
  }

  /** The cell added is the only one there. */
  lemma CellAdded(v: View, e: Entry)
    requires ViewOk(v) && Tidy(v, Add(e)) && e.location < 2000 && |v.es| < 2000
    ensures Stack(Happened(v, Add(e)).es, e.location) == [e.(status := 1, countdown := e.onLength)]
  {
    StacksFollow(v, Add(e), e.location);
    NoneAt(v.es, e.location);
  }

  /** What is alone at its location stays alone, and ages by the ticks. */
  lemma CellStays(v: View, ev: Event, x: Entry)
    requires ViewOk(v) && Tidy(v, ev) && Stack(v.es, x.location) == [x] && ev != Remove(x.location)
    ensures Stack(Happened(v, ev).es, x.location) == [if ev.Tick? then Ticked(x) else x]
  {
    StacksFollow(v, ev, x.location);
    NoneAt(v.es, x.location);
  }

  /** So the cell added is the only one at its location, aged by the ticks since. */
  lemma {:induction false} CellAges(vs: seq<View>, evs: seq<Event>, i: nat, e: Entry, n: nat)
    requires ViewRun(vs, evs) && i < n <= |evs| && evs[i] == Add(e) && e.location < 2000 && |vs[i].es| < 2000
    requires forall j :: i < j < n ==> evs[j] != Remove(e.location)
    ensures ViewOk(vs[n])
    ensures Stack(vs[n].es, e.location) == [After(e.(status := 1, countdown := e.onLength), Ticks(evs[i + 1..n]))]
    decreases n
  {
    hide Stack, Happened, Tidy;
    var m := n - 1;
    var first := e.(status := 1, countdown := e.onLength);
    assert vs[m + 1] == Happened(vs[m], evs[m]) && Tidy(vs[m], evs[m]);
    if i == m {
      CellAdded(vs[m], e);
      assert evs[i + 1..n] == [];
    } else {
      var k := Ticks(evs[i + 1..m]);
      CellAges(vs, evs, i, e, m);
      SameCell(first, k);
      CellStays(vs[m], evs[m], After(first, k));
      assert evs[i + 1..n][..m - i - 1] == evs[i + 1..m];
      OneMore(first, k);
    }
  }

  lemma OneMore(e: Entry, k: nat)
    ensures After(e, k + 1) == Ticked(After(e, k))
  {
    AfterMore(e, k, 1);
    assert After(Ticked(After(e, k)), 0) == Ticked(After(e, k));
  }

  lemma {:induction false} NoneAt(es: seq<Entry>, location: nat)
    ensures Stack(es, location) == [] <==> forall i :: 0 <= i < |es| ==> es[i].location != location
  {
    if es != [] { NoneAt(es[1..], location); }
  }

  /** A cell added with these lengths shows its on character for the first of them, its off
      character for the second, and so on in turn, counted in ticks from the add. */
  lemma CellBlinks(vs: seq<View>, evs: seq<Event>, i: nat, e: Entry)
    requires ViewRun(vs, evs) && ViewOk(vs[0]) && vs[0].es == []
    requires i < |evs| && evs[i] == Add(e) && e.location < 2000 && |vs[i].es| < 2000
    requires 1 <= e.onLength && 1 <= e.offLength
    requires forall j :: i < j < |evs| ==> evs[j] != Remove(e.location)
    ensures |vs[|evs|].chars| == 2000
    ensures var k := Ticks(evs[i + 1..]);
            vs[|evs|].chars[e.location]
            == if k % ((e.onLength as int) + (e.offLength as int)) < e.onLength then e.onChar else e.offChar
  {
    var last, k := vs[|evs|], Ticks(evs[i + 1..]);
    var first := e.(status := 1, countdown := e.onLength);
    assert evs[i + 1..|evs|] == evs[i + 1..];
    CellAges(vs, evs, i, e, |evs|);
    RunsShow(vs, evs);
    FindsTop(last.es, e.location);
    assert last.es[Newest(last.es, e.location)] == After(first, k);
    SameCell(first, k);
    Rhythm(first, k);
  }

  lemma {:induction false} SameCell(e: Entry, k: nat)
    ensures var a := After(e, k); a.onChar == e.onChar && a.offChar == e.offChar && a.location == e.location
    decreases k
  {
    if k > 0 { SameCell(Ticked(e), k - 1); }
  }

  // ----- the list in the pool -----

  ghost function NodeAt(list: seq<nat>, i: nat): int {
    if i < |list| then list[i] else NULL
  }

  ghost predicate Distinct(list: seq<nat>) {
    forall i, j :: 0 <= i < |list| && 0 <= j < |list| && list[i] == list[j] ==> i == j
  }

  /** From head on the next numbers run through the list and end; its slots are exactly those
      with a location other than 0. */
  ghost predicate Linked(slots: seq<Slot>, head: int, list: seq<nat>) {
    && head == NodeAt(list, 0) && Distinct(list)
    && (forall i :: 0 <= i < |list| ==> NodeOk(slots, list, i))
    && Covered(slots, list)
  }

  ghost predicate NodeOk(slots: seq<Slot>, list: seq<nat>, i: nat)
    requires i < |list|
  {
    && list[i] < |slots| && slots[list[i]].next == NodeAt(list, i + 1)
    && 0 < slots[list[i]].e.location < 2000
  }

  ghost predicate Covered(slots: seq<Slot>, list: seq<nat>) {
    forall s :: 0 <= s < |slots| && slots[s].e.location != 0 ==> s in list
  }

  ghost predicate InPool(slots: seq<Slot>, list: seq<nat>) {
    forall i :: 0 <= i < |list| ==> list[i] < |slots|
  }

  lemma LinkedInPool(slots: seq<Slot>, head: int, list: seq<nat>)
    requires Linked(slots, head, list)
    ensures InPool(slots, list)
  {
    forall i | 0 <= i < |list|
      ensures list[i] < |slots|
    {
      assert NodeOk(slots, list, i);
    }
  }

  ghost function Entries(slots: seq<Slot>, list: seq<nat>): (es: seq<Entry>)
    requires InPool(slots, list)
    ensures |es| == |list|
  {
    seq(|list|, i requires 0 <= i < |list| => slots[list[i]].e)
  }

  function FirstFree(slots: seq<Slot>, i: nat): (s: nat)
    requires i <= |slots|
    ensures i <= s <= |slots| && (s < |slots| ==> slots[s].e.location == 0)
    ensures forall j :: i <= j < s ==> slots[j].e.location != 0
    decreases |slots| - i
  {
    if i == |slots| || slots[i].e.location == 0 then i else FirstFree(slots, i + 1)
  }

  /** The pool after adding an entry in slot s. */
  ghost function WithEntry(slots: seq<Slot>, head: int, s: nat, e: Entry): seq<Slot>
    requires s < |slots|
  {
    slots[s := Slot(e, head)]
  }

  lemma AddLinks(slots: seq<Slot>, head: int, list: seq<nat>, s: nat, e: Entry)
    requires Linked(slots, head, list) && s < |slots| && slots[s].e.location == 0 && 0 < e.location < 2000
    ensures InPool(slots, list) && Linked(WithEntry(slots, head, s, e), s, [s] + list)
    ensures InPool(WithEntry(slots, head, s, e), [s] + list)
    ensures Entries(WithEntry(slots, head, s, e), [s] + list) == [e] + Entries(slots, list)
  {
    var slots', list' := WithEntry(slots, head, s, e), [s] + list;
    LinkedInPool(slots, head, list);
    forall i | 0 <= i < |list|
      ensures list[i] != s
    {
      assert NodeOk(slots, list, i);
    }
    forall i | 0 <= i < |list'|
      ensures NodeOk(slots', list', i)
    {
      if i > 0 { assert NodeOk(slots, list, i - 1) && list'[i] == list[i - 1]; }
    }
    forall t | 0 <= t < |slots'| && slots'[t].e.location != 0
      ensures t in list'
    {
      if t != s { assert t in list; }
    }
    LinkedInPool(slots', s, list');
  }

  lemma HeadListed(slots: seq<Slot>, head: nat, list: seq<nat>)
    requires Linked(slots, head, list)
    ensures head < |slots| && slots[head].e.location != 0
  {
    assert NodeOk(slots, list, 0);
  }

  /** An entry with location 0 is what the list cannot bear: its slot still counts as free. */
  lemma AddLinksIff(slots: seq<Slot>, head: int, list: seq<nat>, s: nat, e: Entry)
    requires Linked(slots, head, list) && s < |slots| && slots[s].e.location == 0 && e.location < 2000
    ensures (exists l :: Linked(WithEntry(slots, head, s, e), s, l)) <==> e.location != 0
  {
    if e.location != 0 {
      AddLinks(slots, head, list, s, e);
    } else {
      forall l
        ensures !Linked(WithEntry(slots, head, s, e), s, l)
      {
        if Linked(WithEntry(slots, head, s, e), s, l) { HeadListed(WithEntry(slots, head, s, e), s, l); }
      }
    }
  }

  /** The slots met from s on by following next. */
  ghost function Walk(slots: seq<Slot>, s: int, n: nat): int
    decreases n
  {
    if n == 0 || s < 0 || s >= |slots| then s else Walk(slots, slots[s].next, n - 1)
  }

  lemma {:induction false} WalksForever(slots: seq<Slot>, s: nat, n: nat)
    requires s < |slots| && slots[s].next == s
    ensures Walk(slots, s, n) == s
  {
    if n > 0 { WalksForever(slots, s, n - 1); }
  }

  /** The next entry goes into the same slot, which then follows itself: a walk from the head
      never ends, and no list fits. */
  lemma SecondAddCycles(slots: seq<Slot>, head: int, s: nat, e: Entry, f: Entry)
    requires s < |slots| && FirstFree(slots, 0) == s && e.location == 0
    ensures var once := WithEntry(slots, head, s, e);
            var twice := WithEntry(once, s, s, f);
            FirstFree(once, 0) == s && (forall n :: Walk(twice, s, n) == s) && forall l :: !Linked(twice, s, l)
  {
    var once := WithEntry(slots, head, s, e);
    assert once[s].e.location == 0;
    assert forall t :: 0 <= t < s ==> once[t] == slots[t];
    var twice := WithEntry(once, s, s, f);
    forall n: nat
      ensures Walk(twice, s, n) == s
    {
      WalksForever(twice, s, n);
    }
    forall l
      ensures !Linked(twice, s, l)
    {
      if Linked(twice, s, l) { FollowsOther(twice, s, l); }
    }
  }

  lemma FollowsOther(slots: seq<Slot>, head: nat, list: seq<nat>)
    requires Linked(slots, head, list)
    ensures head < |slots| && slots[head].next != head
  {
    assert NodeOk(slots, list, 0);
  }

  ghost predicate AllBelow(list: seq<nat>, n: nat) {
    forall i :: 0 <= i < |list| ==> list[i] < n
  }

  ghost function Dropped(list: seq<nat>, k: nat): (r: seq<nat>)
    requires k < |list|
    ensures |r| == |list| - 1 && forall i :: 0 <= i < |r| ==> r[i] == list[if i < k then i else i + 1]
  {
    list[..k] + list[k + 1..]
  }

  lemma DroppedHas(list: seq<nat>, k: nat, s: nat)
    requires Distinct(list) && k < |list|
    ensures Distinct(Dropped(list, k)) && (s in Dropped(list, k) <==> s in list && s != list[k])
  {
    var r := Dropped(list, k);
    if s in list && s != list[k] {
      var i :| 0 <= i < |list| && list[i] == s;
      assert r[if i < k then i else i - 1] == s;
    }
  }

  /** Distinct numbers below n are at most n, and n only if they are all of them. */
  lemma {:induction false} DistinctFit(list: seq<nat>, n: nat)
    requires Distinct(list) && AllBelow(list, n)
    ensures |list| <= n && (|list| == n <==> forall s :: 0 <= s < n ==> s in list)
    decreases n
  {
    if list == [] {
      assert n > 0 ==> 0 !in list;
    } else if list[0] < n && n - 1 in list {
      var k :| 0 <= k < |list| && list[k] == n - 1;
      var rest := Dropped(list, k);
      forall s | 0 <= s < n - 1
        ensures s in rest <==> s in list
      {
        DroppedHas(list, k, s);
      }
      DroppedHas(list, k, 0);
      DistinctFit(rest, n - 1);
    } else {
      DistinctFit(list, n - 1);
    }
  }

  /** There is no free slot exactly when as many entries are listed as there are slots. */
  lemma FullWhenAllListed(slots: seq<Slot>, head: int, list: seq<nat>)
    requires Linked(slots, head, list)
    ensures FirstFree(slots, 0) == |slots| <==> |list| == |slots|
  {
    LinkedInPool(slots, head, list);
    DistinctFit(list, |slots|);
    var s := FirstFree(slots, 0);
    if s == |slots| {
      forall t | 0 <= t < |slots|
        ensures t in list
      {
        assert slots[t].e.location != 0;
      }
    } else {
      NotListed(slots, head, list, s);
    }
  }

  lemma NotListed(slots: seq<Slot>, head: int, list: seq<nat>, s: nat)
    requires Linked(slots, head, list) && s < |slots| && slots[s].e.location == 0
    ensures s !in list
  {
    forall i | 0 <= i < |list|
      ensures list[i] != s
    {
      assert NodeOk(slots, list, i);
    }
  }

  /** The pool without the n-th node of the list: its predecessor is led past it. */
  ghost function Unlinked(slots: seq<Slot>, list: seq<nat>, n: nat): seq<Slot>
    requires n < |list| && InPool(slots, list)
  {
    var past := slots[list[n]].next;
    var led := if n == 0 then slots else slots[list[n - 1] := slots[list[n - 1]].(next := past)];
    led[list[n] := FREE]
  }

  lemma RemoveUnlinks(slots: seq<Slot>, head: int, list: seq<nat>, n: nat)
    requires Linked(slots, head, list) && n < |list| && InPool(slots, list)
    ensures var list' := Dropped(list, n);
            Linked(Unlinked(slots, list, n), if n == 0 then slots[list[0]].next else head, list')
            && InPool(Unlinked(slots, list, n), list')
            && Entries(Unlinked(slots, list, n), list') == Without(Entries(slots, list), n)
  {
    var slots', list' := Unlinked(slots, list, n), Dropped(list, n);
    DroppedHas(list, n, 0);
    forall i | 0 <= i < |list'|
      ensures NodeOk(slots', list', i)
    {
      UnlinkedNode(slots, head, list, n, i);
    }
    UnlinkedCovered(slots, head, list, n);
    assert NodeOk(slots, list, 0);
    LinkedInPool(slots', NodeAt(list', 0), list');
    UnlinkedEntries(slots, head, list, n);
  }

  lemma UnlinkedNode(slots: seq<Slot>, head: int, list: seq<nat>, n: nat, i: nat)
    requires Linked(slots, head, list) && n < |list| && InPool(slots, list) && i < |list| - 1
    ensures var slots', list' := Unlinked(slots, list, n), Dropped(list, n);
            NodeOk(slots', list', i) && slots'[list'[i]].e == slots[list'[i]].e
  {
    var h := if i < n then i else i + 1;
    assert NodeOk(slots, list, h) && NodeOk(slots, list, n);
    assert list[h] != list[n];
    if n > 0 { assert list[h] == list[n - 1] ==> h == n - 1; }
  }

  lemma UnlinkedCovered(slots: seq<Slot>, head: int, list: seq<nat>, n: nat)
    requires Linked(slots, head, list) && n < |list| && InPool(slots, list)
    ensures Covered(Unlinked(slots, list, n), Dropped(list, n))
  {
    var slots' := Unlinked(slots, list, n);
    forall t | 0 <= t < |slots'| && slots'[t].e.location != 0
      ensures t in Dropped(list, n)
    {
      assert slots[t].e.location != 0 && t in list;
      DroppedHas(list, n, t);
    }
  }

  lemma UnlinkedEntries(slots: seq<Slot>, head: int, list: seq<nat>, n: nat)
    requires Linked(slots, head, list) && n < |list| && InPool(slots, list)
    requires InPool(Unlinked(slots, list, n), Dropped(list, n))
    ensures Entries(Unlinked(slots, list, n), Dropped(list, n)) == Without(Entries(slots, list), n)
  {
    forall i | 0 <= i < |list| - 1
      ensures Entries(Unlinked(slots, list, n), Dropped(list, n))[i] == Without(Entries(slots, list), n)[i]
    {
      UnlinkedNode(slots, head, list, n, i);
    }
  }

  // ----- the program's own form -----

  class Blinker {
    /** blink_array, and video memory with two bytes for each cell. */
    const slots: array<Slot>
    const vmem: array<Byte>
    var head: int
    /** The numbers of the listed slots, newest first. */
    ghost var list: seq<nat>

    ghost predicate Valid()
      reads this, slots
    {
      && slots.Length == 2000 && vmem.Length == 4000
      && Linked(slots[..], head, list) && InPool(slots[..], list)
    }

    ghost function Ch(i: nat): Byte
      reads vmem
      requires vmem.Length == 4000 && i < 2000
    {
      vmem[2 * i]
    }

    ghost function Chars(): (r: seq<Byte>)
      reads vmem
      requires vmem.Length == 4000
      ensures |r| == 2000
    {
      seq(2000, i requires 0 <= i < 2000 reads vmem requires vmem.Length == 4000 => Ch(i))
    }

    ghost function Listed(): (es: seq<Entry>)
      reads this, slots
      requires Valid()
      ensures Placed(es) && |es| == |list|
    {
      EntriesPlaced(slots[..], head, list);
      Entries(slots[..], list)
    }

    ghost function State(): (v: View)
      reads this, slots, vmem
      requires Valid()
      ensures ViewOk(v)
    {
      View(Listed(), Chars())
    }

    constructor (page: array<Byte>)
      requires page.Length == 4000
      ensures Valid() && fresh(slots) && vmem == page && Listed() == []
    {
      slots := new Slot[2000](_ => FREE);
      vmem := page;
      head := NULL;
      list := [];
    }

    /** mp1_poke, with the offset already doubled by its callers. */
    method Poke(location: nat, c: Byte)
      requires vmem.Length == 4000 && location < 2000
      modifies vmem
      ensures Chars() == old(Chars())[location := c]
    {
      vmem[2 * location] := c;
    }

    /** mp1_malloc. */
    method Malloc() returns (s: int)
      requires slots.Length == 2000
      ensures s == if FirstFree(slots[..], 0) == 2000 then NULL else FirstFree(slots[..], 0)
    {
      var i := 0;
      while i < 2000
        invariant 0 <= i <= 2000 && FirstFree(slots[..], 0) == FirstFree(slots[..], i)
      {
        if slots[i].e.location == 0 { return i; }
        i := i + 1;
      }
      s := NULL;
    }

    /** mp1_ioctl_add; -1 when the location is off the screen or 2000 entries are listed
        already.  The list is kept unless the location is 0. */
    method Add(user: Slot) returns (r: int)
      requires Valid()
      modifies this, slots, vmem
      ensures r == if user.e.location < 2000 && |old(list)| < 2000 then 0 else -1
      ensures r == 0 ==>
                && var s := FirstFree(old(slots[..]), 0);
                   s < 2000 && head == s && slots[..] == WithEntry(old(slots[..]), old(head), s, Fresh(user.e))
      ensures r == -1 ==> slots[..] == old(slots[..]) && head == old(head)
      ensures r == -1 || user.e.location != 0 ==> Valid() && State() == Happened(old(State()), Event.Add(user.e))
      ensures r == 0 && user.e.location == 0 ==> forall l :: !Linked(slots[..], head, l)
    {
      if user.e.location >= 2000 { return -1; }
      var temp := user.(e := user.e.(status := 1, countdown := user.e.onLength));
      var s := Malloc();
      FullWhenAllListed(slots[..], head, list);
      DistinctBound(slots[..], head, list);
      if s == NULL { return -1; }
      AddLinksIff(slots[..], head, list, s, temp.e);
      if temp.e.location != 0 { AddLinks(slots[..], head, list, s, temp.e); }
      slots[s] := temp;
      slots[s] := slots[s].(next := head);
      assert slots[..] == WithEntry(old(slots[..]), old(head), s, temp.e);
      head := s;
      list := [s as nat] + list;
      Poke(slots[s].e.location, slots[s].e.onChar);
      r := 0;
    }

    /** mp1_find_helper: the slot of the newest entry at a location. */
    method FindHelper(location: nat) returns (s: int)
      requires Valid()
      ensures var i := Newest(Listed(), location);
              s == if i < |list| then list[i] else NULL
    {
      s := head;
      ghost var k := 0;
      while s != NULL
        invariant 0 <= k <= |list| && s == NodeAt(list, k)
        invariant Newest(Listed(), location) == k + Newest(Listed()[k..], location)
        decreases |list| - k
      {
        assert NodeOk(slots[..], list, k) && Listed()[k..][0] == slots[s].e;
        if slots[s].e.location == location { return; }
        assert Listed()[k..][1..] == Listed()[k + 1..];
        s := slots[s].next;
        k := k + 1;
      }
    }

    /** mp1_ioctl_find. */
    method Find(location: nat) returns (found: Option<Entry>)
      requires Valid()
      ensures var top := Stack(Listed(), location);
              found == if top == [] then None else Some(top[0])
    {
      var s := FindHelper(location);
      FindsTop(Listed(), location);
      if s == NULL { return None; }
      found := Some(slots[s].e);
    }

    /** The loop of mp1_ioctl_remove: the node before s, or NULL when s is at the head. */
    method FindPrevious(s: nat, ghost n: nat) returns (previous: int)
      requires Valid() && n < |list| && list[n] == s
      ensures previous == if n == 0 then NULL else list[n - 1]
    {
      previous := NULL;
      var at := head;
      ghost var k := 0;
      while at != s
        invariant 0 <= k <= n && at == list[k] && previous == if k == 0 then NULL else list[k - 1]
        decreases n - k
      {
        assert NodeOk(slots[..], list, k) && NodeOk(slots[..], list, k + 1);
        previous := at;
        at := slots[at].next;
        k := k + 1;
      }
      assert k == n;
    }

    /** mp1_ioctl_remove, with mp1_free's clearing of the slot; -1 when nothing is there. */
    method Remove(location: nat) returns (r: int)
      requires Valid()
      modifies this, slots
      ensures Valid() && State() == Happened(old(State()), Event.Remove(location))
      ensures r == if Stack(old(Listed()), location) == [] then -1 else 0
    {
      FindsTop(Listed(), location);
      var s := FindHelper(location);
      if s == NULL { return -1; }
      ghost var n := Newest(Listed(), location);
      var previous := FindPrevious(s, n);
      RemoveUnlinks(slots[..], head, list, n);
      assert NodeOk(slots[..], list, n) && NodeOk(slots[..], list, 0);
      if previous == NULL {
        head := slots[s].next;
      } else {
        slots[previous] := slots[previous].(next := slots[s].next);
      }
      slots[s] := FREE;
      assert slots[..] == Unlinked(old(slots[..]), list, n);
      list := Dropped(list, n);
      r := 0;
    }

    /** One cell's part of a tick. */
    method TickCell(s: nat)
      requires slots.Length == 2000 && vmem.Length == 4000 && s < 2000 && slots[s].e.location < 2000
      modifies slots, vmem
      ensures slots[..] == old(slots[..][s := slots[s].(e := Ticked(slots[s].e))])
      ensures Chars() == PokedOne(old(Chars()), old(slots[s].e))
    {
      var e := slots[s].e;
      var down: Int16 := if e.countdown == -0x8000 then 0x7fff else e.countdown - 1;
      slots[s] := slots[s].(e := e.(countdown := down));
      if down <= 0 {
        if e.status % 2 == 1 {
          Poke(e.location, e.offChar);
          slots[s] := slots[s].(e := slots[s].e.(countdown := e.offLength, status := e.status - 1));
        } else {
          Poke(e.location, e.onChar);
          slots[s] := slots[s].(e := slots[s].e.(countdown := e.onLength, status := e.status + 1));
        }
      }
    }

    /** mp1_rtc_tasklet walks the list once; it ends because the list does. */
    method Tick()
      requires Valid()
      modifies slots, vmem
      ensures Valid() && State() == Happened(old(State()), Event.Tick)
    {
      hide Linked, Covered, Ticked;
      ghost var was, chars, es := slots[..], Chars(), Listed();
      HeadIs(was, head, list);
      var s := head;
      ghost var k: nat := 0;
      while s != NULL
        invariant k <= |list| && s == NodeAt(list, k)
        invariant TickedUpTo(was, slots[..], list, k)
        invariant Chars() == Poked(chars, es[..k])
        decreases |list| - k
      {
        NextTicked(was, slots[..], head, list, k);
        assert es[..k + 1][..k] == es[..k];
        TickCell(s);
        s := slots[s].next;
        k := k + 1;
      }
      TickLinks(was, slots[..], head, list);
      assert es[..k] == es;
    }
  }

  /** The screen after the tick of one cell. */
  function PokedOne(chars: seq<Byte>, e: Entry): seq<Byte>
    requires |chars| == 2000 && e.location < 2000
  {
    if Toggles(e) then chars[e.location := Face(Flipped(e))] else chars
  }

  /** The first k nodes of the list have ticked, and no other slot has changed. */
  ghost predicate TickedUpTo(was: seq<Slot>, now: seq<Slot>, list: seq<nat>, k: nat)
    requires InPool(was, list) && k <= |list|
  {
    && |now| == |was|
    && (forall i :: 0 <= i < k ==> now[list[i]] == was[list[i]].(e := Ticked(was[list[i]].e)))
    && (forall s :: 0 <= s < |was| && (forall i :: 0 <= i < k ==> list[i] != s) ==> now[s] == was[s])
  }

  lemma HeadIs(slots: seq<Slot>, head: int, list: seq<nat>)
    requires Linked(slots, head, list)
    ensures head == NodeAt(list, 0)
  {
  }

  lemma NextTicked(was: seq<Slot>, now: seq<Slot>, head: int, list: seq<nat>, k: nat)
    requires Linked(was, head, list) && InPool(was, list) && k < |list| && TickedUpTo(was, now, list, k)
    ensures now[list[k]] == was[list[k]] && was[list[k]].e.location < 2000 && was[list[k]].next == NodeAt(list, k + 1)
    ensures TickedUpTo(was, now[list[k] := now[list[k]].(e := Ticked(now[list[k]].e))], list, k + 1)
  {
    assert NodeOk(was, list, k);
    assert forall i :: 0 <= i < k ==> list[i] != list[k];
  }

  lemma TickLinks(was: seq<Slot>, now: seq<Slot>, head: int, list: seq<nat>)
    requires Linked(was, head, list) && InPool(was, list) && TickedUpTo(was, now, list, |list|)
    ensures Linked(now, head, list) && InPool(now, list)
    ensures Entries(now, list) == AllTicked(Entries(was, list))
  {
    forall i | 0 <= i < |list|
      ensures NodeOk(now, list, i)
    {
      assert NodeOk(was, list, i);
    }
    forall s | 0 <= s < |now| && s !in list
      ensures now[s].e.location == 0
    {
      assert now[s] == was[s];
    }
  }

  lemma EntriesPlaced(slots: seq<Slot>, head: int, list: seq<nat>)
    requires Linked(slots, head, list) && InPool(slots, list)
    ensures Placed(Entries(slots, list))
  {
    forall i | 0 <= i < |list|
      ensures Entries(slots, list)[i].location < 2000
    {
      assert NodeOk(slots, list, i);
    }
  }

  lemma DistinctBound(slots: seq<Slot>, head: int, list: seq<nat>)
    requires Linked(slots, head, list)
    ensures |list| <= |slots|
  {
    LinkedInPool(slots, head, list);
    DistinctFit(list, |slots|);
  }
}
