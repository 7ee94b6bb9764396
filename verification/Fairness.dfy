/** Round robin is fair: how long a terminal with a process can wait for its turn, however
    other terminals come and go. */
module Fairness {
  import opened Scheduler

  /** How many places terminal t is after the one whose turn it is, from 1 to n. */
  function Distance(turn: int, t: int, n: nat): int {
    if t > turn then t - turn else t - turn + n
  }

  lemma {:induction false} NextBefore(st: Stacks, turn: int, i: nat, t: int) returns (j: nat)
    requires 0 <= turn < |st| && 0 <= t < |st| && st[t] != [] && 1 <= i <= Distance(turn, t, |st|)
    ensures i <= j <= Distance(turn, t, |st|) && NextTurn(st, turn, i) == After(turn, j, |st|)
    decreases |st| - i
  {
    hide After;
    var dist := Distance(turn, t, |st|);
    AfterWraps(turn, dist, |st|);
    if st[After(turn, i, |st|)] != [] {
      j := i;
    } else {
      assert i != dist;
      j := NextBefore(st, turn, i + 1, t);
    }
  }

  /** Taking turns brings every terminal in use nearer, unless it is the one chosen. */
  lemma TurnsComeNearer(st: Stacks, turn: int, t: int)
    requires 0 <= turn < |st| && 0 <= t < |st| && st[t] != []
    ensures var next := NextTurn(st, turn, 1);
            0 <= next < |st| && (next == t || Distance(next, t, |st|) < Distance(turn, t, |st|))
  {
    var j := NextBefore(st, turn, 1, t);
    AfterWraps(turn, j, |st|);
  }

  // ----- taking turns -----

  /** The kernel chooses a terminal: at a tick when no shell is waiting to be started, or
      none can be, and when a child that a tick had started ends. */
  ghost predicate TakesTurns(d: Desk, e: Event) {
    || (e.Timer? && !(d.pending && Room(d)))
    || ((e.Exit? || e.Fault?) && DeskOk(d) && InUse(d) && TimedChild(d))
  }

  ghost function Turns(ds: seq<Desk>, events: seq<Event>): nat
    requires |ds| == |events| + 1
  {
    if events == [] then 0
    else (if TakesTurns(ds[0], events[0]) then 1 else 0) + Turns(ds[1..], events[1..])
  }

  /** In use, and every desk of the run is one that can arise. */
  ghost predicate InUseThroughout(ds: seq<Desk>, t: int) {
    forall i :: 0 <= i < |ds| ==> DeskOk(ds[i]) && 0 <= t < |ds[i].stacks| && ds[i].stacks[t] != []
  }

  /** Throughout, terminal t has a process that does not get to run. */
  ghost predicate Waiting(ds: seq<Desk>, events: seq<Event>, t: int) {
    && DeskRun(ds, events) && InUseThroughout(ds, t)
    && forall i :: 0 <= i < |ds| ==> ds[i].turn != t
  }

  ghost predicate SameUse(st: Stacks, st': Stacks, u: int) {
    0 <= u < |st| && 0 <= u < |st'| && (st[u] == [] <==> st'[u] == [])
  }

  /** An event changes whose turn it is only by a choice among the used terminals, or by
      starting a displayed terminal that had no process; no other terminal's use changes. */
  lemma StepTurn(d: Desk, e: Event)
    requires Harmless(d, e) && InUse(d) && DeskOk(DeskStep(d, e)) && InUse(DeskStep(d, e))
    ensures var d' := DeskStep(d, e);
            && |d'.stacks| == |d.stacks|
            && (forall u :: 0 <= u < |d.stacks| && u != d.turn && u != d'.turn ==> SameUse(d.stacks, d'.stacks, u))
            && (TakesTurns(d, e) ==> d'.turn == NextTurn(d'.stacks, d.turn, 1) && SameUse(d.stacks, d'.stacks, d'.turn)
                                     && SameUse(d.stacks, d'.stacks, d.turn))
            && (!TakesTurns(d, e) && d'.turn != d.turn ==>
                  d'.turn == (if e.Show? then e.t else d.current) && d.stacks[d'.turn] == [])
  {
  }

  // ----- the terminals passed over -----

  /** What a used terminal counts for that has had its turn on the way to t: how many
      others may still come between it and t. */
  ghost function Passed(st: Stacks, turn: int, t: int, u: int): nat
    requires 0 <= t < |st| && 0 <= u < |st|
  {
    if u == t || u == turn || st[u] == [] then 0 else Distance(u, t, |st|) - 1
  }

  ghost function Credit(st: Stacks, turn: int, t: int, k: nat): nat
    requires 0 <= t < |st| && k <= |st|
  {
    if k == 0 then 0 else Credit(st, turn, t, k - 1) + Passed(st, turn, t, k - 1)
  }

  /** 0 + 1 + ... + (m - 1) */
  ghost function Triangle(m: nat): nat {
    if m == 0 then 0 else Triangle(m - 1) + m - 1
  }

  lemma {:induction false} TriangleIs(m: nat)
    ensures 2 * Triangle(m) == m * (m - 1)
  {
    if m > 0 {
      TriangleIs(m - 1);
      assert m * (m - 1) == (m - 1) * (m - 2) + 2 * (m - 1);
    }
  }

  lemma {:induction false} CreditBounded(st: Stacks, turn: int, t: int, k: nat)
    requires 0 <= t < |st| && k <= |st|
    ensures Credit(st, turn, t, k) <= if k <= t then Triangle(t) - Triangle(t - k)
                                      else Triangle(t) + Triangle(|st| - 1) - Triangle(|st| - k + t)
  {
    if k > 0 { CreditBounded(st, turn, t, k - 1); }
  }

  /** The turn passes from one terminal to another, whose use may change; nothing else does. */
  lemma {:induction false} CreditMoves(st: Stacks, st': Stacks, turn: int, turn': int, t: int, k: nat)
    requires |st| == |st'| && 0 <= t < |st| && k <= |st|
    requires 0 <= turn < |st| && 0 <= turn' < |st| && turn != turn'
    requires forall u :: 0 <= u < |st| && u != turn && u != turn' ==> SameUse(st, st', u)
    ensures Credit(st', turn', t, k) - Credit(st, turn, t, k)
            == (if turn < k then Passed(st', turn', t, turn) else 0) - (if turn' < k then Passed(st, turn, t, turn') else 0)
  {
    if k > 0 {
      CreditMoves(st, st', turn, turn', t, k - 1);
      if k - 1 != turn && k - 1 != turn' { assert SameUse(st, st', k - 1); }
    }
  }

  lemma {:induction false} CreditStays(st: Stacks, st': Stacks, turn: int, t: int, k: nat)
    requires |st| == |st'| && 0 <= t < |st| && k <= |st|
    requires forall u :: 0 <= u < |st| && u != turn ==> SameUse(st, st', u)
    ensures Credit(st', turn, t, k) == Credit(st, turn, t, k)
  {
    if k > 0 {
      CreditStays(st, st', turn, t, k - 1);
      if k - 1 != turn { assert SameUse(st, st', k - 1); }
    }
  }

  ghost function CreditOf(d: Desk, t: int): nat
    requires 0 <= t < |d.stacks|
  {
    Credit(d.stacks, d.turn, t, |d.stacks|)
  }

  /** While t waits the credit never falls, and every turn taken raises it. */
  lemma CreditGrows(d: Desk, e: Event, t: int)
    requires Harmless(d, e) && DeskOk(DeskStep(d, e)) && 0 <= t < |d.stacks| == |DeskStep(d, e).stacks|
    requires d.stacks[t] != [] && DeskStep(d, e).stacks[t] != [] && d.turn != t && DeskStep(d, e).turn != t
    ensures CreditOf(DeskStep(d, e), t) >= CreditOf(d, t) + if TakesTurns(d, e) then 1 else 0
  {
    var d' := DeskStep(d, e);
    assert InUse(d) && InUse(d');
    StepTurn(d, e);
    hide DeskStep, Harmless, DeskOk, TakesTurns, NextTurn;
    if TakesTurns(d, e) { TurnsComeNearer(d'.stacks, d.turn, t); }
    if d.turn == d'.turn {
      CreditStays(d.stacks, d'.stacks, d.turn, t, |d.stacks|);
    } else {
      CreditMoves(d.stacks, d'.stacks, d.turn, d'.turn, t, |d.stacks|);
    }
  }

  lemma {:induction false} TurnsRaiseCredit(ds: seq<Desk>, events: seq<Event>, t: int)
    requires |ds| == |events| + 1 && Waiting(ds, events, t)
    ensures |ds[|events|].stacks| == |ds[0].stacks|
    ensures Turns(ds, events) + CreditOf(ds[0], t) <= CreditOf(ds[|events|], t)
    decreases |events|
  {
    if events != [] {
      assert InUse(ds[0]) && InUse(ds[1]) by {
        assert ds[0].stacks[t] != [] && ds[1].stacks[t] != [];
      }
      RunTail(ds, events);
      StepTurn(ds[0], events[0]);
      CreditGrows(ds[0], events[0], t);
      TurnsRaiseCredit(ds[1..], events[1..], t);
    }
  }

  lemma TurnsWithin(ds: seq<Desk>, events: seq<Event>, t: int)
    requires |ds| == |events| + 1 && Waiting(ds, events, t)
    ensures |ds[0].stacks| >= 1 && Turns(ds, events) <= Triangle(|ds[0].stacks| - 1)
  {
    var d := ds[|events|];
    assert InUseThroughout(ds, t);
    hide Credit, Turns, Waiting, DeskRun, Triangle;
    TurnsRaiseCredit(ds, events, t);
    CreditBounded(d.stacks, d.turn, t, |d.stacks|);
  }

  /** However other terminals start, stop and are started elsewhere, a terminal in use waits
      through at most (n - 1)(n - 2) / 2 turns of others. */
  lemma TurnsAreFair(ds: seq<Desk>, events: seq<Event>, t: int)
    requires |ds| == |events| + 1 && Waiting(ds, events, t)
    ensures var n := |ds[0].stacks|; 2 * Turns(ds, events) <= (n - 1) * (n - 2)
  {
    hide *;
    TurnsWithin(ds, events, t);
    TriangleIs(|ds[0].stacks| - 1);
  }

  // ----- from one turn to the next -----

  /** The run from a turn of terminal t to its next one. */
  ghost predicate Wait(ds: seq<Desk>, events: seq<Event>, t: int) {
    && |events| >= 1 && |ds| == |events| + 1 && DeskRun(ds, events) && InUseThroughout(ds, t)
    && ds[0].turn == t && ds[|events|].turn == t
    && forall i :: 0 < i < |events| ==> ds[i].turn != t
  }

  lemma {:induction false} TurnsButLast(ds: seq<Desk>, events: seq<Event>)
    requires |ds| == |events| + 1 && events != []
    ensures var n := |events| - 1;
            Turns(ds, events) == Turns(ds[..n + 1], events[..n]) + if TakesTurns(ds[n], events[n]) then 1 else 0
    decreases |events|
  {
    var n := |events| - 1;
    if n > 0 {
      TurnsButLast(ds[1..], events[1..]);
      assert ds[1..][..n] == ds[..n + 1][1..] && events[1..][..n - 1] == events[..n][1..];
    }
  }

  lemma RunPart(ds: seq<Desk>, events: seq<Event>, i: nat, j: nat)
    requires |ds| == |events| + 1 && DeskRun(ds, events) && i <= j <= |events|
    ensures DeskRun(ds[i..j + 1], events[i..j])
  {
    hide DeskOk, DeskStep;
    forall h | 0 <= h < j - i
      ensures Harmless(ds[i..j + 1][h], events[i..j][h])
              && ds[i..j + 1][h + 1] == DeskStep(ds[i..j + 1][h], events[i..j][h])
    {
      assert Harmless(ds[i + h], events[i + h]);
    }
  }

  /** Between the first event of a wait and its last, t waits. */
  lemma MiddleWaits(ds: seq<Desk>, events: seq<Event>, t: int)
    requires Wait(ds, events, t) && |events| >= 2
    ensures var n := |events| - 1;
            Waiting(ds[1..n + 1], events[1..n], t) && Turns(ds, events) <= Turns(ds[1..n + 1], events[1..n]) + 2
  {
    var n := |events| - 1;
    RunPart(ds, events, 1, n);
    TurnsButLast(ds[1..], events[1..]);
    assert ds[1..][..n] == ds[1..n + 1] && events[1..][..n - 1] == events[1..n];
  }

  lemma FirstKeeps(ds: seq<Desk>, events: seq<Event>, t: int)
    requires Wait(ds, events, t) && |events| >= 2
    ensures |ds[1].stacks| == |ds[0].stacks| >= 2
  {
    assert ds[0].stacks[t] != [] && ds[1].stacks[t] != [];
    assert InUse(ds[0]) && InUse(ds[1]) && ds[1].turn != t;
    RunTail(ds, events);
    StepTurn(ds[0], events[0]);
  }

  lemma WaitWithin(ds: seq<Desk>, events: seq<Event>, t: int)
    requires Wait(ds, events, t)
    ensures var n := |ds[0].stacks|;
            n >= 1 && Turns(ds, events) <= Triangle(n - 1) + 2 && (n == 1 ==> Turns(ds, events) <= 1)
  {
    assert DeskOk(ds[0]);
    if |events| == 1 {
      assert Turns(ds[1..], events[1..]) == 0;
    } else {
      hide Wait, Waiting, Turns, DeskRun, Triangle;
      MiddleWaits(ds, events, t);
      TurnsWithin(ds[1..|events|], events[1..|events| - 1], t);
      FirstKeeps(ds, events, t);
    }
  }

  /** The wait of a terminal from one turn to its next, for any number n of terminals. */
  lemma WaitBounded(ds: seq<Desk>, events: seq<Event>, t: int)
    requires Wait(ds, events, t)
    ensures var n := |ds[0].stacks|;
            2 * Turns(ds, events) <= (n - 1) * (n - 2) + 4 && (n <= 3 ==> Turns(ds, events) <= n)
  {
    WaitWithin(ds, events, t);
    var n := |ds[0].stacks|;
    hide Wait, Turns;
    TriangleIs(n - 1);
    assert Triangle(1) == 0 && Triangle(2) == 1;
  }

  // ----- a long wait, for four terminals or more -----

  ghost predicate Leads(ds: seq<Desk>, events: seq<Event>, from: Desk, to: Desk) {
    |ds| == |events| + 1 && DeskRun(ds, events) && ds[0] == from && ds[|events|] == to
  }

  lemma Extend(ds: seq<Desk>, events: seq<Event>, from: Desk, to: Desk, e: Event)
    requires Leads(ds, events, from, to) && Harmless(to, e)
    ensures Leads(ds + [DeskStep(to, e)], events + [e], from, DeskStep(to, e))
    ensures Turns(ds + [DeskStep(to, e)], events + [e]) == Turns(ds, events) + if TakesTurns(to, e) then 1 else 0
  {
    hide DeskOk, DeskStep, TakesTurns;
    var ds', events' := ds + [DeskStep(to, e)], events + [e];
    TurnsButLast(ds', events');
    assert ds'[..|events| + 1] == ds && events'[..|events|] == events;
  }

  lemma {:induction false} Join(ds: seq<Desk>, events: seq<Event>, a: Desk, b: Desk, ds2: seq<Desk>, events2: seq<Event>, c: Desk)
    requires Leads(ds, events, a, b) && Leads(ds2, events2, b, c)
    ensures Leads(ds + ds2[1..], events + events2, a, c)
    ensures Turns(ds + ds2[1..], events + events2) == Turns(ds, events) + Turns(ds2, events2)
    decreases |events2|
  {
    hide DeskOk, DeskStep, TakesTurns;
    if events2 == [] {
      assert ds + ds2[1..] == ds && events + events2 == events;
    } else {
      var n := |events2| - 1;
      var e := events2[n];
      RunPart(ds2, events2, 0, n);
      assert ds2[0..n + 1] == ds2[..n + 1] && events2[0..n] == events2[..n];
      Join(ds, events, a, b, ds2[..n + 1], events2[..n], ds2[n]);
      assert Harmless(ds2[n], e) && c == DeskStep(ds2[n], e);
      Extend(ds + ds2[..n + 1][1..], events + events2[..n], a, ds2[n], e);
      assert ds + ds2[..n + 1][1..] + [c] == ds + ds2[1..];
      assert events + events2[..n] + [e] == events + events2;
      TurnsButLast(ds2, events2);
    }
  }

  /** Terminals 0 and 2 to m have one process each, and terminal 1 has none. */
  ghost function Rows(n: nat, m: nat): (st: Stacks)
    requires 1 <= m < n
    ensures |st| == n
  {
    seq(n, i => if i == 0 then [1] else if 2 <= i <= m then [i] else [])
  }

  ghost function Marks(slots: nat, m: nat): seq<bool> {
    seq(slots + 1, i => 2 <= i <= m)
  }

  /** Terminals 0 and 2 to m started one after the other, the last displayed and running. */
  ghost function Ready(n: nat, slots: nat, m: nat): Desk
    requires 1 <= m < n
  {
    var last := if m == 1 then 0 else m;
    Desk(Rows(n, m), last, false, last, slots, Marks(slots, m))
  }

  lemma RowsHold(n: nat, m: nat, p: int)
    requires 1 <= m < n
    ensures OnStack(Rows(n, m), p) <==> 1 <= p <= m
  {
    var st := Rows(n, m);
    if 1 <= p <= m {
      var i := if p == 1 then 0 else p;
      assert At(st, i, 0) && st[i][0] == p;
    }
  }

  lemma {:induction false} RowsRoom(d: Desk, n: nat, m: nat, p: nat)
    requires 1 <= m < n <= d.slots && d.stacks == Rows(n, m) && 1 <= p <= m + 1
    ensures LowestFree(d, p) == m + 1 && (p == 1 ==> Room(d))
    decreases m + 1 - p
  {
    RowsHold(n, m, p);
    if p <= m { RowsRoom(d, n, m, p + 1); }
  }

  lemma PushUnused(st: Stacks, t: int, p: int)
    requires 0 <= t < |st| && st[t] == []
    ensures Push(st, t, p) == st[t := [p]]
  {
    assert st[t] + [p] == [p];
  }

  /** After the user has asked for the next terminal. */
  ghost function Asked(n: nat, slots: nat, m: nat): Desk
    requires 2 <= m < n
  {
    Ready(n, slots, m - 1).(current := m, pending := true)
  }

  lemma AskNext(n: nat, slots: nat, m: nat)
    requires 2 <= m < n <= slots
    ensures var d := Ready(n, slots, m - 1); Harmless(d, Show(m)) && DeskStep(d, Show(m)) == Asked(n, slots, m)
  {
    hide LowestFree;
    var d := Ready(n, slots, m - 1);
    RowsRoom(d, n, m - 1, 1);
    assert d.stacks[d.current] != [];
    assert InUse(d);
  }

  lemma TickNext(n: nat, slots: nat, m: nat)
    requires 2 <= m < n <= slots
    ensures var d := Asked(n, slots, m); Harmless(d, Timer) && DeskStep(d, Timer) == Ready(n, slots, m)
  {
    hide LowestFree;
    var d := Asked(n, slots, m);
    var d' := d.(pending := false);
    assert d.stacks[d.turn] != [] && d.stacks[m] == [];
    assert InUse(d);
    RowsRoom(d, n, m - 1, 1);
    RowsRoom(d', n, m - 1, 1);
    PushUnused(d'.stacks, m, m);
    assert d'.stacks[m := [m]] == Rows(n, m);
    assert d'.timed[m := true] == Marks(slots, m);
  }

  lemma StartFirst(n: nat, slots: nat)
    requires 2 <= n <= slots
    ensures var d := EmptyDesk(n, slots);
            Harmless(d, Show(0)) && DeskStep(d, Show(0)) == Ready(n, slots, 1)
  {
    var d := EmptyDesk(n, slots);
    var d1 := d.(current := 0);
    assert !OnStack(d.stacks, 1) && !OnStack(d1.stacks, 1);
    PushUnused(d1.stacks, 0, 1);
    assert Push(d1.stacks, 0, 1) == Rows(n, 1);
    assert d1.timed[1 := false] == Marks(slots, 1);
  }

  lemma {:induction false} StartAll(n: nat, slots: nat, m: nat) returns (ds: seq<Desk>, events: seq<Event>)
    requires 1 <= m < n <= slots
    ensures Leads(ds, events, EmptyDesk(n, slots), Ready(n, slots, m))
    decreases m
  {
    hide DeskOk, DeskStep, Ready, Asked, Turns;
    if m == 1 {
      StartFirst(n, slots);
      ds, events := [EmptyDesk(n, slots), Ready(n, slots, 1)], [Show(0)];
    } else {
      ds, events := StartAll(n, slots, m - 1);
      AskNext(n, slots, m);
      TickNext(n, slots, m);
      Extend(ds, events, EmptyDesk(n, slots), Ready(n, slots, m - 1), Show(m));
      ds, events := ds + [Asked(n, slots, m)], events + [Show(m)];
      Extend(ds, events, EmptyDesk(n, slots), Asked(n, slots, m), Timer);
      ds, events := ds + [Ready(n, slots, m)], events + [Timer];
    }
  }

  /** Whoever's turn it is, the next used terminal after u is v. */
  lemma NextIs(st: Stacks, u: int, v: int)
    requires 0 <= u < |st| && 0 <= v < |st| && st[v] != [] && v != u
    requires forall w :: 0 <= w < |st| && Distance(u, w, |st|) < Distance(u, v, |st|) ==> st[w] == []
    ensures NextTurn(st, u, 1) == v
  {
    var j := NextBefore(st, u, 1, v);
    AfterWraps(u, j, |st|);
    var w := After(u, j, |st|);
    NextIsUsed(st, u, 1, v);
    assert st[w] != [] && Distance(u, w, |st|) == j;
  }

  lemma {:induction false} NextIsUsed(st: Stacks, u: int, i: nat, v: int)
    requires 0 <= u < |st| && 0 <= v < |st| && st[v] != [] && 1 <= i <= Distance(u, v, |st|)
    ensures 0 <= NextTurn(st, u, i) < |st| && st[NextTurn(st, u, i)] != []
    decreases |st| - i
  {
    hide After;
    AfterWraps(u, Distance(u, v, |st|), |st|);
    if st[After(u, i, |st|)] == [] { NextIsUsed(st, u, i + 1, v); }
  }

  /** A tick with nothing to start passes the turn from a to b. */
  lemma TickTo(d: Desk, b: int)
    requires DeskOk(d) && InUse(d) && !d.pending && 0 <= b < |d.stacks| && d.stacks[b] != [] && b != d.turn
    requires forall w :: 0 <= w < |d.stacks| && Distance(d.turn, w, |d.stacks|) < Distance(d.turn, b, |d.stacks|) ==>
                           d.stacks[w] == []
    ensures Harmless(d, Timer) && TakesTurns(d, Timer) && DeskStep(d, Timer) == d.(turn := b)
    ensures DeskOk(d.(turn := b)) && InUse(d.(turn := b))
  {
    NextIs(d.stacks, d.turn, b);
    assert InUse(d.(turn := b));
  }

  /** Terminal 0 has a process all the while and does not run. */
  ghost predicate Away(ds: seq<Desk>) {
    forall i :: 0 <= i < |ds| ==> DeskOk(ds[i]) && |ds[i].stacks| >= 1 && ds[i].stacks[0] != [] && ds[i].turn != 0
  }

  /** Ticks pass the turn along terminals a to b, all of them used. */
  lemma {:induction false} WalkOn(d: Desk, b: int) returns (ds: seq<Desk>, events: seq<Event>)
    requires DeskOk(d) && InUse(d) && !d.pending && d.stacks[0] != [] && 1 <= d.turn <= b < |d.stacks|
    requires forall u :: d.turn <= u <= b ==> d.stacks[u] != []
    ensures Leads(ds, events, d, d.(turn := b)) && Turns(ds, events) == b - d.turn && Away(ds)
    ensures DeskOk(d.(turn := b)) && InUse(d.(turn := b))
    decreases b
  {
    if b == d.turn {
      ds, events := [d], [];
    } else {
      ds, events := WalkOn(d, b - 1);
      TickTo(d.(turn := b - 1), b);
      Extend(ds, events, d, d.(turn := b - 1), Timer);
      ds, events := ds + [d.(turn := b)], events + [Timer];
    }
  }

  /** Terminals 0 and 2 to n - 1 are used, all displayed once; 0 has the turn. */
  ghost function Begun(n: nat, slots: nat): Desk
    requires 2 <= n
  {
    Ready(n, slots, n - 1).(turn := 0)
  }

  /** Terminal 1 has been started as well, and has the turn. */
  ghost function Filled(n: nat, slots: nat): Desk
    requires 2 <= n <= slots
  {
    Desk(Rows(n, n - 1)[1 := [n]], 1, false, 1, slots, Marks(slots, n - 1)[n := true])
  }

  /** While n - 1 has the turn, the user asks for terminal 1 and a tick starts it. */
  lemma StartLate(n: nat, slots: nat)
    requires 3 <= n <= slots
    ensures var d := Ready(n, slots, n - 1);
            var asked := d.(current := 1, pending := true);
            && DeskOk(asked) && Harmless(d, Show(1)) && DeskStep(d, Show(1)) == asked
            && Harmless(asked, Timer) && !TakesTurns(asked, Timer) && DeskStep(asked, Timer) == Filled(n, slots)
  {
    hide LowestFree;
    var d := Ready(n, slots, n - 1);
    var asked := d.(current := 1, pending := true);
    var asked' := asked.(pending := false);
    assert d.stacks[d.current] != [];
    assert InUse(d) && asked.stacks[asked.turn] != [];
    assert InUse(asked);
    RowsRoom(d, n, n - 1, 1);
    RowsRoom(asked, n, n - 1, 1);
    RowsRoom(asked', n, n - 1, 1);
    PushUnused(asked'.stacks, 1, n);
  }

  /** From the first tick on: along all terminals but 1, which is then started. */
  lemma FirstRound(n: nat, slots: nat) returns (ds: seq<Desk>, events: seq<Event>)
    requires 4 <= n <= slots
    ensures Leads(ds, events, Begun(n, slots).(turn := 2), Filled(n, slots)) && Turns(ds, events) == n - 3 && Away(ds)
  {
    var from, ready := Begun(n, slots).(turn := 2), Ready(n, slots, n - 1);
    var asked := ready.(current := 1, pending := true);
    assert from.stacks[2] != [] && from.stacks[0] != [];
    assert InUse(from) && DeskOk(Filled(n, slots)) by { FilledOk(n, slots); }
    StartLate(n, slots);
    hide DeskStep, DeskOk, TakesTurns, Filled;
    ds, events := WalkOn(from, n - 1);
    Extend(ds, events, from, ready, Show(1));
    ds, events := ds + [asked], events + [Show(1)];
    Extend(ds, events, from, asked, Timer);
    ds, events := ds + [Filled(n, slots)], events + [Timer];
    FilledOk(n, slots);
  }

  lemma FilledOk(n: nat, slots: nat)
    requires 3 <= n <= slots
    ensures var d := Filled(n, slots);
            && DeskOk(d) && InUse(d) && d.turn == 1 && |d.stacks| == n && !d.pending
            && forall u :: 0 <= u < n ==> d.stacks[u] != []
  {
    assert Filled(n, slots).stacks[1] != [];
  }

  /** And along all of them again: until the last tick but one, terminal 0 is passed by. */
  lemma BothRounds(n: nat, slots: nat) returns (ds: seq<Desk>, events: seq<Event>)
    requires 4 <= n <= slots
    ensures Leads(ds, events, Begun(n, slots).(turn := 2), Filled(n, slots).(turn := n - 1))
    ensures Turns(ds, events) == n - 3 + n - 2 && Away(ds)
  {
    var from, filled := Begun(n, slots).(turn := 2), Filled(n, slots);
    FilledOk(n, slots);
    hide DeskOk, Filled, Begun, Turns;
    ds, events := FirstRound(n, slots);
    var ds2, events2 := WalkOn(filled, n - 1);
    Join(ds, events, from, filled, ds2, events2, filled.(turn := n - 1));
    ds, events := ds + ds2[1..], events + events2;
  }

  /** With n terminals, four or more, and a process for each, a run from boot comes to a
      turn of terminal 0 from which it has to wait through 2n - 3 turns for its next. */
  lemma LongWait(n: nat, slots: nat)
    returns (us: seq<Desk>, es: seq<Event>, ds: seq<Desk>, events: seq<Event>)
    requires 4 <= n <= slots
    ensures Leads(us, es, EmptyDesk(n, slots), Begun(n, slots))
    ensures Wait(ds, events, 0) && ds[0] == Begun(n, slots) && Turns(ds, events) == 2 * n - 3
  {
    var begun, filled := Begun(n, slots), Filled(n, slots);
    us, es := ToBegun(n, slots);
    var ms, rest := BothRounds(n, slots);
    FilledOk(n, slots);
    BegunOk(n, slots);
    var last := filled.(turn := n - 1);
    assert InUse(last);
    TickTo(begun, 2);
    TickTo(last, 0);
    Around(begun, begun.(turn := 2), ms, rest, last, filled.(turn := 0));
    ds, events := [begun] + ms + [filled.(turn := 0)], [Timer] + rest + [Timer];
  }

  lemma BegunOk(n: nat, slots: nat)
    requires 4 <= n <= slots
    ensures var d := Begun(n, slots);
            && DeskOk(d) && InUse(d) && d.turn == 0 && |d.stacks| == n && !d.pending
            && d.stacks[0] != [] && d.stacks[1] == [] && forall u :: 2 <= u < n ==> d.stacks[u] != []
  {
    assert Begun(n, slots).stacks[0] != [];
  }

  lemma ToBegun(n: nat, slots: nat) returns (us: seq<Desk>, es: seq<Event>)
    requires 4 <= n <= slots
    ensures Leads(us, es, EmptyDesk(n, slots), Begun(n, slots))
  {
    var ready := Ready(n, slots, n - 1);
    us, es := StartAll(n, slots, n - 1);
    assert ready.stacks[ready.turn] != [];
    assert InUse(ready);
    TickTo(ready, 0);
    hide DeskStep, DeskOk, TakesTurns, Ready;
    Extend(us, es, EmptyDesk(n, slots), ready, Timer);
    us, es := us + [Begun(n, slots)], es + [Timer];
  }

  /** A tick before and a tick after make a wait of it. */
  lemma Around(a: Desk, b: Desk, ms: seq<Desk>, rest: seq<Event>, c: Desk, d: Desk)
    requires Leads(ms, rest, b, c) && Away(ms)
    requires Harmless(a, Timer) && TakesTurns(a, Timer) && DeskStep(a, Timer) == b
    requires Harmless(c, Timer) && TakesTurns(c, Timer) && DeskStep(c, Timer) == d
    requires a.turn == 0 && d.turn == 0 && DeskOk(a) && DeskOk(d) && |a.stacks| >= 1 && |d.stacks| >= 1
    requires a.stacks[0] != [] && d.stacks[0] != []
    ensures var ds, events := [a] + ms + [d], [Timer] + rest + [Timer];
            Wait(ds, events, 0) && Turns(ds, events) == Turns(ms, rest) + 2
  {
    hide DeskStep, DeskOk, TakesTurns;
    var ds, events := [a] + ms + [d], [Timer] + rest + [Timer];
    Join([a, b], [Timer], a, b, ms, rest, c);
    assert [a, b] + ms[1..] == [a] + ms;
    assert Turns([a, b][1..], [Timer][1..]) == 0;
    Extend([a] + ms, [Timer] + rest, a, c, Timer);
  }

  /** In every run from boot, every wait of a terminal from one turn to its next is through
      at most as many turns as there are terminals. */
  ghost predicate WaitsAreShort(n: nat, slots: nat) {
    forall us, es, ds, events, t :: WaitFromBoot(n, slots, us, es, ds, events, t) ==> Turns(ds, events) <= n
  }

  ghost predicate WaitFromBoot(n: nat, slots: nat, us: seq<Desk>, es: seq<Event>, ds: seq<Desk>, events: seq<Event>, t: int) {
    Wait(ds, events, t) && Leads(us, es, EmptyDesk(n, slots), ds[0])
  }

  /** That holds for up to three terminals, as the kernel has, and for no larger number. */
  lemma WaitsAreShortIff(n: nat, slots: nat)
    requires 1 <= n <= slots
    ensures WaitsAreShort(n, slots) <==> n <= 3
  {
    if n <= 3 {
      forall us, es, ds, events, t | WaitFromBoot(n, slots, us, es, ds, events, t)
        ensures Turns(ds, events) <= n
      {
        WaitBounded(ds, events, t);
        SameTerminals(us, es);
      }
    } else {
      var us, es, ds, events := LongWait(n, slots);
      assert WaitFromBoot(n, slots, us, es, ds, events, 0);
    }
  }

  lemma {:induction false} SameTerminals(ds: seq<Desk>, events: seq<Event>)
    requires |ds| == |events| + 1 && DeskRun(ds, events)
    ensures |ds[|events|].stacks| == |ds[0].stacks|
    decreases |events|
  {
    if events != [] {
      RunTail(ds, events);
      SameTerminals(ds[1..], events[1..]);
      StepKeepsTerminals(ds[0], events[0]);
    }
  }

  lemma StepKeepsTerminals(d: Desk, e: Event)
    requires Harmless(d, e)
    ensures |DeskStep(d, e).stacks| == |d.stacks|
  {
  }
}
