/** Processes and terminals.  The kernel keeps a bitmap, an active pid for each terminal
    and parent links between process control blocks; what these stand for is a stack of
    pids for each terminal. */
module Scheduler {

  const NONE: int := -1

  // ----- the kernel's tables -----

  /** pids run from 1 to |procs|; index 0 of `parent`, `term` and `timed` is the boot stack.
      `running` is the pid whose kernel stack is in use, 0 during boot.  A process is
      `timed` when the timer handler called the execute that started it: that execute
      returns into the handler. */
  datatype Kern = Kern(procs: seq<bool>, count: int, active: seq<int>, parent: seq<int>, term: seq<int>,
                       timed: seq<bool>, current: int, pending: bool, running: nat)

  function FreeSlot(procs: seq<bool>, i: nat): (r: nat)
    requires i <= |procs|
    ensures i <= r <= |procs|
    decreases |procs| - i
  {
    if i == |procs| || !procs[i] then i else FreeSlot(procs, i + 1)
  }

  function CountTrue(procs: seq<bool>): nat {
    if procs == [] then 0 else CountTrue(procs[..|procs| - 1]) + if procs[|procs| - 1] then 1 else 0
  }

  predicate Shape(k: Kern) {
    && 1 <= |k.active| && 1 <= |k.procs|
    && |k.parent| == |k.term| == |k.timed| == |k.procs| + 1
    && k.running <= |k.procs|
    && NONE <= k.current < |k.active|
  }

  /** get_active_process, which answers -1 for a terminal that does not exist. */
  function ActiveOn(k: Kern, t: int): int {
    if 0 <= t < |k.active| then k.active[t] else NONE
  }

  function SetActive(active: seq<int>, t: int, pid: int): seq<int> {
    if 0 <= t < |active| then active[t := pid] else active
  }

  /** execute of a loadable program: a child of the caller when the displayed terminal
      runs something, else the first process of the displayed terminal. */
  function Executed(k: Kern, timed: bool): Kern
    requires Shape(k)
  {
    var slot := FreeSlot(k.procs, 0);
    if slot == |k.procs| then k else
      var pid := slot + 1;
      var child := ActiveOn(k, k.current) != NONE;
      var parent := if child then k.running else NONE;
      var term := if child then k.term[k.running] else k.current;
      k.(procs := k.procs[slot := true], count := k.count + 1,
         parent := k.parent[pid := parent], term := k.term[pid := term], timed := k.timed[pid := timed],
         active := SetActive(k.active, term, pid), running := pid)
  }

  /** halt of the running process: back to its parent, and from there to the choice of a
      terminal if the timer handler is what waits for it; or a new shell. */
  function Halted(k: Kern): Kern
    requires Shape(k) && k.running != 0
  {
    var c := k.running;
    var gone := k.(procs := k.procs[c - 1 := false], count := k.count - 1);
    var parent := k.parent[c];
    if 0 <= parent <= |k.procs| then
      var back := gone.(active := SetActive(k.active, k.term[parent], parent), running := parent);
      if k.timed[c] then Scheduled(back) else back
    else
      Executed(gone.(active := SetActive(k.active, k.term[c], NONE)), false)
  }

  /** The terminal i places after `term` in cyclic order. */
  function After(term: int, i: nat, n: nat): (r: nat)
    requires 0 < n
    ensures r < n
  {
    (term + i) % n
  }

  lemma MulOrder(n: nat, q: int)
    ensures q >= 2 ==> n * q >= n * 2
    ensures q == 1 ==> n * q == n
    ensures q <= -1 ==> n * q <= -(n as int)
  {
  }

  lemma AfterWraps(term: nat, i: nat, n: nat)
    requires term < n && i <= n
    ensures After(term, i, n) == if term + i < n then term + i else term + i - n
  {
    var x := term + i;
    var q := x / n;
    assert x == n * q + x % n;
    MulOrder(n, q);
  }

  /** The choice loop: the first active terminal after `term`, from the i-th on. */
  function Chosen(active: seq<int>, term: int, i: nat): int
    requires |active| > 0
    decreases |active| + 1 - i
  {
    if i > |active| then NONE
    else if active[After(term, i, |active|)] != NONE then active[After(term, i, |active|)]
    else Chosen(active, term, i + 1)
  }

  function Scheduled(k: Kern): Kern
    requires Shape(k)
  {
    var next := Chosen(k.active, k.term[k.running], 1);
    if 0 <= next <= |k.procs| then k.(running := next) else k
  }

  /** A timer tick: start the pending shell if there is one and room for it, else take turns. */
  function Ticked(k: Kern): Kern
    requires Shape(k)
  {
    if k.count == 0 then k
    else if k.pending then
      var started := Executed(k.(pending := false), true);
      if FreeSlot(k.procs, 0) < |k.procs| then started else Scheduled(started)
    else Scheduled(k)
  }

  /** A switch to terminal t; a terminal without a process gets a shell, now or at the
      next tick, unless all processes are in use. */
  function Switched(k: Kern, t: int): Kern
    requires Shape(k)
  {
    if t < 0 || t >= |k.active| || t == k.current then k
    else if k.count >= |k.procs| && k.active[t] == NONE then k
    else
      var shown := k.(current := t);
      if k.active[t] != NONE then shown
      else if ActiveOn(k, k.current) != NONE then shown.(pending := true)
      else Executed(shown, false)
  }

  // ----- a stack of processes for each terminal -----

  type Stacks = seq<seq<int>>

  ghost predicate At(st: Stacks, t: int, i: int) {
    0 <= t < |st| && 0 <= i < |st[t]|
  }

  ghost predicate Distinct(st: Stacks) {
    forall t, i, u, j :: At(st, t, i) && At(st, u, j) && st[t][i] == st[u][j] ==> t == u && i == j
  }

  ghost predicate OnStack(st: Stacks, p: int) {
    exists t, i :: At(st, t, i) && st[t][i] == p
  }

  ghost function Top(st: Stacks, t: int): int {
    if 0 <= t < |st| && st[t] != [] then st[t][|st[t]| - 1] else NONE
  }

  ghost function Push(st: Stacks, t: int, p: int): Stacks
    requires 0 <= t < |st|
  {
    st[t := st[t] + [p]]
  }

  ghost function Pop(st: Stacks, t: int): Stacks
    requires 0 <= t < |st| && st[t] != []
  {
    st[t := st[t][..|st[t]| - 1]]
  }

  /** The process at place i of stack t is live, knows its terminal, and its parent is the
      process below. */
  ghost predicate LinkOk(k: Kern, st: Stacks, t: int, i: int)
    requires Shape(k) && At(st, t, i)
  {
    var p := st[t][i];
    && 1 <= p <= |k.procs| && k.procs[p - 1] && k.term[p] == t
    && k.parent[p] == if i == 0 then NONE else st[t][i - 1]
  }

  ghost predicate Linked(k: Kern, st: Stacks)
    requires Shape(k)
  {
    forall t, i :: At(st, t, i) ==> LinkOk(k, st, t, i)
  }

  ghost predicate Covered(k: Kern, st: Stacks) {
    forall p :: 1 <= p <= |k.procs| && k.procs[p - 1] ==> OnStack(st, p)
  }

  /** The kernel's tables stand for these stacks. */
  ghost predicate Structure(k: Kern, st: Stacks) {
    && Shape(k) && |st| == |k.active|
    && Distinct(st) && Linked(k, st) && Covered(k, st)
    && (forall t :: 0 <= t < |st| ==> k.active[t] == Top(st, t))
    && k.count == CountTrue(k.procs)
  }

  lemma {:induction false} CountSet(procs: seq<bool>, i: nat, b: bool)
    requires i < |procs|
    ensures CountTrue(procs[i := b]) == CountTrue(procs) + (if b then 1 else 0) - (if procs[i] then 1 else 0)
  {
    var n := |procs| - 1;
    if i == n {
      assert procs[i := b][..n] == procs[..n];
    } else {
      assert procs[i := b][..n] == procs[..n][i := b];
      CountSet(procs[..n], i, b);
    }
  }

  lemma {:induction false} FreeSlotIsFree(procs: seq<bool>, i: nat)
    requires i <= |procs|
    ensures var r := FreeSlot(procs, i);
            (r < |procs| ==> !procs[r]) && forall j :: i <= j < r ==> procs[j]
    decreases |procs| - i
  {
    if i < |procs| && procs[i] {
      FreeSlotIsFree(procs, i + 1);
    }
  }

  // ----- pushing and popping -----

  /** A fresh process above the one that was on top of stack t. */
  ghost function Started(k: Kern, st: Stacks, t: int, p: nat, timed: bool): Kern
    requires Shape(k) && 1 <= p <= |k.procs| && 0 <= t < |k.active| && |st| == |k.active|
  {
    k.(procs := k.procs[p - 1 := true], count := k.count + 1,
       parent := k.parent[p := Top(st, t)], term := k.term[p := t], timed := k.timed[p := timed],
       active := k.active[t := p], running := p)
  }

  lemma PushDistinct(st: Stacks, t: int, p: int)
    requires 0 <= t < |st| && Distinct(st) && !OnStack(st, p)
    ensures Distinct(Push(st, t, p))
  {
    var s := Push(st, t, p);
    forall u, i, v, j | At(s, u, i) && At(s, v, j) && s[u][i] == s[v][j]
      ensures u == v && i == j
    {
      assert u != t || i < |st[t]| ==> At(st, u, i);
      assert v != t || j < |st[t]| ==> At(st, v, j);
    }
  }

  lemma PushOn(st: Stacks, t: int, p: int, q: int)
    requires 0 <= t < |st|
    ensures OnStack(Push(st, t, p), q) <==> OnStack(st, q) || q == p
  {
    var s := Push(st, t, p);
    if OnStack(st, q) {
      var u, i :| At(st, u, i) && st[u][i] == q;
      assert At(s, u, i) && s[u][i] == q;
    }
    assert At(s, t, |st[t]|) && s[t][|st[t]|] == p;
    if OnStack(s, q) && q != p {
      var u, i :| At(s, u, i) && s[u][i] == q;
      assert At(st, u, i) && st[u][i] == q;
    }
  }

  lemma PushLinked(k: Kern, st: Stacks, t: int, p: nat, timed: bool)
    requires Structure(k, st) && 1 <= p <= |k.procs| && !k.procs[p - 1] && 0 <= t < |st|
    ensures Linked(Started(k, st, t, p, timed), Push(st, t, p))
  {
    var s, k' := Push(st, t, p), Started(k, st, t, p, timed);
    forall u, i | At(s, u, i)
      ensures LinkOk(k', s, u, i)
    {
      if u == t && i == |st[t]| {
        assert s[u][i] == p && (i > 0 ==> s[u][i - 1] == st[t][i - 1]);
      } else {
        assert At(st, u, i) && LinkOk(k, st, u, i);
        assert s[u][i] == st[u][i] && (i > 0 ==> s[u][i - 1] == st[u][i - 1]);
      }
    }
  }

  lemma OnStackIsLive(k: Kern, st: Stacks, p: int)
    requires Shape(k) && Linked(k, st) && OnStack(st, p)
    ensures 1 <= p <= |k.procs| && k.procs[p - 1] && 0 <= k.term[p] < |st|
  {
    var t, i :| At(st, t, i) && st[t][i] == p;
    assert LinkOk(k, st, t, i);
  }

  /** Starting process p on terminal t pushes it on that terminal's stack. */
  lemma PushStructure(k: Kern, st: Stacks, t: int, p: nat, timed: bool)
    requires Structure(k, st) && 1 <= p <= |k.procs| && !k.procs[p - 1] && 0 <= t < |st|
    ensures Structure(Started(k, st, t, p, timed), Push(st, t, p))
  {
    var s, k' := Push(st, t, p), Started(k, st, t, p, timed);
    if OnStack(st, p) { OnStackIsLive(k, st, p); }
    PushDistinct(st, t, p);
    PushLinked(k, st, t, p, timed);
    CountSet(k.procs, p - 1, true);
    forall q | 1 <= q <= |k'.procs| && k'.procs[q - 1]
      ensures OnStack(s, q)
    {
      PushOn(st, t, p, q);
    }
  }

  /** The process on top of stack t is gone. */
  ghost function Ended(k: Kern, st: Stacks, t: int): Kern
    requires Shape(k) && 0 <= t < |st| == |k.active| && 1 <= Top(st, t) <= |k.procs|
  {
    k.(procs := k.procs[Top(st, t) - 1 := false], count := k.count - 1,
       active := k.active[t := Top(Pop(st, t), t)])
  }

  lemma PopOn(st: Stacks, t: int, q: int)
    requires 0 <= t < |st| && st[t] != [] && Distinct(st)
    ensures OnStack(Pop(st, t), q) <==> OnStack(st, q) && q != Top(st, t)
  {
    var s := Pop(st, t);
    var last := |st[t]| - 1;
    assert At(st, t, last);
    if OnStack(s, q) {
      var u, i :| At(s, u, i) && s[u][i] == q;
      assert At(st, u, i) && st[u][i] == q;
    }
    if OnStack(st, q) && q != Top(st, t) {
      var u, i :| At(st, u, i) && st[u][i] == q;
      assert At(s, u, i) && s[u][i] == q;
    }
  }

  lemma PopDistinct(st: Stacks, t: int)
    requires 0 <= t < |st| && st[t] != [] && Distinct(st)
    ensures Distinct(Pop(st, t))
  {
    var s := Pop(st, t);
    forall u, i, v, j | At(s, u, i) && At(s, v, j) && s[u][i] == s[v][j]
      ensures u == v && i == j
    {
      assert At(st, u, i) && At(st, v, j);
    }
  }

  lemma PopLinked(k: Kern, st: Stacks, t: int)
    requires Shape(k) && |st| == |k.active| && Distinct(st) && Linked(k, st)
    requires 0 <= t < |st| && st[t] != [] && 1 <= Top(st, t) <= |k.procs|
    ensures Linked(Ended(k, st, t), Pop(st, t))
  {
    var s, k' := Pop(st, t), Ended(k, st, t);
    assert At(st, t, |st[t]| - 1);
    forall u, i | At(s, u, i)
      ensures LinkOk(k', s, u, i)
    {
      assert At(st, u, i) && LinkOk(k, st, u, i);
      assert s[u][i] == st[u][i] && (i > 0 ==> s[u][i - 1] == st[u][i - 1]);
    }
  }

  /** Ending the process on top of stack t pops it. */
  lemma PopStructure(k: Kern, st: Stacks, t: int)
    requires Structure(k, st) && 0 <= t < |st| && st[t] != []
    ensures 1 <= Top(st, t) <= |k.procs| && Structure(Ended(k, st, t), Pop(st, t))
  {
    var last := |st[t]| - 1;
    assert At(st, t, last) && LinkOk(k, st, t, last);
    var s, k' := Pop(st, t), Ended(k, st, t);
    PopDistinct(st, t);
    PopLinked(k, st, t);
    CountSet(k.procs, Top(st, t) - 1, false);
    forall q | 1 <= q <= |k'.procs| && k'.procs[q - 1]
      ensures OnStack(s, q)
    {
      PopOn(st, t, q);
    }
  }

  // ----- the desk: what users of the terminals see -----

  /** The stacks, the terminal displayed, whether a shell is to be started there, and the
      terminal whose process runs; slots is how many processes there can be, timed which of
      them a tick has started. */
  datatype Desk = Desk(stacks: Stacks, current: int, pending: bool, turn: int, slots: nat, timed: seq<bool>)

  /** The lowest pid from p up that is on no stack. */
  ghost function LowestFree(d: Desk, p: nat): (r: nat)
    ensures p <= r && (r <= d.slots ==> !OnStack(d.stacks, r))
    ensures forall q :: p <= q < r && q <= d.slots ==> OnStack(d.stacks, q)
    decreases d.slots + 1 - p
  {
    if p > d.slots || !OnStack(d.stacks, p) then p else LowestFree(d, p + 1)
  }

  lemma {:induction false} SameFree(d: Desk, e: Desk, p: nat)
    requires d.stacks == e.stacks && d.slots == e.slots
    ensures LowestFree(d, p) == LowestFree(e, p)
    decreases d.slots + 1 - p
  {
    if p <= d.slots && OnStack(d.stacks, p) { SameFree(d, e, p + 1); }
  }

  ghost predicate Room(d: Desk) {
    LowestFree(d, 1) <= d.slots
  }

  /** A new process goes on top of the running one, or starts the displayed terminal. */
  ghost function Execute(d: Desk, timed: bool): Desk
    requires 0 <= d.current < |d.stacks| && |d.timed| == d.slots + 1
    requires d.stacks[d.current] != [] ==> 0 <= d.turn < |d.stacks|
  {
    if !Room(d) then d else
      var t := if d.stacks[d.current] != [] then d.turn else d.current;
      d.(stacks := Push(d.stacks, t, LowestFree(d, 1)), turn := t, timed := d.timed[LowestFree(d, 1) := timed])
  }

  /** The next terminal, in cyclic order after the one that ran, that has a process. */
  ghost function NextTurn(st: Stacks, turn: int, i: nat): int
    requires |st| > 0
    decreases |st| + 1 - i
  {
    if i > |st| || st[After(turn, i, |st|)] != [] then After(turn, i, |st|) else NextTurn(st, turn, i + 1)
  }

  ghost predicate InUse(d: Desk) {
    exists t :: 0 <= t < |d.stacks| && d.stacks[t] != []
  }

  /** Each desk that can arise: the running process is on top of its terminal's stack. */
  ghost predicate DeskOk(d: Desk) {
    && 1 <= |d.stacks| && 1 <= d.slots && |d.timed| == d.slots + 1
    && if InUse(d) then 0 <= d.current < |d.stacks| && 0 <= d.turn < |d.stacks| && d.stacks[d.turn] != []
       else d.current == NONE && d.turn == NONE && !d.pending
  }

  /** A tick started the running process above another one, its parent. */
  ghost predicate TimedChild(d: Desk)
    requires DeskOk(d) && InUse(d)
  {
    |d.stacks[d.turn]| > 1 && 0 <= Top(d.stacks, d.turn) < |d.timed| && d.timed[Top(d.stacks, d.turn)]
  }

  /** The running process ends; under it may be its parent, or else a shell takes over.
      A child that a tick had started hands the turn on. */
  ghost function Halt(d: Desk): Desk
    requires DeskOk(d) && InUse(d)
  {
    var d' := d.(stacks := Pop(d.stacks, d.turn));
    if d'.stacks[d.turn] == [] then Execute(d', false)
    else if TimedChild(d) then d'.(turn := NextTurn(d'.stacks, d.turn, 1))
    else d'
  }

  ghost function Tick(d: Desk): Desk
    requires DeskOk(d)
  {
    if !InUse(d) then d
    else if d.pending && Room(d) then Execute(d.(pending := false), true)
    else d.(pending := false, turn := NextTurn(d.stacks, d.turn, 1))
  }

  ghost function Switch(d: Desk, t: int): Desk
    requires DeskOk(d)
  {
    if t < 0 || t >= |d.stacks| || t == d.current || (d.stacks[t] == [] && !Room(d)) then d
    else
      var shown := d.(current := t);
      if d.stacks[t] != [] then shown
      else if InUse(d) && d.stacks[d.current] != [] then shown.(pending := true)
      else Execute(shown, false)
  }

  /** The step that breaks the stacks: a terminal's only process ends while another
      terminal, with a process, is displayed. */
  ghost predicate Diverges(d: Desk)
    requires DeskOk(d) && InUse(d)
  {
    |d.stacks[d.turn]| == 1 && d.current != d.turn && d.stacks[d.current] != []
  }

  // ----- the kernel refines the desk -----

  ghost predicate Refines(k: Kern, d: Desk) {
    && Structure(k, d.stacks) && DeskOk(d)
    && d.current == k.current && d.pending == k.pending && d.slots == |k.procs| && d.timed == k.timed
    && (if InUse(d) then d.turn == k.term[k.running] && k.running as int == Top(d.stacks, d.turn) else k.running == 0)
  }

  lemma {:induction false} FreeSlotMatches(k: Kern, d: Desk, i: nat)
    requires Structure(k, d.stacks) && d.slots == |k.procs| && i <= |k.procs|
    ensures LowestFree(d, i + 1) == FreeSlot(k.procs, i) + 1
    decreases |k.procs| - i
  {
    if i < |k.procs| {
      if OnStack(d.stacks, i + 1) { OnStackIsLive(k, d.stacks, i + 1); }
      if k.procs[i] {
        assert k.procs[i + 1 - 1];
        FreeSlotMatches(k, d, i + 1);
      }
    }
  }

  lemma {:induction false} CountBounds(procs: seq<bool>)
    ensures CountTrue(procs) <= |procs|
    ensures CountTrue(procs) == |procs| <==> forall i :: 0 <= i < |procs| ==> procs[i]
    ensures CountTrue(procs) == 0 <==> forall i :: 0 <= i < |procs| ==> !procs[i]
  {
    if procs != [] {
      CountBounds(procs[..|procs| - 1]);
      var n := |procs| - 1;
      assert forall i :: 0 <= i < n ==> procs[..n][i] == procs[i];
    }
  }

  lemma LiveInUse(k: Kern, d: Desk, i: nat)
    requires Structure(k, d.stacks) && i < |k.procs|
    ensures k.procs[i] ==> InUse(d)
  {
    if k.procs[i] {
      assert k.procs[i + 1 - 1] && OnStack(d.stacks, i + 1);
      var t, j :| At(d.stacks, t, j) && d.stacks[t][j] == i + 1;
    }
  }

  /** The count says whether there is a process, and whether there is room for one. */
  lemma CountMatches(k: Kern, d: Desk)
    requires Structure(k, d.stacks) && d.slots == |k.procs|
    ensures k.count == 0 <==> !InUse(d)
    ensures k.count >= |k.procs| <==> !Room(d)
    ensures FreeSlot(k.procs, 0) == |k.procs| <==> !Room(d)
  {
    CountBounds(k.procs);
    FreeSlotMatches(k, d, 0);
    FreeSlotIsFree(k.procs, 0);
    if InUse(d) {
      var t :| 0 <= t < |d.stacks| && d.stacks[t] != [];
      assert At(d.stacks, t, 0) && LinkOk(k, d.stacks, t, 0);
      assert k.procs[d.stacks[t][0] - 1];
    } else {
      forall i | 0 <= i < |k.procs|
        ensures !k.procs[i]
      {
        LiveInUse(k, d, i);
      }
    }
  }

  lemma TopIsPid(k: Kern, st: Stacks, t: int)
    requires Structure(k, st) && 0 <= t < |st|
    ensures st[t] == [] <==> Top(st, t) == NONE
    ensures st[t] != [] ==> 1 <= Top(st, t) <= |k.procs| && k.procs[Top(st, t) - 1] && k.term[Top(st, t)] == t
                            && k.parent[Top(st, t)] == if |st[t]| == 1 then NONE else st[t][|st[t]| - 2]
  {
    if st[t] != [] {
      assert At(st, t, |st[t]| - 1) && LinkOk(k, st, t, |st[t]| - 1);
    }
  }

  lemma ExecuteRefines(k: Kern, d: Desk, timed: bool)
    requires Structure(k, d.stacks) && d.slots == |k.procs| && d.current == k.current && d.pending == k.pending
    requires d.timed == k.timed
    requires 1 <= |d.stacks| && 0 <= d.current < |d.stacks| && Room(d)
    requires d.stacks[d.current] != [] ==>
               0 <= d.turn < |d.stacks| && d.turn == k.term[k.running] && k.running as int == Top(d.stacks, d.turn)
    ensures Refines(Executed(k, timed), Execute(d, timed))
  {
    var t := if d.stacks[d.current] != [] then d.turn else d.current;
    var p := LowestFree(d, 1);
    FreeSlotMatches(k, d, 0);
    FreeSlotIsFree(k.procs, 0);
    TopIsPid(k, d.stacks, d.current);
    PushStructure(k, d.stacks, t, p, timed);
    assert Executed(k, timed) == Started(k, d.stacks, t, p, timed);
    var d' := Execute(d, timed);
    assert d'.stacks[t] == d.stacks[t] + [p];
    assert InUse(d');
  }

  lemma {:induction false} ChosenMatches(k: Kern, st: Stacks, turn: int, i: nat)
    requires Structure(k, st) && 0 <= turn < |st| && 1 <= i <= |st| && st[turn] != []
    ensures var t := NextTurn(st, turn, i);
            0 <= t < |st| && st[t] != [] && Chosen(k.active, turn, i) == Top(st, t)
    decreases |st| - i
  {
    hide After;
    var t := After(turn, i, |st|);
    AfterWraps(turn, i, |st|);
    TopIsPid(k, st, t);
    if i < |st| && st[t] == [] {
      ChosenMatches(k, st, turn, i + 1);
    }
  }

  lemma ScheduleRefines(k: Kern, d: Desk)
    requires Refines(k, d) && InUse(d)
    ensures Refines(Scheduled(k), d.(turn := NextTurn(d.stacks, d.turn, 1)))
  {
    ChosenMatches(k, d.stacks, d.turn, 1);
    TopIsPid(k, d.stacks, NextTurn(d.stacks, d.turn, 1));
    assert InUse(d.(turn := NextTurn(d.stacks, d.turn, 1)));
  }

  /** The parent of the process that ended runs again. */
  lemma ParentRefines(k: Kern, d: Desk)
    requires Refines(k, d) && InUse(d) && |d.stacks[d.turn]| > 1
    ensures var d' := d.(stacks := Pop(d.stacks, d.turn));
            1 <= Top(d.stacks, d.turn) <= |k.procs| && d'.stacks[d.turn] != [] && InUse(d') && 0 <= Top(d'.stacks, d.turn)
            && Refines(Ended(k, d.stacks, d.turn).(running := Top(d'.stacks, d.turn)), d')
  {
    hide Distinct, CountTrue, LowestFree, FreeSlot;
    var st, t := d.stacks, d.turn;
    TopIsPid(k, st, t);
    PopStructure(k, st, t);
    var d' := d.(stacks := Pop(st, t));
    TopIsPid(Ended(k, st, t), d'.stacks, t);
    assert d'.stacks[t] != [];
  }

  lemma HaltRefines(k: Kern, d: Desk)
    requires Refines(k, d) && InUse(d) && !Diverges(d)
    ensures k.running != 0 && Refines(Halted(k), Halt(d))
  {
    hide Distinct, CountTrue, LowestFree, FreeSlot, Scheduled;
    var st, t := d.stacks, d.turn;
    TopIsPid(k, st, t);
    var d' := d.(stacks := Pop(st, t));
    var k' := Ended(k, st, t);
    if |st[t]| > 1 {
      ParentRefines(k, d);
      var back := k'.(running := Top(d'.stacks, t));
      assert Halted(k) == if k.timed[k.running] then Scheduled(back) else back;
      if TimedChild(d) { ScheduleRefines(back, d'); }
    } else {
      PopStructure(k, st, t);
      assert Halted(k) == Executed(k', false);
      assert !OnStack(d'.stacks, Top(st, t)) by { PopOn(st, t, Top(st, t)); }
      FreedIsRoom(d', Top(st, t));
      ExecuteRefines(k', d', false);
    }
  }

  lemma FreedIsRoom(d: Desk, p: nat)
    requires 1 <= p <= d.slots && !OnStack(d.stacks, p)
    ensures Room(d)
  {
  }

  lemma TickRefines(k: Kern, d: Desk)
    requires Refines(k, d)
    ensures Refines(Ticked(k), Tick(d)) && Ticked(k).current == k.current && (InUse(d) ==> !Ticked(k).pending)
  {
    CountMatches(k, d);
    if InUse(d) {
      var k', d' := k.(pending := false), d.(pending := false);
      assert InUse(d');
      assert Refines(k', d');
      SameFree(d, d', 1);
      if k.pending && Room(d) {
        assert Room(d');
        ExecuteRefines(k', d', true);
      } else {
        ScheduleRefines(k', d');
      }
    }
  }

  lemma SwitchRefines(k: Kern, d: Desk, t: int)
    requires Refines(k, d)
    ensures Refines(Switched(k, t), Switch(d, t))
    ensures var shows := 0 <= t < |d.stacks| && (d.stacks[t] != [] || Room(d));
            && Switched(k, t).current == (if shows then t else k.current)
            && (Switched(k, t).pending <==>
                  k.pending || (shows && t != k.current && d.stacks[t] == [] && InUse(d) && d.stacks[d.current] != []))
  {
    CountMatches(k, d);
    if 0 <= t < |d.stacks| && t != d.current && (d.stacks[t] != [] || Room(d)) {
      TopIsPid(k, d.stacks, t);
      var k', d' := k.(current := t), d.(current := t);
      if InUse(d) {
        TopIsPid(k, d.stacks, d.current);
        assert InUse(d');
      }
      SameFree(d, d', 1);
      if d.stacks[t] == [] && (d.current == NONE || d.stacks[d.current] == []) {
        ExecuteRefines(k', d', false);
      }
    }
  }

  // ----- whole runs -----

  /** What happens to the kernel: a process starts a program or ends, one is ended by a
      fault, the timer fires, the user asks for terminal t. */
  datatype Event = Exec(loadable: bool) | Exit | Fault | Timer | Show(t: int)

  /** Only a process makes system calls; a fault without one stops the machine. */
  function Stepped(k: Kern, e: Event): (r: Kern)
    requires Shape(k)
    ensures Shape(r) && |r.active| == |k.active| && |r.procs| == |k.procs|
  {
    match e
    case Exec(loadable) => if k.running != 0 && loadable then Executed(k, false) else k
    case Exit => if k.running != 0 then Halted(k) else k
    case Fault => if k.count != 0 && k.running != 0 then Halted(k) else k
    case Timer => Ticked(k)
    case Show(t) => Switched(k, t)
  }

  function Ran(k: Kern, events: seq<Event>): (r: Kern)
    requires Shape(k)
    ensures Shape(r) && |r.active| == |k.active| && |r.procs| == |k.procs|
    decreases |events|
  {
    if events == [] then k else Ran(Stepped(k, events[0]), events[1..])
  }

  ghost function DeskStep(d: Desk, e: Event): Desk
    requires DeskOk(d)
  {
    match e
    case Exec(loadable) => if InUse(d) && loadable then Execute(d, false) else d
    case Exit => if InUse(d) then Halt(d) else d
    case Fault => if InUse(d) then Halt(d) else d
    case Timer => Tick(d)
    case Show(t) => Switch(d, t)
  }

  /** The event does not end a base shell while another, used, terminal is displayed. */
  ghost predicate Harmless(d: Desk, e: Event) {
    DeskOk(d) && ((e.Exit? || e.Fault?) && InUse(d) ==> !Diverges(d))
  }

  /** ds are the desks before, between and after the events. */
  ghost predicate DeskRun(ds: seq<Desk>, events: seq<Event>) {
    && |ds| == |events| + 1
    && forall i :: 0 <= i < |events| ==> Harmless(ds[i], events[i]) && ds[i + 1] == DeskStep(ds[i], events[i])
  }

  function Boot(terminals: nat, slots: nat, parent: seq<int>, term: seq<int>): Kern {
    Kern(seq(slots, _ => false), 0, seq(terminals, _ => NONE), parent, term, seq(slots + 1, _ => false), NONE, false, 0)
  }

  ghost function EmptyDesk(terminals: nat, slots: nat): Desk {
    Desk(seq(terminals, _ => []), NONE, false, NONE, slots, seq(slots + 1, _ => false))
  }

  lemma BootRefines(terminals: nat, slots: nat, parent: seq<int>, term: seq<int>)
    requires 1 <= terminals && 1 <= slots && |parent| == |term| == slots + 1
    ensures Refines(Boot(terminals, slots, parent, term), EmptyDesk(terminals, slots))
  {
    CountBounds(Boot(terminals, slots, parent, term).procs);
  }

  lemma StepRefines(k: Kern, d: Desk, e: Event)
    requires Refines(k, d) && Harmless(d, e)
    ensures Refines(Stepped(k, e), DeskStep(d, e))
  {
    CountMatches(k, d);
    if InUse(d) { TopIsPid(k, d.stacks, d.turn); }
    match e
    case Exec(loadable) =>
      if InUse(d) && loadable && Room(d) { ExecuteRefines(k, d, false); }
    case Exit =>
      if InUse(d) { HaltRefines(k, d); }
    case Fault =>
      if InUse(d) { HaltRefines(k, d); }
    case Timer => TickRefines(k, d);
    case Show(t) => SwitchRefines(k, d, t);
  }

  lemma RunTail(ds: seq<Desk>, events: seq<Event>)
    requires DeskRun(ds, events) && events != []
    ensures Harmless(ds[0], events[0]) && ds[1] == DeskStep(ds[0], events[0])
    ensures DeskRun(ds[1..], events[1..])
  {
    hide DeskOk, DeskStep;
    forall i | 0 <= i < |events| - 1
      ensures Harmless(ds[1..][i], events[1..][i]) && ds[1..][i + 1] == DeskStep(ds[1..][i], events[1..][i])
    {
      assert Harmless(ds[i + 1], events[i + 1]);
    }
  }

  /** After any run from boot the kernel's tables stand for the stacks the events describe. */
  lemma {:induction false} RunsRefine(k: Kern, ds: seq<Desk>, events: seq<Event>)
    requires |ds| == |events| + 1 && DeskRun(ds, events) && Refines(k, ds[0])
    ensures Refines(Ran(k, events), ds[|events|])
    decreases |events|
  {
    hide DeskRun, DeskOk, Harmless, DeskStep, Linked, Covered, Distinct;
    if events != [] {
      RunTail(ds, events);
      StepRefines(k, ds[0], events[0]);
      RunsRefine(Stepped(k, events[0]), ds[1..], events[1..]);
    }
  }

  lemma ParentBelow(k: Kern, st: Stacks, p: nat)
    requires Structure(k, st) && 1 <= p <= |k.procs| && k.procs[p - 1] && k.parent[p] != NONE
    ensures 1 <= k.parent[p] <= |k.procs| && k.procs[k.parent[p] - 1] && k.parent[p] != p
  {
    assert OnStack(st, p);
    var t, i :| At(st, t, i) && st[t][i] == p;
    assert LinkOk(k, st, t, i);
    assert At(st, t, i - 1) && LinkOk(k, st, t, i - 1);
  }

  /** The excluded step does break the structure: no stacks fit the kernel's tables after it. */
  lemma HaltDiverges(k: Kern, d: Desk, st: Stacks)
    requires Refines(k, d) && InUse(d) && Diverges(d)
    ensures k.running != 0 && !Structure(Halted(k), st)
  {
    var c := k.running;
    TopIsPid(k, d.stacks, d.turn);
    TopIsPid(k, d.stacks, d.current);
    var procs := k.procs[c - 1 := false];
    FreeSlotIsFree(procs, 0);
    var h := Halted(k);
    var q := h.running;
    assert h.procs[q - 1] && h.parent[q] == c && (q == c || !h.procs[c - 1]);
    if Structure(h, st) { ParentBelow(h, st, q); }
  }

  /** So the process that ends keeps the structure exactly when it is not the only one of
      its terminal, or its own terminal or an unused one is displayed. */
  lemma HaltKeepsIff(k: Kern, d: Desk)
    requires Refines(k, d) && InUse(d)
    ensures k.running != 0 && ((exists st :: Structure(Halted(k), st)) <==> !Diverges(d))
  {
    TopIsPid(k, d.stacks, d.turn);
    if Diverges(d) {
      forall st
        ensures !Structure(Halted(k), st)
      {
        HaltDiverges(k, d, st);
      }
    } else {
      HaltRefines(k, d);
      assert Structure(Halted(k), Halt(d).stacks);
    }
  }

  /** Show terminal 0, then 1, tick, show 0 again: a shell on each, that of terminal 1 running. */
  ghost function TwoShells(): seq<Event> {
    [Show(0), Show(1), Timer, Show(0)]
  }

  lemma TwoShellsRun(n: nat, slots: nat) returns (ds: seq<Desk>)
    requires 2 <= n && 2 <= slots
    ensures |ds| == 5 && DeskRun(ds, TwoShells()) && ds[0] == EmptyDesk(n, slots)
    ensures DeskOk(ds[4]) && InUse(ds[4]) && Diverges(ds[4])
  {
    var d0 := EmptyDesk(n, slots);
    var one := d0.stacks[0 := [1]];
    var d1 := d0.(stacks := one, current := 0, turn := 0, timed := d0.timed[1 := false]);
    var d2 := d1.(current := 1, pending := true);
    var d3 := d2.(stacks := one[1 := [2]], turn := 1, pending := false, timed := d2.timed[2 := true]);
    var d4 := d3.(current := 0);
    FirstFree(d0, 1);
    FirstFree(d0.(current := 0), 1);
    assert [] + [1] == [1] && [] + [2] == [2];
    assert d1.stacks[0] != [] && d2.stacks[0] != [] && d3.stacks[0] != [] && d4.stacks[0] != [];
    assert InUse(d1) && InUse(d2) && InUse(d3) && InUse(d4);
    assert At(one, 0, 0) && one[0][0] == 1;
    assert OnStack(one, 1) && !OnStack(one, 2);
    FirstFree(d1, 2);
    FirstFree(d2, 2);
    FirstFree(d2.(pending := false), 2);
    assert DeskStep(d0, Show(0)) == d1;
    assert DeskStep(d1, Show(1)) == d2;
    assert DeskStep(d2, Timer) == d3;
    assert DeskStep(d3, Show(0)) == d4;
    ds := [d0, d1, d2, d3, d4];
  }

  lemma FirstFree(d: Desk, p: nat)
    requires 1 <= p <= 2 <= d.slots && !OnStack(d.stacks, p) && (p == 2 ==> OnStack(d.stacks, 1))
    ensures LowestFree(d, 1) == p && Room(d)
  {
    assert LowestFree(d, 2) >= 2;
  }

  /** The harmful step can be reached from boot: that shell then ends. */
  lemma DivergenceIsReached(k: Kern) returns (d: Desk)
    requires 2 <= |k.active| && 2 <= |k.procs| && |k.parent| == |k.term| == |k.procs| + 1
    requires k == Boot(|k.active|, |k.procs|, k.parent, k.term)
    ensures Refines(Ran(k, TwoShells()), d) && InUse(d) && Diverges(d)
    ensures forall st :: !Structure(Ran(k, TwoShells() + [Exit]), st)
  {
    var ds := TwoShellsRun(|k.active|, |k.procs|);
    BootRefines(|k.active|, |k.procs|, k.parent, k.term);
    RunsRefine(k, ds, TwoShells());
    d := ds[4];
    var r := Ran(k, TwoShells());
    RanThen(k, TwoShells(), Exit);
    forall st
      ensures !Structure(Ran(k, TwoShells() + [Exit]), st)
    {
      HaltDiverges(r, d, st);
    }
  }

  lemma {:induction false} RanThen(k: Kern, events: seq<Event>, e: Event)
    requires Shape(k)
    ensures Ran(k, events + [e]) == Stepped(Ran(k, events), e)
    decreases |events|
  {
    if events == [] {
      assert [e][1..] == [];
    } else {
      RanThen(Stepped(k, events[0]), events[1..], e);
      assert (events + [e])[1..] == events[1..] + [e];
    }
  }

  // ----- chains of parents -----

  /** The pids met from p on by following parents, n at most. */
  function Chain(k: Kern, p: int, n: nat): seq<int>
    requires Shape(k)
    decreases n
  {
    if n == 0 || p < 1 || p > |k.procs| then [] else [p] + Chain(k, k.parent[p], n - 1)
  }

  ghost function Reversed(s: seq<int>): seq<int> {
    if s == [] then [] else [s[|s| - 1]] + Reversed(s[..|s| - 1])
  }

  lemma {:induction false} ReversedHas(s: seq<int>, p: int)
    ensures p in Reversed(s) <==> p in s
  {
    if s != [] {
      ReversedHas(s[..|s| - 1], p);
      assert s == s[..|s| - 1] + [s[|s| - 1]];
    }
  }

  lemma {:induction false} ChainIsStack(k: Kern, st: Stacks, t: int, j: nat, n: nat)
    requires Structure(k, st) && 0 <= t < |st| && j <= |st[t]| && j <= n
    ensures Chain(k, if j == 0 then NONE else st[t][j - 1], n) == Reversed(st[t][..j])
    decreases j
  {
    if j > 0 {
      assert At(st, t, j - 1) && LinkOk(k, st, t, j - 1);
      ChainIsStack(k, st, t, j - 1, n - 1);
      assert st[t][..j][..j - 1] == st[t][..j - 1];
    }
  }

  lemma OnOwnStack(k: Kern, st: Stacks, t: int, p: int)
    requires Structure(k, st) && 0 <= t < |st|
    ensures p in st[t] <==> 1 <= p <= |k.procs| && k.procs[p - 1] && k.term[p] == t
  {
    if p in st[t] {
      var i :| 0 <= i < |st[t]| && st[t][i] == p;
      assert At(st, t, i) && LinkOk(k, st, t, i);
    }
    if 1 <= p <= |k.procs| && k.procs[p - 1] && k.term[p] == t {
      assert OnStack(st, p);
      var u, i :| At(st, u, i) && st[u][i] == p;
      assert LinkOk(k, st, u, i);
    }
  }

  /** From the active pid of each terminal the parents form a finite chain that ends without
      a parent; a live pid is on the chain of its own terminal and on no other; pids that are
      not live are on none; and the running process is the active one of its terminal. */
  lemma ChainsPartition(k: Kern, d: Desk, t: int, n: nat)
    requires Refines(k, d) && 0 <= t < |k.active| && n >= |d.stacks[t]|
    ensures Chain(k, k.active[t], n) == Reversed(d.stacks[t])
    ensures forall p :: p in Chain(k, k.active[t], n) <==> 1 <= p <= |k.procs| && k.procs[p - 1] && k.term[p] == t
    ensures forall p :: 1 <= p <= |k.procs| && k.procs[p - 1] ==> 0 <= k.term[p] < |k.active|
    ensures k.count > 0 ==> k.running != 0 && 0 <= k.term[k.running] < |k.active|
                            && k.active[k.term[k.running]] == k.running
  {
    forall p | 1 <= p <= |k.procs| && k.procs[p - 1]
      ensures 0 <= k.term[p] < |k.active|
    {
      assert OnStack(d.stacks, p);
      OnStackIsLive(k, d.stacks, p);
    }
    var s := d.stacks[t];
    assert s[..|s|] == s;
    ChainIsStack(k, d.stacks, t, |s|, n);
    forall p
      ensures p in Chain(k, k.active[t], n) <==> 1 <= p <= |k.procs| && k.procs[p - 1] && k.term[p] == t
    {
      ReversedHas(s, p);
      OnOwnStack(k, d.stacks, t, p);
    }
    CountMatches(k, d);
    if InUse(d) { TopIsPid(k, d.stacks, d.turn); }
  }

  /** Every run from boot, its harmful steps apart, leaves such chains: each terminal's ends
      without a parent and holds exactly the live pids of that terminal, every live pid is of
      some terminal, the count is right, and the running pid is the active one of its terminal. */
  lemma RunsKeepChains(k: Kern, ds: seq<Desk>, events: seq<Event>, t: int)
    requires 1 <= |k.active| && 1 <= |k.procs| && |k.parent| == |k.term| == |k.procs| + 1
    requires k == Boot(|k.active|, |k.procs|, k.parent, k.term)
    requires |ds| == |events| + 1 && DeskRun(ds, events) && ds[0] == EmptyDesk(|k.active|, |k.procs|)
    requires 0 <= t < |k.active|
    ensures var r, n := Ran(k, events), |events|;
            && t < |ds[n].stacks| == |r.active| && r.count == CountTrue(r.procs)
            && Chain(r, r.active[t], |ds[n].stacks[t]|) == Reversed(ds[n].stacks[t])
            && (forall p :: p in ds[n].stacks[t] <==> 1 <= p <= |r.procs| && r.procs[p - 1] && r.term[p] == t)
            && (forall p :: 1 <= p <= |r.procs| && r.procs[p - 1] ==> 0 <= r.term[p] < |r.active|)
            && (r.count > 0 ==> r.running != 0 && 0 <= r.term[r.running] < |r.active|
                                && r.active[r.term[r.running]] == r.running)
  {
    BootRefines(|k.active|, |k.procs|, k.parent, k.term);
    RunsRefine(k, ds, events);
    var r, d := Ran(k, events), ds[|events|];
    ChainsPartition(r, d, t, |d.stacks[t]|);
    forall p
      ensures p in d.stacks[t] <==> 1 <= p <= |r.procs| && r.procs[p - 1] && r.term[p] == t
    {
      OnOwnStack(r, d.stacks, t, p);
    }
  }
}
