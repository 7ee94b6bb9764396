/** The kernel's process tables as the C code keeps them, changed in place by execute,
    halt, the timer handler and the terminal switch. */
module Kernel {
  import opened Scheduler

  class Kernel {
    const procs: array<bool>
    const activeProcesses: array<int>
    const parent: array<int>
    const term: array<int>
    /** Which processes the timer handler has started: where their execute returns to. */
    const timed: array<bool>
    var procCount: int
    var currentTerminal: int
    var nextExecute: bool
    var running: nat

    ghost predicate Apart() {
      && procs != timed && parent != term && activeProcesses != parent && activeProcesses != term
    }

    ghost function View(): Kern
      reads this, procs, activeProcesses, parent, term, timed
    {
      Kern(procs[..], procCount, activeProcesses[..], parent[..], term[..], timed[..],
           currentTerminal, nextExecute, running)
    }

    ghost predicate Valid()
      reads this, procs, activeProcesses, parent, term, timed
    {
      Apart() && Shape(View())
    }

    constructor (terminals: nat, slots: nat)
      requires 1 <= terminals && 1 <= slots
      ensures Valid() && fresh(procs) && fresh(activeProcesses) && fresh(parent) && fresh(term) && fresh(timed)
      ensures View() == Boot(terminals, slots, parent[..], term[..])
    {
      procs := new bool[slots](_ => false);
      activeProcesses := new int[terminals](_ => NONE);
      parent := new int[slots + 1];
      term := new int[slots + 1];
      timed := new bool[slots + 1](_ => false);
      procCount, currentTerminal, nextExecute, running := 0, NONE, false, 0;
    }

    method AddProcess() returns (pid: int)
      modifies this`procCount, procs
      ensures var slot := FreeSlot(old(procs[..]), 0);
              if slot == procs.Length then pid == NONE && procs[..] == old(procs[..]) && procCount == old(procCount)
              else pid == slot + 1 && procs[..] == old(procs[..])[slot := true] && procCount == old(procCount) + 1
      ensures pid == NONE <==> forall i :: 0 <= i < procs.Length ==> old(procs[i])
      ensures pid != NONE ==> && 1 <= pid <= procs.Length && !old(procs[pid - 1])
                              && forall i :: 0 <= i < pid - 1 ==> old(procs[i])
    {
      var i := 0;
      while i < procs.Length
        invariant 0 <= i <= procs.Length
        invariant procs[..] == old(procs[..]) && procCount == old(procCount)
        invariant FreeSlot(procs[..], 0) == FreeSlot(procs[..], i)
        invariant forall j :: 0 <= j < i ==> procs[j]
      {
        if !procs[i] {
          procs[i] := true;
          procCount := procCount + 1;
          return i + 1;
        }
        i := i + 1;
      }
      pid := NONE;
    }

    method DeleteProcess(pid: int) returns (r: int)
      modifies this`procCount, procs
      ensures if 1 <= pid <= procs.Length
              then r == 0 && procs[..] == old(procs[..])[pid - 1 := false] && procCount == old(procCount) - 1
              else r == NONE && procs[..] == old(procs[..]) && procCount == old(procCount)
    {
      if pid - 1 < 0 || pid - 1 >= procs.Length { return NONE; }
      procs[pid - 1] := false;
      procCount := procCount - 1;
      r := 0;
    }

    method GetActiveProcess(t: int) returns (pid: int)
      requires Valid()
      ensures pid == ActiveOn(View(), t)
    {
      if t < 0 || t >= activeProcesses.Length { return NONE; }
      pid := activeProcesses[t];
    }

    method SetActiveProcess(t: int, pid: int) returns (r: int)
      modifies activeProcesses
      ensures activeProcesses[..] == SetActive(old(activeProcesses[..]), t, pid)
      ensures r == if 0 <= t < activeProcesses.Length then 0 else NONE
    {
      if t < 0 || t >= activeProcesses.Length { return NONE; }
      activeProcesses[t] := pid;
      r := 0;
    }

    /** execute: -1 and no change when the program cannot be loaded or there is no room. */
    method Execute(loadable: bool, byTimer: bool) returns (started: bool)
      requires Valid()
      modifies this, procs, activeProcesses, parent, term, timed
      ensures Valid() && View() == (if loadable then Executed(old(View()), byTimer) else old(View()))
      ensures started <==> loadable && FreeSlot(old(procs[..]), 0) < procs.Length
    {
      if !loadable { return false; }
      var pid := AddProcess();
      if pid < 0 {
        assert View() == old(View());
        return false;
      }
      var active := GetActiveProcess(currentTerminal);
      if active != NONE {
        var t := term[running];
        parent[pid] := running;
        term[pid] := t;
      } else {
        parent[pid] := NONE;
        term[pid] := currentTerminal;
      }
      timed[pid] := byTimer;
      var _ := SetActiveProcess(term[pid], pid);
      running := pid;
      started := true;
    }

    /** halt of the running process; the timer handler that waits for a child goes on to
        its scheduling half. */
    method Halt()
      requires Valid() && running != 0
      modifies this, procs, activeProcesses, parent, term, timed
      ensures Valid() && View() == Halted(old(View()))
    {
      var child := running;
      var above := parent[child];
      var _ := DeleteProcess(child);
      if 0 <= above < parent.Length {
        var _ := SetActiveProcess(term[above], above);
        running := above;
        if timed[child] { Schedule(); }
      } else {
        var _ := SetActiveProcess(term[child], NONE);
        var _ := Execute(true, false);
      }
    }

    /** The scheduling half of the timer handler. */
    method Schedule()
      requires Valid()
      modifies this`running
      ensures Valid() && View() == Scheduled(old(View()))
    {
      hide After;
      var n := activeProcesses.Length;
      var i, next := 1, NONE;
      while i <= n
        invariant 1 <= i <= n + 1
        invariant View() == old(View())
        invariant Chosen(activeProcesses[..], term[running], 1) == Chosen(activeProcesses[..], term[running], i)
        invariant i == n + 1 ==> next == NONE
      {
        next := activeProcesses[After(term[running], i, n)];
        if next != NONE { break; }
        i := i + 1;
      }
      assert next == Chosen(activeProcesses[..], term[running], 1);
      if 0 <= next < parent.Length { running := next; }
    }

    method PitHandler()
      requires Valid()
      modifies this, procs, activeProcesses, parent, term, timed
      ensures Valid() && View() == Ticked(old(View()))
    {
      if procCount == 0 { return; }
      if nextExecute {
        nextExecute := false;
        var started := Execute(true, true);
        if started { return; }
      }
      Schedule();
    }

    method StartTerminal(t: int) returns (r: int)
      requires Valid()
      modifies this, procs, activeProcesses, parent, term, timed
      ensures Valid() && View() == Switched(old(View()), t) && (r == 0 ==> currentTerminal == t)
      ensures r == if 0 <= t < activeProcesses.Length && t != old(currentTerminal)
                      && (old(procCount) < procs.Length || old(activeProcesses[t]) != NONE) then 0 else NONE
    {
      if t < 0 || t >= activeProcesses.Length { return NONE; }
      if t == currentTerminal { return NONE; }
      var shown := GetActiveProcess(currentTerminal);
      var next := GetActiveProcess(t);
      if procCount >= procs.Length && next == NONE { return NONE; }
      currentTerminal := t;
      if next == NONE {
        if shown != NONE {
          nextExecute := true;
        } else {
          var _ := Execute(true, false);
        }
      }
      r := 0;
    }

    /** Any event the kernel is called for, and what it does to the stacks of processes. */
    method Handle(e: Event)
      requires Valid()
      modifies this, procs, activeProcesses, parent, term, timed
      ensures Valid() && View() == Stepped(old(View()), e)
      ensures forall d :: Refines(old(View()), d) && Harmless(d, e) ==> Refines(View(), DeskStep(d, e))
    {
      ghost var before := View();
      Dispatch(e);
      forall d | Refines(before, d) && Harmless(d, e)
        ensures Refines(View(), DeskStep(d, e))
      {
        StepRefines(before, d, e);
      }
    }

    method Dispatch(e: Event)
      requires Valid()
      modifies this, procs, activeProcesses, parent, term, timed
      ensures Valid() && View() == Stepped(old(View()), e)
    {
      match e
      case Exec(loadable) => if running != 0 { var _ := Execute(loadable, false); }
      case Exit => if running != 0 { Halt(); }
      case Fault => if procCount != 0 && running != 0 { Halt(); }
      case Timer => PitHandler();
      case Show(t) => var _ := StartTerminal(t);
    }
  }
}
