/** Page directories and tables, and the translation the processor makes of them: 32-bit
    paging with 4 KB and 4 MB pages, section 4.3 of the Intel 64 and IA-32 Architectures
    Software Developer's Manual, Volume 3A. */
module Paging {
  import opened Bytes

  const KERNEL_LOC: nat := 0x400000
  const PROG_VM_START: nat := 0x8000000
  const PROG_VIDMEM_ADDR: nat := 0x8400000
  const SPACE_4MB: nat := 0x400000

  // ----- flags -----

  /** Bitwise or of two non-negative numbers. */
  function Or(a: nat, b: nat): nat {
    if a == 0 && b == 0 then 0
    else (if a % 2 == 1 || b % 2 == 1 then 1 else 0) + 2 * Or(a / 2, b / 2)
  }

  /** Or with bits below all of a's is a sum. */
  lemma {:induction false} OrBelow(a: nat, b: nat, k: nat)
    requires b < Pow2(k)
    ensures Or(Pow2(k) * a, b) == Pow2(k) * a + b
  {
    if k == 0 {
      OrZero(a);
    } else {
      var h := Pow2(k - 1) * a;
      assert Pow2(k) * a == 2 * h;
      OrBelow(a, b / 2, k - 1);
    }
  }

  lemma {:induction false} OrZero(a: nat)
    ensures Or(a, 0) == a
  {
    if a > 0 { OrZero(a / 2); }
  }

  /** A frame and the twelve bits of flags below it. */
  lemma OrFlags(frame: nat, flags: nat)
    requires flags < 0x1000
    ensures Or(0x1000 * frame, flags) == 0x1000 * frame + flags
  {
    assert Pow2(12) == 0x1000;
    OrBelow(frame, flags, 12);
  }

  lemma OrPresent(e: nat)
    ensures Or(e, 1) == if e % 2 == 1 then e else e + 1
  {
    OrZero(e / 2);
  }

  predicate Present(e: nat) { e % 2 == 1 }
  predicate Writable(e: nat) { e / 2 % 2 == 1 }
  predicate ForUser(e: nat) { e / 4 % 2 == 1 }
  predicate Large(e: nat) { e / 0x80 % 2 == 1 }

  // ----- the translation -----

  /** The tables that page directories point to: for each terminal the kernel's view of
      video memory, from page frame vidFrame on, and the user's, from userFrame on. */
  datatype Tables = Tables(vid: seq<seq<nat>>, user: seq<seq<nat>>, vidFrame: nat, userFrame: nat)

  ghost predicate TablesShape(m: Tables) {
    && |m.vid| == |m.user| && 1 <= |m.vid| <= 0x300
    && (forall i :: 0 <= i < |m.vid| ==> |m.vid[i]| == |m.user[i]| == 1024)
    && (m.vidFrame + |m.vid| <= m.userFrame || m.userFrame + |m.vid| <= m.vidFrame)
  }

  function TableAt(m: Tables, frame: nat): Option<seq<nat>>
    requires TablesShape(m)
  {
    if m.vidFrame <= frame < m.vidFrame + |m.vid| then Some(m.vid[frame - m.vidFrame])
    else if m.userFrame <= frame < m.userFrame + |m.user| then Some(m.user[frame - m.userFrame])
    else None
  }

  datatype Access = Fault | To(phys: nat, user: bool, writable: bool)

  function Translate(m: Tables, pd: seq<nat>, v: nat): Access
    requires TablesShape(m) && |pd| == 1024 && v < TWO_32
  {
    var pde := pd[v / 0x400000];
    if !Present(pde) then Fault
    else if Large(pde) then To(pde / 0x400000 * 0x400000 + v % 0x400000, ForUser(pde), Writable(pde))
    else
      match TableAt(m, pde / 0x1000)
      case None => Fault
      case Some(pt) =>
        var pte := pt[v / 0x1000 % 0x400];
        if !Present(pte) then Fault
        else To(pte / 0x1000 * 0x1000 + v % 0x1000, ForUser(pde) && ForUser(pte), Writable(pde) && Writable(pte))
  }

  // ----- what the kernel sets up -----

  function VidEntry(terminals: nat, i: nat, j: nat): nat {
    if j == 0xB8 then 0x1000 * (0xB8 + i) + 3
    else if 0xB9 <= j < 0xB9 + terminals then 0x1000 * (j - 1) + 3
    else 0
  }

  function UserEntry(i: nat, j: nat): nat {
    if j == 0 then 0x1000 * (0xB8 + i) + 7 else 0
  }

  ghost predicate TablesReady(m: Tables) {
    && TablesShape(m)
    && forall i, j :: 0 <= i < |m.vid| && 0 <= j < 1024 ==>
         m.vid[i][j] == VidEntry(|m.vid|, i, j) && m.user[i][j] == UserEntry(i, j)
  }

  /** The directory of process pid of a terminal, or of the kernel for pid 0; `mapped` is
      whether the process may see video memory. */
  function DirEntry(m: Tables, term: nat, pid: nat, mapped: bool, i: nat): nat {
    if i == 0 then 0x1000 * (m.vidFrame + term) + 3
    else if i == 1 then KERNEL_LOC + 0x83
    else if i == 32 && pid != 0 then 0x800000 + (pid - 1) * 0x400000 + 0x87
    else if i == 33 then 0x1000 * (m.userFrame + term) + (if mapped then 7 else 6)
    else 0
  }

  function Dir(m: Tables, term: nat, pid: nat, mapped: bool): (pd: seq<nat>)
    ensures |pd| == 1024
  {
    seq(1024, i requires 0 <= i < 1024 => DirEntry(m, term, pid, mapped, i))
  }

  // ----- what each address reaches -----

  /** The byte of a process's own memory. */
  function ProgramByte(pid: nat, v: nat): int {
    0x800000 + (pid - 1) * 0x400000 + (v - 0x8000000)
  }

  function ScreenByte(term: nat, offset: nat): nat {
    0xB8000 + term * 0x1000 + offset
  }

  lemma DirectoryIndex(v: nat)
    ensures v / 0x400000 == 0 <==> v < 0x400000
    ensures v / 0x400000 == 1 <==> 0x400000 <= v < 0x800000
    ensures v / 0x400000 == 32 <==> 0x8000000 <= v < 0x8400000
    ensures v / 0x400000 == 33 <==> 0x8400000 <= v < 0x8800000
  {
  }

  lemma BitsAbove(a: nat, g: nat)
    ensures (2 * a + g) % 2 == g % 2
    ensures (2 * a + g) / 2 == a + g / 2
    ensures (4 * a + g) / 4 == a + g / 4
    ensures (0x80 * a + g) / 0x80 == a + g / 0x80
  {
  }

  /** Flags below a frame do not disturb it, nor it them. */
  lemma FrameOf(frame: nat, flags: nat)
    requires flags < 0x1000
    ensures (0x1000 * frame + flags) / 0x1000 == frame
    ensures Present(0x1000 * frame + flags) == Present(flags) && Writable(0x1000 * frame + flags) == Writable(flags)
    ensures ForUser(0x1000 * frame + flags) == ForUser(flags) && Large(0x1000 * frame + flags) == Large(flags)
  {
    BitsAbove(0x800 * frame, flags);
    BitsAbove(0x400 * frame, flags);
    BitsAbove(0x400 * frame, flags / 2);
    BitsAbove(0x200 * frame, flags / 4);
    BitsAbove(0x20 * frame, flags);
    BitsAbove(0x10 * frame, flags / 0x80);
  }

  lemma LargeFrameOf(frame: nat, flags: nat)
    requires flags < 0x1000
    ensures var e := 0x400000 * frame + flags;
            e / 0x400000 == frame && Present(e) == Present(flags) && Writable(e) == Writable(flags)
            && ForUser(e) == ForUser(flags) && Large(e) == Large(flags)
  {
    FrameOf(0x400 * frame, flags);
    assert 0x1000 * (0x400 * frame) == 0x400000 * frame;
  }

  /** The program's 4 MB: every process, every terminal. */
  lemma ProgramReaches(m: Tables, term: nat, pid: nat, mapped: bool, v: nat)
    requires TablesReady(m) && term < |m.vid| && 1 <= pid && 0x8000000 <= v < 0x8400000
    ensures Translate(m, Dir(m, term, pid, mapped), v) == To(ProgramByte(pid, v), true, true)
  {
    DirectoryIndex(v);
    var e := DirEntry(m, term, pid, mapped, 32);
    assert Dir(m, term, pid, mapped)[32] == e;
    LargeFrameOf(pid + 1, 0x87);
    assert e == 0x400000 * (pid + 1) + 0x87;
    assert v % 0x400000 == v - 0x8000000;
  }

  /** The kernel's 4 MB: itself, and not for programs. */
  lemma KernelReaches(m: Tables, term: nat, pid: nat, mapped: bool, v: nat)
    requires TablesReady(m) && term < |m.vid| && 0x400000 <= v < 0x800000
    ensures Translate(m, Dir(m, term, pid, mapped), v) == To(v, false, true)
  {
    DirectoryIndex(v);
    assert Dir(m, term, pid, mapped)[1] == DirEntry(m, term, pid, mapped, 1);
    LargeFrameOf(1, 0x83);
    assert v % 0x400000 == v - 0x400000;
  }

  /** The first 4 MB: one page for the terminal's own screen, then one for each screen. */
  lemma LowReaches(m: Tables, term: nat, pid: nat, mapped: bool, v: nat)
    requires TablesReady(m) && term < |m.vid| && v < 0x400000
    ensures Translate(m, Dir(m, term, pid, mapped), v) ==
            if v / 0x1000 == 0xB8 then To(ScreenByte(term, v % 0x1000), false, true)
            else if 0xB9 <= v / 0x1000 < 0xB9 + |m.vid| then To(ScreenByte(v / 0x1000 - 0xB9, v % 0x1000), false, true)
            else Fault
  {
    DirectoryIndex(v);
    assert Dir(m, term, pid, mapped)[0] == DirEntry(m, term, pid, mapped, 0);
    FrameOf(m.vidFrame + term, 3);
    var j := v / 0x1000;
    assert j < 0x400 && j % 0x400 == j;
    assert m.vid[term][j] == VidEntry(|m.vid|, term, j);
    if j == 0xB8 { FrameOf(0xB8 + term, 3); }
    else if 0xB9 <= j < 0xB9 + |m.vid| { FrameOf(j - 1, 3); }
  }

  /** The user's page of video memory, once mapped. */
  lemma UserVideoReaches(m: Tables, term: nat, pid: nat, mapped: bool, v: nat)
    requires TablesReady(m) && term < |m.vid| && 0x8400000 <= v < 0x8800000
    ensures Translate(m, Dir(m, term, pid, mapped), v) ==
            if mapped && v < 0x8401000 then To(ScreenByte(term, v - 0x8400000), true, true) else Fault
  {
    DirectoryIndex(v);
    assert Dir(m, term, pid, mapped)[33] == DirEntry(m, term, pid, mapped, 33);
    FrameOf(m.userFrame + term, if mapped then 7 else 6);
    var j := v / 0x1000 % 0x400;
    assert j == v / 0x1000 - 0x8400;
    assert m.user[term][j] == UserEntry(term, j);
    FrameOf(0xB8 + term, 7);
  }

  lemma ElsewhereFaults(m: Tables, term: nat, pid: nat, mapped: bool, v: nat)
    requires TablesReady(m) && term < |m.vid| && v < TWO_32
    requires 0x800000 <= v < 0x8000000 || 0x8800000 <= v || (pid == 0 && 0x8000000 <= v < 0x8400000)
    ensures Translate(m, Dir(m, term, pid, mapped), v) == Fault
  {
    DirectoryIndex(v);
    var i := v / 0x400000;
    assert Dir(m, term, pid, mapped)[i] == DirEntry(m, term, pid, mapped, i);
  }

  /** A program's reach: its own 4 MB, and once mapped the page of its terminal's screen. */
  lemma UserReach(m: Tables, term: nat, pid: nat, mapped: bool, v: nat)
    requires TablesReady(m) && term < |m.vid| && 1 <= pid && v < TWO_32
    ensures var a := Translate(m, Dir(m, term, pid, mapped), v);
            && (a.To? && a.user <==> 0x8000000 <= v < 0x8400000 || (mapped && 0x8400000 <= v < 0x8401000))
            && (a.To? && a.user && v < 0x8400000 ==>
                 a == To(0x800000 + 0x400000 * (pid - 1) + (v - 0x8000000), true, true))
            && (a.To? && a.user && v >= 0x8400000 ==> a == To(0xB8000 + 0x1000 * term + (v - 0x8400000), true, true))
  {
    if v < 0x400000 { LowReaches(m, term, pid, mapped, v); }
    else if v < 0x800000 { KernelReaches(m, term, pid, mapped, v); }
    else if 0x8000000 <= v < 0x8400000 { ProgramReaches(m, term, pid, mapped, v); }
    else if 0x8400000 <= v < 0x8800000 { UserVideoReaches(m, term, pid, mapped, v); }
    else { ElsewhereFaults(m, term, pid, mapped, v); }
  }

  ghost predicate OnScreen(terminals: nat, term: nat, phys: int) {
    term < terminals && 0xB8000 + term * 0x1000 <= phys < 0xB8000 + term * 0x1000 + 0x1000
  }

  /** What programs reach in two processes is apart, but for a screen both have mapped; it is
      never the kernel's page, and never a screen but their own terminal's. */
  lemma ProcessesApart(m: Tables, t: nat, p: nat, pMapped: bool, v: nat, u: nat, q: nat, qMapped: bool, w: nat)
    requires TablesReady(m) && t < |m.vid| && u < |m.vid| && 1 <= p && 1 <= q && p != q && v < TWO_32 && w < TWO_32
    ensures var a, b := Translate(m, Dir(m, t, p, pMapped), v), Translate(m, Dir(m, u, q, qMapped), w);
            a.To? && a.user && b.To? && b.user ==>
              && !(0x400000 <= a.phys < 0x800000)
              && (a.phys == b.phys ==> t == u && pMapped && qMapped && v == w && v >= 0x8400000)
              && forall s :: OnScreen(|m.vid|, s, a.phys) ==> s == t && pMapped
  {
    UserReach(m, t, p, pMapped, v);
    UserReach(m, u, q, qMapped, w);
  }

  /** Whichever directory is loaded, the address shifted by the displayed terminal reaches
      its screen; the plain address reaches the screen of the loaded process's terminal. */
  lemma EchoReachesDisplayed(m: Tables, term: nat, pid: nat, mapped: bool, shown: nat, offset: nat)
    requires TablesReady(m) && term < |m.vid| && shown < |m.vid| && offset < 0x1000
    ensures var echo := Translate(m, Dir(m, term, pid, mapped), 0xB8000 + 0x1000 * (shown + 1) + offset);
            var written := Translate(m, Dir(m, term, pid, mapped), 0xB8000 + offset);
            && echo == To(0xB8000 + 0x1000 * shown + offset, false, true)
            && written == To(0xB8000 + 0x1000 * term + offset, false, true)
            && (echo == written <==> term == shown)
  {
    var v := 0xB8000 + 0x1000 * (shown + 1) + offset;
    assert v / 0x1000 == 0xB9 + shown && v % 0x1000 == offset;
    LowReaches(m, term, pid, mapped, v);
    var w := 0xB8000 + offset;
    assert w / 0x1000 == 0xB8 && w % 0x1000 == offset;
    LowReaches(m, term, pid, mapped, w);
  }

  // ----- whole runs -----

  /** The tables and the directory of each pid, with the kernel's own at 0. */
  datatype Space = Space(tables: Tables, dirs: seq<seq<nat>>)

  ghost predicate SpaceOk(s: Space) {
    TablesReady(s.tables) && |s.dirs| >= 1 && forall p :: 0 <= p < |s.dirs| ==> |s.dirs[p]| == 1024
  }

  /** Starting a program on a terminal, or a call of vidmap with a pointer argument. */
  datatype Step = Exec(pid: nat, term: nat) | Vidmap(pid: nat, start: int)

  ghost predicate StepOk(s: Space, e: Step) {
    1 <= e.pid < |s.dirs| && e.pid <= 1022 && (e.Exec? ==> e.term < |s.tables.vid|)
  }

  /** vidmap's test of its argument: it lies in the program's own 4 MB. */
  predicate InProgram(start: int) {
    0x8000000 <= start < 0x8400000
  }

  function WithFlag(pd: seq<nat>, i: nat): (r: seq<nat>)
    requires i < |pd|
    ensures |r| == |pd|
  {
    pd[i := Or(pd[i], 1)]
  }

  ghost function Stepped(s: Space, e: Step): (r: Space)
    requires SpaceOk(s) && StepOk(s, e)
    ensures SpaceOk(r) && r.tables == s.tables && |r.dirs| == |s.dirs|
  {
    match e
    case Exec(pid, term) => s.(dirs := s.dirs[pid := Dir(s.tables, term, pid, false)])
    case Vidmap(pid, start) => if InProgram(start) then s.(dirs := s.dirs[pid := WithFlag(s.dirs[pid], 33)]) else s
  }

  ghost predicate StepsOk(s: Space, steps: seq<Step>) {
    forall i :: 0 <= i < |steps| ==> StepOk(s, steps[i])
  }

  ghost function Ran(s: Space, steps: seq<Step>): (r: Space)
    requires SpaceOk(s) && StepsOk(s, steps)
    ensures SpaceOk(r) && r.tables == s.tables && |r.dirs| == |s.dirs|
    decreases |steps|
  {
    if steps == [] then s else Stepped(Ran(s, steps[..|steps| - 1]), steps[|steps| - 1])
  }

  /** When the process that now has the pid was started. */
  ghost predicate StartedAt(steps: seq<Step>, pid: nat, i: nat) {
    && i < |steps| && steps[i].Exec? && steps[i].pid == pid
    && forall j :: i < j < |steps| ==> !(steps[j].Exec? && steps[j].pid == pid)
  }

  /** It has since called vidmap with a good argument. */
  ghost predicate HasMapped(steps: seq<Step>, pid: nat, i: nat) {
    exists j :: i < j < |steps| && steps[j].Vidmap? && steps[j].pid == pid && InProgram(steps[j].start)
  }

  lemma FlagMaps(m: Tables, term: nat, pid: nat, mapped: bool)
    ensures WithFlag(Dir(m, term, pid, mapped), 33) == Dir(m, term, pid, true)
  {
    var e := DirEntry(m, term, pid, mapped, 33);
    FrameOf(m.userFrame + term, if mapped then 7 else 6);
    OrPresent(e);
  }

  /** After any run the directory of a pid is the one of the process started last under it,
      and its user video page is present exactly when that process has called vidmap. */
  lemma {:induction false} RunsMapOwn(s: Space, steps: seq<Step>, pid: nat, i: nat)
    requires SpaceOk(s) && StepsOk(s, steps) && StartedAt(steps, pid, i)
    ensures pid < |s.dirs|
    ensures Ran(s, steps).dirs[pid] == Dir(s.tables, steps[i].term, pid, HasMapped(steps, pid, i))
    decreases |steps|
  {
    hide Dir, WithFlag, TablesReady;
    var n := |steps| - 1;
    var last := steps[n];
    assert StepOk(s, steps[i]) && StepOk(s, last);
    if i < n {
      RunsMapOwn(s, steps[..n], pid, i);
      FlagMaps(s.tables, steps[i].term, pid, HasMapped(steps[..n], pid, i));
      HasMappedStep(steps, pid, i);
    } else {
      assert !HasMapped(steps, pid, i);
    }
  }

  lemma HasMappedStep(steps: seq<Step>, pid: nat, i: nat)
    requires i < |steps| - 1
    ensures var n := |steps| - 1;
            HasMapped(steps, pid, i) <==>
            HasMapped(steps[..n], pid, i) || (steps[n].Vidmap? && steps[n].pid == pid && InProgram(steps[n].start))
  {
    var n := |steps| - 1;
    if HasMapped(steps[..n], pid, i) {
      var j :| i < j < n && steps[..n][j].Vidmap? && steps[..n][j].pid == pid && InProgram(steps[..n][j].start);
      assert steps[j].Vidmap?;
    }
    if HasMapped(steps, pid, i) {
      var j :| i < j < |steps| && steps[j].Vidmap? && steps[j].pid == pid && InProgram(steps[j].start);
      if j < n { assert steps[..n][j].Vidmap?; }
    }
  }

  /** So a program reaches video memory only when it has asked for it itself. */
  lemma VideoOnlyWhenMapped(s: Space, steps: seq<Step>, pid: nat, i: nat, v: nat)
    requires SpaceOk(s) && StepsOk(s, steps) && StartedAt(steps, pid, i) && v < TWO_32
    ensures pid < |s.dirs|
    ensures var a := Translate(s.tables, Ran(s, steps).dirs[pid], v);
            a.To? && a.user <==> 0x8000000 <= v < 0x8400000 || (HasMapped(steps, pid, i) && 0x8400000 <= v < 0x8401000)
  {
    assert StepOk(s, steps[i]);
    RunsMapOwn(s, steps, pid, i);
    UserReach(s.tables, steps[i].term, pid, HasMapped(steps, pid, i), v);
  }

  /** What a good call of vidmap gives back reaches, for the process started last under the
      pid, the bytes of the screen of the terminal it was started on, from the first on. */
  lemma VidmapReaches(s: Space, steps: seq<Step>, pid: nat, i: nat, start: int, offset: nat)
    requires SpaceOk(s) && StepsOk(s, steps) && StartedAt(steps, pid, i)
    requires 0x8000000 <= start < 0x8400000 && offset < 0x1000
    ensures StepOk(s, Step.Vidmap(pid, start)) && pid < |s.dirs|
    ensures var after := Stepped(Ran(s, steps), Step.Vidmap(pid, start));
            Translate(s.tables, after.dirs[pid], 0x8400000 + offset)
            == To(0xB8000 + 0x1000 * steps[i].term + offset, true, true)
  {
    assert StepOk(s, steps[i]);
    RunsMapOwn(s, steps, pid, i);
    FlagMaps(s.tables, steps[i].term, pid, HasMapped(steps, pid, i));
    UserVideoReaches(s.tables, steps[i].term, pid, true, 0x8400000 + offset);
  }

  // ----- the tables in memory -----

  class Mmu {
    /** A row of 1024 entries for the kernel's directory and for that of each pid. */
    const dirs: array2<nat>
    const ptVidmem: array2<nat>
    const ptUserVidmem: array2<nat>
    /** The page frames where the two groups of tables begin. */
    const vidFrame: nat
    const userFrame: nat

    ghost predicate Shape()
      reads this
    {
      && dirs.Length1 == ptVidmem.Length1 == ptUserVidmem.Length1 == 1024
      && 1 <= dirs.Length0 <= 1023 && 1 <= ptVidmem.Length0 == ptUserVidmem.Length0 <= 0x300
      && dirs != ptVidmem && dirs != ptUserVidmem && ptVidmem != ptUserVidmem
      && (vidFrame + ptVidmem.Length0 <= userFrame || userFrame + ptVidmem.Length0 <= vidFrame)
    }

    ghost function Row(a: array2<nat>, r: nat): (s: seq<nat>)
      reads a
      requires r < a.Length0
      ensures |s| == a.Length1
    {
      seq(a.Length1, j requires 0 <= j < a.Length1 reads a => a[r, j])
    }

    ghost function Tabled(): (m: Tables)
      reads this, ptVidmem, ptUserVidmem
      requires Shape()
      ensures TablesShape(m)
    {
      Tables(seq(ptVidmem.Length0, i requires 0 <= i < ptVidmem.Length0 reads ptVidmem => Row(ptVidmem, i)),
             seq(ptVidmem.Length0, i requires 0 <= i < ptUserVidmem.Length0 reads ptUserVidmem => Row(ptUserVidmem, i)),
             vidFrame, userFrame)
    }

    ghost function View(): (s: Space)
      reads this, dirs, ptVidmem, ptUserVidmem
      requires Shape()
    {
      Space(Tabled(), seq(dirs.Length0, r requires 0 <= r < dirs.Length0 reads dirs => Row(dirs, r)))
    }

    constructor (terminals: nat, slots: nat, vidFrame: nat, userFrame: nat)
      requires 1 <= terminals <= 0x300 && slots <= 1022
      requires vidFrame + terminals <= userFrame || userFrame + terminals <= vidFrame
      ensures Shape() && dirs.Length0 == slots + 1 && ptVidmem.Length0 == terminals
      ensures this.vidFrame == vidFrame && this.userFrame == userFrame
      ensures fresh(dirs) && fresh(ptVidmem) && fresh(ptUserVidmem)
    {
      dirs := new nat[slots + 1, 1024];
      ptVidmem := new nat[terminals, 1024];
      ptUserVidmem := new nat[terminals, 1024];
      this.vidFrame, this.userFrame := vidFrame, userFrame;
    }

    /** set_pde: the physical address is cut to a page, large or small, and the flags set. */
    method SetPde(r: nat, virtual: nat, physical: nat, flags: nat)
      requires Shape() && r < dirs.Length0 && virtual < TWO_32 && physical < TWO_32 && flags < 0x1000
      modifies dirs
      ensures dirs[r, virtual / 0x400000] ==
              (if Large(flags) then physical / 0x400000 * 0x400000 else physical / 0x1000 * 0x1000) + flags
      ensures forall q, j :: 0 <= q < dirs.Length0 && 0 <= j < 1024 && !(q == r && j == virtual / 0x400000) ==>
                dirs[q, j] == old(dirs[q, j])
    {
      var frame := if Large(flags) then physical - physical % 0x400000 else physical - physical % 0x1000;
      assert frame == 0x1000 * (if Large(flags) then physical / 0x400000 * 0x400 else physical / 0x1000);
      OrFlags(if Large(flags) then physical / 0x400000 * 0x400 else physical / 0x1000, flags);
      dirs[r, virtual / 0x400000] := Or(frame, flags);
    }

    method SetPdeFlags(r: nat, virtual: nat, flags: nat)
      requires Shape() && r < dirs.Length0 && virtual < TWO_32
      modifies dirs
      ensures dirs[r, virtual / 0x400000] == Or(old(dirs[r, virtual / 0x400000]), flags)
      ensures forall q, j :: 0 <= q < dirs.Length0 && 0 <= j < 1024 && !(q == r && j == virtual / 0x400000) ==>
                dirs[q, j] == old(dirs[q, j])
    {
      dirs[r, virtual / 0x400000] := Or(dirs[r, virtual / 0x400000], flags);
    }

    method ClearDirectory(r: nat)
      requires Shape() && r < dirs.Length0
      modifies dirs
      ensures forall j :: 0 <= j < 1024 ==> dirs[r, j] == 0
      ensures forall q, j :: 0 <= q < dirs.Length0 && 0 <= j < 1024 && q != r ==> dirs[q, j] == old(dirs[q, j])
    {
      var i := 0;
      while i < 1024
        invariant 0 <= i <= 1024
        invariant forall j :: 0 <= j < i ==> dirs[r, j] == 0
        invariant forall q, j :: 0 <= q < dirs.Length0 && 0 <= j < 1024 && q != r ==> dirs[q, j] == old(dirs[q, j])
      {
        dirs[r, i] := 0;
        i := i + 1;
      }
    }

    /** pd_init: the kernel's page and the screens, and nothing else. */
    method PdInit(r: nat, term: nat)
      requires Shape() && r < dirs.Length0 && term < ptVidmem.Length0
      modifies dirs
      ensures forall j :: 0 <= j < 1024 ==> dirs[r, j] == DirEntry(Tabled(), term, 0, false, j)
      ensures forall q, j :: 0 <= q < dirs.Length0 && 0 <= j < 1024 && q != r ==> dirs[q, j] == old(dirs[q, j])
    {
      hide Or;
      ClearDirectory(r);
      OrFlags(vidFrame + term, 3);
      OrFlags(userFrame + term, 6);
      dirs[r, 0] := Or(0x1000 * (vidFrame + term), 3);
      dirs[r, PROG_VIDMEM_ADDR / 0x400000] := Or(0x1000 * (userFrame + term), 6);
      SetPde(r, KERNEL_LOC, KERNEL_LOC, 0x83);
    }

    /** The loops of virtualmem_init over the tables, after the kernel's own directory. */
    method VirtualMemInit()
      requires Shape()
      modifies dirs, ptVidmem, ptUserVidmem
      ensures SpaceOk(View()) && View().dirs[0] == Dir(Tabled(), 0, 0, false)
    {
      ClearTables();
      FillTables();
      PdInit(0, 0);
    }

    method ClearTables()
      requires Shape()
      modifies ptVidmem, ptUserVidmem
      ensures forall i, j :: 0 <= i < ptVidmem.Length0 && 0 <= j < 1024 ==> ptVidmem[i, j] == ptUserVidmem[i, j] == 0
    {
      var i := 0;
      while i < ptVidmem.Length0
        invariant 0 <= i <= ptVidmem.Length0
        invariant forall h, j :: 0 <= h < i && 0 <= j < 1024 ==> ptVidmem[h, j] == ptUserVidmem[h, j] == 0
      {
        var j := 0;
        while j < 1024
          invariant 0 <= j <= 1024
          invariant forall h, l :: 0 <= h < i && 0 <= l < 1024 ==> ptVidmem[h, l] == ptUserVidmem[h, l] == 0
          invariant forall l :: 0 <= l < j ==> ptVidmem[i, l] == ptUserVidmem[i, l] == 0
        {
          ptVidmem[i, j], ptUserVidmem[i, j] := 0, 0;
          j := j + 1;
        }
        i := i + 1;
      }
    }

    method FillTables()
      requires Shape()
      requires forall i, j :: 0 <= i < ptVidmem.Length0 && 0 <= j < 1024 ==> ptVidmem[i, j] == ptUserVidmem[i, j] == 0
      modifies ptVidmem, ptUserVidmem
      ensures forall i, j :: 0 <= i < ptVidmem.Length0 && 0 <= j < 1024 ==>
                ptVidmem[i, j] == VidEntry(ptVidmem.Length0, i, j) && ptUserVidmem[i, j] == UserEntry(i, j)
    {
      var n := ptVidmem.Length0;
      var i := 0;
      while i < n
        invariant 0 <= i <= n
        invariant forall h, j :: 0 <= h < i && 0 <= j < 1024 ==>
                    ptVidmem[h, j] == VidEntry(n, h, j) && ptUserVidmem[h, j] == UserEntry(h, j)
        invariant forall h, j :: i <= h < n && 0 <= j < 1024 ==> ptVidmem[h, j] == ptUserVidmem[h, j] == 0
      {
        OrFlags(0xB8 + i, 3);
        OrFlags(0xB8 + i, 7);
        ptVidmem[i, 0xB8000 / 0x1000 % 0x400] := Or(0xB8000 + i * 0x1000, 3);
        var j := 0;
        while j < n
          invariant 0 <= j <= n
          invariant forall h, l :: 0 <= h < i && 0 <= l < 1024 ==>
                      ptVidmem[h, l] == VidEntry(n, h, l) && ptUserVidmem[h, l] == UserEntry(h, l)
          invariant forall h, l :: i <= h < n && 0 <= l < 1024 ==>
                      ptVidmem[h, l] == (if h == i then VidEntry(j, i, l) else 0) && ptUserVidmem[h, l] == 0
        {
          OrFlags(0xB8 + j, 3);
          ShiftedIndex(j);
          ptVidmem[i, (0xB8000 + (j + 1) * 0x1000) / 0x1000 % 0x400] := Or(0xB8000 + j * 0x1000, 3);
          j := j + 1;
        }
        ptUserVidmem[i, PROG_VIDMEM_ADDR / 0x1000 % 0x400] := Or(0xB8000 + i * 0x1000, 7);
        i := i + 1;
      }
    }

    /** What execute does for pid: a fresh directory and the program's own 4 MB. */
    method MapProgram(pid: nat, term: nat)
      requires Shape() && SpaceOk(View()) && StepOk(View(), Exec(pid, term))
      modifies dirs
      ensures View() == Stepped(old(View()), Exec(pid, term))
    {
      PdInit(pid, term);
      SetPde(pid, PROG_VM_START, 0x800000 + (pid - 1) * SPACE_4MB, 0x87);
      assert (0x800000 + (pid - 1) * SPACE_4MB) / 0x400000 == pid + 1;
      assert View().tables == old(View()).tables;
      assert Row(dirs, pid) == Dir(Tabled(), term, pid, false);
      forall q | 0 <= q < dirs.Length0 && q != pid
        ensures Row(dirs, q) == old(Row(dirs, q))
      {
      }
    }

    /** vidmap of process pid: -1 for an address outside the program; else what is stored
        there and given back. */
    method Vidmap(pid: nat, screenStart: int) returns (r: int, stored: Option<nat>)
      requires Shape() && SpaceOk(View()) && StepOk(View(), Step.Vidmap(pid, screenStart))
      modifies dirs
      ensures View() == Stepped(old(View()), Step.Vidmap(pid, screenStart))
      ensures r == if 0x8000000 <= screenStart < 0x8400000 then 0x8400000 else -1
      ensures stored == if 0x8000000 <= screenStart < 0x8400000 then Some(0x8400000) else None
    {
      if screenStart < PROG_VM_START || screenStart >= PROG_VM_START + SPACE_4MB { return -1, None; }
      stored := Some(PROG_VIDMEM_ADDR);
      SetPdeFlags(pid, PROG_VIDMEM_ADDR, 1);
      assert View().tables == old(View()).tables;
      assert Row(dirs, pid) == WithFlag(old(Row(dirs, pid)), 33);
      forall q | 0 <= q < dirs.Length0 && q != pid
        ensures Row(dirs, q) == old(Row(dirs, q))
      {
      }
      r := PROG_VIDMEM_ADDR;
    }
  }

  lemma ShiftedIndex(j: nat)
    requires j < 0x300
    ensures (0xB8000 + (j + 1) * 0x1000) / 0x1000 % 0x400 == 0xB9 + j
  {
    assert 0xB8000 + (j + 1) * 0x1000 == 0x1000 * (0xB9 + j);
  }
}
