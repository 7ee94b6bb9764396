/** The system calls on descriptors: open, close, read and write on the devices of
    the file system, and what creating and ending a process does to its table. */
module SysCalls {
  import opened Bytes
  import opened FileSystem
  import Rtc

  const FILE_ARRAY_LEN: nat := 8

  datatype Device = Terminal | Clock | Directory | File

  datatype Fd = Fd(fops: Option<Device>, inodeNum: nat, pos: nat, live: bool)

  /** What a descriptor has delivered since it was opened: bytes, and number of calls. */
  datatype Delivered = Delivered(bytes: seq<Byte>, calls: nat)

  /** The live processes, every descriptor (process, number), the clock, and the
      history of each descriptor. */
  datatype State = State(live: set<nat>, files: map<(nat, nat), Fd>, clock: Rtc.Clock,
                         delivered: map<(nat, nat), Delivered>)

  function DeviceOf(ftype: nat): Option<Device> {
    if ftype == RTC_TYPE then Some(Clock)
    else if ftype == DIR_TYPE then Some(Directory)
    else if ftype == FILE_TYPE then Some(File)
    else if ftype == 3 then Some(Terminal)
    else None
  }

  /** Every entry of the image is of a type some device registered for. */
  ghost predicate TypesKnown(disk: seq<Byte>)
    requires WellFormed(disk)
  {
    forall i :: 0 <= i < EntryCount(disk) ==> DeviceOf(EntryType(Entry(disk, i))).Some?
  }

  // ----- the invariant, and what each call makes of the state -----

  /** The descriptors of live processes that have the clock open. */
  ghost function Holders(s: State): set<(nat, nat)> {
    set k | k in s.files && k.0 in s.live && s.files[k].live && s.files[k].fops == Some(Clock)
  }

  /** 0 and 1 are live terminals, free entries are at position 0, live ones have a device. */
  ghost predicate EntryOk(number: nat, fd: Fd) {
    && (number < 2 ==> fd.live && fd.fops == Some(Terminal))
    && (fd.live ==> fd.fops.Some?)
    && (!fd.live ==> fd.pos == 0)
  }

  /** A descriptor's position is what it has delivered: a file's bytes from its start,
      or one directory entry a call. */
  ghost predicate PositionOk(disk: seq<Byte>, fd: Fd, d: Delivered)
    requires WellFormed(disk)
  {
    && (fd.fops == Some(File) ==> d.bytes == Slice(Contents(disk, fd.inodeNum), 0, fd.pos)
                                  && fd.pos == |d.bytes|)
    && (fd.fops == Some(Directory) ==> fd.pos == d.calls % TWO_32)
  }

  ghost predicate TablesOk(s: State) {
    && (forall p, f: nat :: p in s.live && f < FILE_ARRAY_LEN ==> (p, f) in s.files)
    && (forall k :: k in s.files && k.0 in s.live ==>
         EntryOk(k.1, s.files[k]) && (s.files[k].live ==> k in s.delivered))
  }

  ghost predicate PositionsOk(disk: seq<Byte>, s: State)
    requires WellFormed(disk) && TablesOk(s)
  {
    forall k :: k in s.files && k.0 in s.live && s.files[k].live ==>
                  PositionOk(disk, s.files[k], s.delivered[k])
  }

  ghost predicate ClockOk(s: State) {
    && (forall p :: p in s.live ==> p < |s.clock.procs|)
    && Rtc.Coherent(s.clock, Holders(s))
  }

  ghost predicate Inv(disk: seq<Byte>, s: State)
    requires WellFormed(disk)
  {
    TablesOk(s) && PositionsOk(disk, s) && ClockOk(s)
  }

  /** Descriptor k goes live on a device. */
  ghost function Installed(s: State, k: (nat, nat), fops: Option<Device>, inodeNum: nat): State
    requires k in s.files
  {
    s.(files := s.files[k := Fd(fops, inodeNum, s.files[k].pos, true)],
       delivered := s.delivered[k := Delivered([], 0)],
       clock := if fops == Some(Clock) then Rtc.Opened(s.clock) else s.clock)
  }

  lemma InstalledClock(s: State, k: (nat, nat), fops: Option<Device>, inodeNum: nat)
    requires ClockOk(s) && k.0 in s.live && k in s.files && !s.files[k].live
    ensures ClockOk(Installed(s, k, fops, inodeNum))
  {
    var s' := Installed(s, k, fops, inodeNum);
    if fops == Some(Clock) {
      assert Holders(s') == Holders(s) + {(k.0, k.1)};
      Rtc.OpenCoherent(s.clock, Holders(s), k.0, k.1);
    } else {
      assert Holders(s') == Holders(s);
    }
  }

  lemma InstalledKeeps(disk: seq<Byte>, s: State, k: (nat, nat), fops: Option<Device>, inodeNum: nat)
    requires WellFormed(disk) && Inv(disk, s) && k.0 in s.live && 2 <= k.1 && k in s.files
    requires !s.files[k].live && fops.Some?
    ensures Inv(disk, Installed(s, k, fops, inodeNum))
  {
    InstalledClock(s, k, fops, inodeNum);
    var s' := Installed(s, k, fops, inodeNum);
    assert TablesOk(s');
    assert PositionOk(disk, s'.files[k], s'.delivered[k]);
  }

  /** Descriptor k is given back. */
  ghost function Released(s: State, k: (nat, nat)): State
    requires k in s.files && k.0 < |s.clock.procs| && Rtc.NonZeroRates(s.clock.procs)
  {
    s.(files := s.files[k := Fd(None, s.files[k].inodeNum, 0, false)],
       clock := if s.files[k].fops == Some(Clock) then Rtc.Closed(s.clock, k.0) else s.clock)
  }

  /** Between two states descriptor k was given back, and nothing else was done. */
  ghost predicate GaveBack(was: State, now: State, k: (nat, nat)) {
    && k in was.files && k.0 < |was.clock.procs| && Rtc.NonZeroRates(was.clock.procs)
    && now == Released(was, k)
  }

  lemma ReleasedClock(s: State, k: (nat, nat))
    requires ClockOk(s) && k.0 in s.live && k in s.files && s.files[k].live
    ensures ClockOk(Released(s, k))
  {
    var s' := Released(s, k);
    if s.files[k].fops == Some(Clock) {
      assert Holders(s') == Holders(s) - {(k.0, k.1)};
      Rtc.CloseCoherent(s.clock, Holders(s), k.0, k.1);
    } else {
      assert Holders(s') == Holders(s);
    }
  }

  lemma ReleasedKeeps(disk: seq<Byte>, s: State, k: (nat, nat))
    requires WellFormed(disk) && Inv(disk, s) && k.0 in s.live && 2 <= k.1 && k in s.files
    requires s.files[k].live
    ensures k.0 < |s.clock.procs| && Rtc.NonZeroRates(s.clock.procs) && Inv(disk, Released(s, k))
  {
    ReleasedClock(s, k);
    assert TablesOk(Released(s, k));
  }

  // ----- reads and writes -----

  /** The bytes a read of n returns on a descriptor; the clock returns none. */
  ghost function Returned(disk: seq<Byte>, fd: Fd, n: nat): seq<Byte>
    requires WellFormed(disk)
  {
    match fd.fops
    case Some(File) => Slice(Contents(disk, fd.inodeNum), fd.pos, n)
    case Some(Directory) => NameRead(Names(disk), fd.pos, n)
    case _ => []
  }

  /** The bytes it stores, which for a directory are two more. */
  ghost function Payload(disk: seq<Byte>, fd: Fd, n: nat): seq<Byte>
    requires WellFormed(disk)
  {
    match fd.fops
    case Some(File) => Slice(Contents(disk, fd.inodeNum), fd.pos, n)
    case Some(Directory) => NameStored(Names(disk), fd.pos, n)
    case _ => []
  }

  /** Descriptor k has delivered `data`: a file moves by its length, a directory by one. */
  ghost function Advanced(s: State, k: (nat, nat), data: seq<Byte>): State
    requires k in s.files && k in s.delivered
  {
    var fd, d := s.files[k], s.delivered[k];
    s.(files := s.files[k := fd.(pos := if fd.fops == Some(File) then fd.pos + |data|
                                         else if fd.fops == Some(Directory) then (fd.pos + 1) % TWO_32
                                         else fd.pos)],
       delivered := s.delivered[k := Delivered(d.bytes + data, d.calls + 1)])
  }

  lemma AdvancedPosition(disk: seq<Byte>, fd: Fd, d: Delivered, n: nat)
    requires WellFormed(disk) && PositionOk(disk, fd, d) && fd.fops == Some(File)
    ensures var data := Slice(Contents(disk, fd.inodeNum), fd.pos, n);
            PositionOk(disk, fd.(pos := fd.pos + |data|), Delivered(d.bytes + data, d.calls + 1))
  {
    var file := Contents(disk, fd.inodeNum);
    SlicesJoin(file, 0, fd.pos, n);
  }

  lemma WrapCounts(calls: nat)
    ensures (calls % TWO_32 + 1) % TWO_32 == (calls + 1) % TWO_32
  {
  }

  lemma AdvancedKeeps(disk: seq<Byte>, s: State, k: (nat, nat), n: nat)
    requires WellFormed(disk) && Inv(disk, s) && k.0 in s.live && k in s.files && s.files[k].live
    ensures Inv(disk, Advanced(s, k, Returned(disk, s.files[k], n)))
  {
    var s' := Advanced(s, k, Returned(disk, s.files[k], n));
    assert Holders(s') == Holders(s);
    assert TablesOk(s');
    assert PositionOk(disk, s'.files[k], s'.delivered[k]) by {
      if s.files[k].fops == Some(File) {
        AdvancedPosition(disk, s.files[k], s.delivered[k], n);
      } else {
        WrapCounts(s.delivered[k].calls);
      }
    }
  }

  /** What a live file descriptor has returned since it was opened, whatever the sizes of
      the reads, is a prefix of the file; a read falls short only at the end of it. */
  lemma ReadsFollowFile(disk: seq<Byte>, s: State, k: (nat, nat), n: nat)
    requires WellFormed(disk) && Inv(disk, s) && k.0 in s.live && k in s.files && s.files[k].live
    requires s.files[k].fops == Some(File)
    ensures var file, had := Contents(disk, s.files[k].inodeNum), s.delivered[k].bytes;
            var data := Returned(disk, s.files[k], n);
            && had <= file && had + data <= file
            && (|data| < n ==> had + data == file)
  {
    var file := Contents(disk, s.files[k].inodeNum);
    SlicesJoin(file, 0, s.files[k].pos, n);
  }

  /** The read after `calls` others on an open directory returns that entry's name, cut to
      the request, and nothing once past the last entry: exactly until the 32-bit position
      wraps, or for reads that return nothing anyway. */
  lemma ReadsListDirectory(disk: seq<Byte>, s: State, k: (nat, nat), n: nat)
    requires WellFormed(disk) && Inv(disk, s) && k.0 in s.live && k in s.files && s.files[k].live
    requires s.files[k].fops == Some(Directory)
    ensures var calls, data := s.delivered[k].calls, Returned(disk, s.files[k], n);
            && data == NameRead(Names(disk), calls % TWO_32, n)
            && (data == NameRead(Names(disk), calls, n)
                <==> calls < TWO_32 || NameRead(Names(disk), calls % TWO_32, n) == [])
  {
    assert PositionOk(disk, s.files[k], s.delivered[k]);
    if s.delivered[k].calls < TWO_32 { SmallModulus(s.delivered[k].calls); }
  }

  /** After 2^32 reads the directory starts again with its first name. */
  lemma DirectoryWraps(disk: seq<Byte>, s: State, k: (nat, nat), n: nat)
    requires WellFormed(disk) && Inv(disk, s) && k.0 in s.live && k in s.files && s.files[k].live
    requires s.files[k].fops == Some(Directory) && s.delivered[k].calls == TWO_32
    ensures Returned(disk, s.files[k], n) == NameRead(Names(disk), 0, n)
    ensures EntryCount(disk) > 0 && Names(disk)[0] != [] && n > 0 ==>
              Returned(disk, s.files[k], n) != NameRead(Names(disk), s.delivered[k].calls, n)
  {
    ReadsListDirectory(disk, s, k, n);
    assert TWO_32 % TWO_32 == 0;
  }

  lemma SmallModulus(x: nat)
    requires x < TWO_32
    ensures x % TWO_32 == x
  {
  }

  /** Only counters differ: what ticks of the clock, and a wait on it, change. */
  ghost predicate SameButCounts(c: Rtc.Clock, c': Rtc.Clock) {
    && c' == c.(procs := c'.procs) && |c'.procs| == |c.procs|
    && forall p :: 0 <= p < |c.procs| ==> c'.procs[p] == c.procs[p].(currCount := c'.procs[p].currCount)
  }

  lemma TicksKeep(disk: seq<Byte>, s: State, c': Rtc.Clock)
    requires WellFormed(disk) && Inv(disk, s) && SameButCounts(s.clock, c')
    ensures Inv(disk, s.(clock := c'))
  {
    assert Holders(s.(clock := c')) == Holders(s);
  }

  lemma RateWrittenKeeps(disk: seq<Byte>, s: State, k: (nat, nat), rate: int)
    requires WellFormed(disk) && Inv(disk, s) && k in Holders(s) && INT_MIN <= rate < -INT_MIN
    ensures Inv(disk, s.(clock := Rtc.Written(s.clock, k.0, rate)))
  {
    assert (k.0, k.1) in Holders(s);
    Rtc.WriteCoherent(s.clock, Holders(s), k.0, rate);
    assert Holders(s.(clock := Rtc.Written(s.clock, k.0, rate))) == Holders(s);
  }

  // ----- processes come and go -----

  /** A fresh table: two terminals, six free entries. */
  ghost function FreshFd(number: nat, was: Fd): Fd {
    if number < 2 then Fd(Some(Terminal), was.inodeNum, 0, true) else Fd(None, was.inodeNum, 0, false)
  }

  ghost function Created(s: State, p: nat): State {
    s.(live := s.live + {p},
       files := map k | k in s.files :: if k.0 == p then FreshFd(k.1, s.files[k]) else s.files[k],
       delivered := map k | k in s.delivered.Keys + s.files.Keys ::
                      if k.0 == p || k !in s.delivered then Delivered([], 0) else s.delivered[k])
  }

  lemma CreatedKeeps(disk: seq<Byte>, s: State, p: nat)
    requires WellFormed(disk) && Inv(disk, s) && p !in s.live && p < |s.clock.procs|
    requires forall f: nat :: f < FILE_ARRAY_LEN ==> (p, f) in s.files
    ensures Inv(disk, Created(s, p))
  {
    var s' := Created(s, p);
    assert Holders(s') == Holders(s);
    assert TablesOk(s');
  }

  /** The clock after process p's first n descriptors have been closed. */
  ghost function ClosedFirst(s: State, p: nat, n: nat): (c: Rtc.Clock)
    requires p < |s.clock.procs| && Rtc.NonZeroRates(s.clock.procs)
    requires forall f: nat :: f < n ==> (p, f) in s.files
    ensures |c.procs| == |s.clock.procs| && Rtc.NonZeroRates(c.procs)
  {
    if n == 0 then s.clock else
      var fd, c := s.files[(p, n - 1)], ClosedFirst(s, p, n - 1);
      if fd.live && fd.fops == Some(Clock) then Rtc.Closed(c, p) else c
  }

  /** Process p is gone and its descriptors are closed; its table stays as it was. */
  ghost function Destroyed(s: State, p: nat): State
    requires p < |s.clock.procs| && Rtc.NonZeroRates(s.clock.procs)
    requires forall f: nat :: f < FILE_ARRAY_LEN ==> (p, f) in s.files
  {
    s.(live := s.live - {p}, clock := ClosedFirst(s, p, FILE_ARRAY_LEN))
  }

  ghost function HoldersBut(s: State, p: nat, n: nat): set<(nat, nat)> {
    set k | k in Holders(s) && (k.0 != p || k.1 >= n)
  }

  lemma {:induction false} ClosedFirstCoherent(s: State, p: nat, n: nat)
    requires ClockOk(s) && p in s.live && forall f: nat :: f < n ==> (p, f) in s.files
    ensures Rtc.Coherent(ClosedFirst(s, p, n), HoldersBut(s, p, n))
  {
    if n == 0 {
      assert HoldersBut(s, p, 0) == Holders(s);
    } else {
      ClosedFirstCoherent(s, p, n - 1);
      var k := (p, n - 1);
      var before := HoldersBut(s, p, n - 1);
      if k in Holders(s) {
        assert HoldersBut(s, p, n) == before - {k};
        Rtc.CloseCoherent(ClosedFirst(s, p, n - 1), before, p, n - 1);
      } else {
        assert HoldersBut(s, p, n) == before;
      }
    }
  }

  lemma DestroyedKeeps(disk: seq<Byte>, s: State, p: nat)
    requires WellFormed(disk) && Inv(disk, s) && p in s.live
    requires forall k :: k in s.files ==> k.1 < FILE_ARRAY_LEN
    ensures p < |s.clock.procs| && Rtc.NonZeroRates(s.clock.procs) && Inv(disk, Destroyed(s, p))
  {
    var s' := Destroyed(s, p);
    ClosedFirstCoherent(s, p, FILE_ARRAY_LEN);
    assert HoldersBut(s, p, FILE_ARRAY_LEN) == Holders(s');
    assert TablesOk(s');
  }

  // ----- whole runs -----

  datatype Call =
    | COpen(k: (nat, nat), fops: Option<Device>, inodeNum: nat)
    | CClose(k: (nat, nat))
    | CRead(k: (nat, nat), n: nat)
    | CSetRate(k: (nat, nat), rate: int)
    | CTick(clock: Rtc.Clock)
    | CCreate(p: nat)
    | CDestroy(p: nat)

  ghost predicate LiveFd(s: State, k: (nat, nat)) {
    k.0 in s.live && k in s.files && s.files[k].live
  }

  ghost predicate Enabled(s: State, c: Call) {
    match c
    case COpen(k, fops, _) => k.0 in s.live && k in s.files && 2 <= k.1 && !s.files[k].live && fops.Some?
    case CClose(k) => LiveFd(s, k) && 2 <= k.1
    case CRead(k, _) => LiveFd(s, k)
    case CSetRate(k, rate) => k in Holders(s) && INT_MIN <= rate < -INT_MIN
    case CTick(clock) => SameButCounts(s.clock, clock)
    case CCreate(p) => p !in s.live && p < |s.clock.procs|
    case CDestroy(p) => p in s.live
  }

  ghost predicate FullTables(s: State) {
    forall p, f: nat :: (p, f) in s.files <==> p < |s.clock.procs| && f < FILE_ARRAY_LEN
  }

  ghost function Next(disk: seq<Byte>, s: State, c: Call): State
    requires WellFormed(disk) && Inv(disk, s) && FullTables(s) && Enabled(s, c)
  {
    match c
    case COpen(k, fops, inodeNum) => Installed(s, k, fops, inodeNum)
    case CClose(k) => ReleasedKeeps(disk, s, k); Released(s, k)
    case CRead(k, n) => Advanced(s, k, Returned(disk, s.files[k], n))
    case CSetRate(k, rate) => s.(clock := Rtc.Written(s.clock, k.0, rate))
    case CTick(clock) => s.(clock := clock)
    case CCreate(p) => Created(s, p)
    case CDestroy(p) => DestroyedKeeps(disk, s, p); Destroyed(s, p)
  }

  lemma NextKeeps(disk: seq<Byte>, s: State, c: Call)
    requires WellFormed(disk) && Inv(disk, s) && FullTables(s) && Enabled(s, c)
    ensures Inv(disk, Next(disk, s, c)) && FullTables(Next(disk, s, c))
  {
    match c
    case COpen(k, fops, inodeNum) => InstalledKeeps(disk, s, k, fops, inodeNum);
    case CClose(k) => ReleasedKeeps(disk, s, k);
    case CRead(k, n) => AdvancedKeeps(disk, s, k, n);
    case CSetRate(k, rate) => RateWrittenKeeps(disk, s, k, rate);
    case CTick(clock) => TicksKeep(disk, s, clock);
    case CCreate(p) => CreatedKeeps(disk, s, p);
    case CDestroy(p) => DestroyedKeeps(disk, s, p);
  }

  /** `calls` lead from state s to state `last`. */
  ghost predicate Run(disk: seq<Byte>, s: State, calls: seq<Call>, last: State)
    requires WellFormed(disk) && Inv(disk, s) && FullTables(s)
    decreases |calls|
  {
    if calls == [] then last == s
    else Enabled(s, calls[0]) && (NextKeeps(disk, s, calls[0]); Run(disk, Next(disk, s, calls[0]), calls[1..], last))
  }

  /** Over every interleaving of calls of all processes: 0 and 1 stay terminals, free
      descriptors are at position 0, positions are what was delivered, and the clock's
      reference count, rates and interrupts agree with the live descriptors. */
  lemma {:induction false} RunsKeep(disk: seq<Byte>, s: State, calls: seq<Call>, last: State)
    requires WellFormed(disk) && Inv(disk, s) && FullTables(s) && Run(disk, s, calls, last)
    ensures Inv(disk, last) && FullTables(last)
    decreases |calls|
  {
    if calls != [] {
      NextKeeps(disk, s, calls[0]);
      RunsKeep(disk, Next(disk, s, calls[0]), calls[1..], last);
    }
  }

  /** So after every interleaving, what an open file has returned is a prefix of the file
      that the next read extends, short only at its end, and an open directory goes on to
      the next name, until its position wraps. */
  lemma RunsDeliver(disk: seq<Byte>, s: State, calls: seq<Call>, last: State, k: (nat, nat), n: nat)
    requires WellFormed(disk) && Inv(disk, s) && FullTables(s) && Run(disk, s, calls, last)
    requires LiveFd(last, k) && k in last.delivered
    ensures last.files[k].fops == Some(File) ==>
              var file, had := Contents(disk, last.files[k].inodeNum), last.delivered[k].bytes;
              var data := Returned(disk, last.files[k], n);
              had + data <= file && last.files[k].pos == |had| && (|data| < n ==> had + data == file)
    ensures last.files[k].fops == Some(Directory) ==>
              var calls := last.delivered[k].calls;
              (Returned(disk, last.files[k], n) == NameRead(Names(disk), calls, n)
               <==> calls < TWO_32 || NameRead(Names(disk), calls % TWO_32, n) == [])
  {
    RunsKeep(disk, s, calls, last);
    if last.files[k].fops == Some(File) {
      ReadsFollowFile(disk, last, k, n);
      assert PositionOk(disk, last.files[k], last.delivered[k]);
    } else if last.files[k].fops == Some(Directory) {
      ReadsListDirectory(disk, last, k, n);
    }
  }

  // ----- the kernel's tables -----

  lemma EntryHasDevice(disk: seq<Byte>, name: seq<Byte>)
    requires WellFormed(disk) && TypesKnown(disk) && EntryNamed(disk, name).Some?
    ensures |EntryNamed(disk, name).value| == 64
    ensures DeviceOf(EntryType(EntryNamed(disk, name).value)).Some?
  {
  }

  ghost predicate RateWritten(was: Rtc.Clock, now: Rtc.Clock, p: nat, rate: int) {
    && INT_MIN <= rate < -INT_MIN && p < |was.procs| && Rtc.NonZeroRates(was.procs)
    && now == Rtc.Written(was, p, rate)
  }

  lemma NobodyLive(disk: seq<Byte>, s: State)
    requires WellFormed(disk) && s.live == {} && Rtc.Coherent(s.clock, {})
    ensures Inv(disk, s)
  {
    assert Holders(s) == {};
  }

  class Tables {
    const disk: seq<Byte>
    const live: array<bool>
    const files: array2<Fd>
    const rtc: Rtc.Driver
    ghost var delivered: map<(nat, nat), Delivered>

    ghost predicate Shape() {
      && WellFormed(disk) && TypesKnown(disk)
      && files.Length0 == live.Length == rtc.procs.Length
      && files.Length1 == FILE_ARRAY_LEN
    }

    ghost function Files(): map<(nat, nat), Fd>
      reads files
    {
      map p: nat, f: nat | p < files.Length0 && f < files.Length1 :: (p, f) := files[p, f]
    }

    ghost function Live(): set<nat>
      reads live
    {
      set p: nat | p < live.Length && live[p]
    }

    ghost function View(): State
      reads this, live, files, rtc, rtc.procs
    {
      State(Live(), Files(), rtc.View(), delivered)
    }

    ghost predicate Valid()
      reads this, live, files, rtc, rtc.procs
    {
      Shape() && Inv(disk, View())
    }

    constructor (disk: seq<Byte>, processes: nat, selector: nat)
      requires WellFormed(disk) && TypesKnown(disk)
      ensures Valid() && this.disk == disk && live.Length == processes && Live() == {}
      ensures fresh(live) && fresh(files) && fresh(rtc) && fresh(rtc.procs)
    {
      this.disk := disk;
      live := new bool[processes](_ => false);
      files := new Fd[processes, FILE_ARRAY_LEN]((_, _) => Fd(None, 0, 0, false));
      rtc := new Rtc.Driver(processes, selector);
      delivered := map[];
      new;
      hide Inv, Rtc.Coherent;
      assert Live() == {};
      Rtc.FreshCoherent(processes, selector);
      NobodyLive(disk, View());
    }

    method SetFd(p: nat, f: nat, fd: Fd)
      requires p < files.Length0 && f < files.Length1
      modifies files
      ensures Files() == old(Files())[(p, f) := fd]
    {
      files[p, f] := fd;
    }

    /** The lowest free descriptor from 2 up. */
    method FindFree(p: nat) returns (fd: int)
      requires p < files.Length0 && files.Length1 == FILE_ARRAY_LEN
      ensures fd == -1 ==> forall g: nat :: 2 <= g < 8 ==> Files()[(p, g)].live
      ensures fd != -1 ==> 2 <= fd < 8 && !Files()[(p, fd as nat)].live
                           && forall g: nat :: 2 <= g < fd ==> Files()[(p, g)].live
    {
      for i := 2 to FILE_ARRAY_LEN
        invariant forall g: nat :: 2 <= g < i ==> files[p, g].live
      {
        if !files[p, i].live {
          return i;
        }
      }
      return -1;
    }

    /** It fails exactly when no descriptor is free or no entry has the name, and then
        changes nothing; otherwise the lowest free descriptor goes live. */
    method Open(p: nat, fname: seq<Byte>) returns (fd: int)
      requires Valid() && p in Live() && NUL in fname
      modifies this, files, rtc
      ensures Valid()
      ensures fd == -1 <==> EntryNamed(disk, CString(fname)).None?
                            || forall g: nat :: 2 <= g < 8 ==> old(Files())[(p, g)].live
      ensures fd == -1 ==> View() == old(View())
      ensures fd != -1 ==>
                && 2 <= fd < 8 && !old(Files())[(p, fd as nat)].live
                && (forall g: nat :: 2 <= g < fd ==> old(Files())[(p, g)].live)
                && var e := EntryNamed(disk, CString(fname)).value;
                   var fops := DeviceOf(EntryType(e));
                   var inodeNum := if fops == Some(Terminal) then old(Files())[(p, fd as nat)].inodeNum else EntryInode(e);
                   View() == Installed(old(View()), (p, fd as nat), fops, inodeNum)
    {
      fd := FindFree(p);
      var dentry := ReadDentryByName(disk, fname);
      if fd == -1 || dentry.None? {
        return -1;
      }
      EntryHasDevice(disk, CString(fname));
      var fops := DeviceOf(EntryType(dentry.value));
      var inodeNum := if fops == Some(Terminal) then files[p, fd].inodeNum else EntryInode(dentry.value);
      InstalledKeeps(disk, View(), (p, fd as nat), fops, inodeNum);
      Install(p, fd, fops, inodeNum);
    }

    method Install(p: nat, fd: nat, fops: Option<Device>, inodeNum: nat)
      requires p < files.Length0 && fd < files.Length1
      modifies this, files, rtc
      ensures View() == Installed(old(View()), (p, fd), fops, inodeNum)
    {
      SetFd(p, fd, Fd(fops, inodeNum, files[p, fd].pos, true));
      delivered := delivered[(p, fd) := Delivered([], 0)];
      if fops == Some(Clock) {
        rtc.Open();
      }
    }

    method Release(p: nat, fd: nat)
      requires p < files.Length0 && fd < files.Length1 && p < rtc.procs.Length
      requires Rtc.NonZeroRates(rtc.procs[..])
      modifies files, rtc, rtc.procs
      ensures View() == Released(old(View()), (p, fd))
    {
      if files[p, fd].fops == Some(Clock) {
        rtc.Close(p);
      }
      SetFd(p, fd, Fd(None, files[p, fd].inodeNum, 0, false));
    }

    method Close(p: nat, fd: int) returns (r: int)
      requires Valid() && p in Live()
      modifies files, rtc, rtc.procs
      ensures Valid()
      ensures r == 0 <==> 2 <= fd < 8 && old(files[p, fd].live)
      ensures r == 0 ==> GaveBack(old(View()), View(), (p, fd as nat))
      ensures r != 0 ==> r == -1 && View() == old(View())
    {
      if fd < 2 || fd >= FILE_ARRAY_LEN {
        return -1;
      }
      if !files[p, fd].live {
        return -1;
      }
      ReleasedKeeps(disk, View(), (p, fd as nat));
      Release(p, fd);
      return 0;
    }

    method AdvanceFile(p: nat, fd: nat, buf: array<Byte>, at: nat, n: nat) returns (count: nat)
      requires p < files.Length0 && fd < files.Length1 && (p, fd) in delivered
      requires WellFormed(disk) && files[p, fd].fops == Some(File)
      requires files[p, fd].pos < TWO_32 && n < TWO_32
      requires at + |Returned(disk, files[p, fd], n)| <= buf.Length
      modifies this, files, buf
      ensures var data := Returned(disk, old(files[p, fd]), n);
              && count == |data| && Stored(old(buf[..]), buf[..], at, data)
              && View() == Advanced(old(View()), (p, fd), data)
    {
      hide Slice, Contents, Stored, WellFormed;
      ghost var data := Returned(disk, files[p, fd], n);
      count := ReadData(disk, files[p, fd].inodeNum, files[p, fd].pos, buf, at, n);
      SetFd(p, fd, files[p, fd].(pos := files[p, fd].pos + count));
      delivered := delivered[(p, fd) := Delivered(delivered[(p, fd)].bytes + data, delivered[(p, fd)].calls + 1)];
    }

    method AdvanceDirectory(p: nat, fd: nat, buf: array<Byte>, at: nat, n: nat) returns (count: nat)
      requires p < files.Length0 && fd < files.Length1 && (p, fd) in delivered
      requires WellFormed(disk) && files[p, fd].fops == Some(Directory)
      requires at + |Payload(disk, files[p, fd], n)| <= buf.Length
      modifies this, files, buf
      ensures var data := Returned(disk, old(files[p, fd]), n);
              && count == |data| && Stored(old(buf[..]), buf[..], at, Payload(disk, old(files[p, fd]), n))
              && View() == Advanced(old(View()), (p, fd), data)
    {
      hide NameRead, NameStored, Names, Stored, WellFormed;
      ghost var data := Returned(disk, files[p, fd], n);
      count := ReadDirectoryEntry(disk, files[p, fd].pos, buf, at, n);
      SetFd(p, fd, files[p, fd].(pos := (files[p, fd].pos + 1) % TWO_32));
      delivered := delivered[(p, fd) := Delivered(delivered[(p, fd)].bytes + data, delivered[(p, fd)].calls + 1)];
    }

    method WaitClock(p: nat, fd: nat) returns (r: nat)
      requires p < files.Length0 && fd < files.Length1 && (p, fd) in delivered
      requires WellFormed(disk) && files[p, fd].fops == Some(Clock)
      requires p < rtc.procs.Length && 0 <= rtc.procs[p].maxCount <= Rtc.RATE_MAX
      modifies this, files, rtc.procs
      ensures r == 0
      ensures View() == Advanced(old(View()), (p, fd), []).(clock := rtc.View())
      ensures SameButCounts(old(rtc.View()), rtc.View())
    {
      var ticks := rtc.Read(p);
      delivered := delivered[(p, fd) := Delivered(delivered[(p, fd)].bytes + [], delivered[(p, fd)].calls + 1)];
      assert Files() == old(Files())[(p, fd) := old(Files())[(p, fd)]];
      r := 0;
    }

    /** A read from a file, a directory or the clock. */
    method Read(p: nat, fd: int, buf: array<Byte>, at: nat, nbytes: int) returns (r: int)
      requires Valid() && p in Live() && INT_MIN <= nbytes < -INT_MIN
      requires 0 <= fd < 8 && fd != 1 && Files()[(p, fd as nat)].live ==>
                 && Files()[(p, fd as nat)].fops != Some(Terminal)
                 && at + |Payload(disk, Files()[(p, fd as nat)], Unsigned(nbytes))| <= buf.Length
      modifies this, files, rtc.procs, buf
      ensures Valid()
      ensures r == -1 <==> !(0 <= fd < 8 && fd != 1 && old(Files())[(p, fd as nat)].live)
      ensures r == -1 ==> View() == old(View()) && buf[..] == old(buf[..])
      ensures r != -1 ==>
                var was := old(Files())[(p, fd as nat)];
                var data := Returned(disk, was, Unsigned(nbytes));
                && r == |data|
                && Stored(old(buf[..]), buf[..], at, Payload(disk, was, Unsigned(nbytes)))
                && View() == Advanced(old(View()), (p, fd as nat), data).(clock := rtc.View())
                && SameButCounts(old(rtc.View()), rtc.View())
                && (was.fops != Some(Clock) ==> rtc.View() == old(rtc.View()))
    {
      if fd < 0 || fd == 1 || fd >= FILE_ARRAY_LEN {
        return -1;
      }
      if !files[p, fd].live {
        return -1;
      }
      r := ReadLive(p, fd, buf, at, Unsigned(nbytes));
    }

    method ReadLive(p: nat, fd: nat, buf: array<Byte>, at: nat, n: nat) returns (r: nat)
      requires Valid() && p in Live() && fd < 8 && Files()[(p, fd)].live && n < TWO_32
      requires Files()[(p, fd)].fops != Some(Terminal)
      requires at + |Payload(disk, Files()[(p, fd)], n)| <= buf.Length
      modifies this, files, rtc.procs, buf
      ensures Valid()
      ensures var was := old(Files())[(p, fd)];
              var data := Returned(disk, was, n);
              && r == |data|
              && Stored(old(buf[..]), buf[..], at, Payload(disk, was, n))
              && View() == Advanced(old(View()), (p, fd), data).(clock := rtc.View())
              && SameButCounts(old(rtc.View()), rtc.View())
              && (was.fops != Some(Clock) ==> rtc.View() == old(rtc.View()))
    {
      ReadReady(disk, View(), (p, fd), n);
      r := ReadDevice(p, fd, buf, at, n);
    }

    method ReadDevice(p: nat, fd: nat, buf: array<Byte>, at: nat, n: nat) returns (r: nat)
      requires p < files.Length0 && fd < files.Length1 && (p, fd) in delivered && WellFormed(disk)
      requires files[p, fd].fops.Some? && files[p, fd].fops != Some(Terminal)
      requires n < TWO_32 && (files[p, fd].fops == Some(File) ==> files[p, fd].pos < TWO_32)
      requires at + |Payload(disk, files[p, fd], n)| <= buf.Length
      requires p < rtc.procs.Length && 0 <= rtc.procs[p].maxCount <= Rtc.RATE_MAX
      modifies this, files, rtc.procs, buf
      ensures var was := old(files[p, fd]);
              var data := Returned(disk, was, n);
              && r == |data|
              && Stored(old(buf[..]), buf[..], at, Payload(disk, was, n))
              && View() == Advanced(old(View()), (p, fd), data).(clock := rtc.View())
              && SameButCounts(old(rtc.View()), rtc.View())
              && (was.fops != Some(Clock) ==> rtc.View() == old(rtc.View()))
    {
      if files[p, fd].fops == Some(File) {
        r := AdvanceFile(p, fd, buf, at, n);
      } else if files[p, fd].fops == Some(Directory) {
        r := AdvanceDirectory(p, fd, buf, at, n);
      } else {
        r := WaitClock(p, fd);
      }
    }

    /** A write to a file, a directory or the clock; `value` is the 32-bit number in the
        buffer, None a null buffer.  Only the clock takes one: its new rate. */
    method Write(p: nat, fd: int, value: Option<int>) returns (r: int)
      requires Valid() && p in Live()
      requires value.Some? ==> INT_MIN <= value.value < -INT_MIN
      requires 0 < fd < 8 && files[p, fd].live ==> files[p, fd].fops != Some(Terminal)
      modifies rtc, rtc.procs
      ensures Valid()
      ensures r == 1 <==> && 0 < fd < 8 && files[p, fd].live && files[p, fd].fops == Some(Clock)
                          && value.Some? && Rtc.Accepts(value.value)
      ensures r == 1 ==> RateWritten(old(rtc.View()), rtc.View(), p, value.value)
      ensures r != 1 ==> r == -1 && rtc.View() == old(rtc.View())
    {
      if fd <= 0 || fd >= FILE_ARRAY_LEN {
        return -1;
      }
      if !files[p, fd].live || files[p, fd].fops != Some(Clock) || value.None? {
        return -1;
      }
      WriteReady(disk, View(), (p, fd as nat), value.value);
      r := WriteClock(p, value.value);
    }

    method WriteClock(p: nat, rate: int) returns (r: int)
      requires INT_MIN <= rate < -INT_MIN && p < rtc.procs.Length && Rtc.NonZeroRates(rtc.procs[..])
      modifies rtc, rtc.procs
      ensures View() == old(View()).(clock := Rtc.Written(old(rtc.View()), p, rate))
      ensures r == if Rtc.Accepts(rate) then 1 else -1
    {
      r := rtc.Write(p, rate);
    }

    /** An interrupt of the clock. */
    method Tick()
      requires Valid()
      modifies rtc.procs
      ensures Valid() && SameButCounts(old(rtc.View()), rtc.View())
    {
      ghost var s := View();
      rtc.Handler();
      TicksKeep(disk, s, rtc.View());
    }

    /** The table of a process that execute has just made. */
    method Create(p: nat)
      requires Valid() && p < live.Length && p !in Live()
      modifies this, live, files
      ensures Valid() && View() == Created(old(View()), p)
    {
      CreatedKeeps(disk, View(), p);
      MakeLive(p);
    }

    method MakeLive(p: nat)
      requires p < live.Length && p < files.Length0 && files.Length1 == FILE_ARRAY_LEN
      modifies this, live, files
      ensures View() == Created(old(View()), p)
    {
      FillTable(p);
      live[p] := true;
      delivered := Created(old(View()), p).delivered;
      assert Live() == old(Live()) + {p};
    }

    method FillTable(p: nat)
      requires p < files.Length0 && files.Length1 == FILE_ARRAY_LEN
      modifies files
      ensures Files() == map k | k in old(Files()) ::
                           if k.0 == p then FreshFd(k.1, old(Files())[k]) else old(Files())[k]
    {
      files[p, 0] := Fd(Some(Terminal), files[p, 0].inodeNum, 0, true);
      files[p, 1] := Fd(Some(Terminal), files[p, 1].inodeNum, 0, true);
      for i := 2 to FILE_ARRAY_LEN
        invariant forall q, g :: 0 <= q < files.Length0 && 0 <= g < FILE_ARRAY_LEN ==>
                    files[q, g] == if q == p && g < i then FreshFd(g, old(files[q, g])) else old(files[q, g])
      {
        files[p, i] := Fd(None, files[p, i].inodeNum, 0, false);
      }
    }

    /** The part of halt that frees the process and closes its descriptors, in order. */
    method Destroy(p: nat)
      requires Valid() && p in Live()
      modifies live, rtc, rtc.procs
      ensures Valid() && View() == Destroyed(old(View()), p)
    {
      DestroyedKeeps(disk, View(), p);
      EndProcess(p);
    }

    method EndProcess(p: nat)
      requires p < live.Length && p < files.Length0 && files.Length1 == FILE_ARRAY_LEN
      requires p < rtc.procs.Length && Rtc.NonZeroRates(rtc.procs[..])
      modifies live, rtc, rtc.procs
      ensures View() == Destroyed(old(View()), p)
    {
      ghost var s := View();
      live[p] := false;
      assert Live() == old(Live()) - {p};
      CloseAll(p, s);
    }

    method CloseAll(p: nat, ghost s: State)
      requires p < files.Length0 && files.Length1 == FILE_ARRAY_LEN
      requires s.files == Files() && s.clock == rtc.View()
      requires p < rtc.procs.Length && Rtc.NonZeroRates(rtc.procs[..])
      modifies rtc, rtc.procs
      ensures rtc.View() == ClosedFirst(s, p, FILE_ARRAY_LEN)
    {
      hide Rtc.Closed;
      for i := 0 to FILE_ARRAY_LEN
        invariant rtc.View() == ClosedFirst(s, p, i)
      {
        assert s.files[(p, i as nat)] == files[p, i];
        if files[p, i].live && files[p, i].fops == Some(Clock) {
          rtc.Close(p);
        }
      }
    }
  }

  lemma WriteReady(disk: seq<Byte>, s: State, k: (nat, nat), rate: int)
    requires WellFormed(disk) && Inv(disk, s) && k.0 in s.live && k in s.files && s.files[k].live
    requires s.files[k].fops == Some(Clock) && INT_MIN <= rate < -INT_MIN
    ensures k.0 < |s.clock.procs| && Rtc.NonZeroRates(s.clock.procs)
    ensures Inv(disk, s.(clock := Rtc.Written(s.clock, k.0, rate)))
  {
    RateWrittenKeeps(disk, s, k, rate);
  }

  lemma ReadReady(disk: seq<Byte>, s: State, k: (nat, nat), n: nat)
    requires WellFormed(disk) && Inv(disk, s) && k.0 in s.live && k in s.files && s.files[k].live
    ensures k in s.delivered && s.files[k].fops.Some?
    ensures s.files[k].fops == Some(File) ==> s.files[k].pos < TWO_32
    ensures k.0 < |s.clock.procs| && 0 <= s.clock.procs[k.0].maxCount <= Rtc.RATE_MAX
    ensures Inv(disk, Advanced(s, k, Returned(disk, s.files[k], n)))
    ensures forall c' :: SameButCounts(s.clock, c') ==>
                           Inv(disk, Advanced(s, k, Returned(disk, s.files[k], n)).(clock := c'))
  {
    var s' := Advanced(s, k, Returned(disk, s.files[k], n));
    AdvancedKeeps(disk, s, k, n);
    forall c' | SameButCounts(s.clock, c')
      ensures Inv(disk, s'.(clock := c'))
    {
      TicksKeep(disk, s', c');
    }
  }
}
