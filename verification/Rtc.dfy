/** The real-time clock, shared by all processes: one hardware rate, a power of
    two, serves per-process rates by counting interrupts. */
module Rtc {
  import opened Bytes

  const RATE_MIN: int := 2
  const RATE_MAX: int := 1024
  const RATE_DEFAULT: nat := 15
  const RTC_ABS_MAX: nat := 32768

  // ----- powers of two and the mask test -----

  ghost predicate IsPow2(n: nat) {
    exists k: nat :: n == Pow2(k)
  }

  /** Bitwise and of two non-negative numbers. */
  function BitAnd(a: nat, b: nat): nat {
    if a == 0 || b == 0 then 0 else (a % 2) * (b % 2) + 2 * BitAnd(a / 2, b / 2)
  }

  /** 32-bit signed decrement, with its wrap-around. */
  function Decrement(x: int): int {
    if x == INT_MIN then -INT_MIN - 1 else x - 1
  }

  function TickedDown(x: int, ticks: nat): int {
    if ticks == 0 then x else Decrement(TickedDown(x, ticks - 1))
  }

  /** C's signed division by a non-zero divisor, which truncates. */
  function CDiv(a: nat, b: int): int
    requires b != 0
  {
    if b > 0 then a / b else -(a / -b)
  }

  /** The guards of rtc_write: in range, and `rate & (rate - 1)` is zero. */
  predicate Accepts(rate: int)
    requires INT_MIN <= rate < -INT_MIN
  {
    rate != 0 && rate <= RATE_MAX && BitAnd(Unsigned(rate), Unsigned(Decrement(rate))) == 0
  }

  lemma {:induction false} BitAndSelf(a: nat)
    ensures BitAnd(a, a) == a
  {
    if a > 0 {
      BitAndSelf(a / 2);
    }
  }

  lemma Pow2Halves(n: nat)
    requires n > 1
    ensures IsPow2(n) <==> n % 2 == 0 && IsPow2(n / 2)
  {
    if IsPow2(n) {
      var k: nat :| n == Pow2(k);
      assert n == 2 * Pow2(k - 1);
      assert n / 2 == Pow2(k - 1);
    }
    if n % 2 == 0 && IsPow2(n / 2) {
      var k: nat :| n / 2 == Pow2(k);
      assert n == Pow2(k + 1);
    }
  }

  /** The mask test is right for every positive number, of any size. */
  lemma {:induction false} MaskDetectsPowers(n: nat)
    requires n > 0
    ensures BitAnd(n, n - 1) == 0 <==> IsPow2(n)
  {
    if n == 1 {
      assert Pow2(0) == 1;
    } else {
      var h := n / 2;
      Pow2Halves(n);
      if n % 2 == 0 {
        assert BitAnd(n, n - 1) == 2 * BitAnd(h, h - 1) by { assert (n - 1) / 2 == h - 1; }
        MaskDetectsPowers(h);
      } else {
        assert BitAnd(n, n - 1) == 2 * BitAnd(h, h) by { assert (n - 1) / 2 == h; }
        BitAndSelf(h);
      }
    }
  }

  lemma {:induction false} Pow2Increases(j: nat, k: nat)
    requires j <= k
    ensures Pow2(j) <= Pow2(k)
  {
    if j < k {
      Pow2Increases(j, k - 1);
    }
  }

  /** rtc_write accepts the powers of two from 1 to 1024 and, since its range check
      is signed and its mask test is not, the most negative number; nothing else. */
  lemma AcceptedRates(rate: int)
    requires INT_MIN <= rate < -INT_MIN
    ensures Accepts(rate) <==> rate == -0x8000_0000 || (0 < rate <= 1024 && IsPow2(rate))
  {
    if rate > 0 {
      MaskDetectsPowers(rate);
    } else if rate < 0 {
      var u := Unsigned(rate);
      assert Unsigned(Decrement(rate)) == u - 1;
      MaskDetectsPowers(u);
      Pow2At31();
      if IsPow2(u) {
        var k: nat :| u == Pow2(k);
        if k > 31 { Pow2Increases(32, k); }
        if k < 31 { Pow2Increases(k, 30); }
      }
    }
  }

  lemma Pow2At31()
    ensures Pow2(30) == 0x4000_0000 && Pow2(31) == 0x8000_0000 && Pow2(32) == TWO_32 && Pow2(10) == 1024
  {
    assert Pow2(10) == 1024;
    assert Pow2(20) == 0x10_0000;
    assert Pow2(30) == 0x4000_0000;
  }

  lemma {:induction false} Pow2Product(j: nat, k: nat)
    ensures Pow2(j + k) == Pow2(j) * Pow2(k)
  {
    if j > 0 {
      Pow2Product(j - 1, k);
      assert Pow2(j + k) == 2 * Pow2(j - 1 + k);
    }
  }

  lemma Pow2Divides(a: nat, b: nat)
    requires IsPow2(a) && IsPow2(b) && a <= b
    ensures b / a * a == b
  {
    var j: nat, k: nat :| a == Pow2(j) && b == Pow2(k);
    if j > k {
      Pow2Increases(k + 1, j);
    } else {
      Pow2Product(k - j, j);
      ExactQuotient(Pow2(k - j), a, b);
    }
  }

  lemma ExactQuotient(q: nat, a: nat, b: nat)
    requires a > 0 && b == q * a
    ensures b / a == q
  {
    var d := b / a;
    assert b == d * a + b % a;
    assert (q - d) * a == b % a;
    if q > d {
      AtLeastFactor(q - d, a);
    }
  }

  lemma AtLeastFactor(x: nat, a: nat)
    requires x > 0
    ensures x * a >= a
  {
    assert x * a == (x - 1) * a + a;
  }

  // ----- what the clock is, and what each operation makes of it -----

  datatype RtcProcess = RtcProcess(rate: int, currCount: int, maxCount: int)

  /** The reference count, the rate the driver believes in, the table of processes
      (slot pid - 1), and the hardware: interrupts on or off, rate selector. */
  datatype Clock = Clock(open: int, rate: nat, procs: seq<RtcProcess>, irqOn: bool, selector: nat)

  predicate NonZeroRates(procs: seq<RtcProcess>) {
    forall i :: 0 <= i < |procs| ==> procs[i].rate != 0
  }

  function Recomputed(procs: seq<RtcProcess>, rate: nat): (r: seq<RtcProcess>)
    requires NonZeroRates(procs)
    ensures |r| == |procs|
  {
    seq(|procs|, i requires 0 <= i < |procs| => procs[i].(maxCount := CDiv(rate, procs[i].rate)))
  }

  /** The greatest rate among the first n processes, and at least RATE_MIN. */
  function TopRate(procs: seq<RtcProcess>, n: nat): (r: nat)
    requires n <= |procs|
    ensures r >= RATE_MIN
  {
    if n == 0 then RATE_MIN else Max(TopRate(procs, n - 1), procs[n - 1].rate)
  }

  function Log2(n: nat): nat {
    if n < 2 then 0 else 1 + Log2(n / 2)
  }

  function SelectorFor(rate: int): nat
    requires rate > 0
  {
    Log2(RTC_ABS_MAX / rate) + 1
  }

  function ShiftRight(n: nat, k: nat): nat {
    if k == 0 then n else ShiftRight(n / 2, k - 1)
  }

  /** The interrupt frequency a selector stands for. */
  function Frequency(selector: nat): nat {
    if selector == 0 then 0 else ShiftRight(RTC_ABS_MAX, selector - 1)
  }

  function Opened(c: Clock): Clock {
    if c.open == 0 then c.(irqOn := true, selector := RATE_DEFAULT, rate := RATE_MIN, open := 1)
    else c.(open := c.open + 1)
  }

  function Written(c: Clock, p: nat, rate: int): Clock
    requires p < |c.procs| && INT_MIN <= rate < -INT_MIN && NonZeroRates(c.procs)
  {
    if !Accepts(rate) then c else
      var procs := c.procs[p := c.procs[p].(rate := rate, maxCount := CDiv(c.rate, rate))];
      if rate <= c.rate then c.(procs := procs)
      else c.(rate := rate, selector := SelectorFor(rate), procs := Recomputed(procs, rate))
  }

  function Closed(c: Clock, p: nat): Clock
    requires p < |c.procs| && NonZeroRates(c.procs)
  {
    var procs := c.procs[p := c.procs[p].(rate := RATE_MIN)];
    if c.open == 1 then c.(open := 0, procs := procs, irqOn := false)
    else
      var top := TopRate(procs, |procs|);
      c.(open := c.open - 1, rate := top, procs := Recomputed(procs, top))
  }

  // ----- the driver -----

  class Driver {
    var open: int
    var rtcRate: nat
    const procs: array<RtcProcess>
    var irqOn: bool
    var selector: nat

    function View(): Clock
      reads this, procs
    {
      Clock(open, rtcRate, procs[..], irqOn, selector)
    }

    constructor (processes: nat, selector: nat)
      ensures View() == BootClock(processes, selector)
      ensures fresh(procs) && procs.Length == processes
    {
      open, rtcRate, irqOn := 0, 0, false;
      this.selector := selector;
      procs := new RtcProcess[processes](_ => RtcProcess(RATE_MIN, 0, 0));
    }

    /** The interrupt handler: one tick for everybody. */
    method Handler()
      modifies procs
      ensures forall i :: 0 <= i < procs.Length ==>
                            procs[i] == old(procs[i]).(currCount := Decrement(old(procs[i].currCount)))
    {
      for i := 0 to procs.Length
        invariant forall j :: 0 <= j < i ==>
                                procs[j] == old(procs[j]).(currCount := Decrement(old(procs[j].currCount)))
        invariant forall j :: i <= j < procs.Length ==> procs[j] == old(procs[j])
      {
        procs[i] := procs[i].(currCount := Decrement(procs[i].currCount));
      }
    }

    method Open()
      modifies this
      ensures View() == Opened(old(View()))
    {
      if open == 0 {
        irqOn := true;
        selector := RATE_DEFAULT;
        rtcRate := RATE_MIN;
      }
      open := open + 1;
    }

    method UpdateProcesses()
      requires NonZeroRates(procs[..])
      modifies procs
      ensures procs[..] == Recomputed(old(procs[..]), rtcRate)
    {
      for i := 0 to procs.Length
        invariant forall j :: 0 <= j < i ==>
                                procs[j] == old(procs[j]).(maxCount := CDiv(rtcRate, old(procs[j].rate)))
        invariant forall j :: i <= j < procs.Length ==> procs[j] == old(procs[j])
      {
        assert old(procs[..])[i] == procs[i];
        procs[i] := procs[i].(maxCount := CDiv(rtcRate, procs[i].rate));
      }
    }

    /** The shift loop: one more than the binary logarithm of 32768 / rate. */
    method SetRate(rate: int)
      requires rate > 0
      modifies this`selector
      ensures selector == SelectorFor(rate)
    {
      var ratefactor: nat := RTC_ABS_MAX / rate;
      var rs: nat := 0;
      ratefactor := ratefactor / 2;
      while ratefactor != 0
        invariant rs + (if ratefactor == 0 then 0 else 1 + Log2(ratefactor)) == Log2(RTC_ABS_MAX / rate)
        decreases ratefactor
      {
        rs := rs + 1;
        ratefactor := ratefactor / 2;
      }
      selector := rs + 1;
    }

    method Write(p: nat, rate: int) returns (r: int)
      requires p < procs.Length && INT_MIN <= rate < -INT_MIN && NonZeroRates(procs[..])
      modifies this, procs
      ensures View() == Written(old(View()), p, rate)
      ensures r == if Accepts(rate) then 1 else -1
    {
      if rate == 0 || rate > RATE_MAX {
        return -1;
      }
      if BitAnd(Unsigned(rate), Unsigned(Decrement(rate))) != 0 {
        return -1;
      }
      procs[p] := procs[p].(rate := rate, maxCount := CDiv(rtcRate, rate));
      if rate > rtcRate {
        rtcRate := rate;
        SetRate(rate);
        UpdateProcesses();
      }
      return 1;
    }

    method Close(p: nat)
      requires p < procs.Length && NonZeroRates(procs[..])
      modifies this, procs
      ensures View() == Closed(old(View()), p)
    {
      procs[p] := procs[p].(rate := RATE_MIN);
      assert procs[..] == old(procs[..])[p := old(procs[..])[p].(rate := RATE_MIN)];
      open := open - 1;
      if open == 0 {
        irqOn := false;
      } else {
        rtcRate := RATE_MIN;
        ghost var now := procs[..];
        for i := 0 to procs.Length
          invariant procs[..] == now && rtcRate == TopRate(now, i)
          invariant open == old(open) - 1 && irqOn == old(irqOn) && selector == old(selector)
        {
          if procs[i].rate > rtcRate {
            rtcRate := procs[i].rate;
          }
        }
        UpdateProcesses();
      }
    }

    /** Waits out a read: the counter starts at maxCount and falls with each tick.
        Returns how many ticks that took. */
    method Read(p: nat) returns (ticks: nat)
      requires p < procs.Length && INT_MIN < procs[p].maxCount < -INT_MIN
      modifies procs
      ensures ticks == Max(0, old(procs[p].maxCount))
      ensures procs[p] == old(procs[p]).(currCount := old(procs[p].maxCount) - ticks)
      ensures forall i :: 0 <= i < procs.Length && i != p ==>
                            procs[i] == old(procs[i]).(currCount := TickedDown(old(procs[i].currCount), ticks))
    {
      procs[p] := procs[p].(currCount := procs[p].maxCount);
      ticks := 0;
      while procs[p].currCount > 0
        invariant ticks <= Max(0, old(procs[p].maxCount))
        invariant procs[p] == old(procs[p]).(currCount := old(procs[p].maxCount) - ticks)
        invariant forall i :: 0 <= i < procs.Length && i != p ==>
                                procs[i] == old(procs[i]).(currCount := TickedDown(old(procs[i].currCount), ticks))
        decreases procs[p].currCount
      {
        Handler();
        ticks := ticks + 1;
      }
    }
  }

  // ----- the selector -----

  lemma {:induction false} Log2OfPow2(k: nat)
    ensures Log2(Pow2(k)) == k
  {
    if k > 0 {
      Log2OfPow2(k - 1);
    }
  }

  lemma {:induction false} ShiftOfPow2(a: nat, b: nat)
    ensures ShiftRight(Pow2(a + b), b) == Pow2(a)
  {
    if b > 0 {
      assert Pow2(a + b) == 2 * Pow2(a + b - 1);
      ShiftOfPow2(a, b - 1);
    }
  }

  /** For every legal rate above 1 the shift loop finds a four-bit selector whose
      frequency is the rate. */
  lemma SelectorFits(rate: nat)
    requires IsPow2(rate) && RATE_MIN <= rate <= RATE_MAX
    ensures 6 <= SelectorFor(rate) <= 15 && Frequency(SelectorFor(rate)) == rate
  {
    var k: nat :| rate == Pow2(k);
    Pow2At31();
    if k > 10 { Pow2Increases(11, k); }
    assert Pow2(15) == RTC_ABS_MAX;
    Pow2Product(15 - k, k);
    ExactQuotient(Pow2(15 - k), rate, RTC_ABS_MAX);
    Log2OfPow2(15 - k);
    ShiftOfPow2(k, 15 - k);
  }

  // ----- the clock agrees with the open descriptors -----

  ghost predicate LegalRate(rate: int) {
    rate == INT_MIN || (0 < rate <= RATE_MAX && IsPow2(rate))
  }

  /** Process p has the clock open on some descriptor. */
  ghost predicate Holds(holders: set<(nat, nat)>, p: nat) {
    exists fd :: (p, fd) in holders
  }

  ghost predicate Dominates(rate: nat, procs: seq<RtcProcess>) {
    forall p :: 0 <= p < |procs| ==> procs[p].rate <= rate
  }

  /** `holders` are the (process, descriptor) pairs that have the clock open. */
  ghost predicate Coherent(c: Clock, holders: set<(nat, nat)>) {
    && c.open == |holders|
    && (forall p :: 0 <= p < |c.procs| ==> LegalRate(c.procs[p].rate) && 0 <= c.procs[p].maxCount <= RATE_MAX)
    && (forall p :: 0 <= p < |c.procs| && !Holds(holders, p) ==> c.procs[p].rate == RATE_MIN)
    && (c.irqOn <==> holders != {})
    && (holders != {} ==> && IsPow2(c.rate) && RATE_MIN <= c.rate <= RATE_MAX
                          && Dominates(c.rate, c.procs) && c.rate <= Frequency(c.selector))
  }

  function BootClock(processes: nat, selector: nat): Clock {
    Clock(0, 0, seq(processes, _ => RtcProcess(RATE_MIN, 0, 0)), false, selector)
  }

  lemma FreshCoherent(processes: nat, selector: nat)
    ensures Coherent(BootClock(processes, selector), {})
  {
    assert RATE_MIN == Pow2(1);
  }

  lemma {:induction false} TopRateIsTop(procs: seq<RtcProcess>, n: nat)
    requires n <= |procs| && forall p :: 0 <= p < n ==> LegalRate(procs[p].rate)
    ensures Dominates(TopRate(procs, n), procs[..n])
    ensures IsPow2(TopRate(procs, n)) && TopRate(procs, n) <= RATE_MAX
    ensures TopRate(procs, n) == RATE_MIN || exists p :: 0 <= p < n && procs[p].rate == TopRate(procs, n)
  {
    if n == 0 {
      assert Pow2(1) == 2;
    } else {
      TopRateIsTop(procs, n - 1);
    }
  }

  lemma OpenCoherent(c: Clock, holders: set<(nat, nat)>, p: nat, fd: nat)
    requires Coherent(c, holders) && (p, fd) !in holders
    ensures Coherent(Opened(c), holders + {(p, fd)})
  {
    assert Pow2(1) == 2 && Pow2(0) == 1;
    assert Frequency(RATE_DEFAULT) == 2 by {
      assert Pow2(15) == RTC_ABS_MAX;
      ShiftOfPow2(1, 14);
    }
    forall q | 0 <= q < |c.procs| && !Holds(holders + {(p, fd)}, q)
      ensures !Holds(holders, q)
    {
    }
    if c.open == 0 {
      assert holders == {};
      assert forall q :: 0 <= q < |c.procs| ==> !Holds(holders, q);
    }
  }

  lemma WriteCoherent(c: Clock, holders: set<(nat, nat)>, p: nat, rate: int)
    requires Coherent(c, holders) && Holds(holders, p) && p < |c.procs|
    requires INT_MIN <= rate < -INT_MIN
    ensures Coherent(Written(c, p, rate), holders)
  {
    AcceptedRates(rate);
    if Accepts(rate) && rate > c.rate {
      SelectorFits(rate);
      RecomputedCounts(c.procs[p := c.procs[p].(rate := rate, maxCount := CDiv(c.rate, rate))], rate);
    } else if Accepts(rate) {
      DividingSyncs(c.rate, rate);
    }
  }

  lemma RecomputedCounts(procs: seq<RtcProcess>, rate: nat)
    requires IsPow2(rate) && RATE_MIN <= rate <= RATE_MAX && Dominates(rate, procs) && NonZeroRates(procs)
    requires forall p :: 0 <= p < |procs| ==> LegalRate(procs[p].rate)
    ensures forall p :: 0 <= p < |procs| ==> 0 <= Recomputed(procs, rate)[p].maxCount <= RATE_MAX
  {
    forall p | 0 <= p < |procs|
      ensures 0 <= Recomputed(procs, rate)[p].maxCount <= RATE_MAX
    {
      DividingSyncs(rate, procs[p].rate);
    }
  }

  lemma OthersStillHold(holders: set<(nat, nat)>, p: nat, fd: nat, q: nat)
    requires q != p
    ensures Holds(holders - {(p, fd)}, q) <==> Holds(holders, q)
  {
    if Holds(holders, q) {
      var d :| (q, d) in holders;
      assert (q, d) in holders - {(p, fd)};
    }
  }

  /** Back at 2 Hz, process p no longer needs to hold the clock. */
  lemma ResetRate(c: Clock, holders: set<(nat, nat)>, p: nat, fd: nat)
    requires Coherent(c, holders) && (p, fd) in holders && p < |c.procs|
    ensures var procs := c.procs[p := c.procs[p].(rate := RATE_MIN)];
            && (forall q :: 0 <= q < |procs| ==> LegalRate(procs[q].rate) && 0 <= procs[q].maxCount <= RATE_MAX)
            && (forall q :: 0 <= q < |procs| && !Holds(holders - {(p, fd)}, q) ==> procs[q].rate == RATE_MIN)
  {
    assert Pow2(1) == 2;
    forall q | 0 <= q < |c.procs| && q != p
      ensures Holds(holders - {(p, fd)}, q) <==> Holds(holders, q)
    {
      OthersStillHold(holders, p, fd, q);
    }
  }

  lemma CloseCoherent(c: Clock, holders: set<(nat, nat)>, p: nat, fd: nat)
    requires Coherent(c, holders) && (p, fd) in holders && p < |c.procs|
    ensures Coherent(Closed(c, p), holders - {(p, fd)})
  {
    ResetRate(c, holders, p, fd);
    assert |holders - {(p, fd)}| == c.open - 1;
    if c.open > 1 {
      var procs := c.procs[p := c.procs[p].(rate := RATE_MIN)];
      TopRateIsTop(procs, |procs|);
      assert procs[..|procs|] == procs;
      RecomputedCounts(procs, TopRate(procs, |procs|));
    }
  }

  // ----- counting ticks at the right speed -----

  /** Process p waits as many ticks of the shared rate as make one period of its own. */
  ghost predicate InSync(c: Clock, p: nat)
    requires p < |c.procs|
  {
    c.procs[p].maxCount * c.procs[p].rate == c.rate
  }

  lemma DividingSyncs(rate: nat, own: int)
    requires LegalRate(own) && IsPow2(rate) && RATE_MIN <= rate <= RATE_MAX && own <= rate
    ensures CDiv(rate, own) * own == rate <==> own > 0
    ensures 0 <= CDiv(rate, own) <= RATE_MAX
  {
    if own > 0 {
      Pow2Divides(own, rate);
      if CDiv(rate, own) > rate { AtLeastFactor(own, CDiv(rate, own)); }
    } else {
      assert rate / 0x8000_0000 == 0;
    }
  }

  /** After an accepted write the writer is in sync exactly when the rate was positive. */
  lemma WriteSyncs(c: Clock, holders: set<(nat, nat)>, p: nat, rate: int)
    requires Coherent(c, holders) && Holds(holders, p) && p < |c.procs|
    requires INT_MIN <= rate < -INT_MIN && Accepts(rate)
    ensures InSync(Written(c, p, rate), p) <==> rate > 0
  {
    AcceptedRates(rate);
    WriteCoherent(c, holders, p, rate);
    DividingSyncs(Written(c, p, rate).rate, rate);
  }

  /** An accepted write, and a close that is not the last, bring no other process out of sync. */
  lemma SyncSurvives(c: Clock, holders: set<(nat, nat)>, p: nat, q: nat)
    requires Coherent(c, holders) && Holds(holders, p) && p < |c.procs| && q < |c.procs|
    requires InSync(c, q) && c.procs[q].rate > 0
    ensures forall rate :: INT_MIN <= rate < -INT_MIN && q != p ==> InSync(Written(c, p, rate), q)
    ensures c.open > 1 ==> InSync(Closed(c, p), q)
  {
    forall rate | INT_MIN <= rate < -INT_MIN && q != p
      ensures InSync(Written(c, p, rate), q)
    {
      AcceptedRates(rate);
      if Accepts(rate) && rate > c.rate {
        DividingSyncs(rate, c.procs[q].rate);
      }
    }
    if c.open > 1 {
      var fd :| (p, fd) in holders;
      CloseCoherent(c, holders, p, fd);
      DividingSyncs(Closed(c, p).rate, Closed(c, p).procs[q].rate);
    }
  }

  /** The first open resets the shared rate and leaves the counters as they were: the
      opener is in sync only if its old counter is 1. */
  lemma FirstOpenSync(c: Clock, holders: set<(nat, nat)>, p: nat)
    requires Coherent(c, holders) && c.open == 0 && p < |c.procs|
    ensures InSync(Opened(c), p) <==> c.procs[p].maxCount == 1
  {
    assert holders == {};
    assert !Holds(holders, p);
  }

  /** At boot it is not: the first process to open the clock is out of step, and its read
      does not wait at all. */
  lemma FreshOpenIsOut(processes: nat, selector: nat, p: nat)
    requires p < processes
    ensures var c := Opened(BootClock(processes, selector));
            && !InSync(c, p) && c.procs[p] == RtcProcess(2, 0, 0)
            && c.rate == 2 && Frequency(c.selector) == 2
  {
    assert Frequency(15) == 2 by {
      assert Pow2(15) == 32768;
      ShiftOfPow2(1, 14);
    }
    FreshCoherent(processes, selector);
    FirstOpenSync(BootClock(processes, selector), {}, p);
  }

  /** A close that is not the last lowers the shared rate but not the hardware's.  If they
      agreed, they do afterwards exactly when another process has the shared rate, or it was
      the least there is. */
  lemma TrimKeepsHardware(c: Clock, holders: set<(nat, nat)>, p: nat)
    requires Coherent(c, holders) && Holds(holders, p) && p < |c.procs| && c.open > 1
    requires Frequency(c.selector) == c.rate
    ensures Frequency(Closed(c, p).selector) == Closed(c, p).rate
            <==> c.rate == RATE_MIN || exists q :: 0 <= q < |c.procs| && q != p && c.procs[q].rate == c.rate
  {
    var fd :| (p, fd) in holders;
    ResetRate(c, holders, p, fd);
    var procs := c.procs[p := c.procs[p].(rate := RATE_MIN)];
    TopRateIsTop(procs, |procs|);
    assert procs[..|procs|] == procs;
    if q :| 0 <= q < |c.procs| && q != p && c.procs[q].rate == c.rate {
      assert procs[q].rate == c.rate;
    }
  }

  /** The least run that shows it: after one process asked for 4 Hz and closed, the other
      waits a single tick for its 2 Hz period, at 4 ticks a second. */
  lemma TrimmedReadIsShort()
    ensures var idle := RtcProcess(2, 0, 0);
            var c := Closed(Opened(Written(Opened(Clock(0, 0, [idle, idle], false, 0)), 0, 4)), 0);
            c.rate == 2 && Frequency(c.selector) == 4 && c.procs[1].rate == 2 && c.procs[1].maxCount == 1
  {
    var idle := RtcProcess(RATE_MIN, 0, 0);
    var c1 := Opened(Clock(0, 0, [idle, idle], false, 0));
    assert Pow2(2) == 4;
    AcceptedRates(4);
    SelectorFits(4);
    var c2 := Written(c1, 0, 4);
    assert c2.rate == 4 && Frequency(c2.selector) == 4 && c2.procs[1].rate == 2 && c2.procs[0].rate == 4;
    var procs := Opened(c2).procs[0 := c2.procs[0].(rate := RATE_MIN)];
    assert TopRate(procs, 2) == 2 by { assert TopRate(procs, 1) == 2; }
  }

  // ----- whole runs -----

  datatype Op = OpOpen(p: nat, fd: nat) | OpWrite(p: nat, fd: nat, rate: int) | OpClose(p: nat, fd: nat)

  /** What a live descriptor table allows: opening a closed one, using an open one. */
  ghost predicate Enabled(c: Clock, holders: set<(nat, nat)>, op: Op) {
    match op
    case OpOpen(p, fd) => p < |c.procs| && (p, fd) !in holders
    case OpWrite(p, fd, rate) => p < |c.procs| && (p, fd) in holders && INT_MIN <= rate < -INT_MIN
    case OpClose(p, fd) => p < |c.procs| && (p, fd) in holders
  }

  ghost function Next(c: Clock, op: Op): Clock
    requires op.p < |c.procs| && NonZeroRates(c.procs)
    requires op.OpWrite? ==> INT_MIN <= op.rate < -INT_MIN
  {
    match op
    case OpOpen(_, _) => Opened(c)
    case OpWrite(p, _, rate) => Written(c, p, rate)
    case OpClose(p, _) => Closed(c, p)
  }

  ghost function NextHolders(holders: set<(nat, nat)>, op: Op): set<(nat, nat)> {
    match op
    case OpOpen(p, fd) => holders + {(p, fd)}
    case OpWrite(_, _, _) => holders
    case OpClose(p, fd) => holders - {(p, fd)}
  }

  lemma NextCoherent(c: Clock, holders: set<(nat, nat)>, op: Op)
    requires Coherent(c, holders) && Enabled(c, holders, op)
    ensures |Next(c, op).procs| == |c.procs| && Coherent(Next(c, op), NextHolders(holders, op))
  {
    match op
    case OpOpen(p, fd) => OpenCoherent(c, holders, p, fd);
    case OpWrite(p, fd, rate) => WriteCoherent(c, holders, p, rate);
    case OpClose(p, fd) => CloseCoherent(c, holders, p, fd);
  }

  /** `ops` is a run from this clock, ending in `last` with `lastHolders`. */
  ghost predicate Run(c: Clock, holders: set<(nat, nat)>, ops: seq<Op>, last: Clock, lastHolders: set<(nat, nat)>)
    requires Coherent(c, holders)
    decreases |ops|
  {
    if ops == [] then last == c && lastHolders == holders
    else
      && Enabled(c, holders, ops[0])
      && (NextCoherent(c, holders, ops[0]);
          Run(Next(c, ops[0]), NextHolders(holders, ops[0]), ops[1..], last, lastHolders))
  }

  /** Over every run the reference count is the number of open descriptors, a process
      with none is back at 2 Hz, and the shared rate covers every process's. */
  lemma {:induction false} RunsStayCoherent(c: Clock, holders: set<(nat, nat)>, ops: seq<Op>,
                                            last: Clock, lastHolders: set<(nat, nat)>)
    requires Coherent(c, holders) && Run(c, holders, ops, last, lastHolders)
    ensures Coherent(last, lastHolders) && |last.procs| == |c.procs|
    decreases |ops|
  {
    if ops != [] {
      NextCoherent(c, holders, ops[0]);
      RunsStayCoherent(Next(c, ops[0]), NextHolders(holders, ops[0]), ops[1..], last, lastHolders);
    }
  }

  /** Once in sync at a positive rate, a process that keeps its descriptor stays in sync
      over every run in which it writes no negative rate. */
  lemma {:induction false} RunsStayInSync(c: Clock, holders: set<(nat, nat)>, ops: seq<Op>,
                                          last: Clock, lastHolders: set<(nat, nat)>, p: nat, fd: nat)
    requires Coherent(c, holders) && Run(c, holders, ops, last, lastHolders)
    requires p < |c.procs| && (p, fd) in holders && InSync(c, p) && c.procs[p].rate > 0
    requires OpClose(p, fd) !in ops && forall d :: OpWrite(p, d, INT_MIN) !in ops
    ensures |last.procs| == |c.procs| && InSync(last, p) && last.procs[p].rate > 0
    decreases |ops|
  {
    if ops != [] {
      var op := ops[0];
      NextCoherent(c, holders, op);
      StepStaysInSync(c, holders, op, p, fd);
      RunsStayInSync(Next(c, op), NextHolders(holders, op), ops[1..], last, lastHolders, p, fd);
    }
  }

  lemma StepStaysInSync(c: Clock, holders: set<(nat, nat)>, op: Op, p: nat, fd: nat)
    requires Coherent(c, holders) && Enabled(c, holders, op) && |Next(c, op).procs| == |c.procs|
    requires p < |c.procs| && (p, fd) in holders && InSync(c, p) && c.procs[p].rate > 0
    requires op != OpClose(p, fd) && (op.OpWrite? && op.p == p ==> op.rate != INT_MIN)
    ensures InSync(Next(c, op), p) && Next(c, op).procs[p].rate > 0
  {
    match op
    case OpOpen(_, _) =>
      assert c.open > 0;
    case OpWrite(q, d, rate) =>
      AcceptedRates(rate);
      if q != p {
        SyncSurvives(c, holders, q, p);
      } else if Accepts(rate) {
        WriteSyncs(c, holders, p, rate);
      }
    case OpClose(q, d) =>
      if c.open == 1 {
        assert {(p, fd), (q, d)} <= holders && |{(p, fd), (q, d)}| == 2;
        SubsetSize({(p, fd), (q, d)}, holders);
      }
      SyncSurvives(c, holders, q, p);
  }

  // ----- when the hardware runs at the shared rate -----

  /** The hardware is set: at the first open, and when a write raises the shared rate. */
  ghost predicate Programs(c: Clock, op: Op)
    requires op.OpWrite? ==> INT_MIN <= op.rate < -INT_MIN
  {
    (op.OpOpen? && c.open == 0) || (op.OpWrite? && Accepts(op.rate) && op.rate > c.rate)
  }

  /** A close that is not the last, by the only process at the shared rate. */
  ghost predicate Lowers(c: Clock, op: Op) {
    && op.OpClose? && c.open > 1 && c.rate != RATE_MIN
    && forall q :: 0 <= q < |c.procs| && q != op.p ==> c.procs[q].rate != c.rate
  }

  /** Since the hardware was last set, the shared rate has been lowered; `was` says whether
      it had been at the start. */
  ghost predicate Trimmed(c: Clock, holders: set<(nat, nat)>, ops: seq<Op>, was: bool)
    requires Coherent(c, holders)
    decreases |ops|
  {
    if ops == [] || !Enabled(c, holders, ops[0]) then was
    else
      NextCoherent(c, holders, ops[0]);
      Trimmed(Next(c, ops[0]), NextHolders(holders, ops[0]), ops[1..],
              !Programs(c, ops[0]) && (was || Lowers(c, ops[0])))
  }

  ghost predicate InTune(c: Clock) {
    Frequency(c.selector) == c.rate
  }

  lemma StepTunes(c: Clock, holders: set<(nat, nat)>, op: Op)
    requires Coherent(c, holders) && Enabled(c, holders, op) && NextHolders(holders, op) != {}
    ensures InTune(Next(c, op)) <==> Programs(c, op) || (holders != {} && InTune(c) && !Lowers(c, op))
  {
    NextCoherent(c, holders, op);
    match op
    case OpOpen(p, fd) =>
      if c.open == 0 {
        assert Pow2(15) == RTC_ABS_MAX && Pow2(1) == 2;
        ShiftOfPow2(1, 14);
      }
    case OpWrite(p, fd, rate) =>
      AcceptedRates(rate);
      if Accepts(rate) && rate > c.rate { SelectorFits(rate); }
    case OpClose(p, fd) =>
      if c.open == 1 { LastHolder(holders, p, fd); }
      if InTune(c) {
        TrimKeepsHardware(c, holders, p);
      } else {
        ResetRate(c, holders, p, fd);
        var procs := c.procs[p := c.procs[p].(rate := RATE_MIN)];
        TopRateIsTop(procs, |procs|);
      }
  }

  lemma LastHolder(holders: set<(nat, nat)>, p: nat, fd: nat)
    requires (p, fd) in holders && |holders| == 1
    ensures holders - {(p, fd)} == {}
  {
    assert |holders - {(p, fd)}| == 0;
  }

  /** Over every run the hardware ticks at the shared rate exactly when no close has trimmed
      it since the hardware was last set; so a read of a process in step lasts exactly one
      period of its rate, as its counter says, exactly then. */
  lemma {:induction false} RunsTrim(c: Clock, holders: set<(nat, nat)>, ops: seq<Op>,
                                    last: Clock, lastHolders: set<(nat, nat)>, was: bool)
    requires Coherent(c, holders) && Run(c, holders, ops, last, lastHolders) && lastHolders != {}
    requires holders != {} ==> (was <==> !InTune(c))
    ensures InTune(last) <==> !Trimmed(c, holders, ops, was)
    ensures forall p :: 0 <= p < |last.procs| && InSync(last, p) ==>
              (last.procs[p].maxCount * last.procs[p].rate == Frequency(last.selector) <==> !Trimmed(c, holders, ops, was))
    decreases |ops|
  {
    if ops != [] {
      var op := ops[0];
      NextCoherent(c, holders, op);
      if NextHolders(holders, op) != {} { StepTunes(c, holders, op); }
      RunsTrim(Next(c, op), NextHolders(holders, op), ops[1..], last, lastHolders,
               !Programs(c, op) && (was || Lowers(c, op)));
    }
  }

  // ----- when a later first open is in step -----

  /** The operation sets process p's counter. */
  ghost predicate Counts(c: Clock, op: Op, p: nat)
    requires op.OpWrite? ==> INT_MIN <= op.rate < -INT_MIN
  {
    || (op.OpWrite? && Accepts(op.rate) && (op.p == p || op.rate > c.rate))
    || (op.OpClose? && c.open > 1)
  }

  /** When process p's counter was last set, the process had the shared rate. */
  ghost predicate Level(c: Clock, holders: set<(nat, nat)>, ops: seq<Op>, p: nat, was: bool)
    requires Coherent(c, holders) && p < |c.procs|
    decreases |ops|
  {
    if ops == [] || !Enabled(c, holders, ops[0]) then was
    else
      NextCoherent(c, holders, ops[0]);
      var next := Next(c, ops[0]);
      Level(next, NextHolders(holders, ops[0]), ops[1..], p,
            if Counts(c, ops[0], p) then next.procs[p].rate == next.rate else was)
  }

  lemma CountOfOne(rate: nat, own: int)
    requires LegalRate(own) && IsPow2(rate) && RATE_MIN <= rate <= RATE_MAX && own <= rate
    ensures CDiv(rate, own) == 1 <==> own == rate
  {
    DividingSyncs(rate, own);
  }

  lemma StepLevels(c: Clock, holders: set<(nat, nat)>, op: Op, p: nat)
    requires Coherent(c, holders) && Enabled(c, holders, op) && p < |c.procs| == |Next(c, op).procs|
    ensures var next := Next(c, op);
            next.procs[p].maxCount == 1 <==>
            if Counts(c, op, p) then next.procs[p].rate == next.rate else c.procs[p].maxCount == 1
  {
    NextCoherent(c, holders, op);
    var next := Next(c, op);
    if Counts(c, op, p) {
      if op.OpClose? && NextHolders(holders, op) == {} { SubsetSize(holders, {(op.p, op.fd)}); }
      CountOfOne(next.rate, next.procs[p].rate);
    }
  }

  lemma {:induction false} RunsLevel(c: Clock, holders: set<(nat, nat)>, ops: seq<Op>,
                                     last: Clock, lastHolders: set<(nat, nat)>, p: nat)
    requires Coherent(c, holders) && Run(c, holders, ops, last, lastHolders) && p < |c.procs|
    ensures |last.procs| == |c.procs|
    ensures last.procs[p].maxCount == 1 <==> Level(c, holders, ops, p, c.procs[p].maxCount == 1)
    decreases |ops|
  {
    if ops != [] {
      var op := ops[0];
      NextCoherent(c, holders, op);
      StepLevels(c, holders, op, p);
      RunsLevel(Next(c, op), NextHolders(holders, op), ops[1..], last, lastHolders, p);
    }
  }

  /** After any run from boot that leaves the clock closed, the next to open it is in step
      exactly when it had the shared rate at the last operation that set its counter. */
  lemma FirstOpenAfterRun(processes: nat, selector: nat, ops: seq<Op>, last: Clock, p: nat)
    requires p < processes && Coherent(BootClock(processes, selector), {})
    requires Run(BootClock(processes, selector), {}, ops, last, {})
    ensures |last.procs| == processes
    ensures InSync(Opened(last), p) <==> Level(BootClock(processes, selector), {}, ops, p, false)
  {
    RunsStayCoherent(BootClock(processes, selector), {}, ops, last, {});
    RunsLevel(BootClock(processes, selector), {}, ops, last, {}, p);
    FirstOpenSync(last, {}, p);
  }

  lemma SubsetSize(a: set<(nat, nat)>, b: set<(nat, nat)>)
    requires a <= b
    ensures |a| <= |b|
  {
    assert b == a + (b - a);
  }
}
