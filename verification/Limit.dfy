/** The rate limiter: bytes are counted up to a threshold, and the caller is then made to sleep as long
    as the bytes should have taken.  Times are in microseconds. */
module Limit {
  const MILLION: nat := 1_000_000
  const LEAST: nat := 2048
  const MOST: nat := 32768

  /** A clock that never goes back; sleeping takes at least as long as asked. */
  class Clock {
    var now: nat
    ghost var slept: nat  // what all sleeps together were asked for

    constructor ()
      ensures now > 0
    {
      now := 1;
    }

    /** `gettimeofday` */
    method Read() returns (t: nat)
      modifies this
      ensures t == now >= old(now) && slept == old(slept)
    {
      var passed: int := *;
      if passed > 0 { now := now + passed; }
      t := now;
    }

    /** `nanosleep`, resumed after signals */
    method Sleep(d: nat)
      modifies this
      ensures now >= old(now) + d && slept == old(slept) + d
    {
      var more: int := *;
      now := now + d + if more > 0 then more else 0;
      slept := slept + d;
    }
  }

  /** The threshold after a sleep of `wait` microseconds. */
  function Adjusted(thresh: nat, wait: nat): (t: nat)
    requires LEAST <= thresh <= MOST
    ensures LEAST <= t <= MOST
    ensures wait >= MILLION ==> (t == LEAST && thresh <= 2 * LEAST + 1) || thresh == 2 * t || thresh == 2 * t + 1
    ensures 100 <= wait < MILLION ==> t == thresh
    ensures wait < 100 ==> (t == MOST && 2 * thresh >= MOST) || t == 2 * thresh
  {
    if wait / MILLION > 0 then
      if thresh / 2 < LEAST then LEAST else thresh / 2
    else if wait % MILLION < 100 then
      if thresh * 2 > MOST then MOST else thresh * 2
    else thresh
  }

  lemma AdjustedExamples()
    ensures Adjusted(16384, 99) == 32768 && Adjusted(16384, 100) == 16384 && Adjusted(16384, 999_999) == 16384
    ensures Adjusted(16384, 1_000_000) == 8192 && Adjusted(4095, 1_000_000) == 2048 && Adjusted(16385, 0) == 32768
  {
  }

  /** How long the bytes should take at the given rate. */
  function Due(bytes: nat, rate: int): nat
    requires rate > 0
  {
    MILLION * bytes / rate
  }

  /** It is the time in whole microseconds. */
  lemma DueIsExact(bytes: nat, rate: int)
    requires rate > 0
    ensures rate * Due(bytes, rate) <= MILLION * bytes < rate * (Due(bytes, rate) + 1)
  {
    var w := Due(bytes, rate);
    assert MILLION * bytes == rate * w + MILLION * bytes % rate;
    assert rate * (w + 1) == rate * w + rate;
  }

  /** The closed windows, together `elapsed` long, kept the rate but for less than a microsecond each, and
      the sleeps in them were no longer than their bytes should have taken. */
  ghost predicate RateKept(closed: nat, windows: nat, elapsed: int, asleep: nat, rate: int) {
    if windows == 0 then closed == 0 && asleep == 0
    else MILLION * closed < rate * (elapsed + windows) && rate * asleep <= MILLION * closed
  }

  lemma Ordered(rate: int, x: int, y: int)
    requires rate > 0 && x <= y
    ensures rate * x <= rate * y
  {
    assert rate * (y - x) >= 0;
  }

  /** One more window, which lasts at least as long as its bytes should take and has no longer a sleep. */
  lemma WindowCloses(closed: nat, windows: nat, elapsed: int, asleep: nat, rate: int, bytes: nat, duration: int,
                     wait: nat)
    requires RateKept(closed, windows, elapsed, asleep, rate) && rate > 0 && elapsed >= 0
    requires wait <= Due(bytes, rate) <= duration
    ensures RateKept(closed + bytes, windows + 1, elapsed + duration, asleep + wait, rate)
  {
    var due := Due(bytes, rate);
    DueIsExact(bytes, rate);
    Ordered(rate, due + 1, duration + 1);
    Ordered(rate, wait, due);
    Ordered(rate, 0, elapsed + windows);
    hide Due;
    assert rate * (elapsed + duration + (windows + 1)) == rate * (elapsed + windows) + rate * (duration + 1);
    assert rate * (asleep + wait) == rate * asleep + rate * wait;
  }

  class Limiter {
    var start: nat          // 0: no window is open
    var lamt: nat           // bytes in the open window
    var thresh: nat
    const rate: int         // bytes a second
    ghost var since: nat    // when the first window was opened
    ghost var windows: nat  // how many windows were closed
    ghost var closed: nat   // the bytes counted in them
    ghost var asleep: nat   // for how long the callers were made to sleep

    ghost predicate Valid(clock: Clock)
      reads this, clock
    {
      clock.now > 0 && LEAST <= thresh <= MOST && since <= start <= clock.now
      && (start == 0 ==> lamt == 0 && windows == 0)
      && RateKept(closed, windows, start - since, asleep, rate)
    }

    constructor (rate: int, clock: Clock)
      requires clock.now > 0
      ensures Valid(clock) && this.rate == rate && closed == 0 && lamt == 0 && windows == 0 && start == 0 && asleep == 0
    {
      start, lamt, thresh, this.rate := 0, 0, 16384, rate;
      since, windows, closed, asleep := 0, 0, 0, 0;
    }

    /** `bw_down_limit`.  Where a window closes, `lasted` is the time it had taken. */
    method Limit(amount: int, clock: Clock) returns (ghost lasted: nat)
      requires Valid(clock)
      modifies this, clock
      ensures Valid(clock) && clock.now >= old(clock.now)
      ensures amount <= 0 || rate <= 0 ==> start == old(start) && lamt == old(lamt) && thresh == old(thresh)
      ensures amount > 0 && rate > 0 && old(start) == 0 ==> start > 0 && since == start
      ensures closed + lamt == old(closed + lamt) + if amount > 0 && rate > 0 && old(start) > 0 then amount else 0
      ensures windows == old(windows) || (windows == old(windows) + 1 && lamt == 0)
      ensures old(start) > 0 ==> since == old(since)
      ensures windows == old(windows) + 1 ==>
                rate > 0 && old(lamt) + amount >= old(thresh) && start >= old(start) + Due(old(lamt) + amount, rate)
                && lasted > 0 && old(clock.now) <= old(start) + lasted
      ensures windows == old(windows) ==> thresh == old(thresh) && (old(start) > 0 ==> start == old(start))
      ensures windows == old(windows) && amount > 0 && rate > 0 && old(start) > 0 ==>
                lamt < thresh || clock.now == start
      ensures windows == old(windows) ==> asleep == old(asleep)
      ensures windows == old(windows) + 1 ==>
                var due := Due(old(lamt) + amount, rate);
                asleep == old(asleep) + (if due > lasted then due - lasted else 0)
                && thresh == if due > lasted then Adjusted(old(thresh), due - lasted) else old(thresh)
      ensures clock.slept == old(clock.slept) + asleep - old(asleep)
    {
      hide RateKept, Due;
      lasted := 0;
      if amount <= 0 || rate <= 0 { return; }
      if start == 0 {
        start := clock.Read();
        since := start;
        return;
      }
      lamt := lamt + amount;
      if lamt < thresh { return; }
      var now := clock.Read();
      var end := now - start;
      if end == 0 { return; }
      lasted := end;
      var waitlen := Due(lamt, rate);
      if waitlen > end {
        thresh := Adjusted(thresh, waitlen - end);
        clock.Sleep(waitlen - end);
      }
      ghost var wait: nat := if waitlen > end then waitlen - end else 0;
      var again := clock.Read();
      WindowCloses(closed, windows, start - since, asleep, rate, lamt, again - start, wait);
      closed, windows, asleep := closed + lamt, windows + 1, asleep + wait;
      lamt := 0;
      start := again;
    }
  }

  function Positive(amounts: seq<int>, n: nat): nat
    requires n <= |amounts|
  {
    if n == 0 then 0 else Positive(amounts, n - 1) + if amounts[n - 1] > 0 then amounts[n - 1] else 0
  }

  /** The amount that only opens the first window. */
  function Uncounted(amounts: seq<int>, n: nat): nat
    requires n <= |amounts|
  {
    if n == 0 then 0
    else if Positive(amounts, n - 1) > 0 then Uncounted(amounts, n - 1)
    else if amounts[n - 1] > 0 then amounts[n - 1] else 0
  }

  /** A whole run at a constant rate.  The callers sleep no longer than the counted bytes should take; all
      bytes but those of the first call are counted, and those counted in closed windows keep the rate over
      the time the windows took. */
  method Run(amounts: seq<int>, rate: int, clock: Clock) returns (l: Limiter)
    requires rate > 0 && clock.now > 0
    modifies clock
    ensures fresh(l) && l.closed + l.lamt + Uncounted(amounts, |amounts|) == Positive(amounts, |amounts|)
    ensures l.windows > 0 ==> MILLION * l.closed < rate * (l.start - l.since + l.windows)
    ensures clock.slept == old(clock.slept) + l.asleep && rate * l.asleep <= MILLION * l.closed
    ensures LEAST <= l.thresh <= MOST
  {
    l := new Limiter(rate, clock);
    for i := 0 to |amounts|
      invariant fresh(l) && l.Valid(clock) && l.rate == rate && clock.slept == old(clock.slept) + l.asleep
      invariant l.closed + l.lamt + Uncounted(amounts, i) == Positive(amounts, i)
      invariant l.start == 0 <==> Positive(amounts, i) == 0
    {
      var transferred := clock.Read();
      var _ := l.Limit(amounts[i], clock);
    }
  }
}
