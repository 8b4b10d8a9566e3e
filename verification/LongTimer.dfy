/** The software timer: intervals longer than the OS timer allows are counted out in shorter ones. */
module LongTimer {
  import opened Arith
  import opened Machine

  const MAX_OS_TIMER_INTERVAL_US := 268435000
  const TWO_16 := 0x1_0000
  const TWO_31 := 0x8000_0000
  const TWO_32 := 0x1_0000_0000
  const TWO_64 := 0x1_0000_0000_0000_0000

  // ---------------------------------------------------------------- how an interval is split

  /** The number of OS intervals that an interval needs. */
  function Whole(us: nat): (d: nat) {
    if us > MAX_OS_TIMER_INTERVAL_US then us / MAX_OS_TIMER_INTERVAL_US + 1 else 1
  }

  /** A 32-bit int as an operand of 64-bit unsigned arithmetic. */
  function Uint64(v: int): (r: nat)
    requires -TWO_31 <= v < TWO_31
  {
    if v < 0 then v + TWO_64 else v
  }

  /** The divider that the code computes is not zero, so that it can divide by it. */
  predicate Divisible(us: nat) {
    I32(Whole(us)) != 0
  }

  function Interval(us: nat): (r: nat)
    requires Divisible(us)
  {
    if us > MAX_OS_TIMER_INTERVAL_US then us / Uint64(I32(Whole(us))) % TWO_32 else us
  }

  function Limit(us: nat): (r: nat) {
    if us > MAX_OS_TIMER_INTERVAL_US then I32(Whole(us)) % TWO_16 else 0
  }

  /** The time the OS timer is armed for. */
  function Period(interval: nat): (r: nat) {
    if interval > 10000 then interval / 1000 * 1000 else interval
  }

  /** Expiries of the OS timer per call of the callback. */
  function PerFire(us: nat): (r: nat) {
    if Limit(us) > 0 then Limit(us) else 1
  }

  /** The time between two calls of the callback lies within a millisecond per OS interval of what was asked. */
  predicate Achieved(us: nat)
    requires Divisible(us)
  {
    us - 1000 * Whole(us) < PerFire(us) * Period(Interval(us)) <= us
  }

  lemma WholeBounds(us: nat)
    requires us > MAX_OS_TIMER_INTERVAL_US
    ensures Whole(us) >= 2
    ensures (Whole(us) - 1) * MAX_OS_TIMER_INTERVAL_US <= us < Whole(us) * MAX_OS_TIMER_INTERVAL_US
  {
    DivUnique(us, MAX_OS_TIMER_INTERVAL_US, us / MAX_OS_TIMER_INTERVAL_US);
  }

  /** Dividing by the exact divider leaves intervals for the millisecond timer, each within the OS limit. */
  lemma QuotientInRange(us: nat, d: nat, q: nat)
    requires d >= 2 && q == us / d
    requires (d - 1) * MAX_OS_TIMER_INTERVAL_US <= us < d * MAX_OS_TIMER_INTERVAL_US
    ensures 100_000_000 < q <= MAX_OS_TIMER_INTERVAL_US
    ensures us - d < q * d <= us
  {
    DivUnique(us, d, q);
    TimesMonotone(MAX_OS_TIMER_INTERVAL_US, q, d);
    TimesMonotone(q, 100_000_000, d);
  }

  lemma SplitExactly(us: nat)
    requires Whole(us) < TWO_31 && us > MAX_OS_TIMER_INTERVAL_US
    ensures Divisible(us) && Interval(us) == us / Whole(us)
    ensures 100_000_000 < Interval(us) <= MAX_OS_TIMER_INTERVAL_US
    ensures us - Whole(us) < Interval(us) * Whole(us) <= us
  {
    WholeBounds(us);
    IntervalExactly(us);
    hide *;
    QuotientInRange(us, Whole(us), Interval(us));
  }

  lemma IntervalExactly(us: nat)
    requires 2 <= Whole(us) < TWO_31 && us > MAX_OS_TIMER_INTERVAL_US && us / Whole(us) <= MAX_OS_TIMER_INTERVAL_US
    ensures Divisible(us) && Interval(us) == us / Whole(us)
  {
  }

  lemma LimitExactly(us: nat)
    requires 2 <= Whole(us) < TWO_16
    ensures Limit(us) == PerFire(us) == Whole(us)
  {
  }

  /** d OS intervals, each truncated to milliseconds, fall short by less than d milliseconds. */
  lemma SumOfPeriods(us: nat, d: nat, q: nat, p: nat)
    requires us - d < q * d <= us && q - 999 <= p <= q
    ensures us - 1000 * d < d * p <= us
  {
    TimesMonotone(q - 999, p, d);
    TimesMonotone(p, q, d);
    assert (q - 999) * d == q * d - 999 * d;
  }

  /** An interval that needs fewer than 65536 OS intervals is met, each of them within the OS limit. */
  lemma AchievedUpTo(us: nat)
    requires Whole(us) < TWO_16
    ensures Divisible(us) && Achieved(us)
    ensures Period(Interval(us)) <= MAX_OS_TIMER_INTERVAL_US
    ensures PerFire(us) == Whole(us)
  {
    if us > MAX_OS_TIMER_INTERVAL_US {
      SplitExactly(us);
      LimitExactly(us);
      hide Whole, Interval, Limit, PerFire, Divisible;
      SumOfPeriods(us, Whole(us), Interval(us), Period(Interval(us)));
    }
  }

  /** Too few of the d intervals that are needed fall short by far. */
  lemma TooFew(us: nat, d: nat, q: nat, n: nat, p: nat)
    requires TWO_16 <= d < TWO_31 && q * d <= us && q > 100_000_000 && p <= q
    requires n <= d - 65535
    ensures n * p <= us - 1000 * d
  {
    TimesMonotone(n, d - 65535, p);
    TimesMonotone(p, q, d - 65535);
    assert q * (d - 65535) == q * d - 65535 * q;
  }

  /** A longer one is not: its divider does not fit in the 16-bit limit, and the callback comes too early. */
  lemma TooLong(us: nat)
    requires us < TWO_64 && Divisible(us) && Whole(us) >= TWO_16
    ensures PerFire(us) * Period(Interval(us)) <= us - 1000 * Whole(us)
    ensures !Achieved(us)
  {
    var d, q, n := Whole(us), Interval(us), PerFire(us);
    assert n <= d - 65535 && n <= 65535;
    assert q < TWO_32;
    WholeBounds(us);
    if d < TWO_31 {
      SplitExactly(us);
      hide Whole, Interval, Limit, PerFire, Divisible;
      TooFew(us, d, q, n, Period(q));
    } else {
      hide Whole, Interval, Limit, PerFire, Divisible;
      TimesMonotone(n, 65535, Period(q));
    }
  }

  lemma AchievedIff(us: nat)
    requires us < TWO_64 && Divisible(us)
    ensures Achieved(us) <==> Whole(us) < TWO_16
  {
    hide *;
    if Whole(us) < TWO_16 { AchievedUpTo(us); } else { TooLong(us); }
  }

  /** Every interval given in 32-bit milliseconds is met. */
  lemma MillisecondsAchieved(ms: nat)
    requires ms < TWO_32
    ensures Divisible(ms * 1000) && Achieved(ms * 1000)
  {
    AchievedUpTo(ms * 1000);
  }

  /** The division is by zero if and only if the exact divider is a multiple of 2^32. */
  lemma DividesUnlessWrapped(us: nat)
    ensures Divisible(us) <==> Whole(us) % TWO_32 != 0
  {
  }

  /** 2^32 - 1 OS intervals are the first that cannot be set. */
  lemma DivisionByZero()
    ensures !Divisible((TWO_32 - 1) * MAX_OS_TIMER_INTERVAL_US) && (TWO_32 - 1) * MAX_OS_TIMER_INTERVAL_US < TWO_64
  {
  }

  // ---------------------------------------------------------------- the timer's states

  /** The OS timer underneath. */
  datatype Os = Disarmed | Armed(periodUs: nat, repeating: bool)

  datatype State = State(
    interval: nat, counter: nat, limit: nat, repeating: bool, started: bool, os: Os,
    hasCallback: bool, fired: nat)

  function Stopped(s: State): (t: State) {
    if s.started then s.(os := Disarmed, started := false, counter := 0) else s
  }

  function Started(s: State, repeating: bool): (t: State) {
    var u := Stopped(s).(repeating := repeating);
    if u.interval == 0 then u
    else u.(os := Armed(Period(u.interval), (u.interval > 10000 && u.limit > 0) || repeating), started := true)
  }

  /** Changing the interval of a running timer restarts it, as a repeating one. */
  function IntervalSet(s: State, us: nat): (t: State)
    requires Divisible(us)
  {
    var u := s.(interval := Interval(us), counter := 0, limit := Limit(us));
    if u.started then Started(u, true) else u
  }

  /** Taking the callback away stops the timer. */
  function CallbackSet(s: State, present: bool): (t: State) {
    var u := s.(hasCallback := present);
    if present then u else Stopped(u)
  }

  function Ticked(s: State): (t: State) {
    if s.hasCallback then s.(fired := s.fired + 1) else Stopped(s)
  }

  function Processed(s: State): (t: State) {
    var c := (s.counter + 1) % TWO_16;
    if s.limit == 0 then Ticked(s)
    else if c < s.limit then s.(counter := c)
    else if s.repeating then Ticked(s.(counter := 0))
    else Ticked(Stopped(s.(counter := 0)))
  }

  /** The armed OS timer runs out; a one-shot one disarms itself. */
  function Expired(s: State): (t: State)
    requires s.os.Armed?
  {
    Processed(if s.os.repeating then s else s.(os := Disarmed))
  }

  datatype Outcome = Never | After(s: State)

  /** The state after n expiries in a row, if the OS timer stays armed for that long. */
  function Expiries(s: State, n: nat): (o: Outcome) {
    if n == 0 then After(s)
    else
      var o := Expiries(s, n - 1);
      if o.After? && o.s.os.Armed? then After(Expired(o.s)) else Never
  }

  // ---------------------------------------------------------------- what a started timer does

  lemma DivModNext(n: nat, m: nat)
    requires m > 0
    ensures n % m + 1 < m ==> (n + 1) / m == n / m && (n + 1) % m == n % m + 1
    ensures n % m + 1 == m ==> (n + 1) / m == n / m + 1 && (n + 1) % m == 0
  {
    DivUnique(n, m, n / m);
    DivUnique(n + 1, m, n / m);
    DivUnique(n + 1, m, n / m + 1);
  }

  /** A stopped timer with a callback is given the interval us and started. */
  function Launched(s: State, us: nat, repeating: bool): (t: State)
    requires Divisible(us)
  {
    Started(IntervalSet(s, us), repeating)
  }

  /** Expiries per call of the callback, for a limit. */
  function Round(limit: nat): (r: nat) {
    if limit > 0 then limit else 1
  }

  lemma RepeatingStep(t: State)
    requires t.repeating && t.hasCallback && t.os.Armed? && t.os.repeating && t.counter < Round(t.limit) <= TWO_16 - 1
    ensures t.counter + 1 < Round(t.limit) ==> Expired(t) == t.(counter := t.counter + 1)
    ensures t.counter + 1 == Round(t.limit) ==> Expired(t) == t.(counter := 0, fired := t.fired + 1)
  {
  }

  lemma {:induction false} RepeatingExpiries(t: State, n: nat)
    requires t.repeating && t.hasCallback && t.os.Armed? && t.os.repeating && t.counter == 0 && t.limit < TWO_16
    ensures Expiries(t, n) == After(t.(counter := n % Round(t.limit), fired := t.fired + n / Round(t.limit)))
  {
    if n > 0 {
      RepeatingExpiries(t, n - 1);
      RepeatingStep(Expiries(t, n - 1).s);
      DivModNext(n - 1, Round(t.limit));
      hide Expired;
    }
  }

  /** A one-shot timer that has fired. */
  function Spent(t: State): (r: State) {
    t.(counter := 0, os := Disarmed, started := t.limit == 0, fired := t.fired + 1)
  }

  lemma {:induction false} OneShotExpiries(t: State, n: nat)
    requires !t.repeating && t.hasCallback && t.started && t.os.Armed? && t.counter == 0 && t.limit < TWO_16
    requires t.os.repeating <==> t.limit > 0
    ensures n < Round(t.limit) ==> Expiries(t, n) == After(t.(counter := n))
    ensures n == Round(t.limit) ==> Expiries(t, n) == After(Spent(t))
    ensures n > Round(t.limit) ==> Expiries(t, n) == Never
  {
    if n > 0 {
      OneShotExpiries(t, n - 1);
    }
  }

  lemma IntervalReady(us: nat)
    requires 0 < us && Whole(us) < TWO_16
    ensures Divisible(us) && Interval(us) > 0 && Limit(us) < TWO_16
    ensures us > MAX_OS_TIMER_INTERVAL_US ==> Interval(us) > 10000 && Limit(us) > 0
    ensures us <= MAX_OS_TIMER_INTERVAL_US ==> Limit(us) == 0
  {
    if us > MAX_OS_TIMER_INTERVAL_US {
      SplitExactly(us);
      WholeBounds(us);
      LimitExactly(us);
      hide Whole, Interval, Limit;
    }
  }

  lemma LaunchedReady(s: State, us: nat, repeating: bool)
    requires !s.started && 0 < us && Whole(us) < TWO_16
    ensures Divisible(us)
    ensures
      var t := Launched(s, us, repeating);
      && t.started && t.counter == 0 && t.repeating == repeating && t.hasCallback == s.hasCallback && t.fired == s.fired
      && t.limit == Limit(us) < TWO_16 && (t.limit > 0 <==> us > MAX_OS_TIMER_INTERVAL_US)
      && t.os == Armed(Period(Interval(us)), t.limit > 0 || repeating)
  {
    IntervalReady(us);
    hide Whole, Interval, Limit, Divisible, Period;
  }

  /** A repeating timer fires once every Whole(us) expiries, for ever. */
  lemma RepeatingFires(s: State, us: nat, n: nat)
    requires !s.started && s.hasCallback && 0 < us && Whole(us) < TWO_16
    ensures Divisible(us) && Expiries(Launched(s, us, true), n).After?
    ensures Expiries(Launched(s, us, true), n).s.fired == s.fired + n / Whole(us)
  {
    LaunchedReady(s, us, true);
    AchievedUpTo(us);
    assert Round(Limit(us)) == Whole(us);
    hide *;
    RepeatingExpiries(Launched(s, us, true), n);
  }

  /** A one-shot timer fires at expiry Whole(us), not before, and then never again. */
  lemma OneShotFiresOnce(s: State, us: nat, n: nat)
    requires !s.started && s.hasCallback && 0 < us && Whole(us) < TWO_16
    ensures Divisible(us)
    ensures
      var o := Expiries(Launched(s, us, false), n);
      && (o.After? <==> n <= Whole(us))
      && (o.After? ==> o.s.fired == if n == Whole(us) then s.fired + 1 else s.fired)
      && (n == Whole(us) ==> o.s.os == Disarmed && (!o.s.started <==> us > MAX_OS_TIMER_INTERVAL_US))
  {
    LaunchedReady(s, us, false);
    AchievedUpTo(us);
    assert Round(Limit(us)) == Whole(us);
    hide *;
    OneShotExpiries(Launched(s, us, false), n);
  }

  // ---------------------------------------------------------------- the class

  class Timer {
    var interval: nat
    var longIntervalCounter: nat
    var longIntervalCounterLimit: nat
    var repeating: bool
    var started: bool
    var simpleTimer: Os
    var hasCallback: bool
    var fired: nat  // calls of the callback so far

    function Snapshot(): (s: State)
      reads this
    {
      State(interval, longIntervalCounter, longIntervalCounterLimit, repeating, started, simpleTimer, hasCallback,
        fired)
    }

    constructor ()
      ensures Snapshot() == State(0, 0, 0, false, false, Disarmed, false, 0)
    {
      interval, longIntervalCounter, longIntervalCounterLimit := 0, 0, 0;
      repeating, started, simpleTimer := false, false, Disarmed;
      hasCallback, fired := false, 0;
    }

    method SetCallback(present: bool)
      modifies this
      ensures Snapshot() == CallbackSet(old(Snapshot()), present)
    {
      hasCallback := present;
      if !present {
        Stop();
      }
    }

    method Stop()
      modifies this
      ensures Snapshot() == Stopped(old(Snapshot()))
    {
      if started {
        simpleTimer := Disarmed;
        started := false;
        longIntervalCounter := 0;
      }
    }

    method Start(again: bool)
      modifies this
      ensures Snapshot() == Started(old(Snapshot()), again)
    {
      repeating := again;
      Stop();
      if interval == 0 {
        return;
      }
      if interval > 10000 {
        simpleTimer := Armed(interval / 1000 * 1000, longIntervalCounterLimit > 0 || again);
      } else {
        simpleTimer := Armed(interval, again);
      }
      started := true;
    }

    /** Without `ok` the processor stops at a division by zero. */
    method SetIntervalUs(microseconds: nat) returns (ok: bool)
      requires microseconds < TWO_64
      modifies this
      ensures ok <==> Divisible(microseconds)
      ensures Snapshot() == if ok then IntervalSet(old(Snapshot()), microseconds) else old(Snapshot())
    {
      ok := true;
      if microseconds > MAX_OS_TIMER_INTERVAL_US {
        var div := I32(microseconds / MAX_OS_TIMER_INTERVAL_US + 1);
        if div == 0 {
          return false;
        }
        interval := microseconds / Uint64(div) % TWO_32;
        longIntervalCounter := 0;
        longIntervalCounterLimit := div % TWO_16;
      } else {
        interval := microseconds;
        longIntervalCounter := 0;
        longIntervalCounterLimit := 0;
      }
      if started {
        Stop();
        Start(true);
      }
    }

    method SetIntervalMs(milliseconds: nat)
      requires milliseconds < TWO_32
      modifies this
      ensures Divisible(milliseconds * 1000)
      ensures Snapshot() == IntervalSet(old(Snapshot()), milliseconds * 1000)
    {
      MillisecondsAchieved(milliseconds);
      var ok := SetIntervalUs(milliseconds * 1000);
    }

    method Processing()
      modifies this
      ensures Snapshot() == Processed(old(Snapshot()))
    {
      if longIntervalCounterLimit > 0 {
        longIntervalCounter := (longIntervalCounter + 1) % TWO_16;
        if longIntervalCounter < longIntervalCounterLimit {
          return;
        }
        longIntervalCounter := 0;
        if !repeating {
          Stop();
        }
      }
      Tick();
    }

    /** The OS timer runs out and calls back. */
    method Expire()
      requires simpleTimer.Armed?
      modifies this
      ensures Snapshot() == Expired(old(Snapshot()))
    {
      if !simpleTimer.repeating {
        simpleTimer := Disarmed;
      }
      Processing();
    }

    method Tick()
      modifies this
      ensures Snapshot() == Ticked(old(Snapshot()))
    {
      if hasCallback {
        fired := fired + 1;
      } else {
        Stop();
      }
    }
  }
}
