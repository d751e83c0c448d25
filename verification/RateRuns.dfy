/** Whole runs of the limiter: what a client can get out of it, when a refusal ends, and when
    other clients cannot be noticed. */
module RateRuns {
  import opened Wrappers
  import opened RateWindow

  ghost predicate NeverBackwards(events: seq<Event>) {
    forall i, j | 0 <= i <= j < |events| :: events[i].now <= events[j].now
  }

  // ---------------------------------------------------------------- bursts

  predicate Within(ev: Event, lo: int, hi: int) {
    lo <= ev.now < hi
  }

  /** How many of the first `n` checks admitted `ip` at a time in [lo, hi). */
  function Admissions(events: seq<Event>, n: nat, ip: Ip, lo: int, hi: int): nat
    requires n <= |events|
  {
    if n == 0 then 0
    else
      var ev := events[n - 1];
      Admissions(events, n - 1, ip, lo, hi) + if ev.ip == ip && ev.outcome.Admitted? && Within(ev, lo, hi) then 1 else 0
  }

  /** How many of the first `n` checks evicted `ip` at a time in [lo, hi). */
  function Evictions(events: seq<Event>, n: nat, ip: Ip, lo: int, hi: int): nat
    requires n <= |events|
  {
    if n == 0 then 0
    else
      var ev := events[n - 1];
      Evictions(events, n - 1, ip, lo, hi) + if ev.evicted == Some(ip) && Within(ev, lo, hi) then 1 else 0
  }

  /** Every stored entry has been counted at least once, never beyond the limit, and was opened by then. */
  lemma {:induction false} EntriesAreSound(s: Settings, states: seq<Table>, events: seq<Event>, n: nat, ip: Ip)
    requires IsRun(s, states, events) && NeverBackwards(events) && n <= |events|
    ensures ip in states[n] ==>
              && states[n][ip].count <= s.maxRequests
              && (s.maxRequests > 0 ==> states[n][ip].count >= 1)
              && n > 0 && states[n][ip].start <= events[n - 1].now
  {
    if n > 0 {
      EntriesAreSound(s, states, events, n - 1, ip);
      assert StepAt(s, states, events, n - 1);
      StepOn(s, states[n - 1], events[n - 1], states[n], ip);
    }
  }

  /** `windows` whole limits. */
  function Allowance(s: Settings, windows: nat): nat {
    if windows == 0 then 0 else s.maxRequests as nat + Allowance(s, windows - 1)
  }

  lemma {:induction false} AllowanceIsProduct(s: Settings, windows: nat)
    ensures Allowance(s, windows) == s.maxRequests as nat * windows
  {
    if windows > 0 {
      AllowanceIsProduct(s, windows - 1);
    }
  }

  /** What the stored entry of `ip` says about the requests admitted since `lo`, as long as the
      clock has not left the interval. `a` and `e` count admissions and evictions so far. */
  ghost predicate Spent(s: Settings, stored: Option<Entry>, lo: int, a: nat, e: nat) {
    match stored
    case None => a + 1 <= Allowance(s, 1 + e)
    case Some(entry) =>
      if entry.start < lo then a + 1 <= entry.count as nat
      else a + 1 <= Allowance(s, 1 + e) + entry.count as nat
  }

  lemma SpentStep(s: Settings, t: Table, ev: Event, t': Table, ip: Ip, lo: int, a: nat, e: nat)
    requires s.maxRequests > 0
    requires CheckStep(s, t, ev, t') && ev.now < lo + s.window
    requires ip in t ==> 1 <= t[ip].count <= s.maxRequests && t[ip].start <= ev.now
    requires Spent(s, Lookup(t, ip), lo, a, e)
    requires ev.now < lo ==> a == 0 && e == 0
    ensures Spent(s, Lookup(t', ip), lo,
                  a + if ev.ip == ip && ev.outcome.Admitted? && Within(ev, lo, lo + s.window) then 1 else 0,
                  e + if ev.evicted == Some(ip) && Within(ev, lo, lo + s.window) then 1 else 0)
  {
    StepOn(s, t, ev, t', ip);
    assert Allowance(s, 1 + e) == s.maxRequests as nat + Allowance(s, e);
    assert Allowance(s, 2 + e) == s.maxRequests as nat + Allowance(s, 1 + e);
  }

  lemma {:induction false} NothingBefore(s: Settings, events: seq<Event>, n: nat, ip: Ip, lo: int)
    requires NeverBackwards(events) && n <= |events|
    requires n > 0 ==> events[n - 1].now < lo
    ensures Admissions(events, n, ip, lo, lo + s.window) == 0 && Evictions(events, n, ip, lo, lo + s.window) == 0
  {
    if n > 0 {
      assert n > 1 ==> events[n - 2].now <= events[n - 1].now;
      NothingBefore(s, events, n - 1, ip, lo);
    }
  }

  lemma {:induction false} SpentInvariant(s: Settings, states: seq<Table>, events: seq<Event>, n: nat, ip: Ip, lo: int)
    requires s.maxRequests > 0
    requires IsRun(s, states, events) && NeverBackwards(events) && n <= |events|
    requires n > 0 ==> events[n - 1].now < lo + s.window
    ensures Spent(s, Lookup(states[n], ip), lo,
                  Admissions(events, n, ip, lo, lo + s.window), Evictions(events, n, ip, lo, lo + s.window))
  {
    if n == 0 {
      assert Allowance(s, 1) == s.maxRequests as nat + Allowance(s, 0);
    } else {
      var ev := events[n - 1];
      assert n > 1 ==> events[n - 2].now <= ev.now;
      SpentInvariant(s, states, events, n - 1, ip, lo);
      EntriesAreSound(s, states, events, n - 1, ip);
      if ev.now < lo {
        NothingBefore(s, events, n - 1, ip, lo);
      }
      assert StepAt(s, states, events, n - 1);
      SpentStep(s, states[n - 1], ev, states[n], ip, lo,
                Admissions(events, n - 1, ip, lo, lo + s.window), Evictions(events, n - 1, ip, lo, lo + s.window));
    }
  }

  lemma SpentIsBounded(s: Settings, stored: Option<Entry>, lo: int, a: nat, e: nat)
    requires s.maxRequests > 0 && Spent(s, stored, lo, a, e)
    requires stored.Some? ==> stored.value.count <= s.maxRequests
    ensures a < s.maxRequests as nat * (2 + e)
  {
    AllowanceIsProduct(s, 2 + e);
    assert Allowance(s, 1 + e) == s.maxRequests as nat + Allowance(s, e);
    assert Allowance(s, 2 + e) == s.maxRequests as nat + Allowance(s, 1 + e);
  }

  /** The burst bound: inside any half-open interval one window long, a client is admitted fewer than
      twice the limit, and at most another limit's worth for every time it was evicted in between. */
  lemma {:induction false} BurstBound(s: Settings, states: seq<Table>, events: seq<Event>, n: nat, ip: Ip, lo: int)
    requires s.maxRequests > 0
    requires IsRun(s, states, events) && NeverBackwards(events) && n <= |events|
    ensures Admissions(events, n, ip, lo, lo + s.window)
            < s.maxRequests as nat * (2 + Evictions(events, n, ip, lo, lo + s.window))
  {
    if n > 0 && events[n - 1].now >= lo + s.window {
      BurstBound(s, states, events, n - 1, ip, lo);
    } else {
      SpentInvariant(s, states, events, n, ip, lo);
      if n > 0 {
        EntriesAreSound(s, states, events, n, ip);
      }
      SpentIsBounded(s, Lookup(states[n], ip), lo,
                     Admissions(events, n, ip, lo, lo + s.window), Evictions(events, n, ip, lo, lo + s.window));
    }
  }

  /** A limit of zero admits nobody. */
  lemma {:induction false} NoLimitNoAdmission(s: Settings, states: seq<Table>, events: seq<Event>, n: nat)
    requires s.maxRequests == 0
    requires IsRun(s, states, events) && n <= |events|
    ensures forall i | 0 <= i < n :: events[i].outcome.Refused?
  {
    forall i | 0 <= i < n ensures events[i].outcome.Refused? {
      assert StepAt(s, states, events, i);
    }
  }

  // ---------------------------------------------------------------- the bound is reached

  /** One request, one window less a nanosecond of silence, the rest of the limit, then a whole limit
      at the instant the window runs out. */
  function BurstTime(s: Settings, i: nat): int {
    if i == 0 then 0 else if i < s.maxRequests as nat then s.window - 1 else s.window
  }

  function BurstEvent(s: Settings, ip: Ip, i: nat): Event {
    Event(BurstTime(s, i), ip, Admitted, None)
  }

  function BurstTable(s: Settings, ip: Ip, i: nat): Table
    requires i <= 2 * s.maxRequests as nat
  {
    if i == 0 then map[]
    else if i <= s.maxRequests as nat then map[ip := Entry(0, i as u32)]
    else map[ip := Entry(s.window, (i - s.maxRequests as nat) as u32)]
  }

  lemma BurstStep(s: Settings, ip: Ip, i: nat)
    requires s.maxRequests > 0 && s.window >= 2 && s.maxEntries >= 1
    requires i < 2 * s.maxRequests as nat
    ensures CheckStep(s, BurstTable(s, ip, i), BurstEvent(s, ip, i), BurstTable(s, ip, i + 1))
  {
    var t := BurstTable(s, ip, i);
    var now := BurstTime(s, i);
    var entered := Entered(s, t, now, ip);
    assert Pruned(s, t, now) == t;
    assert Touch(s, Lookup(t, ip), now).1 == Admitted;
    assert entered == BurstTable(s, ip, i + 1);
    assert entered.Keys == {ip};
  }

  lemma {:induction false} BurstCount(s: Settings, ip: Ip, events: seq<Event>, n: nat)
    requires s.maxRequests > 0 && s.window >= 2
    requires |events| == 2 * s.maxRequests as nat && n <= |events|
    requires forall i | 0 <= i < |events| :: events[i] == BurstEvent(s, ip, i)
    ensures Admissions(events, n, ip, s.window - 1, 2 * s.window - 1) == if n == 0 then 0 else n - 1
    ensures Evictions(events, n, ip, s.window - 1, 2 * s.window - 1) == 0
  {
    if n > 0 {
      BurstCount(s, ip, events, n - 1);
    }
  }

  /** The burst bound is exact without evictions: for all settings with a window of two nanoseconds or more, some run
      admits one client 2 * limit - 1 times within one window length. */
  lemma BurstBoundIsReached(s: Settings, ip: Ip) returns (states: seq<Table>, events: seq<Event>)
    requires s.maxRequests > 0 && s.window >= 2 && s.maxEntries >= 1
    ensures IsRun(s, states, events) && NeverBackwards(events)
    ensures Admissions(events, |events|, ip, s.window - 1, 2 * s.window - 1) == 2 * s.maxRequests as nat - 1
    ensures Evictions(events, |events|, ip, s.window - 1, 2 * s.window - 1) == 0
    ensures states[|events|] == map[ip := Entry(s.window, s.maxRequests)]
    ensures forall i | 0 <= i < |events| :: events[i].now <= s.window
  {
    var n := 2 * s.maxRequests as nat;
    events := seq(n, i requires 0 <= i < n => BurstEvent(s, ip, i));
    states := seq(n + 1, i requires 0 <= i < n + 1 => BurstTable(s, ip, i));
    forall i | 0 <= i < n ensures StepAt(s, states, events, i) {
      BurstStep(s, ip, i);
    }
    BurstCount(s, ip, events, n);
  }

  // ---------------------------------------------------------------- when there is a sliding bound

  /** `Spent` for a window of one nanosecond: no window opened before `lo` is still open at `lo`. */
  ghost predicate SpentAtOnce(s: Settings, stored: Option<Entry>, lo: int, a: nat, e: nat) {
    match stored
    case None => a <= Allowance(s, e)
    case Some(entry) => a <= Allowance(s, e) + if entry.start < lo then 0 else entry.count as nat
  }

  lemma SpentAtOnceStep(s: Settings, t: Table, ev: Event, t': Table, ip: Ip, lo: int, a: nat, e: nat)
    requires s.window == 1 && CheckStep(s, t, ev, t') && ev.now <= lo
    requires ip in t ==> t[ip].count <= s.maxRequests && t[ip].start <= ev.now
    requires SpentAtOnce(s, Lookup(t, ip), lo, a, e)
    requires ev.now < lo ==> a == 0 && e == 0
    ensures SpentAtOnce(s, Lookup(t', ip), lo,
                        a + if ev.ip == ip && ev.outcome.Admitted? && Within(ev, lo, lo + 1) then 1 else 0,
                        e + if ev.evicted == Some(ip) && Within(ev, lo, lo + 1) then 1 else 0)
  {
    StepOn(s, t, ev, t', ip);
    assert Allowance(s, 1 + e) == s.maxRequests as nat + Allowance(s, e);
  }

  lemma {:induction false} SpentAtOnceInvariant(s: Settings, states: seq<Table>, events: seq<Event>, n: nat, ip: Ip,
                                                lo: int)
    requires s.window == 1
    requires IsRun(s, states, events) && NeverBackwards(events) && n <= |events|
    requires n > 0 ==> events[n - 1].now <= lo
    ensures SpentAtOnce(s, Lookup(states[n], ip), lo,
                        Admissions(events, n, ip, lo, lo + 1), Evictions(events, n, ip, lo, lo + 1))
  {
    if n > 0 {
      var ev := events[n - 1];
      assert n > 1 ==> events[n - 2].now <= ev.now;
      SpentAtOnceInvariant(s, states, events, n - 1, ip, lo);
      EntriesAreSound(s, states, events, n - 1, ip);
      if ev.now < lo {
        NothingBefore(s, events, n - 1, ip, lo);
      }
      assert StepAt(s, states, events, n - 1);
      SpentAtOnceStep(s, states[n - 1], ev, states[n], ip, lo,
                      Admissions(events, n - 1, ip, lo, lo + 1), Evictions(events, n - 1, ip, lo, lo + 1));
    }
  }

  /** A window of one nanosecond does bound every instant: one limit, and one more for each eviction in it. */
  lemma {:induction false} InstantBound(s: Settings, states: seq<Table>, events: seq<Event>, n: nat, ip: Ip, lo: int)
    requires s.window == 1
    requires IsRun(s, states, events) && NeverBackwards(events) && n <= |events|
    ensures Admissions(events, n, ip, lo, lo + 1) <= s.maxRequests as nat * (1 + Evictions(events, n, ip, lo, lo + 1))
  {
    if n > 0 && events[n - 1].now > lo {
      InstantBound(s, states, events, n - 1, ip, lo);
    } else {
      SpentAtOnceInvariant(s, states, events, n, ip, lo);
      if n > 0 {
        EntriesAreSound(s, states, events, n, ip);
      }
      var e := Evictions(events, n, ip, lo, lo + 1);
      assert Allowance(s, 1 + e) == s.maxRequests as nat + Allowance(s, e);
      AllowanceIsProduct(s, 1 + e);
    }
  }

  lemma {:induction false} EmptyWindowAdmitsNobody(events: seq<Event>, n: nat, ip: Ip, lo: int)
    requires n <= |events|
    ensures Admissions(events, n, ip, lo, lo) == 0
  {
    if n > 0 {
      EmptyWindowAdmitsNobody(events, n - 1, ip, lo);
    }
  }

  lemma {:induction false} RefusedIsNotAdmitted(events: seq<Event>, n: nat, ip: Ip, lo: int, hi: int)
    requires n <= |events| && forall i | 0 <= i < n :: events[i].outcome.Refused?
    ensures Admissions(events, n, ip, lo, hi) == 0
  {
    if n > 0 {
      RefusedIsNotAdmitted(events, n - 1, ip, lo, hi);
    }
  }

  /** Where a run does not evict `ip` within a window length, it admits it there at most `maxRequests` times. */
  ghost predicate HasSlidingBound(s: Settings, states: seq<Table>, events: seq<Event>, ip: Ip, lo: int) {
    Evictions(events, |events|, ip, lo, lo + s.window) == 0
    ==> Admissions(events, |events|, ip, lo, lo + s.window) <= s.maxRequests as nat
  }

  lemma SmallSettingsSlide(s: Settings, states: seq<Table>, events: seq<Event>, ip: Ip, lo: int)
    requires s.maxRequests <= 1 || s.window <= 1
    requires IsRun(s, states, events) && NeverBackwards(events)
    ensures HasSlidingBound(s, states, events, ip, lo)
  {
    if s.maxRequests == 0 {
      NoLimitNoAdmission(s, states, events, |events|);
      RefusedIsNotAdmitted(events, |events|, ip, lo, lo + s.window);
    } else if s.window == 0 {
      EmptyWindowAdmitsNobody(events, |events|, ip, lo);
    } else if s.window == 1 {
      InstantBound(s, states, events, |events|, ip, lo);
    } else {
      BurstBound(s, states, events, |events|, ip, lo);
    }
  }

  /** There is a sliding bound exactly for a limit of at most one or a window of at most one nanosecond: then every run
      keeps it, and otherwise some run breaks it. */
  lemma SlidingBoundExactly(s: Settings)
    requires s.maxEntries >= 1
    ensures (forall states, events, ip, lo | IsRun(s, states, events) && NeverBackwards(events) ::
               HasSlidingBound(s, states, events, ip, lo))
            <==> s.maxRequests <= 1 || s.window <= 1
  {
    if s.maxRequests <= 1 || s.window <= 1 {
      forall states, events, ip, lo | IsRun(s, states, events) && NeverBackwards(events)
        ensures HasSlidingBound(s, states, events, ip, lo)
      {
        SmallSettingsSlide(s, states, events, ip, lo);
      }
    } else {
      var states, events := BurstBoundIsReached(s, 0);
      assert !HasSlidingBound(s, states, events, 0, s.window - 1);
    }
  }

  // ---------------------------------------------------------------- refusals

  /** On any clock, even one that steps back, a refusal's remaining time is not negative, so the one-second
      fallback is dead; it is zero only for a limit and a window of zero, with no stored window ahead of the clock. */
  lemma RefusalsLeaveTime(s: Settings, stored: Option<Entry>, now: int)
    requires Touch(s, stored, now).1.Refused?
    ensures Touch(s, stored, now).1.retryIn == Remaining(s, Opened(s, stored, now), now) >= 0
    ensures Touch(s, stored, now).1.retryIn == 0 <==>
              s.maxRequests == 0 && s.window == 0 && !(stored.Some? && now < stored.value.start)
  {
  }

  /** On any clock, a refusal promises at most a window exactly when its reading is not behind the client's window. */
  lemma PromisesFitTheWindow(s: Settings, t: Table, ev: Event, t': Table)
    requires CheckStep(s, t, ev, t') && ev.outcome.Refused?
    ensures ev.outcome.retryIn <= s.window <==> !(ev.ip in t && ev.now < t[ev.ip].start)
  {
    RefusalsLeaveTime(s, Lookup(Pruned(s, t, ev.now), ev.ip), ev.now);
  }

  /** So in a run a longer promise takes a clock that stepped back: an earlier check of that client read it later. */
  lemma LongPromisesTakeABackwardsClock(s: Settings, states: seq<Table>, events: seq<Event>, i: nat)
    requires IsRun(s, states, events) && i < |events|
    requires events[i].outcome.Refused? && events[i].outcome.retryIn > s.window
    ensures exists k :: 0 <= k < i && events[k].ip == events[i].ip && events[k].now > events[i].now
  {
    assert StepAt(s, states, events, i);
    PromisesFitTheWindow(s, states[i], events[i], states[i + 1]);
    var k := StoredWindowsWereOpened(s, states, events, i, events[i].ip);
  }

  /** And it happens: after a check at 5, one at 0 is told to wait 15 of a window of 10. */
  lemma BackwardsClockOverstatesRetry()
    ensures IsRun(Settings(1, 10, 1), [map[], map[1 := Entry(5, 1)], map[1 := Entry(5, 1)]],
                  [Event(5, 1, Admitted, None), Event(0, 1, Refused(15), None)])
  {
    var s, events := Settings(1, 10, 1), [Event(5, 1, Admitted, None), Event(0, 1, Refused(15), None)];
    var states: seq<Table> := [map[], map[1 := Entry(5, 1)], map[1 := Entry(5, 1)]];
    forall i | 0 <= i < 2 ensures StepAt(s, states, events, i) {
      assert Pruned(s, states[i], events[i].now) == states[i];
      assert Entered(s, states[i], events[i].now, 1) == states[i + 1];
      assert states[i + 1].Keys == {1};
    }
  }

  /** The entry behind a refusal is full and stays until its window runs out. */
  ghost predicate FullUntil(s: Settings, t: Table, ip: Ip, until: int) {
    ip in t && t[ip].count == s.maxRequests && t[ip].start + s.window == until
  }

  lemma RefusalFillsTheWindow(s: Settings, states: seq<Table>, events: seq<Event>, i: nat)
    requires s.maxRequests > 0
    requires IsRun(s, states, events) && NeverBackwards(events) && i < |events|
    requires events[i].outcome.Refused?
    ensures 0 < events[i].outcome.retryIn <= s.window
    ensures FullUntil(s, states[i + 1], events[i].ip, events[i].now + events[i].outcome.retryIn)
  {
    var ip := events[i].ip;
    EntriesAreSound(s, states, events, i, ip);
    assert StepAt(s, states, events, i);
    StepOn(s, states[i], events[i], states[i + 1], ip);
    assert ip in states[i];
    if i > 0 {
      assert events[i - 1].now <= events[i].now;
    }
  }

  /** From a refusal on, and while the client is not evicted, its entry stays full until its time is up,
      and remains or goes, but never restarts, until the client's next check at or after that time. */
  lemma {:induction false} FullWindowStays(s: Settings, states: seq<Table>, events: seq<Event>, i: nat, n: nat, ip: Ip,
                                           until: int)
    requires s.maxRequests > 0
    requires IsRun(s, states, events) && NeverBackwards(events)
    requires i < n <= |events|
    requires FullUntil(s, states[i + 1], ip, until)
    requires forall k | i < k < n :: events[k].evicted != Some(ip)
    requires forall k | i < k < n && events[k].ip == ip :: events[k].now < until
    ensures FullUntil(s, states[n], ip, until) || (ip !in states[n] && events[n - 1].now >= until)
  {
    if n > i + 1 {
      FullWindowStays(s, states, events, i, n - 1, ip, until);
      assert StepAt(s, states, events, n - 1);
      StepOn(s, states[n - 1], events[n - 1], states[n], ip);
      assert events[n - 2].now <= events[n - 1].now;
    }
  }

  /** Refusals are exact: on a clock that never steps back and while the client is not evicted, each of its
      checks before the announced time is refused with the time that is then left, and the first one
      at or after it is admitted. */
  lemma RefusalsAreExact(s: Settings, states: seq<Table>, events: seq<Event>, i: nat, j: nat)
    requires s.maxRequests > 0
    requires IsRun(s, states, events) && NeverBackwards(events) && i < j < |events|
    requires events[i].outcome.Refused? && events[j].ip == events[i].ip
    requires forall k | i < k < j :: events[k].evicted != Some(events[i].ip)
    ensures
      var until := events[i].now + events[i].outcome.retryIn;
      && (events[j].now < until ==> events[j].outcome == Refused(until - events[j].now))
      && (events[j].now >= until && (forall k | i < k < j && events[k].ip == events[i].ip :: events[k].now < until) ==>
            events[j].outcome == Admitted)
  {
    var ip := events[i].ip;
    var until := events[i].now + events[i].outcome.retryIn;
    RefusalFillsTheWindow(s, states, events, i);
    if forall k | i < k < j && events[k].ip == ip :: events[k].now < until {
      FullWindowStays(s, states, events, i, j, ip, until);
      assert StepAt(s, states, events, j);
      StepOn(s, states[j], events[j], states[j + 1], ip);
      assert events[j - 1].now <= events[j].now;
    } else {
      var k :| i < k < j && events[k].ip == ip && events[k].now >= until;
      assert events[k].now <= events[j].now;
    }
  }

  // ---------------------------------------------------------------- isolation

  /** The reference: one client's counter, with no table, no pruning and no other client. */
  datatype Counter = Idle | Running(since: int, used: nat)

  function CounterStep(s: Settings, c: Counter, now: int): (Counter, Outcome) {
    var open := if c.Running? && now < c.since + s.window then c else Running(now, 0);
    if open.used < s.maxRequests as nat then (open.(used := open.used + 1), Admitted)
    else (open, if open.since + s.window >= now then Refused(open.since + s.window - now) else Refused(FALLBACK_NANOS))
  }

  /** The counter after a list of check times, and the answers it gave. */
  function CounterRun(s: Settings, times: seq<int>): (Counter, seq<Outcome>) {
    if times == [] then (Idle, [])
    else
      var (c, answers) := CounterRun(s, times[..|times| - 1]);
      var (c', answer) := CounterStep(s, c, times[|times| - 1]);
      (c', answers + [answer])
  }

  /** The times at which `ip` was checked in the first `n` checks, and what it was told. */
  function TimesOf(events: seq<Event>, n: nat, ip: Ip): seq<int>
    requires n <= |events|
  {
    if n == 0 then []
    else TimesOf(events, n - 1, ip) + if events[n - 1].ip == ip then [events[n - 1].now] else []
  }

  function AnswersTo(events: seq<Event>, n: nat, ip: Ip): seq<Outcome>
    requires n <= |events|
  {
    if n == 0 then []
    else AnswersTo(events, n - 1, ip) + if events[n - 1].ip == ip then [events[n - 1].outcome] else []
  }

  /** The stored entry agrees with the reference counter; a missing one is idle or has run out. */
  ghost predicate Agrees(s: Settings, stored: Option<Entry>, c: Counter, last: int) {
    match stored
    case Some(e) => c == Running(e.start, e.count as nat)
    case None => c.Idle? || c.since + s.window < last
  }

  lemma CounterAgrees(s: Settings, t: Table, ev: Event, t': Table, ip: Ip, c: Counter, last: int)
    requires CheckStep(s, t, ev, t') && last <= ev.now && ev.evicted != Some(ip)
    requires Agrees(s, Lookup(t, ip), c, last)
    ensures ev.ip == ip ==>
              && ev.outcome == CounterStep(s, c, ev.now).1
              && Agrees(s, Lookup(t', ip), CounterStep(s, c, ev.now).0, ev.now)
    ensures ev.ip != ip ==> Agrees(s, Lookup(t', ip), c, ev.now)
  {
    StepOn(s, t, ev, t', ip);
  }

  /** The reading of the last of the first `n` checks. */
  function LastReading(events: seq<Event>, n: nat): int
    requires n <= |events|
  {
    if n > 0 then events[n - 1].now else if |events| > 0 then events[0].now else 0
  }

  /** One client's view: with no eviction of it, the limiter is that client's reference counter,
      answer by answer, retry time by retry time. */
  lemma {:induction false} UnevictedClientsAreIsolated(s: Settings, states: seq<Table>, events: seq<Event>, n: nat,
                                                       ip: Ip)
    requires IsRun(s, states, events) && NeverBackwards(events) && n <= |events|
    requires forall i | 0 <= i < n :: events[i].evicted != Some(ip)
    ensures AnswersTo(events, n, ip) == CounterRun(s, TimesOf(events, n, ip)).1
    ensures Agrees(s, Lookup(states[n], ip), CounterRun(s, TimesOf(events, n, ip)).0, LastReading(events, n))
  {
    if n > 0 {
      UnevictedClientsAreIsolated(s, states, events, n - 1, ip);
      var ev := events[n - 1];
      var before := TimesOf(events, n - 1, ip);
      var c := CounterRun(s, before).0;
      assert LastReading(events, n - 1) <= ev.now;
      assert StepAt(s, states, events, n - 1);
      CounterAgrees(s, states[n - 1], ev, states[n], ip, c, LastReading(events, n - 1));
      if ev.ip == ip {
        CounterRunSnoc(s, before, ev.now);
        assert TimesOf(events, n, ip) == before + [ev.now];
        assert AnswersTo(events, n, ip) == AnswersTo(events, n - 1, ip) + [ev.outcome];
      } else {
        assert TimesOf(events, n, ip) == before;
        assert AnswersTo(events, n, ip) == AnswersTo(events, n - 1, ip);
      }
    }
  }

  lemma CounterRunSnoc(s: Settings, times: seq<int>, now: int)
    ensures CounterRun(s, times + [now]).0 == CounterStep(s, CounterRun(s, times).0, now).0
    ensures CounterRun(s, times + [now]).1 == CounterRun(s, times).1 + [CounterStep(s, CounterRun(s, times).0, now).1]
  {
    assert (times + [now])[..|times|] == times;
  }

  /** The clients checked in the closed window that ends with check `i`. */
  ghost function RecentlySeen(s: Settings, events: seq<Event>, i: nat): set<Ip>
    requires i < |events|
  {
    set k | 0 <= k <= i && events[k].now >= events[i].now - s.window :: events[k].ip
  }

  /** A stored window was opened by one of that client's own checks. */
  lemma {:induction false} StoredWindowsWereOpened(s: Settings, states: seq<Table>, events: seq<Event>, n: nat, ip: Ip)
    returns (k: nat)
    requires IsRun(s, states, events) && n <= |events| && ip in states[n]
    ensures k < n && events[k].ip == ip && events[k].now == states[n][ip].start
  {
    assert StepAt(s, states, events, n - 1);
    StepOn(s, states[n - 1], events[n - 1], states[n], ip);
    if events[n - 1].ip == ip && states[n][ip].start == events[n - 1].now {
      k := n - 1;
    } else {
      k := StoredWindowsWereOpened(s, states, events, n - 1, ip);
    }
  }

  /** Nobody is evicted by a check when the clients seen within its window fit the table. */
  lemma FewClientsEvictNobody(s: Settings, states: seq<Table>, events: seq<Event>, i: nat)
    requires IsRun(s, states, events) && i < |events|
    requires |RecentlySeen(s, events, i)| <= s.maxEntries
    ensures events[i].evicted.None?
  {
    var ev := events[i];
    var entered := Entered(s, states[i], ev.now, ev.ip);
    forall ip | ip in entered ensures ip in RecentlySeen(s, events, i) {
      if ip == ev.ip {
        assert events[i].ip == ip;
      } else {
        var k := StoredWindowsWereOpened(s, states, events, i, ip);
      }
    }
    SubsetSize(entered.Keys, RecentlySeen(s, events, i));
    assert StepAt(s, states, events, i);
  }

  /** Isolation: on a clock that never steps back, if at each check the clients seen within its window
      fit the table, nobody is ever evicted and every client is answered as by a counter of its own. */
  lemma FewClientsAreIsolated(s: Settings, states: seq<Table>, events: seq<Event>)
    requires IsRun(s, states, events) && NeverBackwards(events)
    requires forall i | 0 <= i < |events| :: |RecentlySeen(s, events, i)| <= s.maxEntries
    ensures forall i | 0 <= i < |events| :: events[i].evicted.None?
    ensures forall ip :: AnswersTo(events, |events|, ip) == CounterRun(s, TimesOf(events, |events|, ip)).1
  {
    forall i | 0 <= i < |events| ensures events[i].evicted.None? {
      FewClientsEvictNobody(s, states, events, i);
    }
    forall ip ensures AnswersTo(events, |events|, ip) == CounterRun(s, TimesOf(events, |events|, ip)).1 {
      UnevictedClientsAreIsolated(s, states, events, |events|, ip);
    }
  }

  // ---------------------------------------------------------------- when an eviction is felt

  /** The window lost when check `i` evicted `ip` has run out by check `j`. */
  ghost predicate Outlived(s: Settings, states: seq<Table>, events: seq<Event>, i: nat, j: nat, ip: Ip)
    requires |states| == |events| + 1 && i < |events| && j < |events|
  {
    ip in states[i] && events[j].now >= states[i][ip].start + s.window
  }

  /** Every check of `ip` that follows an eviction of it comes after the lost window would have run out. */
  ghost predicate Spaced(s: Settings, states: seq<Table>, events: seq<Event>, n: nat, ip: Ip)
    requires |states| == |events| + 1 && n <= |events|
  {
    forall i, j | 0 <= i < j < n && events[i].evicted == Some(ip) && events[j].ip == ip ::
      Outlived(s, states, events, i, j, ip)
  }

  /** Check `j` of `ip` gives the answer, and leaves the entry, of the client's own counter. */
  ghost predicate Matches(s: Settings, states: seq<Table>, events: seq<Event>, j: nat, ip: Ip)
    requires |states| == |events| + 1 && j < |events|
  {
    var c := CounterRun(s, TimesOf(events, j, ip)).0;
    && ip in states[j + 1]
    && CounterStep(s, c, events[j].now)
       == (Running(states[j + 1][ip].start, states[j + 1][ip].count as nat), events[j].outcome)
  }

  /** The stored entry is the counter; a missing one has run out by every check of the client among the first `n`. */
  ghost predicate Follows(s: Settings, states: seq<Table>, events: seq<Event>, m: nat, n: nat, ip: Ip, c: Counter)
    requires |states| == |events| + 1 && m <= n <= |events|
  {
    match Lookup(states[m], ip)
    case Some(e) => c == Running(e.start, e.count as nat)
    case None => c.Idle? || forall k | m <= k < n && events[k].ip == ip :: events[k].now >= c.since + s.window
  }

  /** The locked step on a lost or followed entry is the counter's step. */
  lemma FollowedCheckMatches(s: Settings, states: seq<Table>, events: seq<Event>, m: nat, n: nat, ip: Ip, c: Counter)
    requires |states| == |events| + 1 && m < n <= |events| && StepAt(s, states, events, m)
    requires Follows(s, states, events, m, n, ip, c) && events[m].ip == ip
    ensures ip in states[m + 1]
    ensures CounterStep(s, c, events[m].now)
            == (Running(states[m + 1][ip].start, states[m + 1][ip].count as nat), events[m].outcome)
  {
    StepOn(s, states[m], events[m], states[m + 1], ip);
  }

  lemma TimesStep(events: seq<Event>, n: nat, ip: Ip)
    requires n < |events|
    ensures events[n].ip == ip ==> TimesOf(events, n + 1, ip) == TimesOf(events, n, ip) + [events[n].now]
    ensures events[n].ip == ip ==> AnswersTo(events, n + 1, ip) == AnswersTo(events, n, ip) + [events[n].outcome]
    ensures events[n].ip != ip ==> TimesOf(events, n + 1, ip) == TimesOf(events, n, ip)
    ensures events[n].ip != ip ==> AnswersTo(events, n + 1, ip) == AnswersTo(events, n, ip)
  {
  }

  /** Checks of others, prunes and evictions keep a client's entry in step with its counter, as long as its checks are
      spaced. */
  lemma OthersKeepFollowing(s: Settings, states: seq<Table>, events: seq<Event>, m: nat, n: nat, ip: Ip, c: Counter)
    requires IsRun(s, states, events) && NeverBackwards(events) && m < n <= |events|
    requires Spaced(s, states, events, n, ip)
    requires Follows(s, states, events, m, n, ip, c) && events[m].ip != ip
    ensures Follows(s, states, events, m + 1, n, ip, c)
  {
    assert StepAt(s, states, events, m);
    StepOn(s, states[m], events[m], states[m + 1], ip);
    if ip in states[m] && ip !in states[m + 1] {
      forall k | m + 1 <= k < n && events[k].ip == ip ensures events[k].now >= c.since + s.window {
        assert events[m].now <= events[k].now;
        if events[m].evicted == Some(ip) {
          assert Outlived(s, states, events, m, k, ip);
        }
      }
    }
  }

  lemma OwnCheckKeepsFollowing(s: Settings, states: seq<Table>, events: seq<Event>, m: nat, n: nat, ip: Ip)
    requires IsRun(s, states, events) && m < n <= |events| && events[m].ip == ip
    requires Follows(s, states, events, m, n, ip, CounterRun(s, TimesOf(events, m, ip)).0)
    requires AnswersTo(events, m, ip) == CounterRun(s, TimesOf(events, m, ip)).1
    ensures Matches(s, states, events, m, ip)
    ensures Follows(s, states, events, m + 1, n, ip, CounterRun(s, TimesOf(events, m + 1, ip)).0)
    ensures AnswersTo(events, m + 1, ip) == CounterRun(s, TimesOf(events, m + 1, ip)).1
  {
    var before := TimesOf(events, m, ip);
    assert StepAt(s, states, events, m);
    FollowedCheckMatches(s, states, events, m, n, ip, CounterRun(s, before).0);
    TimesStep(events, m, ip);
    CounterRunSnoc(s, before, events[m].now);
  }

  lemma {:induction false} SpacedClientsFollow(s: Settings, states: seq<Table>, events: seq<Event>, m: nat, n: nat,
                                               ip: Ip)
    requires IsRun(s, states, events) && NeverBackwards(events) && m <= n <= |events|
    requires Spaced(s, states, events, n, ip)
    ensures Follows(s, states, events, m, n, ip, CounterRun(s, TimesOf(events, m, ip)).0)
    ensures AnswersTo(events, m, ip) == CounterRun(s, TimesOf(events, m, ip)).1
    ensures forall j | 0 <= j < m && events[j].ip == ip :: Matches(s, states, events, j, ip)
  {
    if m > 0 {
      SpacedClientsFollow(s, states, events, m - 1, n, ip);
      if events[m - 1].ip == ip {
        OwnCheckKeepsFollowing(s, states, events, m - 1, n, ip);
      } else {
        TimesStep(events, m - 1, ip);
        OthersKeepFollowing(s, states, events, m - 1, n, ip, CounterRun(s, TimesOf(events, m, ip)).0);
      }
    }
  }

  /** After an eviction and until the client's next check there is no entry, while its counter stands still. */
  lemma {:induction false} LostUntilChecked(s: Settings, states: seq<Table>, events: seq<Event>, i: nat, j: nat, ip: Ip)
    requires IsRun(s, states, events) && i < j <= |events|
    requires events[i].evicted == Some(ip) && forall k | i < k < j :: events[k].ip != ip
    ensures ip !in states[j] && TimesOf(events, j, ip) == TimesOf(events, i, ip)
  {
    assert StepAt(s, states, events, j - 1);
    StepOn(s, states[j - 1], events[j - 1], states[j], ip);
    TimesStep(events, j - 1, ip);
    if j > i + 1 {
      LostUntilChecked(s, states, events, i, j - 1, ip);
    }
  }

  /** A new window and the lost one never look the same to a check that comes before the lost one's end. */
  lemma LostWindowIsMissed(s: Settings, lost: Entry, now: int)
    requires s.maxRequests > 0 && 1 <= lost.count <= s.maxRequests && lost.start <= now
    ensures var (entry, answer) := Touch(s, None, now);
            var same := (Running(entry.start, entry.count as nat), answer);
            CounterStep(s, Running(lost.start, lost.count as nat), now) == same <==> now >= lost.start + s.window
  {
  }

  /** The first check that comes too early after an eviction differs from the client's own counter. */
  lemma EarlyCheckDiffers(s: Settings, states: seq<Table>, events: seq<Event>, i: nat, j: nat, ip: Ip)
    requires s.maxRequests > 0
    requires IsRun(s, states, events) && NeverBackwards(events) && i < j < |events|
    requires events[i].evicted == Some(ip) && events[j].ip == ip
    requires Spaced(s, states, events, j, ip) && !Outlived(s, states, events, i, j, ip)
    ensures !Matches(s, states, events, j, ip)
  {
    assert forall k | i < k < j :: events[k].now <= events[j].now;
    assert forall k | i < k < j && events[k].ip == ip :: Outlived(s, states, events, i, k, ip);
    LostUntilChecked(s, states, events, i, j, ip);
    SpacedClientsFollow(s, states, events, i, j, ip);
    EntriesAreSound(s, states, events, i, ip);
    assert StepAt(s, states, events, i);
    StepOn(s, states[i], events[i], states[i + 1], ip);
    assert ip in states[i];
    assert i > 0 && events[i - 1].now <= events[j].now;
    assert StepAt(s, states, events, j);
    StepOn(s, states[j], events[j], states[j + 1], ip);
    LostWindowIsMissed(s, states[i][ip], events[j].now);
  }

  lemma {:induction false} UnspacedChecksDiffer(s: Settings, states: seq<Table>, events: seq<Event>, n: nat, ip: Ip)
    requires s.maxRequests > 0
    requires IsRun(s, states, events) && NeverBackwards(events) && n <= |events|
    requires !Spaced(s, states, events, n, ip)
    ensures exists j :: 0 <= j < n && events[j].ip == ip && !Matches(s, states, events, j, ip)
  {
    if !Spaced(s, states, events, n - 1, ip) {
      UnspacedChecksDiffer(s, states, events, n - 1, ip);
    } else {
      var i, j :| 0 <= i < j < n && events[i].evicted == Some(ip) && events[j].ip == ip
                  && !Outlived(s, states, events, i, j, ip);
      EarlyCheckDiffers(s, states, events, i, j, ip);
    }
  }

  /** Evictions are felt exactly when they are too recent: on a clock that never steps back, every check of a client
      gives the answer and leaves the entry of its own counter if and only if each of its checks that follows an
      eviction of it comes after the lost window would have run out. */
  lemma {:induction false} EvictionsAreFeltExactlyWhenEarly(s: Settings, states: seq<Table>, events: seq<Event>,
                                                            n: nat, ip: Ip)
    requires s.maxRequests > 0
    requires IsRun(s, states, events) && NeverBackwards(events) && n <= |events|
    ensures Spaced(s, states, events, n, ip) <==>
            forall j | 0 <= j < n && events[j].ip == ip :: Matches(s, states, events, j, ip)
    ensures Spaced(s, states, events, n, ip) ==> AnswersTo(events, n, ip) == CounterRun(s, TimesOf(events, n, ip)).1
  {
    if Spaced(s, states, events, n, ip) {
      SpacedClientsFollow(s, states, events, n, n, ip);
    } else {
      UnspacedChecksDiffer(s, states, events, n, ip);
    }
  }

  const CROWDED_OUT: Settings := Settings(1, 10, 1)

  function CrowdedEvents(): seq<Event> {
    [Event(0, 1, Admitted, None), Event(9, 2, Admitted, Some(1)), Event(9, 1, Admitted, Some(2)),
     Event(10, 1, Refused(9), None)]
  }

  function CrowdedTables(): seq<Table> {
    [map[], map[1 := Entry(0, 1)], map[2 := Entry(9, 1)], map[1 := Entry(9, 1)], map[1 := Entry(9, 1)]]
  }

  lemma CrowdedStep(i: nat)
    requires i < 4
    ensures CheckStep(CROWDED_OUT, CrowdedTables()[i], CrowdedEvents()[i], CrowdedTables()[i + 1])
  {
    var s, t, ev := CROWDED_OUT, CrowdedTables()[i], CrowdedEvents()[i];
    assert Pruned(s, t, ev.now) == t;
    var entered := Entered(s, t, ev.now, ev.ip);
    if i == 0 || i == 3 {
      assert entered.Keys == {1};
    } else {
      assert entered.Keys == {1, 2};
      assert entered - {ev.evicted.value} == CrowdedTables()[i + 1];
    }
  }

  lemma CrowdedAnswers()
    ensures TimesOf(CrowdedEvents(), 4, 1) == [0, 9, 10]
    ensures AnswersTo(CrowdedEvents(), 4, 1) == [Admitted, Admitted, Refused(9)]
  {
    var events := CrowdedEvents();
    assert TimesOf(events, 1, 1) == [0] && TimesOf(events, 2, 1) == [0] && TimesOf(events, 3, 1) == [0, 9];
    assert AnswersTo(events, 1, 1) == [Admitted] && AnswersTo(events, 2, 1) == [Admitted];
    assert AnswersTo(events, 3, 1) == [Admitted, Admitted];
  }

  lemma CounterRunExtends(s: Settings, times: seq<int>, now: int, c: Counter, answers: seq<Outcome>, c': Counter,
                          a: Outcome)
    requires CounterRun(s, times) == (c, answers) && CounterStep(s, c, now) == (c', a)
    ensures CounterRun(s, times + [now]) == (c', answers + [a])
  {
    CounterRunSnoc(s, times, now);
  }

  lemma UncrowdedAnswers()
    ensures CounterRun(CROWDED_OUT, [0, 9, 10]).1 == [Admitted, Refused(1), Admitted]
  {
    var s := CROWDED_OUT;
    assert [] + [0] == [0] && [0] + [9] == [0, 9] && [0, 9] + [10] == [0, 9, 10];
    assert [] + [Admitted] == [Admitted] && [Admitted] + [Refused(1)] == [Admitted, Refused(1)];
    CounterRunExtends(s, [], 0, Idle, [], Running(0, 1), Admitted);
    CounterRunExtends(s, [0], 9, Running(0, 1), [Admitted], Running(0, 1), Refused(1));
    CounterRunExtends(s, [0, 9], 10, Running(0, 1), [Admitted, Refused(1)], Running(10, 1), Admitted);
  }

  /** Evictions do not only loosen the limiter: here client 1, evicted once, is admitted early and then refused
      at a time when a counter of its own would have admitted it. */
  lemma EvictionCanRefuseLater()
    ensures IsRun(CROWDED_OUT, CrowdedTables(), CrowdedEvents()) && NeverBackwards(CrowdedEvents())
    ensures TimesOf(CrowdedEvents(), 4, 1) == [0, 9, 10]
    ensures AnswersTo(CrowdedEvents(), 4, 1) == [Admitted, Admitted, Refused(9)]
    ensures CounterRun(CROWDED_OUT, [0, 9, 10]).1 == [Admitted, Refused(1), Admitted]
  {
    forall i | 0 <= i < 4 ensures StepAt(CROWDED_OUT, CrowdedTables(), CrowdedEvents(), i) {
      CrowdedStep(i);
    }
    CrowdedAnswers();
    UncrowdedAnswers();
  }
}
