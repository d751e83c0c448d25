/** The burst bound is reached for every number of evictions (src/rate_limit.rs). */
module RateTightness {
  import opened Wrappers
  import opened RateWindow
  import opened RateRuns

  /** A run that never leaves the time `s.window`, and what it has done for `ip` in the window length that ends it. */
  ghost predicate Reached(s: Settings, ip: Ip, states: seq<Table>, events: seq<Event>, t: Table, a: nat, e: nat) {
    && IsRun(s, states, events) && NeverBackwards(events)
    && (forall i | 0 <= i < |events| :: events[i].now <= s.window)
    && states[|events|] == t
    && Admissions(events, |events|, ip, s.window - 1, 2 * s.window - 1) == a
    && Evictions(events, |events|, ip, s.window - 1, 2 * s.window - 1) == e
  }

  lemma {:induction false} CountsOfPrefix(events: seq<Event>, ev: Event, n: nat, ip: Ip, lo: int, hi: int)
    requires n <= |events|
    ensures Admissions(events + [ev], n, ip, lo, hi) == Admissions(events, n, ip, lo, hi)
    ensures Evictions(events + [ev], n, ip, lo, hi) == Evictions(events, n, ip, lo, hi)
  {
    if n > 0 {
      CountsOfPrefix(events, ev, n - 1, ip, lo, hi);
    }
  }

  lemma ExtendReached(s: Settings, ip: Ip, states: seq<Table>, events: seq<Event>, t: Table, a: nat, e: nat, ev: Event,
                      t': Table)
    requires s.window >= 2 && Reached(s, ip, states, events, t, a, e)
    requires ev.now == s.window && ev.outcome.Admitted? && CheckStep(s, t, ev, t')
    ensures Reached(s, ip, states + [t'], events + [ev], t',
                    a + if ev.ip == ip then 1 else 0, e + if ev.evicted == Some(ip) then 1 else 0)
  {
    RunExtends(s, states, events, ev, t');
    CountsOfPrefix(events, ev, |events|, ip, s.window - 1, 2 * s.window - 1);
  }

  // ---------------------------------------------------------------- the tables of such a run

  /** `m` other clients, each checked once at the time `s.window`. */
  function Others(s: Settings, ip: Ip, m: nat): (t: Table)
    ensures ip !in t && |t| == m && forall k | k in t :: t[k] == Entry(s.window, 1) && ip < k <= ip + m
  {
    if m == 0 then map[] else Others(s, ip, m - 1)[ip + m := Entry(s.window, 1)]
  }

  /** The same with `ip`, admitted `count` times. */
  function WithClient(s: Settings, ip: Ip, m: nat, count: u32): (t: Table)
    ensures |t| == m + 1
  {
    Others(s, ip, m)[ip := Entry(s.window, count)]
  }

  lemma NothingIsStale(s: Settings, t: Table)
    requires forall k | k in t :: t[k].start == s.window
    ensures Pruned(s, t, s.window) == t
  {
  }

  /** Another client fits. */
  lemma OtherFits(s: Settings, ip: Ip, m: nat, count: u32)
    requires s.maxRequests > 0 && s.window >= 2 && m + 2 <= s.maxEntries
    ensures CheckStep(s, WithClient(s, ip, m, count), Event(s.window, ip + m + 1, Admitted, None),
                      WithClient(s, ip, m + 1, count))
  {
    var t := WithClient(s, ip, m, count);
    NothingIsStale(s, t);
    assert Entered(s, t, s.window, ip + m + 1) == WithClient(s, ip, m + 1, count);
  }

  /** One client too many evicts `ip`, whose window is as old as any. */
  lemma OtherEvicts(s: Settings, ip: Ip, m: nat, count: u32)
    requires s.maxRequests > 0 && s.window >= 2 && m + 1 == s.maxEntries
    ensures CheckStep(s, WithClient(s, ip, m, count), Event(s.window, ip + m + 1, Admitted, Some(ip)),
                      Others(s, ip, m + 1))
  {
    var t := WithClient(s, ip, m, count);
    NothingIsStale(s, t);
    var others := Others(s, ip, m + 1);
    var entered := Entered(s, t, s.window, ip + m + 1);
    assert entered == others[ip := Entry(s.window, count)];
    assert |entered| == m + 2 && entered - {ip} == others;
  }

  /** `ip` comes back, and the last of the others goes. */
  lemma ClientReturns(s: Settings, ip: Ip, m: nat)
    requires s.maxRequests > 0 && s.window >= 2 && m + 1 == s.maxEntries
    ensures CheckStep(s, Others(s, ip, m + 1), Event(s.window, ip, Admitted, Some(ip + m + 1)), WithClient(s, ip, m, 1))
  {
    var t := Others(s, ip, m + 1);
    NothingIsStale(s, t);
    var entered := Entered(s, t, s.window, ip);
    assert entered == t[ip := Entry(s.window, 1)];
    assert ip + m + 1 !in Others(s, ip, m);
    assert entered - {ip + m + 1} == WithClient(s, ip, m, 1);
  }

  lemma ClientCounts(s: Settings, ip: Ip, m: nat, count: u32)
    requires s.window >= 2 && m + 1 == s.maxEntries && count < s.maxRequests
    ensures CheckStep(s, WithClient(s, ip, m, count), Event(s.window, ip, Admitted, None),
                      WithClient(s, ip, m, count + 1))
  {
    var t := WithClient(s, ip, m, count);
    NothingIsStale(s, t);
    assert Entered(s, t, s.window, ip) == WithClient(s, ip, m, count + 1);
  }

  // ---------------------------------------------------------------- the run

  /** Twice the limit less one, then others until the table is full. */
  lemma {:induction false} FullTable(s: Settings, ip: Ip, m: nat) returns (states: seq<Table>, events: seq<Event>)
    requires s.maxRequests > 0 && s.window >= 2 && m + 1 <= s.maxEntries
    ensures Reached(s, ip, states, events, WithClient(s, ip, m, s.maxRequests), 2 * s.maxRequests as nat - 1, 0)
    decreases m
  {
    if m == 0 {
      states, events := BurstBoundIsReached(s, ip);
      assert states[|events|] == WithClient(s, ip, 0, s.maxRequests);
    } else {
      states, events := FullTable(s, ip, m - 1);
      var ev, t' := Event(s.window, ip + m, Admitted, None), WithClient(s, ip, m, s.maxRequests);
      OtherFits(s, ip, m - 1, s.maxRequests);
      ExtendReached(s, ip, states, events, WithClient(s, ip, m - 1, s.maxRequests), 2 * s.maxRequests as nat - 1, 0,
                    ev, t');
      states, events := states + [t'], events + [ev];
    }
  }

  /** From a table with `ip`: evicted once and admitted `count` times more. */
  lemma {:induction false} OneMoreRound(s: Settings, ip: Ip, m: nat, states: seq<Table>, events: seq<Event>, a: nat,
                                        e: nat, count: u32)
    returns (states': seq<Table>, events': seq<Event>)
    requires s.window >= 2 && m + 1 == s.maxEntries && 1 <= count <= s.maxRequests
    requires Reached(s, ip, states, events, WithClient(s, ip, m, s.maxRequests), a, e)
    ensures Reached(s, ip, states', events', WithClient(s, ip, m, count), a + count as nat, e + 1)
    decreases count
  {
    if count == 1 {
      var evicting := Event(s.window, ip + m + 1, Admitted, Some(ip));
      var returning := Event(s.window, ip, Admitted, Some(ip + m + 1));
      OtherEvicts(s, ip, m, s.maxRequests);
      ExtendReached(s, ip, states, events, WithClient(s, ip, m, s.maxRequests), a, e, evicting, Others(s, ip, m + 1));
      states', events' := states + [Others(s, ip, m + 1)], events + [evicting];
      ClientReturns(s, ip, m);
      ExtendReached(s, ip, states', events', Others(s, ip, m + 1), a, e + 1, returning, WithClient(s, ip, m, 1));
      states', events' := states' + [WithClient(s, ip, m, 1)], events' + [returning];
    } else {
      states', events' := OneMoreRound(s, ip, m, states, events, a, e, count - 1);
      var ev, t' := Event(s.window, ip, Admitted, None), WithClient(s, ip, m, count);
      ClientCounts(s, ip, m, count - 1);
      ExtendReached(s, ip, states', events', WithClient(s, ip, m, count - 1), a + (count - 1) as nat, e + 1, ev, t');
      states', events' := states' + [t'], events' + [ev];
    }
  }

  /** The burst bound is exact for every number of evictions: for all settings with a window of two nanoseconds or
      more, some run evicts one client that often within one window length and admits it there as often as the bound
      allows. */
  lemma {:induction false} EvictionBoundIsReached(s: Settings, ip: Ip, evictions: nat)
    returns (states: seq<Table>, events: seq<Event>)
    requires s.maxRequests > 0 && s.window >= 2 && s.maxEntries >= 1
    ensures IsRun(s, states, events) && NeverBackwards(events)
    ensures Admissions(events, |events|, ip, s.window - 1, 2 * s.window - 1)
            == s.maxRequests as nat * (2 + evictions) - 1
    ensures Evictions(events, |events|, ip, s.window - 1, 2 * s.window - 1) == evictions
    ensures Reached(s, ip, states, events, WithClient(s, ip, s.maxEntries - 1, s.maxRequests),
                    s.maxRequests as nat * (2 + evictions) - 1, evictions)
    decreases evictions
  {
    if evictions == 0 {
      states, events := FullTable(s, ip, s.maxEntries - 1);
    } else {
      states, events := EvictionBoundIsReached(s, ip, evictions - 1);
      states, events := OneMoreRound(s, ip, s.maxEntries - 1, states, events,
                                     s.maxRequests as nat * (1 + evictions) - 1, evictions - 1, s.maxRequests);
      assert s.maxRequests as nat * (2 + evictions) == s.maxRequests as nat * (1 + evictions) + s.maxRequests as nat;
    }
  }
}
