/** One client's window and one check of the per-IP limiter (src/rate_limit.rs), as values.
    The sequential limiter, its runs and the interleaved limiter all build on these. */
module RateWindow {
  import opened Wrappers

  /** Addresses are only ever compared for equality. */
  type Ip = nat

  /** The source's counter width; an overflowing increment would not verify. */
  newtype u32 = x: int | 0 <= x < 0x1_0000_0000

  /** Times and durations are whole nanoseconds. */
  datatype Settings = Settings(maxRequests: u32, window: nat, maxEntries: nat)

  datatype Entry = Entry(start: int, count: u32)

  type Table = map<Ip, Entry>

  datatype Outcome = Admitted | Refused(retryIn: nat)

  /** One completed check: the clock reading, the client, the answer and what was evicted. */
  datatype Event = Event(now: int, ip: Ip, outcome: Outcome, evicted: Option<Ip>)

  /** The one second a refusal reports when the remaining time is negative. */
  const FALLBACK_NANOS: nat := 1_000_000_000

  function RetryIn(remaining: int): nat {
    if 0 <= remaining then remaining else FALLBACK_NANOS
  }

  function Lookup(t: Table, ip: Ip): Option<Entry> {
    if ip in t then Some(t[ip]) else None
  }

  /** The entry a check works on: the stored one, or a new window when there is none or it has run out. */
  function Opened(s: Settings, stored: Option<Entry>, now: int): Entry {
    match stored
    case None => Entry(now, 0)
    case Some(e) => if now - e.start >= s.window then Entry(now, 0) else e
  }

  /** The time left in the window a check works on. */
  function Remaining(s: Settings, e: Entry, now: int): int {
    s.window - (now - e.start)
  }

  /** The locked step of a check: the entry it leaves and the answer it gives. */
  function Touch(s: Settings, stored: Option<Entry>, now: int): (Entry, Outcome) {
    var e := Opened(s, stored, now);
    if e.count >= s.maxRequests then (e, Refused(RetryIn(Remaining(s, e, now))))
    else (e.(count := e.count + 1), Admitted)
  }

  /** The entries `prune_stale` keeps. */
  function Pruned(s: Settings, t: Table, now: int): Table {
    map ip | ip in t && t[ip].start >= now - s.window :: t[ip]
  }

  /** Pruning keeps exactly the entries whose window opened at most one window length ago, unchanged. */
  lemma PrunedAre(s: Settings, t: Table, now: int, ip: Ip)
    ensures Lookup(Pruned(s, t, now), ip)
            == if ip in t && now - t[ip].start <= s.window then Some(t[ip]) else None
  {
  }

  /** `victim` has the oldest window of all entries but `spared`. */
  ghost predicate OldestOther(t: Table, spared: Ip, victim: Ip) {
    victim in t && victim != spared && forall k | k in t && k != spared :: t[victim].start <= t[k].start
  }

  /** The table after the locked step, before capacity is enforced. */
  function Entered(s: Settings, t: Table, now: int, ip: Ip): Table {
    var p := Pruned(s, t, now);
    p[ip := Touch(s, Lookup(p, ip), now).0]
  }

  /** One whole check, run alone: a relation, because ties between oldest windows are broken
      by the table's iteration order. */
  ghost predicate CheckStep(s: Settings, t: Table, ev: Event, t': Table) {
    var entered := Entered(s, t, ev.now, ev.ip);
    && ev.outcome == Touch(s, Lookup(Pruned(s, t, ev.now), ev.ip), ev.now).1
    && match ev.evicted
       case None => |entered| <= s.maxEntries && t' == entered
       case Some(v) => |entered| > s.maxEntries && OldestOther(entered, ev.ip, v) && t' == entered - {v}
  }

  /** Check number `i` of a run leads from its table to the next. */
  ghost predicate StepAt(s: Settings, states: seq<Table>, events: seq<Event>, i: nat)
    requires |states| == |events| + 1 && i < |events|
  {
    CheckStep(s, states[i], events[i], states[i + 1])
  }

  /** A run of checks, one after the other, from the empty table. */
  ghost predicate IsRun(s: Settings, states: seq<Table>, events: seq<Event>) {
    && |states| == |events| + 1
    && states[0] == map[]
    && forall i | 0 <= i < |events| :: StepAt(s, states, events, i)
  }

  /** One more check makes a longer run. */
  lemma RunExtends(s: Settings, states: seq<Table>, events: seq<Event>, ev: Event, t': Table)
    requires IsRun(s, states, events) && CheckStep(s, states[|events|], ev, t')
    ensures IsRun(s, states + [t'], events + [ev])
  {
    forall i | 0 <= i < |events| + 1 ensures StepAt(s, states + [t'], events + [ev], i) {
      if i < |events| {
        assert StepAt(s, states, events, i);
      }
    }
  }

  /** What one check does to one client's entry, whoever the check was for. */
  lemma StepOn(s: Settings, t: Table, ev: Event, t': Table, ip: Ip)
    requires CheckStep(s, t, ev, t')
    ensures Lookup(t', ip) ==
            if ev.evicted == Some(ip) then None
            else if ev.ip == ip then Some(Touch(s, Lookup(Pruned(s, t, ev.now), ip), ev.now).0)
            else Lookup(Pruned(s, t, ev.now), ip)
    ensures ev.evicted == Some(ip) ==> ev.ip != ip
  {
  }

  /** Capacity: if the table fits before a check it fits after it, with exactly the excess evicted,
      and the checked client is in it. */
  lemma CheckKeepsCapacity(s: Settings, t: Table, ev: Event, t': Table)
    requires s.maxEntries >= 1 && |t| <= s.maxEntries
    requires CheckStep(s, t, ev, t')
    ensures |t'| <= s.maxEntries && ev.ip in t'
    ensures ev.evicted.Some? ==> |t'| == s.maxEntries && ev.evicted.value in t
  {
    var p := Pruned(s, t, ev.now);
    var entered := Entered(s, t, ev.now, ev.ip);
    SubsetSize(p.Keys, t.Keys);
    assert entered.Keys == p.Keys + {ev.ip};
    if ev.evicted.Some? {
      assert t'.Keys == entered.Keys - {ev.evicted.value};
    }
  }

  lemma {:induction false} SubsetSize<T>(a: set<T>, b: set<T>)
    requires a <= b
    ensures |a| <= |b|
    ensures |a| == |b| ==> a == b
  {
    if a != {} {
      var x :| x in a;
      SubsetSize(a - {x}, b - {x});
      assert a == a - {x} + {x} && b == b - {x} + {x};
    } else {
      assert |b| == 0 ==> b == {};
    }
  }

  /** Capacity over a whole run. */
  lemma {:induction false} RunKeepsCapacity(s: Settings, states: seq<Table>, events: seq<Event>, n: nat)
    requires s.maxEntries >= 1
    requires IsRun(s, states, events) && n <= |events|
    ensures |states[n]| <= s.maxEntries
    ensures n > 0 ==> events[n - 1].ip in states[n]
  {
    if n > 0 {
      RunKeepsCapacity(s, states, events, n - 1);
      assert StepAt(s, states, events, n - 1);
      CheckKeepsCapacity(s, states[n - 1], events[n - 1], states[n]);
    }
  }
}
