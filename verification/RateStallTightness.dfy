/** What stalled tasks do to the burst bound (src/rate_limit.rs): interleavings that reach the bound of `RateStalls`,
    and exactly which settings keep the sequential bound in every interleaving. */
module RateStallTightness {
  import opened Wrappers
  import opened RateWindow
  import opened RateRuns
  import opened RateThreads
  import opened RateStalls

  /** The clock never steps back from one reading to the next, whichever tasks read it. */
  ghost predicate ReadsForward(actions: seq<Action>) {
    forall j, k | 0 <= j <= k < |actions| && actions[j].Reads? && actions[k].Reads? :: actions[j].now <= actions[k].now
  }

  datatype Trace = Trace(states: seq<State>, actions: seq<Action>)

  /** Where a trace ends, by which reading its table was reached, its last clock reading, and what it counts. */
  datatype Tally = Tally(end: State, latest: Option<int>, clock: int, admitted: nat, late: nat)

  /** A trace on a clock that never steps back, and its tally for `ip` in the window length that starts at 0. */
  ghost predicate Counted(s: Settings, ip: Ip, tr: Trace, y: Tally) {
    && IsTrace(s, tr.states, tr.actions) && ReadsForward(tr.actions)
    && (forall k | 0 <= k < |tr.actions| && tr.actions[k].Reads? :: tr.actions[k].now <= y.clock)
    && tr.states[|tr.actions|] == y.end
    && Latest(tr.actions, |tr.actions|) == y.latest && (y.latest.Some? ==> y.latest.value <= y.clock)
    && TraceAdmissions(s, tr.states, tr.actions, |tr.actions|, ip, 0) == y.admitted
    && TraceEvictions(s, tr.states, tr.actions, |tr.actions|, ip, 0) == 0
    && TraceLateSteps(tr.states, tr.actions, |tr.actions|, ip, 0) == y.late
  }

  // ---------------------------------------------------------------- one action more

  predicate ComesBeforeTheTest(a: State, act: Action) {
    act.Arrives? || ((act.Reads? || act.Prunes? || act.Enters?) && act.i < |a.tasks|)
  }

  /** What the steps before the length test do. */
  ghost function Applied(s: Settings, a: State, act: Action): State
    requires ComesBeforeTheTest(a, act)
  {
    match act
    case Arrives(ip) => a.(tasks := a.tasks + [Task(ip, Start, None)])
    case Reads(i, now) => Moved(a, i, Clocked(now))
    case Prunes(i, now) =>
      var kept := Pruned(s, a.table, now);
      Moved(a, i, Ready(now)).(table := kept, discarded := a.discarded + Total(a.table - kept.Keys))
    case Enters(i, now) =>
      var (task, stored) := (a.tasks[i], Lookup(a.table, a.tasks[i].ip));
      var (entry, answer) := Touch(s, stored, now);
      State(a.table[task.ip := entry], a.tasks[i := Task(task.ip, FirstTest, Some(answer))],
            a.admitted + if answer.Admitted? then 1 else 0, a.discarded + ResetLoss(s, stored, now))
    case _ => a
  }

  lemma {:induction false} CountsOfPrefix(s: Settings, tr: Trace, end: State, act: Action, n: nat, ip: Ip)
    requires |tr.states| == |tr.actions| + 1 && n <= |tr.actions|
    ensures Latest(tr.actions + [act], n) == Latest(tr.actions, n)
    ensures TraceAdmissions(s, tr.states + [end], tr.actions + [act], n, ip, 0)
            == TraceAdmissions(s, tr.states, tr.actions, n, ip, 0)
    ensures TraceEvictions(s, tr.states + [end], tr.actions + [act], n, ip, 0)
            == TraceEvictions(s, tr.states, tr.actions, n, ip, 0)
    ensures TraceLateSteps(tr.states + [end], tr.actions + [act], n, ip, 0)
            == TraceLateSteps(tr.states, tr.actions, n, ip, 0)
  {
    if n > 0 {
      CountsOfPrefix(s, tr, end, act, n - 1, ip);
    }
  }

  /** The tally after one action more. */
  ghost function TallyAfter(s: Settings, ip: Ip, y: Tally, act: Action): Tally
    requires ComesBeforeTheTest(y.end, act)
  {
    Tally(Applied(s, y.end, act), After(y.latest, act), if act.Reads? then act.now else y.clock,
          y.admitted + (if AdmitsIn(s, y.end, act, ip, 0) then 1 else 0),
          y.late + if IsLate(y.end, act, ip, 0, y.latest) then 1 else 0)
  }

  lemma Extend(s: Settings, ip: Ip, tr: Trace, y: Tally, act: Action) returns (tr': Trace, y': Tally)
    requires Counted(s, ip, tr, y) && ComesBeforeTheTest(y.end, act)
    requires Does(s, y.end, act, Applied(s, y.end, act))
    requires act.Reads? ==> y.clock <= act.now
    requires act.Prunes? || act.Enters? ==> act.now <= y.clock
    ensures y' == TallyAfter(s, ip, y, act) && Counted(s, ip, tr', y')
  {
    y' := TallyAfter(s, ip, y, act);
    tr' := Trace(tr.states + [y'.end], tr.actions + [act]);
    forall k | 0 <= k < |tr'.actions| ensures DoesAt(s, tr'.states, tr'.actions, k) {
      if k < |tr.actions| {
        assert DoesAt(s, tr.states, tr.actions, k);
      }
    }
    CountsOfPrefix(s, tr, y'.end, act, |tr.actions|, ip);
  }

  lemma Begin(s: Settings, ip: Ip, clock: int) returns (tr: Trace, y: Tally)
    ensures y == Tally(INITIAL, None, clock, 0, 0) && Counted(s, ip, tr, y)
  {
    tr, y := Trace([INITIAL], []), Tally(INITIAL, None, clock, 0, 0);
  }

  // ---------------------------------------------------------------- one task more

  /** A new task reads the clock and prunes, and stalls there. */
  lemma Stall(s: Settings, ip: Ip, tr: Trace, y: Tally, who: Ip, now: int) returns (tr': Trace, y': Tally)
    requires Counted(s, ip, tr, y) && y.clock <= now
    ensures Counted(s, ip, tr', y')
    ensures y' == Tally(y'.end, Some(now), now, y.admitted, y.late)
    ensures y'.end.table == Pruned(s, y.end.table, now)
    ensures y'.end.tasks == y.end.tasks + [Task(who, Ready(now), None)]
  {
    var i := |y.end.tasks|;
    tr', y' := Extend(s, ip, tr, y, Arrives(who));
    tr', y' := Extend(s, ip, tr', y', Reads(i, now));
    tr', y' := Extend(s, ip, tr', y', Prunes(i, now));
  }

  /** The table of a single client. */
  function Only(ip: Ip, stored: Option<Entry>): Table {
    match stored
    case None => map[]
    case Some(e) => map[ip := e]
  }

  /** The locked step of task `i` of the only client. */
  lemma Lock(s: Settings, ip: Ip, tr: Trace, y: Tally, i: nat, now: int, stored: Option<Entry>)
    returns (tr': Trace, y': Tally)
    requires Counted(s, ip, tr, y) && y.end.table == Only(ip, stored)
    requires i < |y.end.tasks| && y.end.tasks[i].ip == ip && y.end.tasks[i].phase == Ready(now)
    requires y.latest.Some? && now <= y.clock
    ensures Counted(s, ip, tr', y')
    ensures y'.end.table == Only(ip, Some(Touch(s, stored, now).0))
    ensures |y'.end.tasks| == |y.end.tasks|
    ensures forall j | 0 <= j < |y.end.tasks| && j != i :: y'.end.tasks[j] == y.end.tasks[j]
    ensures y'.clock == y.clock && y'.latest == After(y.latest, Enters(i, now))
    ensures y'.admitted == y.admitted + if 0 <= now < s.window && Touch(s, stored, now).1.Admitted? then 1 else 0
    ensures y'.late == y.late + if 0 <= y.latest.value && now < y.latest.value then 1 else 0
  {
    assert Lookup(y.end.table, ip) == stored;
    tr', y' := Extend(s, ip, tr, y, Enters(i, now));
  }

  /** A prompt check: a new task does it all at once. */
  lemma Check(s: Settings, ip: Ip, tr: Trace, y: Tally, now: int, stored: Option<Entry>)
    returns (tr': Trace, y': Tally)
    requires Counted(s, ip, tr, y) && y.end.table == Only(ip, stored) && y.clock <= now
    ensures Counted(s, ip, tr', y')
    ensures y'.end.table == Only(ip, Some(Touch(s, stored, now).0))
    ensures y.end.tasks <= y'.end.tasks && y'.clock == now && y'.late == y.late
    ensures y'.admitted == y.admitted + if 0 <= now < s.window && Touch(s, stored, now).1.Admitted? then 1 else 0
  {
    tr', y' := Stall(s, ip, tr, y, ip, now);
    var kept := if stored.Some? && stored.value.start >= now - s.window then stored else None;
    assert y'.end.table == Only(ip, kept);
    tr', y' := Lock(s, ip, tr', y', |y.end.tasks|, now, kept);
  }

  /** `n` prompt checks at once, in a window that is open and has room for them. */
  lemma {:induction false} CheckTimes(s: Settings, ip: Ip, tr: Trace, y: Tally, now: int, e: Entry, n: nat)
    returns (tr': Trace, y': Tally)
    requires Counted(s, ip, tr, y) && y.end.table == Only(ip, Some(e)) && y.clock <= now
    requires e.count as nat + n <= s.maxRequests as nat
    requires n > 0 ==> now - e.start < s.window && 0 <= now < s.window
    ensures Counted(s, ip, tr', y')
    ensures y'.end.table == Only(ip, Some(Entry(e.start, (e.count as nat + n) as u32)))
    ensures y.end.tasks <= y'.end.tasks && y'.late == y.late && y'.admitted == y.admitted + n
    ensures y'.clock == if n == 0 then y.clock else now
    decreases n
  {
    tr', y' := tr, y;
    if n > 0 {
      tr', y' := CheckTimes(s, ip, tr, y, now, e, n - 1);
      tr', y' := Check(s, ip, tr', y', now, Some(Entry(e.start, (e.count as nat + n - 1) as u32)));
    }
  }

  /** A whole limit of prompt checks at once, from a window that has run out or was never opened. */
  lemma CheckAFullLimit(s: Settings, ip: Ip, tr: Trace, y: Tally, now: int, stored: Option<Entry>)
    returns (tr': Trace, y': Tally)
    requires Counted(s, ip, tr, y) && y.end.table == Only(ip, stored) && y.clock <= now
    requires s.maxRequests > 0 && 0 <= now < s.window && (stored.Some? ==> now - stored.value.start >= s.window)
    ensures Counted(s, ip, tr', y')
    ensures y'.end.table == Only(ip, Some(Entry(now, s.maxRequests)))
    ensures y.end.tasks <= y'.end.tasks && y'.clock == now && y'.late == y.late
    ensures y'.admitted == y.admitted + s.maxRequests as nat
  {
    tr', y' := Check(s, ip, tr, y, now, stored);
    tr', y' := CheckTimes(s, ip, tr', y', now, Entry(now, 1), s.maxRequests as nat - 1);
  }

  /** The tasks of `ip` that have pruned with these readings, and wait. */
  function Waiting(ip: Ip, readings: seq<int>): seq<Task> {
    seq(|readings|, i requires 0 <= i < |readings| => Task(ip, Ready(readings[i]), None))
  }

  /** Tasks of `ip` stall, one reading after the other, none of which makes its entry stale. */
  lemma {:induction false} StallAll(s: Settings, ip: Ip, tr: Trace, y: Tally, readings: seq<int>,
                                    stored: Option<Entry>)
    returns (tr': Trace, y': Tally)
    requires Counted(s, ip, tr, y) && y.end.table == Only(ip, stored)
    requires forall i | 0 <= i < |readings| :: y.clock <= readings[i]
    requires forall i, j | 0 <= i <= j < |readings| :: readings[i] <= readings[j]
    requires stored.Some? ==> forall i | 0 <= i < |readings| :: readings[i] - s.window <= stored.value.start
    ensures Counted(s, ip, tr', y')
    ensures y'.end.table == y.end.table && y'.end.tasks == y.end.tasks + Waiting(ip, readings)
    ensures y'.clock == if readings == [] then y.clock else readings[|readings| - 1]
    ensures y'.admitted == y.admitted && y'.late == y.late
  {
    tr', y' := tr, y;
    if readings != [] {
      var before := readings[..|readings| - 1];
      tr', y' := StallAll(s, ip, tr, y, before, stored);
      tr', y' := Stall(s, ip, tr', y', ip, readings[|readings| - 1]);
    }
  }

  // ---------------------------------------------------------------- one late step at a time

  /** From number `first` on there are tasks of `ip` with these readings; those from `from` on still wait. */
  ghost predicate Wait(a: State, ip: Ip, first: nat, from: nat, readings: seq<int>) {
    && first + |readings| <= |a.tasks|
    && forall i | first + from <= i < first + |readings| :: a.tasks[i] == Task(ip, Ready(readings[i - first]), None)
  }

  function LastReadings(s: Settings, late: nat): seq<int> {
    seq(late, _ => s.window - 1)
  }

  /** The most that prompt checks get without eviction within one window length. */
  function PromptMost(s: Settings): nat
    requires s.maxRequests > 0 && s.window > 0
  {
    if s.window == 1 then s.maxRequests as nat else 2 * s.maxRequests as nat - 1
  }

  /** As many prompt admissions as there can be in the interval, while `late` tasks stall with its last reading. */
  lemma PromptBurst(s: Settings, ip: Ip, late: nat) returns (tr: Trace, y: Tally, first: nat)
    requires s.maxRequests > 0 && s.window > 0
    ensures Counted(s, ip, tr, y) && y.admitted == PromptMost(s) && y.late == 0
    ensures y.end.table == Only(ip, Some(Entry(s.window - 1, s.maxRequests))) && y.clock == s.window - 1
    ensures Wait(y.end, ip, first, 0, LastReadings(s, late))
  {
    var stored: Option<Entry> := None;
    tr, y := Begin(s, ip, -1);
    if s.window > 1 {
      tr, y := Check(s, ip, tr, y, -1, None);
      tr, y := CheckTimes(s, ip, tr, y, 0, Entry(-1, 1), s.maxRequests as nat - 1);
      stored := Some(Entry(-1, s.maxRequests));
    }
    first := |y.end.tasks|;
    tr, y := StallAll(s, ip, tr, y, LastReadings(s, late), stored);
    tr, y := CheckAFullLimit(s, ip, tr, y, s.window - 1, stored);
  }

  /** The table is pruned by a later reading, and a stalled task enters with its own: round after round. */
  lemma {:induction false} LateRounds(s: Settings, ip: Ip, other: Ip, late: nat, n: nat)
    returns (tr: Trace, y: Tally, first: nat)
    requires s.maxRequests > 0 && s.window > 0 && n <= late
    ensures Counted(s, ip, tr, y) && y.admitted == PromptMost(s) + n && y.late == n
    ensures y.clock == if n == 0 then s.window - 1 else 2 * s.window
    ensures y.end.table == Only(ip, Some(Entry(s.window - 1, if n == 0 then s.maxRequests else 1)))
    ensures Wait(y.end, ip, first, n, LastReadings(s, late))
    decreases n
  {
    if n == 0 {
      tr, y, first := PromptBurst(s, ip, late);
    } else {
      tr, y, first := LateRounds(s, ip, other, late, n - 1);
      tr, y := Stall(s, ip, tr, y, other, 2 * s.window);
      assert y.end.table == map[];
      tr, y := Lock(s, ip, tr, y, first + n - 1, s.window - 1, None);
    }
  }

  /** Stalled tasks add to the most that prompt checks get: for any limit and any window that is not empty, each late
      step can admit a client once more within one window length, without eviction. */
  lemma LateStepsAddUp(s: Settings, ip: Ip, other: Ip, late: nat) returns (states: seq<State>, actions: seq<Action>)
    requires s.maxRequests > 0 && s.window > 0
    ensures IsTrace(s, states, actions) && ReadsForward(actions)
    ensures TraceAdmissions(s, states, actions, |actions|, ip, 0) == PromptMost(s) + late
    ensures TraceEvictions(s, states, actions, |actions|, ip, 0) == 0
    ensures TraceLateSteps(states, actions, |actions|, ip, 0) == late
  {
    var tr, y, _ := LateRounds(s, ip, other, late, late);
    states, actions := tr.states, tr.actions;
  }

  /** A stalled task breaks the sequential bound: for any limit and any window of two nanoseconds or more, one late step
      is all it takes. */
  lemma StalledTaskBreaksTheBound(s: Settings, ip: Ip, other: Ip) returns (states: seq<State>, actions: seq<Action>)
    requires s.maxRequests > 0 && s.window >= 2
    ensures IsTrace(s, states, actions) && ReadsForward(actions)
    ensures TraceAdmissions(s, states, actions, |actions|, ip, 0) == 2 * s.maxRequests as nat
    ensures TraceEvictions(s, states, actions, |actions|, ip, 0) == 0
    ensures TraceLateSteps(states, actions, |actions|, ip, 0) == 1
  {
    states, actions := LateStepsAddUp(s, ip, other, 1);
  }

  // ---------------------------------------------------------------- which settings keep the sequential bound

  /** The sequential burst bound, on a trace. */
  ghost predicate KeepsTheBound(s: Settings, states: seq<State>, actions: seq<Action>, ip: Ip, lo: int)
    requires |states| == |actions| + 1
  {
    TraceAdmissions(s, states, actions, |actions|, ip, lo)
    < s.maxRequests as nat * (2 + TraceEvictions(s, states, actions, |actions|, ip, lo))
  }

  lemma {:induction false} EmptyWindowCountsNobody(s: Settings, states: seq<State>, actions: seq<Action>, n: nat,
                                                   ip: Ip, lo: int)
    requires s.window == 0 && |states| == |actions| + 1 && n <= |actions|
    ensures TraceAdmissions(s, states, actions, n, ip, lo) == 0
  {
    if n > 0 {
      EmptyWindowCountsNobody(s, states, actions, n - 1, ip, lo);
    }
  }

  lemma EmptyWindowsKeepTheBound(s: Settings, states: seq<State>, actions: seq<Action>, ip: Ip, lo: int)
    requires s.maxRequests > 0 && s.window == 0 && |states| == |actions| + 1
    ensures KeepsTheBound(s, states, actions, ip, lo)
  {
    EmptyWindowCountsNobody(s, states, actions, |actions|, ip, lo);
    var e := TraceEvictions(s, states, actions, |actions|, ip, lo);
    AllowanceIsProduct(s, 2 + e);
    AllowanceStep(s, 1 + e);
  }

  /** The sequential burst bound survives every interleaving exactly when the window is empty, on any clock and on one
      that never steps back alike: with any limit and any window that is not empty, some interleaving breaks it. */
  lemma OnlyEmptyWindowsKeepTheBound(s: Settings)
    requires s.maxRequests > 0
    ensures (forall states, actions, ip, lo | IsTrace(s, states, actions) :: KeepsTheBound(s, states, actions, ip, lo))
            <==> s.window == 0
    ensures (forall states, actions, ip, lo | IsTrace(s, states, actions) && ReadsForward(actions) ::
               KeepsTheBound(s, states, actions, ip, lo))
            <==> s.window == 0
  {
    if s.window == 0 {
      forall states, actions, ip, lo | IsTrace(s, states, actions) ensures KeepsTheBound(s, states, actions, ip, lo) {
        EmptyWindowsKeepTheBound(s, states, actions, ip, lo);
      }
    } else {
      var states, actions := LateStepsAddUp(s, 0, 1, s.maxRequests as nat);
      assert !KeepsTheBound(s, states, actions, 0, 0);
    }
  }

  lemma FewLateStepsKeepTheBound(s: Settings, late: nat, states: seq<State>, actions: seq<Action>, ip: Ip, lo: int)
    requires s.maxRequests > 0 && (late == 0 || s.window == 0 || (s.window == 1 && late < s.maxRequests as nat))
    requires IsTrace(s, states, actions) && TraceLateSteps(states, actions, |actions|, ip, lo) <= late
    ensures KeepsTheBound(s, states, actions, ip, lo)
  {
    var e := TraceEvictions(s, states, actions, |actions|, ip, lo);
    if s.window == 0 {
      EmptyWindowsKeepTheBound(s, states, actions, ip, lo);
    } else if s.window == 1 {
      StalledInstantBound(s, states, actions, |actions|, ip, lo);
      assert s.maxRequests as nat * (2 + e) == s.maxRequests as nat * (1 + e) + s.maxRequests as nat;
    } else {
      StalledBurstBound(s, states, actions, |actions|, ip, lo);
    }
  }

  /** How many late steps it takes: with at most `late` of them the sequential bound survives every interleaving exactly
      when there is none, or the window is empty, or the window is one nanosecond and they are fewer than the limit. On
      a clock that never steps back it is the same. */
  lemma SurvivingLateStepsExactly(s: Settings, late: nat)
    requires s.maxRequests > 0
    ensures (forall states, actions, ip, lo |
               IsTrace(s, states, actions) && TraceLateSteps(states, actions, |actions|, ip, lo) <= late ::
               KeepsTheBound(s, states, actions, ip, lo))
            <==> late == 0 || s.window == 0 || (s.window == 1 && late < s.maxRequests as nat)
    ensures (forall states, actions, ip, lo |
               && IsTrace(s, states, actions) && ReadsForward(actions)
               && TraceLateSteps(states, actions, |actions|, ip, lo) <= late ::
               KeepsTheBound(s, states, actions, ip, lo))
            <==> late == 0 || s.window == 0 || (s.window == 1 && late < s.maxRequests as nat)
  {
    if late == 0 || s.window == 0 || (s.window == 1 && late < s.maxRequests as nat) {
      forall states, actions, ip, lo |
        IsTrace(s, states, actions) && TraceLateSteps(states, actions, |actions|, ip, lo) <= late
        ensures KeepsTheBound(s, states, actions, ip, lo)
      {
        FewLateStepsKeepTheBound(s, late, states, actions, ip, lo);
      }
    } else {
      var states, actions := LateStepsAddUp(s, 0, 1, if s.window == 1 then s.maxRequests as nat else 1);
      assert !KeepsTheBound(s, states, actions, 0, 0);
    }
  }

  // ---------------------------------------------------------------- a limit less one for each late step

  /** The readings of tasks that stall before the interval, two nanoseconds apart. */
  function EarlyReadings(s: Settings, late: nat): seq<int> {
    seq(late, j => 2 * j + 3 - s.window)
  }

  /** A window that opened before the interval is filled in it, while `late` tasks wait. */
  lemma EarlyWindow(s: Settings, ip: Ip, late: nat) returns (tr: Trace, y: Tally, first: nat)
    requires s.maxRequests > 0 && s.window >= 2 * late + 2
    ensures Counted(s, ip, tr, y) && y.admitted == s.maxRequests as nat - 1 && y.late == 0 && y.clock <= 0
    ensures y.end.table == Only(ip, Some(Entry(1 - s.window, s.maxRequests)))
    ensures Wait(y.end, ip, first, 0, EarlyReadings(s, late))
  {
    var running := Entry(1 - s.window, 1);
    tr, y := Begin(s, ip, 1 - s.window);
    tr, y := Check(s, ip, tr, y, 1 - s.window, None);
    first := |y.end.tasks|;
    tr, y := StallAll(s, ip, tr, y, EarlyReadings(s, late), Some(running));
    tr, y := CheckTimes(s, ip, tr, y, 0, running, s.maxRequests as nat - 1);
  }

  /** Just as the window has run out, it is pruned; a stalled task opens it again, two nanoseconds later than before and
      still before the interval, and it is filled once more. */
  lemma EarlyRound(s: Settings, ip: Ip, other: Ip, tr: Trace, y: Tally, i: nat, n: nat)
    returns (tr': Trace, y': Tally)
    requires s.maxRequests > 0 && 0 < n && s.window >= 2 * n + 2 && Counted(s, ip, tr, y) && y.clock <= 2 * n
    requires y.end.table == Only(ip, Some(Entry(2 * n - 1 - s.window, s.maxRequests)))
    requires i < |y.end.tasks| && y.end.tasks[i] == Task(ip, Ready(2 * n + 1 - s.window), None)
    ensures Counted(s, ip, tr', y') && y'.clock == 2 * n
    ensures y'.admitted == y.admitted + s.maxRequests as nat - 1 && y'.late == y.late + 1
    ensures y'.end.table == Only(ip, Some(Entry(2 * n + 1 - s.window, s.maxRequests)))
    ensures |y.end.tasks| <= |y'.end.tasks|
    ensures forall j | i < j < |y.end.tasks| :: y'.end.tasks[j] == y.end.tasks[j]
  {
    var reading := 2 * n + 1 - s.window;
    tr', y' := Stall(s, ip, tr, y, other, 2 * n);
    assert y'.end.table == map[];
    tr', y' := Lock(s, ip, tr', y', i, reading, None);
    tr', y' := CheckTimes(s, ip, tr', y', 2 * n, Entry(reading, 1), s.maxRequests as nat - 1);
  }

  lemma {:induction false} EarlyRounds(s: Settings, ip: Ip, other: Ip, late: nat, n: nat)
    returns (tr: Trace, y: Tally, first: nat)
    requires s.maxRequests > 1 && s.window >= 2 * late + 2 && n <= late
    ensures Counted(s, ip, tr, y) && y.late == n && y.clock <= 2 * n
    ensures y.admitted == s.maxRequests as nat - 1 + LateAllowance(s, n)
    ensures y.end.table == Only(ip, Some(Entry(2 * n + 1 - s.window, s.maxRequests)))
    ensures Wait(y.end, ip, first, n, EarlyReadings(s, late))
    decreases n
  {
    if n == 0 {
      tr, y, first := EarlyWindow(s, ip, late);
    } else {
      tr, y, first := EarlyRounds(s, ip, other, late, n - 1);
      tr, y := EarlyRound(s, ip, other, tr, y, first + n - 1, n);
    }
  }

  /** After all rounds, a whole limit at the end of the interval. */
  lemma LateBurst(s: Settings, ip: Ip, other: Ip, late: nat) returns (tr: Trace, y: Tally)
    requires s.maxRequests > 1 && s.window >= 2 * late + 2
    ensures Counted(s, ip, tr, y) && y.late == late
    ensures y.admitted == 2 * s.maxRequests as nat - 1 + LateAllowance(s, late)
  {
    var first;
    tr, y, first := EarlyRounds(s, ip, other, late, late);
    tr, y := CheckAFullLimit(s, ip, tr, y, s.window - 1, Some(Entry(2 * late + 1 - s.window, s.maxRequests)));
  }

  /** The bound with late steps is exact for every number of them: for any limit and any window of two nanoseconds for
      each late step and two besides, some interleaving without eviction admits a client as often as the bound
      allows. */
  lemma StalledBoundIsReached(s: Settings, ip: Ip, other: Ip, late: nat)
    returns (states: seq<State>, actions: seq<Action>)
    requires s.maxRequests > 0 && s.window >= 2 * late + 2
    ensures IsTrace(s, states, actions) && ReadsForward(actions)
    ensures TraceAdmissions(s, states, actions, |actions|, ip, 0)
            == 2 * s.maxRequests as nat + late * LateCost(s) - 1
    ensures TraceEvictions(s, states, actions, |actions|, ip, 0) == 0
    ensures TraceLateSteps(states, actions, |actions|, ip, 0) == late
  {
    if s.maxRequests == 1 {
      states, actions := LateStepsAddUp(s, ip, other, late);
    } else {
      var tr, y := LateBurst(s, ip, other, late);
      states, actions := tr.states, tr.actions;
      LateAllowanceIsProduct(s, late);
    }
  }
}
