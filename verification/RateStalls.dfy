/** Bursts under interleaving (src/rate_limit.rs): what a task that stalls between its clock reading and its locked step
    can add to the bound of the sequential limiter. */
module RateStalls {
  import opened Wrappers
  import opened RateWindow
  import opened RateRuns
  import opened RateThreads

  // ---------------------------------------------------------------- executions with their steps named

  datatype Action =
    | Arrives(ip: Ip)
    | Reads(i: nat, now: int)
    | Prunes(i: nat, now: int)
    | Enters(i: nat, now: int)
    | Tests(i: nat)
    | Scans(i: nat)
    | Removes(i: nat, victim: Ip)

  ghost predicate Does(s: Settings, a: State, act: Action, b: State) {
    match act
    case Arrives(ip) => Arrive(a, ip, b)
    case Reads(i, now) => i < |a.tasks| && a.tasks[i].phase.Start? && ReadClock(a, i, now, b)
    case Prunes(i, now) => i < |a.tasks| && a.tasks[i].phase == Clocked(now) && Prune(s, a, i, now, b)
    case Enters(i, now) => i < |a.tasks| && a.tasks[i].phase == Ready(now) && Enter(s, a, i, now, b)
    case Tests(i) =>
      i < |a.tasks| && (a.tasks[i].phase.FirstTest? || a.tasks[i].phase.LoopTest?) && Step(s, a, i, b)
    case Scans(i) =>
      i < |a.tasks| && (a.tasks[i].phase.FirstScan? || a.tasks[i].phase.FallbackScan?) && Step(s, a, i, b)
    case Removes(i, v) => i < |a.tasks| && a.tasks[i].phase == Removing(v) && Remove(a, i, v, b)
  }

  /** The action of a step. */
  lemma StepIsAnAction(s: Settings, a: State, i: nat, b: State) returns (act: Action)
    requires Step(s, a, i, b)
    ensures Does(s, a, act, b)
  {
    match a.tasks[i].phase {
      case Start =>
        var now :| ReadClock(a, i, now, b);
        act := Reads(i, now);
      case Clocked(now) => act := Prunes(i, now);
      case Ready(now) => act := Enters(i, now);
      case FirstTest => act := Tests(i);
      case LoopTest => act := Tests(i);
      case FirstScan => act := Scans(i);
      case FallbackScan => act := Scans(i);
      case Removing(v) => act := Removes(i, v);
    }
  }

  lemma ActionIsAStep(s: Settings, a: State, act: Action, b: State)
    requires Does(s, a, act, b)
    ensures Next(s, a, b)
  {
    if act.Arrives? {
      assert NewTask(a, b);
    } else {
      assert Step(s, a, act.i, b);
    }
  }

  ghost predicate DoesAt(s: Settings, states: seq<State>, actions: seq<Action>, k: nat)
    requires |states| == |actions| + 1 && k < |actions|
  {
    Does(s, states[k], actions[k], states[k + 1])
  }

  ghost predicate IsTrace(s: Settings, states: seq<State>, actions: seq<Action>) {
    && |states| == |actions| + 1 && states[0] == INITIAL
    && forall k | 0 <= k < |actions| :: DoesAt(s, states, actions, k)
  }

  /** Every execution has a trace, and every trace is one of an execution. */
  lemma {:induction false} TraceOfExecution(s: Settings, states: seq<State>) returns (actions: seq<Action>)
    requires IsExecution(s, states)
    ensures IsTrace(s, states, actions)
  {
    if |states| == 1 {
      actions := [];
    } else {
      var n := |states| - 1;
      var before := states[..n];
      assert forall k | 0 <= k < n - 1 :: NextAt(s, states, k) ==> NextAt(s, before, k);
      actions := TraceOfExecution(s, before);
      assert NextAt(s, states, n - 1);
      var act := NextIsAnAction(s, states[n - 1], states[n]);
      forall k | 0 <= k < n ensures DoesAt(s, states, actions + [act], k) {
        if k < n - 1 {
          assert DoesAt(s, before, actions, k);
        }
      }
      actions := actions + [act];
    }
  }

  lemma NextIsAnAction(s: Settings, a: State, b: State) returns (act: Action)
    requires Next(s, a, b)
    ensures Does(s, a, act, b)
  {
    if Advance(s, a, b) {
      var i :| Step(s, a, i, b);
      act := StepIsAnAction(s, a, i, b);
    } else {
      var ip :| Arrive(a, ip, b);
      act := Arrives(ip);
    }
  }

  lemma TraceIsExecution(s: Settings, states: seq<State>, actions: seq<Action>)
    requires IsTrace(s, states, actions)
    ensures IsExecution(s, states)
  {
    forall k | 0 <= k < |states| - 1 ensures NextAt(s, states, k) {
      assert DoesAt(s, states, actions, k);
      ActionIsAStep(s, states[k], actions[k], states[k + 1]);
    }
  }

  // ---------------------------------------------------------------- what is counted

  function After(latest: Option<int>, act: Action): Option<int> {
    if act.Prunes? || act.Enters? then Some(if latest.Some? && latest.value > act.now then latest.value else act.now)
    else latest
  }

  /** The latest reading by which the table has been pruned or entered. */
  function Latest(actions: seq<Action>, n: nat): Option<int>
    requires n <= |actions|
  {
    if n == 0 then None else After(Latest(actions, n - 1), actions[n - 1])
  }

  predicate Reached(latest: Option<int>, t: int) {
    latest.Some? && latest.value >= t
  }

  /** The locked step of a check of `ip`. */
  predicate Checks(a: State, act: Action, ip: Ip) {
    act.Enters? && act.i < |a.tasks| && a.tasks[act.i].ip == ip
  }

  predicate AdmitsIn(s: Settings, a: State, act: Action, ip: Ip, lo: int) {
    Checks(a, act, ip) && lo <= act.now < lo + s.window && Touch(s, Lookup(a.table, ip), act.now).1.Admitted?
  }

  predicate EvictsIn(s: Settings, a: State, act: Action, ip: Ip, lo: int, latest: Option<int>) {
    act.Removes? && act.victim == ip && ip in a.table && Reached(latest, lo) && !Reached(latest, lo + s.window)
  }

  /** A task that stalled: its locked step comes after the table has moved past its reading, and past `lo`. */
  predicate IsLate(a: State, act: Action, ip: Ip, lo: int, latest: Option<int>) {
    Checks(a, act, ip) && Reached(latest, lo) && act.now < latest.value
  }

  function TraceAdmissions(s: Settings, states: seq<State>, actions: seq<Action>, n: nat, ip: Ip, lo: int): nat
    requires |states| == |actions| + 1 && n <= |actions|
  {
    if n == 0 then 0
    else TraceAdmissions(s, states, actions, n - 1, ip, lo)
         + if AdmitsIn(s, states[n - 1], actions[n - 1], ip, lo) then 1 else 0
  }

  function TraceEvictions(s: Settings, states: seq<State>, actions: seq<Action>, n: nat, ip: Ip, lo: int): nat
    requires |states| == |actions| + 1 && n <= |actions|
  {
    if n == 0 then 0
    else TraceEvictions(s, states, actions, n - 1, ip, lo)
         + if EvictsIn(s, states[n - 1], actions[n - 1], ip, lo, Latest(actions, n - 1)) then 1 else 0
  }

  function TraceLateSteps(states: seq<State>, actions: seq<Action>, n: nat, ip: Ip, lo: int): nat
    requires |states| == |actions| + 1 && n <= |actions|
  {
    if n == 0 then 0
    else TraceLateSteps(states, actions, n - 1, ip, lo)
         + if IsLate(states[n - 1], actions[n - 1], ip, lo, Latest(actions, n - 1)) then 1 else 0
  }

  // ---------------------------------------------------------------- the bound

  /** What one action does to one client's entry. */
  lemma EntryAfter(s: Settings, a: State, act: Action, b: State, ip: Ip)
    requires Does(s, a, act, b)
    ensures Lookup(b.table, ip) ==
            if act.Prunes? then Lookup(Pruned(s, a.table, act.now), ip)
            else if Checks(a, act, ip) then Some(Touch(s, Lookup(a.table, ip), act.now).0)
            else if act.Removes? && act.victim == ip then None
            else Lookup(a.table, ip)
  {
  }

  /** Entries are counted within the limit and were opened by a reading the table has reached. */
  ghost predicate IsSound(s: Settings, stored: Option<Entry>, latest: Option<int>) {
    stored.Some? ==> 1 <= stored.value.count <= s.maxRequests && Reached(latest, stored.value.start)
  }

  lemma {:induction false} TraceEntriesAreSound(s: Settings, states: seq<State>, actions: seq<Action>, n: nat, ip: Ip)
    requires s.maxRequests > 0 && IsTrace(s, states, actions) && n <= |actions|
    ensures IsSound(s, Lookup(states[n].table, ip), Latest(actions, n))
  {
    if n > 0 {
      TraceEntriesAreSound(s, states, actions, n - 1, ip);
      assert DoesAt(s, states, actions, n - 1);
      EntryAfter(s, states[n - 1], actions[n - 1], states[n], ip);
    }
  }

  /** What one late step can add: the limit less one, and one for a limit of one. */
  function LateCost(s: Settings): nat {
    if s.maxRequests <= 1 then 1 else s.maxRequests as nat - 1
  }

  function LateAllowance(s: Settings, late: nat): nat {
    if late == 0 then 0 else LateCost(s) + LateAllowance(s, late - 1)
  }

  lemma {:induction false} LateAllowanceIsProduct(s: Settings, late: nat)
    ensures LateAllowance(s, late) == late * LateCost(s)
  {
    if late > 0 {
      LateAllowanceIsProduct(s, late - 1);
    }
  }

  lemma AllowanceStep(s: Settings, x: nat)
    ensures Allowance(s, 1 + x) == s.maxRequests as nat + Allowance(s, x)
  {
  }

  lemma LateAllowanceStep(s: Settings, x: nat)
    ensures LateAllowance(s, 1 + x) == LateCost(s) + LateAllowance(s, x)
  {
  }

  /** `a`, `e` and `l` count admissions, evictions and late steps since `lo`. */
  ghost predicate SpentOrLost(s: Settings, stored: Option<Entry>, lo: int, a: nat, e: nat, l: nat) {
    match stored
    case None => a + 1 <= Allowance(s, 1 + e) + LateAllowance(s, l)
    case Some(x) => a + 1 <= Allowance(s, if x.start < lo then e else 1 + e) + LateAllowance(s, l) + x.count as nat
  }

  lemma SpentAfter(s: Settings, st: State, act: Action, st': State, ip: Ip, lo: int, latest: Option<int>, a: nat,
                   e: nat, l: nat)
    requires s.maxRequests > 0 && Does(s, st, act, st') && IsSound(s, Lookup(st.table, ip), latest)
    requires !Reached(After(latest, act), lo + s.window)
    requires SpentOrLost(s, Lookup(st.table, ip), lo, a, e, l)
    requires !Reached(latest, lo) ==> a == 0 && e == 0 && l == 0
    ensures SpentOrLost(s, Lookup(st'.table, ip), lo,
                        a + if AdmitsIn(s, st, act, ip, lo) then 1 else 0,
                        e + if EvictsIn(s, st, act, ip, lo, latest) then 1 else 0,
                        l + if IsLate(st, act, ip, lo, latest) then 1 else 0)
  {
    EntryAfter(s, st, act, st', ip);
    AllowanceStep(s, e);
    AllowanceStep(s, e + 1);
    LateAllowanceStep(s, l);
  }

  lemma LatestGrows(actions: seq<Action>, n: nat)
    requires n < |actions|
    ensures forall t | Reached(Latest(actions, n), t) :: Reached(Latest(actions, n + 1), t)
  {
  }

  /** Until the table reaches a reading, nothing is counted from it on. */
  lemma {:induction false} NothingBeforeReached(s: Settings, states: seq<State>, actions: seq<Action>, n: nat, ip: Ip,
                                                lo: int)
    requires |states| == |actions| + 1 && n <= |actions| && !Reached(Latest(actions, n), lo)
    ensures TraceAdmissions(s, states, actions, n, ip, lo) == 0
    ensures TraceEvictions(s, states, actions, n, ip, lo) == 0 && TraceLateSteps(states, actions, n, ip, lo) == 0
  {
    if n > 0 {
      NothingBeforeReached(s, states, actions, n - 1, ip, lo);
    }
  }

  /** The invariant of a trace inside the interval. */
  ghost predicate SpentAt(s: Settings, states: seq<State>, actions: seq<Action>, n: nat, ip: Ip, lo: int)
    requires |states| == |actions| + 1 && n <= |actions|
  {
    SpentOrLost(s, Lookup(states[n].table, ip), lo, TraceAdmissions(s, states, actions, n, ip, lo),
                TraceEvictions(s, states, actions, n, ip, lo), TraceLateSteps(states, actions, n, ip, lo))
  }

  lemma TraceSpentStep(s: Settings, states: seq<State>, actions: seq<Action>, n: nat, ip: Ip, lo: int)
    requires s.maxRequests > 0 && IsTrace(s, states, actions) && n < |actions|
    requires !Reached(Latest(actions, n + 1), lo + s.window) && SpentAt(s, states, actions, n, ip, lo)
    ensures SpentAt(s, states, actions, n + 1, ip, lo)
  {
    TraceEntriesAreSound(s, states, actions, n, ip);
    if !Reached(Latest(actions, n), lo) {
      NothingBeforeReached(s, states, actions, n, ip, lo);
    }
    assert DoesAt(s, states, actions, n);
    SpentAfter(s, states[n], actions[n], states[n + 1], ip, lo, Latest(actions, n),
               TraceAdmissions(s, states, actions, n, ip, lo), TraceEvictions(s, states, actions, n, ip, lo),
               TraceLateSteps(states, actions, n, ip, lo));
  }

  lemma {:induction false} TraceSpent(s: Settings, states: seq<State>, actions: seq<Action>, n: nat, ip: Ip, lo: int)
    requires s.maxRequests > 0 && IsTrace(s, states, actions) && n <= |actions|
    requires !Reached(Latest(actions, n), lo + s.window)
    ensures SpentAt(s, states, actions, n, ip, lo)
  {
    if n == 0 {
      AllowanceStep(s, 0);
    } else {
      LatestGrows(actions, n - 1);
      TraceSpent(s, states, actions, n - 1, ip, lo);
      TraceSpentStep(s, states, actions, n - 1, ip, lo);
    }
  }

  /** The burst bound in every interleaving: inside one window length a client is admitted fewer times than the limit
      times two and one more for each eviction of it, and the limit less one (or one, for a limit of one) for each of
      its tasks that stalled past a later reading. */
  lemma {:induction false} StalledBurstBound(s: Settings, states: seq<State>, actions: seq<Action>, n: nat, ip: Ip,
                                             lo: int)
    requires s.maxRequests > 0 && IsTrace(s, states, actions) && n <= |actions|
    ensures TraceAdmissions(s, states, actions, n, ip, lo)
            < s.maxRequests as nat * (2 + TraceEvictions(s, states, actions, n, ip, lo))
              + TraceLateSteps(states, actions, n, ip, lo) * LateCost(s)
  {
    AllowanceIsProduct(s, 2 + TraceEvictions(s, states, actions, n, ip, lo));
    LateAllowanceIsProduct(s, TraceLateSteps(states, actions, n, ip, lo));
    AdmissionsFitTheAllowance(s, states, actions, n, ip, lo);
  }

  ghost predicate FitsTheAllowance(s: Settings, states: seq<State>, actions: seq<Action>, n: nat, ip: Ip, lo: int)
    requires |states| == |actions| + 1 && n <= |actions|
  {
    TraceAdmissions(s, states, actions, n, ip, lo)
    < Allowance(s, 2 + TraceEvictions(s, states, actions, n, ip, lo))
      + LateAllowance(s, TraceLateSteps(states, actions, n, ip, lo))
  }

  lemma {:induction false} AdmissionsFitTheAllowance(s: Settings, states: seq<State>, actions: seq<Action>, n: nat,
                                                     ip: Ip, lo: int)
    requires s.maxRequests > 0 && IsTrace(s, states, actions) && n <= |actions|
    ensures FitsTheAllowance(s, states, actions, n, ip, lo)
  {
    if Reached(Latest(actions, n), lo + s.window) {
      AdmissionsFitTheAllowance(s, states, actions, n - 1, ip, lo);
      LaterAdmissionsAreLate(s, states, actions, n, ip, lo);
    } else {
      TraceSpent(s, states, actions, n, ip, lo);
      TraceEntriesAreSound(s, states, actions, n, ip);
      AllowanceStep(s, TraceEvictions(s, states, actions, n, ip, lo));
      AllowanceStep(s, 1 + TraceEvictions(s, states, actions, n, ip, lo));
    }
  }

  /** Once the table has reached the end of the interval, only late steps admit into it. */
  lemma LaterAdmissionsAreLate(s: Settings, states: seq<State>, actions: seq<Action>, n: nat, ip: Ip, lo: int)
    requires s.maxRequests > 0 && |states| == |actions| + 1 && 0 < n <= |actions|
    requires Reached(Latest(actions, n), lo + s.window) && FitsTheAllowance(s, states, actions, n - 1, ip, lo)
    ensures FitsTheAllowance(s, states, actions, n, ip, lo)
  {
    var e, l := TraceEvictions(s, states, actions, n - 1, ip, lo), TraceLateSteps(states, actions, n - 1, ip, lo);
    AllowanceStep(s, 2 + e);
    LateAllowanceStep(s, l);
    if AdmitsIn(s, states[n - 1], actions[n - 1], ip, lo) {
      assert IsLate(states[n - 1], actions[n - 1], ip, lo, Latest(actions, n - 1));
    }
  }

  // ---------------------------------------------------------------- a window of one nanosecond

  lemma SpentAtOnceAfter(s: Settings, st: State, act: Action, st': State, ip: Ip, lo: int, latest: Option<int>, a: nat,
                         e: nat)
    requires s.maxRequests > 0 && s.window == 1
    requires Does(s, st, act, st') && IsSound(s, Lookup(st.table, ip), latest) && !Reached(After(latest, act), lo + 1)
    requires SpentAtOnce(s, Lookup(st.table, ip), lo, a, e)
    requires !Reached(latest, lo) ==> a == 0 && e == 0
    ensures SpentAtOnce(s, Lookup(st'.table, ip), lo,
                        a + if AdmitsIn(s, st, act, ip, lo) then 1 else 0,
                        e + if EvictsIn(s, st, act, ip, lo, latest) then 1 else 0)
  {
    EntryAfter(s, st, act, st', ip);
    AllowanceStep(s, e);
  }

  lemma {:induction false} TraceSpentAtOnce(s: Settings, states: seq<State>, actions: seq<Action>, n: nat, ip: Ip,
                                            lo: int)
    requires s.maxRequests > 0 && s.window == 1 && IsTrace(s, states, actions) && n <= |actions|
    requires !Reached(Latest(actions, n), lo + 1)
    ensures SpentAtOnce(s, Lookup(states[n].table, ip), lo, TraceAdmissions(s, states, actions, n, ip, lo),
                        TraceEvictions(s, states, actions, n, ip, lo))
  {
    if n > 0 {
      LatestGrows(actions, n - 1);
      TraceSpentAtOnce(s, states, actions, n - 1, ip, lo);
      TraceEntriesAreSound(s, states, actions, n - 1, ip);
      if !Reached(Latest(actions, n - 1), lo) {
        NothingBeforeReached(s, states, actions, n - 1, ip, lo);
      }
      assert DoesAt(s, states, actions, n - 1);
      SpentAtOnceAfter(s, states[n - 1], actions[n - 1], states[n], ip, lo, Latest(actions, n - 1),
                       TraceAdmissions(s, states, actions, n - 1, ip, lo),
                       TraceEvictions(s, states, actions, n - 1, ip, lo));
    }
  }

  ghost predicate FitsTheInstant(s: Settings, states: seq<State>, actions: seq<Action>, n: nat, ip: Ip, lo: int)
    requires |states| == |actions| + 1 && n <= |actions|
  {
    TraceAdmissions(s, states, actions, n, ip, lo)
    <= Allowance(s, 1 + TraceEvictions(s, states, actions, n, ip, lo)) + TraceLateSteps(states, actions, n, ip, lo)
  }

  lemma {:induction false} AdmissionsFitTheInstant(s: Settings, states: seq<State>, actions: seq<Action>, n: nat,
                                                   ip: Ip, lo: int)
    requires s.maxRequests > 0 && s.window == 1 && IsTrace(s, states, actions) && n <= |actions|
    ensures FitsTheInstant(s, states, actions, n, ip, lo)
  {
    if Reached(Latest(actions, n), lo + 1) {
      AdmissionsFitTheInstant(s, states, actions, n - 1, ip, lo);
      AllowanceStep(s, 1 + TraceEvictions(s, states, actions, n - 1, ip, lo));
      if AdmitsIn(s, states[n - 1], actions[n - 1], ip, lo) {
        assert IsLate(states[n - 1], actions[n - 1], ip, lo, Latest(actions, n - 1));
      }
    } else {
      TraceSpentAtOnce(s, states, actions, n, ip, lo);
      TraceEntriesAreSound(s, states, actions, n, ip);
      AllowanceStep(s, TraceEvictions(s, states, actions, n, ip, lo));
    }
  }

  /** With a window of one nanosecond every instant admits a client at most the limit, the limit once more for each
      eviction in it, and once more for each of its late steps. */
  lemma StalledInstantBound(s: Settings, states: seq<State>, actions: seq<Action>, n: nat, ip: Ip, lo: int)
    requires s.maxRequests > 0 && s.window == 1 && IsTrace(s, states, actions) && n <= |actions|
    ensures TraceAdmissions(s, states, actions, n, ip, lo)
            <= s.maxRequests as nat * (1 + TraceEvictions(s, states, actions, n, ip, lo))
               + TraceLateSteps(states, actions, n, ip, lo)
  {
    AllowanceIsProduct(s, 1 + TraceEvictions(s, states, actions, n, ip, lo));
    AdmissionsFitTheInstant(s, states, actions, n, ip, lo);
  }

  // ---------------------------------------------------------------- clients whose tasks do not stall

  /** No task of `ip` stalls: each of its first locked steps comes before the table is pruned or entered by a later
      reading. */
  ghost predicate IsPrompt(states: seq<State>, actions: seq<Action>, n: nat, ip: Ip)
    requires |states| == |actions| + 1 && n <= |actions|
  {
    forall k | 0 <= k < n && Checks(states[k], actions[k], ip) :: !Reached(Latest(actions, k), actions[k].now + 1)
  }

  /** The sequential bound survives any interleaving in which no task of the client stalls. */
  lemma PromptBurstBound(s: Settings, states: seq<State>, actions: seq<Action>, n: nat, ip: Ip, lo: int)
    requires s.maxRequests > 0 && IsTrace(s, states, actions) && n <= |actions| && IsPrompt(states, actions, n, ip)
    ensures TraceAdmissions(s, states, actions, n, ip, lo)
            < s.maxRequests as nat * (2 + TraceEvictions(s, states, actions, n, ip, lo))
  {
    StalledBurstBound(s, states, actions, n, ip, lo);
    NoneIsLate(states, actions, n, ip, lo);
  }

  lemma {:induction false} NoneIsLate(states: seq<State>, actions: seq<Action>, n: nat, ip: Ip, lo: int)
    requires |states| == |actions| + 1 && n <= |actions| && IsPrompt(states, actions, n, ip)
    ensures TraceLateSteps(states, actions, n, ip, lo) == 0
  {
    if n > 0 {
      NoneIsLate(states, actions, n - 1, ip, lo);
    }
  }

  // ---------------------------------------------------------------- isolation

  /** The readings of the locked steps of `ip` among the first `n` actions, and what they answered, in order. */
  function ReadingsOf(states: seq<State>, actions: seq<Action>, n: nat, ip: Ip): seq<int>
    requires |states| == |actions| + 1 && n <= |actions|
  {
    if n == 0 then []
    else
      ReadingsOf(states, actions, n - 1, ip)
      + if Checks(states[n - 1], actions[n - 1], ip) then [actions[n - 1].now] else []
  }

  function AnswersIn(s: Settings, states: seq<State>, actions: seq<Action>, n: nat, ip: Ip): seq<Outcome>
    requires |states| == |actions| + 1 && n <= |actions|
  {
    if n == 0 then []
    else
      AnswersIn(s, states, actions, n - 1, ip)
      + if Checks(states[n - 1], actions[n - 1], ip)
        then [Touch(s, Lookup(states[n - 1].table, ip), actions[n - 1].now).1] else []
  }

  /** Action `k` drops the entry of `ip` to make room. */
  ghost predicate Evicts(states: seq<State>, actions: seq<Action>, k: nat, ip: Ip)
    requires |states| == |actions| + 1 && k < |actions|
  {
    actions[k].Removes? && actions[k].victim == ip && ip in states[k].table
  }

  /** The stored entry is the client's own counter; a missing one has run out by the latest reading. */
  ghost predicate IsCounter(s: Settings, stored: Option<Entry>, c: Counter, latest: Option<int>) {
    match stored
    case Some(e) => c == Running(e.start, e.count as nat)
    case None => c.Idle? || Reached(latest, c.since + s.window + 1)
  }

  lemma CounterAfter(s: Settings, st: State, act: Action, st': State, ip: Ip, c: Counter, latest: Option<int>)
    requires Does(s, st, act, st') && IsCounter(s, Lookup(st.table, ip), c, latest)
    requires !(act.Removes? && act.victim == ip && ip in st.table)
    requires Checks(st, act, ip) ==> !Reached(latest, act.now + 1)
    ensures Checks(st, act, ip) ==>
              && Touch(s, Lookup(st.table, ip), act.now).1 == CounterStep(s, c, act.now).1
              && IsCounter(s, Lookup(st'.table, ip), CounterStep(s, c, act.now).0, After(latest, act))
    ensures !Checks(st, act, ip) ==> IsCounter(s, Lookup(st'.table, ip), c, After(latest, act))
  {
    EntryAfter(s, st, act, st', ip);
  }

  /** Isolation in every interleaving: a client that is never evicted and whose tasks never stall is answered, locked
      step by locked step and refusal times included, as by a counter of its own fed only its own readings. */
  lemma {:induction false} PromptClientsAreIsolated(s: Settings, states: seq<State>, actions: seq<Action>, n: nat,
                                                    ip: Ip)
    requires IsTrace(s, states, actions) && n <= |actions| && IsPrompt(states, actions, n, ip)
    requires forall k | 0 <= k < n :: !Evicts(states, actions, k, ip)
    ensures AnswersIn(s, states, actions, n, ip) == CounterRun(s, ReadingsOf(states, actions, n, ip)).1
    ensures IsCounter(s, Lookup(states[n].table, ip), CounterRun(s, ReadingsOf(states, actions, n, ip)).0,
                      Latest(actions, n))
  {
    if n > 0 {
      PromptClientsAreIsolated(s, states, actions, n - 1, ip);
      var before := ReadingsOf(states, actions, n - 1, ip);
      var st, act := states[n - 1], actions[n - 1];
      assert DoesAt(s, states, actions, n - 1) && !Evicts(states, actions, n - 1, ip);
      CounterAfter(s, st, act, states[n], ip, CounterRun(s, before).0, Latest(actions, n - 1));
      if Checks(st, act, ip) {
        CounterRunSnoc(s, before, act.now);
      } else {
        assert ReadingsOf(states, actions, n, ip) == before;
        assert AnswersIn(s, states, actions, n, ip) == AnswersIn(s, states, actions, n - 1, ip);
      }
    }
  }
}
