/** Checks by concurrent connection tasks over one shared table (src/rate_limit.rs). One step is one access to
    the clock or the table: the read of the clock, the prune, the block under the entry's lock, each
    length test, each scan and each removal. Between any two steps any other task may move. */
module RateThreads {
  import opened Wrappers
  import opened RateWindow

  datatype Phase =
    | Start
    | Clocked(now: int)
    | Ready(now: int)
    | FirstTest
    | LoopTest
    | FirstScan
    | FallbackScan
    | Removing(victim: Ip)
    | Done

  datatype Task = Task(ip: Ip, phase: Phase, answer: Option<Outcome>)

  /** `admitted` counts admissions so far; `discarded` counts those forgotten by resets, prunes and evictions. */
  datatype State = State(table: Table, tasks: seq<Task>, admitted: nat, discarded: nat)

  /** The admissions the table still remembers. */
  ghost function Total(t: Table): nat {
    if t == map[] then 0 else var k :| k in t; t[k].count as nat + Total(t - {k})
  }

  /** The admissions remembered by an entry that the locked step is about to reset. */
  function ResetLoss(s: Settings, stored: Option<Entry>, now: int): nat {
    if stored.Some? && now - stored.value.start >= s.window then stored.value.count as nat else 0
  }

  ghost predicate Oldest(t: Table, v: Ip) {
    v in t && forall k | k in t :: t[v].start <= t[k].start
  }

  function Moved(a: State, i: nat, phase: Phase): State
    requires i < |a.tasks|
  {
    a.(tasks := a.tasks[i := a.tasks[i].(phase := phase)])
  }

  // ---------------------------------------------------------------- the steps

  ghost predicate ReadClock(a: State, i: nat, now: int, b: State)
    requires i < |a.tasks|
  {
    b == Moved(a, i, Clocked(now))
  }

  ghost predicate Prune(s: Settings, a: State, i: nat, now: int, b: State)
    requires i < |a.tasks|
  {
    var kept := Pruned(s, a.table, now);
    b == Moved(a, i, Ready(now)).(table := kept, discarded := a.discarded + Total(a.table - kept.Keys))
  }

  ghost predicate Enter(s: Settings, a: State, i: nat, now: int, b: State)
    requires i < |a.tasks|
  {
    var task := a.tasks[i];
    var stored := Lookup(a.table, task.ip);
    var (entry, answer) := Touch(s, stored, now);
    b == State(a.table[task.ip := entry],
               a.tasks[i := Task(task.ip, FirstTest, Some(answer))],
               a.admitted + if answer.Admitted? then 1 else 0,
               a.discarded + ResetLoss(s, stored, now))
  }

  ghost predicate TestLength(s: Settings, a: State, i: nat, over: Phase, b: State)
    requires i < |a.tasks|
  {
    b == Moved(a, i, if |a.table| > s.maxEntries then over else Done)
  }

  /** The scan that skips the task's own address. */
  ghost predicate ScanOthers(a: State, i: nat, b: State)
    requires i < |a.tasks|
  {
    var ip := a.tasks[i].ip;
    if a.table.Keys <= {ip} then b == Moved(a, i, FallbackScan)
    else exists v :: OldestOther(a.table, ip, v) && b == Moved(a, i, Removing(v))
  }

  /** The fallback scan over every entry, after which the task never evicts its own. */
  ghost predicate ScanAll(a: State, i: nat, b: State)
    requires i < |a.tasks|
  {
    if a.table == map[] then b == Moved(a, i, Done)
    else exists v :: Oldest(a.table, v) && b == Moved(a, i, if v == a.tasks[i].ip then Done else Removing(v))
  }

  /** Either scan, by the task's phase. */
  ghost predicate Scan(a: State, i: nat, b: State)
    requires i < |a.tasks|
  {
    (a.tasks[i].phase.FirstScan? && ScanOthers(a, i, b)) || (a.tasks[i].phase.FallbackScan? && ScanAll(a, i, b))
  }

  ghost predicate Remove(a: State, i: nat, v: Ip, b: State)
    requires i < |a.tasks|
  {
    b == Moved(a, i, LoopTest).(table := a.table - {v},
                                discarded := a.discarded + if v in a.table then a.table[v].count as nat else 0)
  }

  /** Task `i` takes its next step. */
  ghost predicate Step(s: Settings, a: State, i: nat, b: State) {
    && i < |a.tasks|
    && match a.tasks[i].phase
       case Start => exists now :: ReadClock(a, i, now, b)
       case Clocked(now) => Prune(s, a, i, now, b)
       case Ready(now) => Enter(s, a, i, now, b)
       case FirstTest => TestLength(s, a, i, LoopTest, b)
       case LoopTest => TestLength(s, a, i, FirstScan, b)
       case FirstScan => ScanOthers(a, i, b)
       case FallbackScan => ScanAll(a, i, b)
       case Removing(v) => Remove(a, i, v, b)
       case Done => false
  }

  /** A new connection brings a new task. */
  ghost predicate Arrive(a: State, ip: Ip, b: State) {
    b == a.(tasks := a.tasks + [Task(ip, Start, None)])
  }

  ghost predicate Advance(s: Settings, a: State, b: State) {
    exists i :: Step(s, a, i, b)
  }

  ghost predicate NewTask(a: State, b: State) {
    exists ip :: Arrive(a, ip, b)
  }

  ghost predicate Next(s: Settings, a: State, b: State) {
    Advance(s, a, b) || NewTask(a, b)
  }

  const INITIAL: State := State(map[], [], 0, 0)

  ghost predicate NextAt(s: Settings, states: seq<State>, k: nat)
    requires k + 1 < |states|
  {
    Next(s, states[k], states[k + 1])
  }

  ghost predicate AdvanceAt(s: Settings, states: seq<State>, k: nat)
    requires k + 1 < |states|
  {
    Advance(s, states[k], states[k + 1])
  }

  ghost predicate IsExecution(s: Settings, states: seq<State>) {
    && |states| > 0 && states[0] == INITIAL
    && forall k | 0 <= k < |states| - 1 :: NextAt(s, states, k)
  }

  // ---------------------------------------------------------------- sums over tasks

  function SumBy(tasks: seq<Task>, f: Task -> nat): nat {
    if tasks == [] then 0 else f(tasks[0]) + SumBy(tasks[1..], f)
  }

  lemma {:induction false} SumAppend(tasks: seq<Task>, t: Task, f: Task -> nat)
    ensures SumBy(tasks + [t], f) == SumBy(tasks, f) + f(t)
  {
    if tasks == [] {
      assert tasks + [t] == [t];
    } else {
      SumAppend(tasks[1..], t, f);
      assert (tasks + [t])[1..] == tasks[1..] + [t];
    }
  }

  lemma {:induction false} SumUpdate(tasks: seq<Task>, i: nat, t: Task, f: Task -> nat)
    requires i < |tasks|
    ensures SumBy(tasks[i := t], f) + f(tasks[i]) == SumBy(tasks, f) + f(t)
  {
    if i == 0 {
      assert tasks[0 := t][1..] == tasks[1..];
    } else {
      SumUpdate(tasks[1..], i - 1, t, f);
      assert tasks[i := t][1..] == tasks[1..][i - 1 := t];
    }
  }

  lemma {:induction false} SumAtMost(tasks: seq<Task>, f: Task -> nat, most: nat)
    requires forall t :: f(t) <= most
    ensures SumBy(tasks, f) <= most * |tasks|
  {
    if tasks != [] {
      SumAtMost(tasks[1..], f, most);
    }
  }

  lemma {:induction false} SumMonotone(tasks: seq<Task>, f: Task -> nat, g: Task -> nat)
    requires forall t :: f(t) <= g(t)
    ensures SumBy(tasks, f) <= SumBy(tasks, g)
  {
    if tasks != [] {
      SumMonotone(tasks[1..], f, g);
    }
  }

  lemma {:induction false} SumZero(tasks: seq<Task>, f: Task -> nat)
    requires forall t | t in tasks :: f(t) == 0
    ensures SumBy(tasks, f) == 0
  {
    if tasks != [] {
      SumZero(tasks[1..], f);
    }
  }

  // ---------------------------------------------------------------- sums over the table

  lemma {:induction false} TotalRemove(t: Table, k: Ip)
    requires k in t
    ensures Total(t) == t[k].count as nat + Total(t - {k})
  {
    var c :| c in t && Total(t) == t[c].count as nat + Total(t - {c});
    if c != k {
      TotalRemove(t - {c}, k);
      TotalRemove(t - {k}, c);
      assert t - {c} - {k} == t - {k} - {c};
    }
  }

  lemma {:induction false} TotalSplit(t: Table, kept: Table)
    requires kept.Keys <= t.Keys && forall k | k in kept :: kept[k] == t[k]
    ensures Total(t) == Total(kept) + Total(t - kept.Keys)
    decreases kept.Keys
  {
    if kept == map[] {
      assert t - kept.Keys == t;
    } else {
      var k :| k in kept;
      TotalRemove(t, k);
      TotalRemove(kept, k);
      var t', kept' := t - {k}, kept - {k};
      assert kept'.Keys == kept.Keys - {k} && t'.Keys == t.Keys - {k};
      TotalSplit(t', kept');
      assert t' - kept'.Keys == t - kept.Keys;
    }
  }

  // ---------------------------------------------------------------- safety in every interleaving

  /** Between its locked step and the end of its eviction loop. */
  function InFlight(t: Task): nat {
    if t.phase.FirstTest? || t.phase.LoopTest? || t.phase.FirstScan? || t.phase.FallbackScan? || t.phase.Removing?
    then 1 else 0
  }

  /** In flight and still answerable for an excess entry: a task whose first scan found nobody else
      saw a table of at most one entry, and answers for nothing until it finds a victim. */
  function HoldsSlot(t: Task): nat {
    if t.phase.FallbackScan? then 0 else InFlight(t)
  }

  ghost predicate Safe(s: Settings, a: State) {
    && |a.table| <= s.maxEntries + SumBy(a.tasks, HoldsSlot)
    && (forall t | t in a.tasks && t.phase.Removing? :: t.phase.victim != t.ip)
    && (forall k | k in a.table :: a.table[k].count <= s.maxRequests)
    && a.admitted == Total(a.table) + a.discarded
  }

  lemma MovedTasks(a: State, i: nat, t: Task)
    requires i < |a.tasks|
    ensures forall u | u in a.tasks[i := t] :: u == t || u in a.tasks
  {
  }

  lemma PruneKeepsSafe(s: Settings, a: State, i: nat, now: int, b: State)
    requires Safe(s, a) && i < |a.tasks| && a.tasks[i].phase == Clocked(now) && Prune(s, a, i, now, b)
    ensures Safe(s, b)
  {
    SumUpdate(a.tasks, i, b.tasks[i], HoldsSlot);
    MovedTasks(a, i, b.tasks[i]);
    SubsetSize(b.table.Keys, a.table.Keys);
    TotalSplit(a.table, b.table);
  }

  lemma EnterKeepsSafe(s: Settings, a: State, i: nat, now: int, b: State)
    requires Safe(s, a) && i < |a.tasks| && a.tasks[i].phase == Ready(now) && Enter(s, a, i, now, b)
    ensures Safe(s, b)
  {
    SumUpdate(a.tasks, i, b.tasks[i], HoldsSlot);
    MovedTasks(a, i, b.tasks[i]);
    assert b.table.Keys == a.table.Keys + {a.tasks[i].ip};
    EnterConserves(s, a, i, now, b);
  }

  lemma EnterConserves(s: Settings, a: State, i: nat, now: int, b: State)
    requires i < |a.tasks| && Enter(s, a, i, now, b)
    requires a.admitted == Total(a.table) + a.discarded
    ensures b.admitted == Total(b.table) + b.discarded
  {
    var ip := a.tasks[i].ip;
    TotalRemove(b.table, ip);
    if ip in a.table {
      TotalRemove(a.table, ip);
      assert a.table - {ip} == b.table - {ip};
    } else {
      assert b.table - {ip} == a.table;
    }
  }

  lemma RemoveKeepsSafe(s: Settings, a: State, i: nat, v: Ip, b: State)
    requires Safe(s, a) && i < |a.tasks| && a.tasks[i].phase == Removing(v) && Remove(a, i, v, b)
    ensures Safe(s, b)
  {
    SumUpdate(a.tasks, i, b.tasks[i], HoldsSlot);
    MovedTasks(a, i, b.tasks[i]);
    SubsetSize(b.table.Keys, a.table.Keys);
    if v in a.table {
      TotalRemove(a.table, v);
    } else {
      assert b.table == a.table;
    }
  }

  lemma MoveKeepsSafe(s: Settings, a: State, i: nat, phase: Phase)
    requires Safe(s, a) && i < |a.tasks|
    requires phase.Removing? ==> phase.victim != a.tasks[i].ip
    requires |a.table| <= s.maxEntries || HoldsSlot(a.tasks[i]) <= HoldsSlot(a.tasks[i].(phase := phase))
    ensures Safe(s, Moved(a, i, phase))
  {
    var t := a.tasks[i].(phase := phase);
    SumUpdate(a.tasks, i, t, HoldsSlot);
    MovedTasks(a, i, t);
  }

  lemma ScanKeepsSafe(s: Settings, a: State, i: nat, b: State)
    requires s.maxEntries >= 1
    requires Safe(s, a) && i < |a.tasks|
    requires Scan(a, i, b)
    ensures Safe(s, b)
  {
    if a.table.Keys <= {a.tasks[i].ip} {
      SubsetSize(a.table.Keys, {a.tasks[i].ip});
    }
    MoveKeepsSafe(s, a, i, b.tasks[i].phase);
  }

  lemma StepKeepsSafe(s: Settings, a: State, i: nat, b: State)
    requires s.maxEntries >= 1
    requires Safe(s, a) && Step(s, a, i, b)
    ensures Safe(s, b)
  {
    match a.tasks[i].phase
    case Start => MoveKeepsSafe(s, a, i, b.tasks[i].phase);
    case Clocked(now) => PruneKeepsSafe(s, a, i, now, b);
    case Ready(now) => EnterKeepsSafe(s, a, i, now, b);
    case FirstTest => MoveKeepsSafe(s, a, i, b.tasks[i].phase);
    case LoopTest => MoveKeepsSafe(s, a, i, b.tasks[i].phase);
    case FirstScan => ScanKeepsSafe(s, a, i, b);
    case FallbackScan => ScanKeepsSafe(s, a, i, b);
    case Removing(v) => RemoveKeepsSafe(s, a, i, v, b);
    case Done =>
  }

  lemma {:induction false} ExecutionsAreSafe(s: Settings, states: seq<State>, n: nat)
    requires s.maxEntries >= 1
    requires IsExecution(s, states) && n < |states|
    ensures Safe(s, states[n])
  {
    if n > 0 {
      ExecutionsAreSafe(s, states, n - 1);
      assert NextAt(s, states, n - 1);
      if NewTask(states[n - 1], states[n]) {
        var ip :| Arrive(states[n - 1], ip, states[n]);
        SumAppend(states[n - 1].tasks, Task(ip, Start, None), HoldsSlot);
      } else {
        var i :| Step(s, states[n - 1], i, states[n]);
        StepKeepsSafe(s, states[n - 1], i, states[n]);
      }
    }
  }

  /** Capacity in every interleaving: the table exceeds its room by at most the number of tasks between
      their locked step and the end of their eviction loop, and not at all once none is. */
  lemma CapacityInEveryInterleaving(s: Settings, states: seq<State>, n: nat)
    requires s.maxEntries >= 1
    requires IsExecution(s, states) && n < |states|
    ensures |states[n].table| <= s.maxEntries + SumBy(states[n].tasks, InFlight)
    ensures (forall t | t in states[n].tasks :: InFlight(t) == 0) ==> |states[n].table| <= s.maxEntries
  {
    ExecutionsAreSafe(s, states, n);
    SumMonotone(states[n].tasks, HoldsSlot, InFlight);
    if forall t | t in states[n].tasks :: InFlight(t) == 0 {
      SumZero(states[n].tasks, InFlight);
    }
  }

  /** A task never drops the entry it has just made or refreshed: in no interleaving does a step
      of its eviction loop remove its own address. */
  lemma TasksSpareTheirOwnEntry(s: Settings, states: seq<State>, n: nat, i: nat)
    requires s.maxEntries >= 1
    requires IsExecution(s, states) && n + 1 < |states| && Step(s, states[n], i, states[n + 1])
    requires InFlight(states[n].tasks[i]) == 1
    ensures states[n].tasks[i].ip in states[n].table ==> states[n].tasks[i].ip in states[n + 1].table
  {
    ExecutionsAreSafe(s, states, n);
    assert states[n].tasks[i] in states[n].tasks;
  }

  /** A task only ever sets out to drop another's entry, with the oldest window of all others. */
  lemma VictimsAreOldest(s: Settings, a: State, i: nat, v: Ip, b: State)
    requires Step(s, a, i, b) && b.tasks[i].phase == Removing(v)
    ensures v in a.table && v != a.tasks[i].ip
    ensures forall k | k in a.table && k != a.tasks[i].ip :: a.table[v].start <= a.table[k].start
  {
  }

  /** Conservation in every interleaving: every admission is either still remembered by a live entry or was
      discarded with one, and no count passes the limit. */
  lemma AdmissionsAreConserved(s: Settings, states: seq<State>, n: nat)
    requires s.maxEntries >= 1
    requires IsExecution(s, states) && n < |states|
    ensures states[n].admitted == Total(states[n].table) + states[n].discarded
    ensures forall k | k in states[n].table :: states[n].table[k].count <= s.maxRequests
  {
    ExecutionsAreSafe(s, states, n);
  }

  // ---------------------------------------------------------------- termination in every interleaving

  /** Before its locked step, which may insert. */
  function Pending(t: Task): nat {
    if t.phase.Start? || t.phase.Clocked? || t.phase.Ready? then 1 else 0
  }

  /** How far a task is from the end, given the table: a removal whose victim another task has already
      taken is a step back to the loop test. */
  function Weight(table: Table, t: Task): nat {
    match t.phase
    case Start => 2
    case Clocked(_) => 1
    case Ready(_) => 0
    case FirstTest => 5
    case LoopTest => 4
    case FirstScan => 3
    case FallbackScan => 2
    case Removing(v) => if v in table then 1 else 5
    case Done => 0
  }

  function WeightIn(table: Table): Task -> nat {
    t => Weight(table, t)
  }

  /** Pending inserts weigh more than anything one insert can undo, and table entries more than anything one
      removal can undo. */
  function Mixed(m: nat, pending: nat, size: nat, weight: nat): nat {
    (10 * m + 2) * pending + (5 * m + 1) * size + weight
  }

  function Potential(a: State): nat {
    Mixed(|a.tasks|, SumBy(a.tasks, Pending), |a.table|, SumBy(a.tasks, WeightIn(a.table)))
  }

  lemma {:induction false} MulStep(k: nat, x: nat, y: nat)
    requires x < y
    ensures k * x + k <= k * y
    decreases y
  {
    assert k * y == k * (y - 1) + k;
    if x < y - 1 {
      MulStep(k, x, y - 1);
    }
  }

  lemma InsertLowersMixed(m: nat, pending: nat, size: nat, size': nat, weight: nat, weight': nat)
    requires pending > 0 && size' <= size + 1 && weight' <= 5 * m
    ensures Mixed(m, pending - 1, size', weight') < Mixed(m, pending, size, weight)
  {
    MulStep(10 * m + 2, pending - 1, pending);
    MulStep(5 * m + 1, size', size + 2);
    assert (5 * m + 1) * (size + 2) == (5 * m + 1) * size + 2 * (5 * m + 1);
  }

  lemma RemovalLowersMixed(m: nat, pending: nat, size: nat, size': nat, weight: nat, weight': nat)
    requires size' < size && weight' <= 5 * m
    ensures Mixed(m, pending, size', weight') < Mixed(m, pending, size, weight)
  {
    MulStep(5 * m + 1, size', size);
  }

  lemma EnterLowersPotential(a: State, i: nat, t: Task, b: State)
    requires i < |a.tasks| && b.tasks == a.tasks[i := t] && Pending(t) < Pending(a.tasks[i])
    requires |b.table| <= |a.table| + 1
    ensures Potential(b) < Potential(a)
  {
    SumUpdate(a.tasks, i, t, Pending);
    SumAtMost(b.tasks, WeightIn(b.table), 5);
    InsertLowersMixed(|a.tasks|, SumBy(a.tasks, Pending), |a.table|, |b.table|,
                      SumBy(a.tasks, WeightIn(a.table)), SumBy(b.tasks, WeightIn(b.table)));
  }

  lemma ShrinkLowersPotential(a: State, i: nat, t: Task, b: State)
    requires i < |a.tasks| && b.tasks == a.tasks[i := t] && Pending(t) == Pending(a.tasks[i])
    requires |b.table| < |a.table|
    ensures Potential(b) < Potential(a)
  {
    SumUpdate(a.tasks, i, t, Pending);
    SumAtMost(b.tasks, WeightIn(b.table), 5);
    RemovalLowersMixed(|a.tasks|, SumBy(a.tasks, Pending), |a.table|, |b.table|,
                       SumBy(a.tasks, WeightIn(a.table)), SumBy(b.tasks, WeightIn(b.table)));
  }

  lemma AdvanceLowersPotential(a: State, i: nat, t: Task, b: State)
    requires i < |a.tasks| && b.tasks == a.tasks[i := t] && Pending(t) == Pending(a.tasks[i])
    requires b.table == a.table && Weight(a.table, t) < Weight(a.table, a.tasks[i])
    ensures Potential(b) < Potential(a)
  {
    SumUpdate(a.tasks, i, t, Pending);
    SumUpdate(a.tasks, i, t, WeightIn(a.table));
  }

  /** A step spends the task's pending insert, or shrinks the table, or brings the task nearer its end. */
  ghost predicate Spends(a: State, i: nat, b: State)
    requires i < |a.tasks|
  {
    && |b.tasks| == |a.tasks| && b.tasks == a.tasks[i := b.tasks[i]]
    && (|| (Pending(b.tasks[i]) < Pending(a.tasks[i]) && |b.table| <= |a.table| + 1)
        || (Pending(b.tasks[i]) == Pending(a.tasks[i]) && |b.table| < |a.table|)
        || (Pending(b.tasks[i]) == Pending(a.tasks[i]) && b.table == a.table
            && Weight(a.table, b.tasks[i]) < Weight(a.table, a.tasks[i])))
  }

  lemma MoveSpends(a: State, i: nat, phase: Phase)
    requires i < |a.tasks|
    requires Pending(a.tasks[i].(phase := phase)) == Pending(a.tasks[i])
    requires Weight(a.table, a.tasks[i].(phase := phase)) < Weight(a.table, a.tasks[i])
    ensures Spends(a, i, Moved(a, i, phase))
  {
  }

  lemma PruneSpends(s: Settings, a: State, i: nat, now: int, b: State)
    requires i < |a.tasks| && a.tasks[i].phase == Clocked(now) && Prune(s, a, i, now, b)
    ensures Spends(a, i, b)
  {
    SubsetSize(b.table.Keys, a.table.Keys);
    assert |b.table| == |a.table| ==> b.table == a.table;
  }

  lemma EnterSpends(s: Settings, a: State, i: nat, now: int, b: State)
    requires i < |a.tasks| && a.tasks[i].phase == Ready(now) && Enter(s, a, i, now, b)
    ensures Spends(a, i, b)
  {
    assert b.table.Keys == a.table.Keys + {a.tasks[i].ip};
  }

  lemma RemoveSpends(a: State, i: nat, v: Ip, b: State)
    requires i < |a.tasks| && a.tasks[i].phase == Removing(v) && Remove(a, i, v, b)
    ensures Spends(a, i, b)
  {
    assert b.table.Keys == a.table.Keys - {v};
  }

  lemma ScanSpends(a: State, i: nat, b: State)
    requires i < |a.tasks|
    requires Scan(a, i, b)
    ensures Spends(a, i, b)
  {
    var phase := b.tasks[i].phase;
    assert phase.Removing? ==> phase.victim in a.table;
    MoveSpends(a, i, phase);
  }

  lemma StepSpends(s: Settings, a: State, i: nat, b: State)
    requires Step(s, a, i, b)
    ensures Spends(a, i, b)
  {
    match a.tasks[i].phase
    case Start => MoveSpends(a, i, b.tasks[i].phase);
    case Clocked(now) => PruneSpends(s, a, i, now, b);
    case Ready(now) => EnterSpends(s, a, i, now, b);
    case FirstTest => MoveSpends(a, i, b.tasks[i].phase);
    case LoopTest => MoveSpends(a, i, b.tasks[i].phase);
    case FirstScan => ScanSpends(a, i, b);
    case FallbackScan => ScanSpends(a, i, b);
    case Removing(v) => RemoveSpends(a, i, v, b);
    case Done =>
  }

  lemma StepLowersPotential(s: Settings, a: State, i: nat, b: State)
    requires Step(s, a, i, b)
    ensures Potential(b) < Potential(a)
  {
    StepSpends(s, a, i, b);
    if Pending(b.tasks[i]) < Pending(a.tasks[i]) {
      EnterLowersPotential(a, i, b.tasks[i], b);
    } else if |b.table| < |a.table| {
      ShrinkLowersPotential(a, i, b.tasks[i], b);
    } else {
      AdvanceLowersPotential(a, i, b.tasks[i], b);
    }
  }

  /** Eviction terminates in every interleaving: however the steps of finitely many checks are mixed,
      there are no more of them than the potential of the state they start from. */
  lemma {:induction false} StepsAreBounded(s: Settings, states: seq<State>, n: nat)
    requires n < |states|
    requires forall k | 0 <= k < n :: AdvanceAt(s, states, k)
    ensures n + Potential(states[n]) <= Potential(states[0])
  {
    if n > 0 {
      StepsAreBounded(s, states, n - 1);
      assert AdvanceAt(s, states, n - 1);
      var i :| Step(s, states[n - 1], i, states[n]);
      StepLowersPotential(s, states[n - 1], i, states[n]);
    }
  }

  /** In numbers: `m` checks that start on an empty table end within 10 m² + 4 m steps. */
  lemma ChecksEndInQuadraticTime(s: Settings, states: seq<State>, n: nat)
    requires n < |states|
    requires states[0].table == map[] && forall t | t in states[0].tasks :: t.phase.Start?
    requires forall k | 0 <= k < n :: AdvanceAt(s, states, k)
    ensures n <= 10 * |states[0].tasks| * |states[0].tasks| + 4 * |states[0].tasks|
  {
    var m := |states[0].tasks|;
    StepsAreBounded(s, states, n);
    SumAtMost(states[0].tasks, Pending, 1);
    StartWeights(states[0].tasks);
    MulStep(10 * m + 2, SumBy(states[0].tasks, Pending), m + 1);
    QuadraticBound(m);
  }

  lemma QuadraticBound(m: nat)
    ensures (10 * m + 2) * (m + 1) == 10 * m * m + 12 * m + 2
  {
  }

  lemma {:induction false} StartWeights(tasks: seq<Task>)
    requires forall t | t in tasks :: t.phase.Start?
    ensures SumBy(tasks, WeightIn(map[])) == 2 * |tasks|
  {
    if tasks != [] {
      StartWeights(tasks[1..]);
    }
  }

  lemma {:induction false} OldestExists(t: Table, keys: set<Ip>) returns (v: Ip)
    requires keys != {} && keys <= t.Keys
    ensures v in keys && forall k | k in keys :: t[v].start <= t[k].start
  {
    v :| v in keys;
    if keys != {v} {
      var w := OldestExists(t, keys - {v});
      if t[w].start < t[v].start {
        v := w;
      }
    }
  }

  /** No check ever blocks: a task that is not done can take a step, whatever the others have done. */
  lemma UnfinishedTasksCanStep(s: Settings, a: State, i: nat) returns (b: State)
    requires i < |a.tasks| && !a.tasks[i].phase.Done?
    ensures Step(s, a, i, b)
  {
    var ip := a.tasks[i].ip;
    match a.tasks[i].phase
    case Start => b := Moved(a, i, Clocked(0)); assert ReadClock(a, i, 0, b);
    case Clocked(now) =>
      var kept := Pruned(s, a.table, now);
      b := Moved(a, i, Ready(now)).(table := kept, discarded := a.discarded + Total(a.table - kept.Keys));
    case Ready(now) =>
      var stored := Lookup(a.table, ip);
      var (entry, answer) := Touch(s, stored, now);
      b := State(a.table[ip := entry], a.tasks[i := Task(ip, FirstTest, Some(answer))],
                 a.admitted + if answer.Admitted? then 1 else 0, a.discarded + ResetLoss(s, stored, now));
    case FirstTest => b := Moved(a, i, if |a.table| > s.maxEntries then LoopTest else Done);
    case LoopTest => b := Moved(a, i, if |a.table| > s.maxEntries then FirstScan else Done);
    case FirstScan =>
      if a.table.Keys <= {ip} {
        b := Moved(a, i, FallbackScan);
      } else {
        var v := OldestExists(a.table, a.table.Keys - {ip});
        assert OldestOther(a.table, ip, v);
        b := Moved(a, i, Removing(v));
      }
    case FallbackScan =>
      if a.table == map[] {
        b := Moved(a, i, Done);
      } else {
        var v := OldestExists(a.table, a.table.Keys);
        assert Oldest(a.table, v);
        b := Moved(a, i, if v == ip then Done else Removing(v));
      }
    case Removing(v) =>
      b := Moved(a, i, LoopTest).(table := a.table - {v},
                                  discarded := a.discarded + if v in a.table then a.table[v].count as nat else 0);
  }

  // ---------------------------------------------------------------- the excess is reached

  lemma ExecutionExtends(s: Settings, states: seq<State>, b: State)
    requires IsExecution(s, states) && Next(s, states[|states| - 1], b)
    ensures IsExecution(s, states + [b])
  {
    forall k | 0 <= k < |states| ensures NextAt(s, states + [b], k) {
      if k < |states| - 1 {
        assert NextAt(s, states, k);
      }
    }
  }

  /** The execution goes on with a step of task `i`. */
  lemma StepExtends(s: Settings, states: seq<State>, i: nat, b: State)
    requires IsExecution(s, states) && Step(s, states[|states| - 1], i, b)
    ensures IsExecution(s, states + [b])
  {
    ExecutionExtends(s, states, b);
  }

  /** A new client's task, at the reading 0, up to its length test. */
  lemma NewClientEnters(s: Settings, states: seq<State>, ip: Ip) returns (states': seq<State>)
    requires IsExecution(s, states)
    requires var t := states[|states| - 1].table; ip !in t && forall k | k in t :: t[k].start == 0
    ensures IsExecution(s, states')
    ensures var (a, b) := (states[|states| - 1], states'[|states'| - 1]);
            && b.table == a.table[ip := Touch(s, None, 0).0]
            && b.tasks == a.tasks + [Task(ip, FirstTest, Some(Touch(s, None, 0).1))]
  {
    var a := states[|states| - 1];
    var i := |a.tasks|;
    var arrived := a.(tasks := a.tasks + [Task(ip, Start, None)]);
    assert Arrive(a, ip, arrived);
    ExecutionExtends(s, states, arrived);
    states' := states + [arrived];
    var clocked := Moved(arrived, i, Clocked(0));
    assert ReadClock(arrived, i, 0, clocked);
    StepExtends(s, states', i, clocked);
    states' := states' + [clocked];
    var pruned := UnfinishedTasksCanStep(s, clocked, i);
    StepExtends(s, states', i, pruned);
    states' := states' + [pruned];
    assert Pruned(s, a.table, 0) == a.table;
    var entered := UnfinishedTasksCanStep(s, pruned, i);
    StepExtends(s, states', i, entered);
    states' := states' + [entered];
    assert entered.tasks == a.tasks + [Task(ip, FirstTest, Some(Touch(s, None, 0).1))];
  }

  /** Clients come one after the other, each new; as long as they fit, each task ends before the next client comes, and
      from then on none takes another step. */
  lemma {:induction false} ClientsCome(s: Settings, n: nat) returns (states: seq<State>)
    ensures IsExecution(s, states)
    ensures var a := states[|states| - 1];
            && |a.table| == n && (forall k | k in a.table :: k < n && a.table[k].start == 0)
            && SumBy(a.tasks, InFlight) == if n <= s.maxEntries then 0 else n - s.maxEntries
  {
    if n == 0 {
      states := [INITIAL];
    } else {
      states := ClientsCome(s, n - 1);
      var tasks := states[|states| - 1].tasks;
      states := NewClientEnters(s, states, n - 1);
      var a := states[|states| - 1];
      SumAppend(tasks, a.tasks[|tasks|], InFlight);
      if n <= s.maxEntries {
        var b := UnfinishedTasksCanStep(s, a, |tasks|);
        StepExtends(s, states, |tasks|, b);
        states := states + [b];
        SumUpdate(a.tasks, |tasks|, b.tasks[|tasks|], InFlight);
      }
    }
  }

  /** The bound on the excess is exact: for any settings and any number of tasks, some execution has that many tasks in
      flight and as many entries too many. */
  lemma CapacityBoundIsReached(s: Settings, k: nat) returns (states: seq<State>)
    ensures IsExecution(s, states)
    ensures SumBy(states[|states| - 1].tasks, InFlight) == k
    ensures |states[|states| - 1].table| == s.maxEntries + k
  {
    states := ClientsCome(s, s.maxEntries + k);
  }

  // ---------------------------------------------------------------- one check at a time

  ghost predicate Answered(s: Settings, t: Table, now: int, task: Task) {
    task.answer == Some(Touch(s, Lookup(Pruned(s, t, now), task.ip), now).1)
  }

  /** Where a task that runs alone from table `t`, and read the clock as `now`, stands in its check. */
  ghost predicate Alone(s: Settings, t: Table, now: int, a: State, i: nat)
    requires i < |a.tasks|
  {
    var task := a.tasks[i];
    var entered := Entered(s, t, now, task.ip);
    match task.phase
    case Start => a.table == t
    case Clocked(n) => n == now && a.table == t
    case Ready(n) => n == now && a.table == Pruned(s, t, now)
    case FirstTest => a.table == entered && Answered(s, t, now, task)
    case LoopTest => (a.table == entered && |entered| > s.maxEntries && Answered(s, t, now, task))
        || Checked(s, t, now, a.table, task)
    case FirstScan => a.table == entered && |entered| > s.maxEntries && Answered(s, t, now, task)
    case Removing(v) =>
      a.table == entered && |entered| > s.maxEntries && OldestOther(entered, task.ip, v) && Answered(s, t, now, task)
    case FallbackScan => false
    case Done => Checked(s, t, now, a.table, task)
  }

  /** The whole check has happened, as the one-step relation has it. */
  ghost predicate Checked(s: Settings, t: Table, now: int, t': Table, task: Task) {
    task.answer.Some? && exists evicted :: CheckStep(s, t, Event(now, task.ip, task.answer.value, evicted), t')
  }

  lemma EnteredIsChecked(s: Settings, t: Table, now: int, task: Task)
    requires Answered(s, t, now, task) && |Entered(s, t, now, task.ip)| <= s.maxEntries
    ensures Checked(s, t, now, Entered(s, t, now, task.ip), task)
  {
    assert CheckStep(s, t, Event(now, task.ip, task.answer.value, None), Entered(s, t, now, task.ip));
  }

  lemma RemovedIsChecked(s: Settings, t: Table, now: int, task: Task, v: Ip)
    requires s.maxEntries >= 1 && |t| <= s.maxEntries
    requires Answered(s, t, now, task) && |Entered(s, t, now, task.ip)| > s.maxEntries
    requires OldestOther(Entered(s, t, now, task.ip), task.ip, v)
    ensures Checked(s, t, now, Entered(s, t, now, task.ip) - {v}, task)
    ensures |Entered(s, t, now, task.ip) - {v}| <= s.maxEntries
  {
    var ev := Event(now, task.ip, task.answer.value, Some(v));
    assert CheckStep(s, t, ev, Entered(s, t, now, task.ip) - {v});
    CheckKeepsCapacity(s, t, ev, Entered(s, t, now, task.ip) - {v});
  }

  lemma AloneStep(s: Settings, t: Table, now: int, a: State, i: nat, b: State) returns (now': int)
    requires s.maxEntries >= 1 && |t| <= s.maxEntries
    requires i < |a.tasks| && Alone(s, t, now, a, i) && Step(s, a, i, b)
    ensures i < |b.tasks| && b.tasks[i].ip == a.tasks[i].ip && Alone(s, t, now', b, i)
  {
    var task := a.tasks[i];
    var entered := Entered(s, t, now, task.ip);
    now' := now;
    match task.phase
    case Start => now' :| ReadClock(a, i, now', b);
    case Clocked(_) =>
    case Ready(_) =>
    case FirstTest =>
      if |entered| <= s.maxEntries {
        EnteredIsChecked(s, t, now, task);
      }
    case LoopTest =>
      if Checked(s, t, now, a.table, task) {
        var evicted :| CheckStep(s, t, Event(now, task.ip, task.answer.value, evicted), a.table);
        CheckKeepsCapacity(s, t, Event(now, task.ip, task.answer.value, evicted), a.table);
      }
    case FirstScan =>
      if a.table.Keys <= {task.ip} {
        SubsetSize(a.table.Keys, {task.ip});
      }
    case Removing(v) =>
      RemovedIsChecked(s, t, now, task, v);
    case FallbackScan =>
    case Done =>
  }

  lemma {:induction false} AloneThroughout(s: Settings, states: seq<State>, n: nat, i: nat) returns (now: int)
    requires s.maxEntries >= 1 && n < |states|
    requires |states[0].table| <= s.maxEntries && i < |states[0].tasks| && states[0].tasks[i].phase.Start?
    requires forall k | 0 <= k < n :: Step(s, states[k], i, states[k + 1])
    ensures i < |states[n].tasks| && states[n].tasks[i].ip == states[0].tasks[i].ip
    ensures Alone(s, states[0].table, now, states[n], i)
  {
    if n == 0 {
      now := 0;
    } else {
      now := AloneThroughout(s, states, n - 1, i);
      now := AloneStep(s, states[0].table, now, states[n - 1], i, states[n]);
    }
  }

  /** The two models are one: when no other task moves between its first step and its last, a check by a task is
      exactly one check of the sequential relation. */
  lemma UninterruptedChecksAreSequential(s: Settings, states: seq<State>, n: nat, i: nat) returns (ev: Event)
    requires s.maxEntries >= 1 && n < |states|
    requires |states[0].table| <= s.maxEntries && i < |states[0].tasks| && states[0].tasks[i].phase.Start?
    requires forall k | 0 <= k < n :: Step(s, states[k], i, states[k + 1])
    requires i < |states[n].tasks| && states[n].tasks[i].phase.Done?
    ensures ev.ip == states[0].tasks[i].ip && states[n].tasks[i].answer == Some(ev.outcome)
    ensures CheckStep(s, states[0].table, ev, states[n].table)
  {
    var now := AloneThroughout(s, states, n, i);
    var task := states[n].tasks[i];
    var evicted :| CheckStep(s, states[0].table, Event(now, task.ip, task.answer.value, evicted), states[n].table);
    ev := Event(now, task.ip, task.answer.value, evicted);
  }
}
