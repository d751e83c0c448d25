/** The verdict on the recipes of Makefile targets (tests/build_standard_support/make.rs). */
module Recipes {
  import opened Wrappers
  import opened Text
  import opened Flags
  import opened Shell
  import opened Make

  datatype Host = Linux | Darwin

  predicate TakesLinker(host: Host) {
    host.Linux?
  }

  datatype Complaint =
    | RunsBare(command: string)
    | DropsCallersFlags
    | WrongFlags(reason: FlagProblem)
    | NoWarningPolicy
    | TakesFlag(flag: string)
    | RunsNothing

  datatype Problem = Problem(target: string, complaint: Complaint)

  datatype Failure = NotRun(reason: string) | NotRead(error: ReadError)

  /** What runs `make -n`: it prints the recipe of a target on a host, or fails. */
  type Runner = (string, Host) -> Result<string, string>

  type Verdict = Result<(seq<Problem>, nat), Failure>

  function MakeCommands(runner: Runner, target: string, host: Host): Result<seq<Assignment>, Failure> {
    match runner(target, host)
    case Err(reason) => Err(NotRun(reason))
    case Ok(text) =>
      match CommandsFrom(text)
      case Err(e) => Err(NotRead(e))
      case Ok(commands) => Ok(commands)
  }

  function At(target: string, complaints: seq<Complaint>): seq<Problem> {
    seq(|complaints|, i requires 0 <= i < |complaints| => Problem(target, complaints[i]))
  }

  lemma RecordedTwice(problems: seq<Problem>, target: string, a: seq<Complaint>, b: seq<Complaint>)
    ensures problems + At(target, a) + At(target, b) == problems + At(target, a + b)
  {
    assert At(target, a + b) == At(target, a) + At(target, b);
  }

  // ---------------------------------------------------------------- many targets

  /** Problems found so far, and how much was read, before a verdict on the rest. */
  function After(problems: seq<Problem>, read: nat, rest: Verdict): Verdict {
    match rest
    case Err(e) => Err(e)
    case Ok((more, count)) => Ok((problems + more, read + count))
  }

  lemma ExtendedBy(problems: seq<Problem>, read: nat, found: seq<Problem>, count: nat)
    ensures Extended(problems, read, Ok((found, count))) == Ok((problems + found, read + count))
  {
  }

  /** All outcomes in order, or the first failure. */
  function Together(outcomes: seq<Verdict>): Verdict {
    if outcomes == [] then Ok(([], 0))
    else if outcomes[0].Err? then outcomes[0]
    else After(outcomes[0].value.0, outcomes[0].value.1, Together(outcomes[1..]))
  }

  lemma OutcomeStep(outcomes: seq<Verdict>, i: nat, problems: seq<Problem>, read: nat)
    requires i < |outcomes|
    ensures After(problems, read, Together(outcomes[i..])) ==
            var next := Extended(problems, read, outcomes[i]);
            if next.Err? then next else After(next.value.0, next.value.1, Together(outcomes[i + 1..]))
  {
    assert outcomes[i..][1..] == outcomes[i + 1..];
    var rest := Together(outcomes[i + 1..]);
    if outcomes[i].Ok? && rest.Ok? {
      var found := outcomes[i].value.0;
      assert problems + (found + rest.value.0) == problems + found + rest.value.0;
    }
  }

  /** What has been found before an outcome, with the outcome. */
  function Extended(problems: seq<Problem>, read: nat, outcome: Verdict): Verdict {
    if outcome.Err? then outcome else Ok((problems + outcome.value.0, read + outcome.value.1))
  }

  lemma NothingYet(outcomes: seq<Verdict>)
    ensures Together(outcomes) == After([], 0, Together(outcomes[0..]))
  {
    assert outcomes[0..] == outcomes;
    if Together(outcomes).Ok? {
      assert [] + Together(outcomes).value.0 == Together(outcomes).value.0;
    }
  }

  lemma NothingLeft(outcomes: seq<Verdict>, problems: seq<Problem>, read: nat)
    ensures After(problems, read, Together(outcomes[|outcomes|..])) == Ok((problems, read))
  {
    assert outcomes[|outcomes|..] == [];
    assert problems + [] == problems;
  }

  predicate IsClean(v: Verdict) {
    v.Ok? && v.value.0 == []
  }

  lemma {:induction false} TogetherIsClean(outcomes: seq<Verdict>)
    ensures IsClean(Together(outcomes)) <==> forall i | 0 <= i < |outcomes| :: IsClean(outcomes[i])
    ensures Together(outcomes).Err? <==> exists i :: 0 <= i < |outcomes| && outcomes[i].Err?
  {
    if outcomes != [] {
      TogetherIsClean(outcomes[1..]);
      assert forall i | 0 < i < |outcomes| :: outcomes[i] == outcomes[1..][i - 1];
      assert forall i | 0 <= i < |outcomes| - 1 :: outcomes[1..][i] == outcomes[i + 1];
    }
  }

  /** What targets raise together is what some raise, then what the others raise. */
  lemma {:induction false} TogetherConcat(a: seq<Verdict>, b: seq<Verdict>)
    ensures Together(a + b) ==
            if Together(a).Err? then Together(a)
            else After(Together(a).value.0, Together(a).value.1, Together(b))
  {
    if a == [] {
      assert a + b == b;
      NothingYet(b);
      assert b[0..] == b;
    } else {
      assert (a + b)[1..] == a[1..] + b;
      TogetherConcat(a[1..], b);
      if a[0].Ok? && Together(a[1..]).Ok? && Together(b).Ok? {
        Reassociate(a[0].value.0, Together(a[1..]).value.0, Together(b).value.0);
      }
    }
  }

  /** All problems of some outcomes, in order, and all that was read. */
  function AllProblems(outcomes: seq<Verdict>): seq<Problem>
    requires forall i | 0 <= i < |outcomes| :: outcomes[i].Ok?
  {
    if outcomes == [] then [] else outcomes[0].value.0 + AllProblems(outcomes[1..])
  }

  function AllRead(outcomes: seq<Verdict>): nat
    requires forall i | 0 <= i < |outcomes| :: outcomes[i].Ok?
  {
    if outcomes == [] then 0 else outcomes[0].value.1 + AllRead(outcomes[1..])
  }

  /** Without a failure, problems are gathered in order and counts are added. */
  lemma {:induction false} TogetherInOrder(outcomes: seq<Verdict>)
    requires forall i | 0 <= i < |outcomes| :: outcomes[i].Ok?
    ensures Together(outcomes) == Ok((AllProblems(outcomes), AllRead(outcomes)))
  {
    if outcomes != [] {
      TogetherInOrder(outcomes[1..]);
    }
  }

  /** The first failure is the one reported. */
  lemma FirstFailureWins(before: seq<Verdict>, outcome: Verdict, after: seq<Verdict>)
    requires outcome.Err? && forall i | 0 <= i < |before| :: before[i].Ok?
    ensures Together(before + ([outcome] + after)) == outcome
  {
    TogetherIsClean(before);
    TogetherConcat(before, [outcome] + after);
  }

  lemma {:induction false} ProblemsOfSome(outcomes: seq<Verdict>, p: Problem)
    requires Together(outcomes).Ok?
    ensures p in Together(outcomes).value.0
            <==> exists i :: 0 <= i < |outcomes| && outcomes[i].Ok? && p in outcomes[i].value.0
  {
    if outcomes != [] {
      ProblemsOfSome(outcomes[1..], p);
      assert forall i | 0 < i < |outcomes| :: outcomes[i] == outcomes[1..][i - 1];
      assert forall i | 0 <= i < |outcomes| - 1 :: outcomes[1..][i] == outcomes[i + 1];
    }
  }

  // ---------------------------------------------------------------- development targets

  function DevelopmentComplaint(host: Host, pin: Pin, a: Assignment): seq<Complaint> {
    match a
    case Unassigned => []
    case Bare(command) => [RunsBare(command)]
    case Assigned(flags, inherits) =>
      if !inherits then [DropsCallersFlags]
      else
        match Meets(flags, pin, TakesLinker(host))
        case None => []
        case Some(reason) => [WrongFlags(reason)]
  }

  function DevelopmentComplaints(host: Host, pin: Pin, commands: seq<Assignment>): seq<Complaint> {
    if commands == [] then []
    else DevelopmentComplaint(host, pin, commands[0]) + DevelopmentComplaints(host, pin, commands[1..])
  }

  predicate KeepsThePolicy(commands: seq<Assignment>) {
    exists i :: 0 <= i < |commands| && commands[i].Assigned? && DeniesWarnings(commands[i].flags)
  }

  function TestPolicyComplaint(target: string, commands: seq<Assignment>): seq<Complaint> {
    if target == "test" && !KeepsThePolicy(commands) then [NoWarningPolicy] else []
  }

  function CountAssigned(commands: seq<Assignment>): nat {
    if commands == [] then 0 else (if commands[0].Assigned? then 1 else 0) + CountAssigned(commands[1..])
  }

  function DevelopmentProblemsOf(target: string, host: Host, pin: Pin, commands: seq<Assignment>): seq<Problem> {
    At(target, DevelopmentComplaints(host, pin, commands) + TestPolicyComplaint(target, commands))
  }

  /** What one target adds: its problems and how many assignments were read. */
  function DevelopmentOutcome(runner: Runner, host: Host, pin: Pin, target: string): Verdict {
    match MakeCommands(runner, target, host)
    case Err(e) => Err(e)
    case Ok(commands) => Ok((DevelopmentProblemsOf(target, host, pin, commands), CountAssigned(commands)))
  }

  function DevelopmentOutcomes(runner: Runner, host: Host, pin: Pin, targets: seq<string>): seq<Verdict> {
    seq(|targets|, i requires 0 <= i < |targets| => DevelopmentOutcome(runner, host, pin, targets[i]))
  }

  method DevelopmentProblems(runner: Runner, host: Host, pin: Pin) returns (r: Verdict)
    ensures r == Together(DevelopmentOutcomes(runner, host, pin, ["test", "typecheck", "lint", "build"]))
  {
    var targets := ["test", "typecheck", "lint", "build"];
    r := DevelopmentProblemsFor(runner, host, pin, targets);
  }

  method DevelopmentProblemsFor(runner: Runner, host: Host, pin: Pin, targets: seq<string>) returns (r: Verdict)
    ensures r == Together(DevelopmentOutcomes(runner, host, pin, targets))
  {
    ghost var outcomes := DevelopmentOutcomes(runner, host, pin, targets);
    var problems: seq<Problem>, read: nat := [], 0;
    NothingYet(outcomes);
    for i := 0 to |targets|
      invariant Together(outcomes) == After(problems, read, Together(outcomes[i..]))
    {
      OutcomeStep(outcomes, i, problems, read);
      r := ReadDevelopmentTarget(runner, host, pin, targets[i], problems, read);
      if r.Err? {
        return;
      }
      problems, read := r.value.0, r.value.1;
    }
    NothingLeft(outcomes, problems, read);
    r := Ok((problems, read));
  }

  /** One round of the loop over the targets. */
  method ReadDevelopmentTarget(runner: Runner, host: Host, pin: Pin, target: string, before: seq<Problem>, read: nat)
    returns (r: Verdict)
    ensures r == Extended(before, read, DevelopmentOutcome(runner, host, pin, target))
  {
    var commands := MakeCommands(runner, target, host);
    if commands.Err? {
      return Err(commands.error);
    }
    var found := commands.value;
    var problems := AddDevelopmentProblems(before, target, host, pin, found);
    ExtendedBy(before, read, DevelopmentProblemsOf(target, host, pin, found), CountAssigned(found));
    r := Ok((problems, read + CountAssigned(found)));
  }

  method AddDevelopmentProblems(before: seq<Problem>, target: string, host: Host, pin: Pin, commands: seq<Assignment>)
    returns (problems: seq<Problem>)
    ensures problems == before + DevelopmentProblemsOf(target, host, pin, commands)
  {
    var found, policy := DevelopmentComplaints(host, pin, commands), TestPolicyComplaint(target, commands);
    problems := before + At(target, found);
    problems := problems + At(target, policy);
    RecordedTwice(before, target, found, policy);
  }

  // ---------------------------------------------------------------- held-out targets

  function HeldOutComplaint(target: string, a: Assignment): seq<Complaint> {
    match a
    case Unassigned => []
    case Bare(command) => [RunsBare(command)]
    case Assigned(flags, inherits) =>
      (if Names(flags, THREADS_FLAG) then [TakesFlag(THREADS_FLAG)] else [])
      + (if Names(flags, LINKER_FLAG) then [TakesFlag(LINKER_FLAG)] else [])
      + (if target == "release" && !inherits then [DropsCallersFlags] else [])
  }

  function HeldOutComplaints(target: string, commands: seq<Assignment>): seq<Complaint> {
    if commands == [] then [] else HeldOutComplaint(target, commands[0]) + HeldOutComplaints(target, commands[1..])
  }

  predicate RunsSomething(commands: seq<Assignment>) {
    exists i :: 0 <= i < |commands| && !commands[i].Unassigned?
  }

  function EmptyTargetComplaint(commands: seq<Assignment>): seq<Complaint> {
    if RunsSomething(commands) then [] else [RunsNothing]
  }

  function HeldOutProblemsOf(target: string, commands: seq<Assignment>): seq<Problem> {
    At(target, EmptyTargetComplaint(commands) + HeldOutComplaints(target, commands))
  }

  function HeldOutOutcome(runner: Runner, target: string): Verdict {
    match MakeCommands(runner, target, Linux)
    case Err(e) => Err(e)
    case Ok(commands) => Ok((HeldOutProblemsOf(target, commands), |commands|))
  }

  function HeldOutOutcomes(runner: Runner, targets: seq<string>): seq<Verdict> {
    seq(|targets|, i requires 0 <= i < |targets| => HeldOutOutcome(runner, targets[i]))
  }

  method HeldOutProblems(runner: Runner) returns (r: Verdict)
    ensures r == Together(HeldOutOutcomes(runner, ["release"]))
  {
    var targets := ["release"];
    r := HeldOutProblemsFor(runner, targets);
  }

  method HeldOutProblemsFor(runner: Runner, targets: seq<string>) returns (r: Verdict)
    ensures r == Together(HeldOutOutcomes(runner, targets))
  {
    ghost var outcomes := HeldOutOutcomes(runner, targets);
    var problems: seq<Problem>, read: nat := [], 0;
    NothingYet(outcomes);
    for i := 0 to |targets|
      invariant Together(outcomes) == After(problems, read, Together(outcomes[i..]))
    {
      OutcomeStep(outcomes, i, problems, read);
      r := ReadHeldOutTarget(runner, targets[i], problems, read);
      if r.Err? {
        return;
      }
      problems, read := r.value.0, r.value.1;
    }
    NothingLeft(outcomes, problems, read);
    r := Ok((problems, read));
  }

  /** The outcome of a target whose recipe was read, or not. */
  lemma HeldOutOutcomeOf(runner: Runner, target: string)
    ensures var commands := MakeCommands(runner, target, Linux);
            HeldOutOutcome(runner, target) ==
            if commands.Err? then Err(commands.error)
            else Ok((HeldOutProblemsOf(target, commands.value), |commands.value|))
  {
  }

  /** One round of the loop over the targets. */
  method ReadHeldOutTarget(runner: Runner, target: string, before: seq<Problem>, read: nat) returns (r: Verdict)
    ensures r == Extended(before, read, HeldOutOutcome(runner, target))
  {
    HeldOutOutcomeOf(runner, target);
    var commands := MakeCommands(runner, target, Linux);
    if commands.Err? {
      return Err(commands.error);
    }
    var found := commands.value;
    var problems := AddHeldOutProblems(before, target, found);
    ExtendedBy(before, read, HeldOutProblemsOf(target, found), |found|);
    r := Ok((problems, read + |found|));
  }

  method AddHeldOutProblems(before: seq<Problem>, target: string, commands: seq<Assignment>)
    returns (problems: seq<Problem>)
    ensures problems == before + HeldOutProblemsOf(target, commands)
  {
    problems := before;
    if !RunsSomething(commands) {
      problems := problems + [Problem(target, RunsNothing)];
    }
    var empty, found := EmptyTargetComplaint(commands), HeldOutComplaints(target, commands);
    assert problems == before + At(target, empty);
    problems := problems + At(target, found);
    RecordedTwice(before, target, empty, found);
  }

  // ---------------------------------------------------------------- the verdicts are the standard

  /** A development command assigns nothing that a build would take, or keeps the caller's flags and names the
      frontend flag on a nightly pin only and the linker on Linux only. */
  predicate IsDevelopment(a: Assignment, host: Host, pin: Pin) {
    a.Unassigned?
    || (a.Assigned? && a.inherits && ("-Zthreads=8" in a.flags <==> pin.Nightly?)
        && ("-Clink-arg=-fuse-ld=mold" in a.flags <==> host.Linux?))
  }

  ghost predicate MeetsDevelopment(runner: Runner, target: string, host: Host, pin: Pin) {
    var r := MakeCommands(runner, target, host);
    && r.Ok?
    && (forall a | a in r.value :: IsDevelopment(a, host, pin))
    && (target == "test" ==> exists a :: a in r.value && a.Assigned? && DeniesWarnings(a.flags))
  }

  lemma NoDevelopmentComplaint(host: Host, pin: Pin, a: Assignment)
    ensures DevelopmentComplaint(host, pin, a) == [] <==> IsDevelopment(a, host, pin)
  {
  }

  lemma {:induction false} NoDevelopmentComplaints(host: Host, pin: Pin, commands: seq<Assignment>)
    ensures DevelopmentComplaints(host, pin, commands) == []
            <==> forall a | a in commands :: IsDevelopment(a, host, pin)
  {
    if commands != [] {
      NoDevelopmentComplaint(host, pin, commands[0]);
      NoDevelopmentComplaints(host, pin, commands[1..]);
      assert commands == [commands[0]] + commands[1..];
    }
  }

  lemma KeptPolicyIsSomewhere(commands: seq<Assignment>)
    ensures KeepsThePolicy(commands) <==> exists a :: a in commands && a.Assigned? && DeniesWarnings(a.flags)
  {
    if a :| a in commands && a.Assigned? && DeniesWarnings(a.flags) {
      var i :| 0 <= i < |commands| && commands[i] == a;
    }
  }

  lemma DevelopmentTarget(runner: Runner, target: string, host: Host, pin: Pin)
    ensures IsClean(DevelopmentOutcome(runner, host, pin, target)) <==> MeetsDevelopment(runner, target, host, pin)
  {
    var r := MakeCommands(runner, target, host);
    if r.Ok? {
      NoDevelopmentComplaints(host, pin, r.value);
      KeptPolicyIsSomewhere(r.value);
    }
  }

  /** The development verdict, for any targets, hosts and pins: no error and no complaint exactly when each target is
      defined, readable and meets the standard, and an error exactly when some target is not defined or not readable. */
  lemma DevelopmentIsTheStandard(runner: Runner, host: Host, pin: Pin, targets: seq<string>)
    ensures var v := Together(DevelopmentOutcomes(runner, host, pin, targets));
            && (IsClean(v) <==> forall i | 0 <= i < |targets| :: MeetsDevelopment(runner, targets[i], host, pin))
            && (v.Err? <==> exists i :: 0 <= i < |targets| && MakeCommands(runner, targets[i], host).Err?)
  {
    var outcomes := DevelopmentOutcomes(runner, host, pin, targets);
    TogetherIsClean(outcomes);
    forall i | 0 <= i < |targets|
      ensures IsClean(outcomes[i]) <==> MeetsDevelopment(runner, targets[i], host, pin)
      ensures outcomes[i].Err? <==> MakeCommands(runner, targets[i], host).Err?
    {
      DevelopmentTarget(runner, targets[i], host, pin);
    }
  }

  /** A held-out command assigns nothing that a build would take, or names neither standard flag, and in a release
      keeps the caller's. */
  predicate IsHeldOut(target: string, a: Assignment) {
    a.Unassigned?
    || (a.Assigned? && "-Zthreads=8" !in a.flags && "-Clink-arg=-fuse-ld=mold" !in a.flags
        && (target == "release" ==> a.inherits))
  }

  ghost predicate MeetsHeldOut(runner: Runner, target: string) {
    var r := MakeCommands(runner, target, Linux);
    && r.Ok?
    && (forall a | a in r.value :: IsHeldOut(target, a))
    && exists a :: a in r.value && a.Assigned?
  }

  lemma NoHeldOutComplaint(target: string, a: Assignment)
    ensures HeldOutComplaint(target, a) == [] <==> IsHeldOut(target, a)
  {
  }

  lemma {:induction false} NoHeldOutComplaints(target: string, commands: seq<Assignment>)
    ensures HeldOutComplaints(target, commands) == [] <==> forall a | a in commands :: IsHeldOut(target, a)
  {
    if commands != [] {
      NoHeldOutComplaint(target, commands[0]);
      NoHeldOutComplaints(target, commands[1..]);
      assert commands == [commands[0]] + commands[1..];
    }
  }

  lemma HeldOutTarget(target: string, commands: seq<Assignment>)
    ensures HeldOutProblemsOf(target, commands) == [] <==>
            (forall a | a in commands :: IsHeldOut(target, a)) && exists a :: a in commands && a.Assigned?
  {
    NoHeldOutComplaints(target, commands);
    if a :| a in commands && a.Assigned? {
      var i :| 0 <= i < |commands| && commands[i] == a;
    }
    if RunsSomething(commands) {
      var i :| 0 <= i < |commands| && !commands[i].Unassigned?;
      assert commands[i] in commands;
    }
  }

  /** The held-out verdict, for any targets: no error and no complaint exactly when each target is readable, assigns
      somewhere, and keeps both standard flags out everywhere. */
  lemma HeldOutIsTheStandard(runner: Runner, targets: seq<string>)
    ensures var v := Together(HeldOutOutcomes(runner, targets));
            && (IsClean(v) <==> forall i | 0 <= i < |targets| :: MeetsHeldOut(runner, targets[i]))
            && (v.Err? <==> exists i :: 0 <= i < |targets| && MakeCommands(runner, targets[i], Linux).Err?)
  {
    var outcomes := HeldOutOutcomes(runner, targets);
    TogetherIsClean(outcomes);
    forall i | 0 <= i < |targets|
      ensures IsClean(outcomes[i]) <==> MeetsHeldOut(runner, targets[i])
      ensures outcomes[i].Err? <==> MakeCommands(runner, targets[i], Linux).Err?
    {
      var r := MakeCommands(runner, targets[i], Linux);
      if r.Ok? {
        HeldOutTarget(targets[i], r.value);
      }
    }
  }

  // ---------------------------------------------------------------- which complaints, and how much was read

  /** The commands of a target, read. */
  ghost predicate HasCommands(runner: Runner, target: string, host: Host, commands: seq<Assignment>) {
    runner(target, host).Ok? && CommandsFrom(runner(target, host).value) == Ok(commands)
  }

  lemma CommandsAre(runner: Runner, target: string, host: Host, commands: seq<Assignment>)
    ensures MakeCommands(runner, target, host) == Ok(commands) <==> HasCommands(runner, target, host, commands)
    ensures runner(target, host).Err? ==>
              MakeCommands(runner, target, host) == Err(NotRun(runner(target, host).error))
    ensures runner(target, host).Ok? && CommandsFrom(runner(target, host).value).Err? ==>
              MakeCommands(runner, target, host) == Err(NotRead(CommandsFrom(runner(target, host).value).error))
  {
  }

  /** What a development command is told. */
  predicate IsFault(c: Complaint, a: Assignment, host: Host, pin: Pin) {
    match c
    case RunsBare(command) => a == Bare(command)
    case DropsCallersFlags => a.Assigned? && !a.inherits
    case WrongFlags(ThreadsWrong) => a.Assigned? && a.inherits && !("-Zthreads=8" in a.flags <==> pin == Nightly)
    case WrongFlags(LinkerWrong) =>
      && a.Assigned? && a.inherits && ("-Zthreads=8" in a.flags <==> pin == Nightly)
      && !("-Clink-arg=-fuse-ld=mold" in a.flags <==> host == Linux)
    case _ => false
  }

  lemma FaultsOfOne(host: Host, pin: Pin, a: Assignment, c: Complaint)
    ensures c in DevelopmentComplaint(host, pin, a) <==> IsFault(c, a, host, pin)
    ensures |DevelopmentComplaint(host, pin, a)| <= 1
  {
  }

  lemma {:induction false} FaultsOfAll(host: Host, pin: Pin, commands: seq<Assignment>, c: Complaint)
    ensures c in DevelopmentComplaints(host, pin, commands) <==> exists a :: a in commands && IsFault(c, a, host, pin)
  {
    if commands != [] {
      FaultsOfOne(host, pin, commands[0], c);
      FaultsOfAll(host, pin, commands[1..], c);
      assert forall a :: a in commands <==> a == commands[0] || a in commands[1..];
    }
  }

  /** What is due to a development target: the faults of its commands, and a word about the policy if the tests drop it
      everywhere. */
  ghost predicate IsDue(c: Complaint, target: string, commands: seq<Assignment>, host: Host, pin: Pin) {
    || (exists a :: a in commands && IsFault(c, a, host, pin))
    || (c == NoWarningPolicy && target == "test"
        && forall a | a in commands && a.Assigned? :: !DeniesWarnings(a.flags))
  }

  lemma ProblemsAt(target: string, complaints: seq<Complaint>, p: Problem)
    ensures p in At(target, complaints) <==> p.target == target && p.complaint in complaints
  {
    if p.target == target && p.complaint in complaints {
      var i :| 0 <= i < |complaints| && complaints[i] == p.complaint;
      assert At(target, complaints)[i] == p;
    }
  }

  lemma TargetProblemsAreDue(target: string, host: Host, pin: Pin, commands: seq<Assignment>, p: Problem)
    ensures p in DevelopmentProblemsOf(target, host, pin, commands)
            <==> p.target == target && IsDue(p.complaint, target, commands, host, pin)
  {
    ProblemsAt(target, DevelopmentComplaints(host, pin, commands) + TestPolicyComplaint(target, commands), p);
    FaultsOfAll(host, pin, commands, p.complaint);
    KeptPolicyIsSomewhere(commands);
  }

  /** Each complaint about the development targets is raised exactly when it is due, and names its own target. */
  lemma {:induction false} DevelopmentProblemsAreDue(runner: Runner, host: Host, pin: Pin, targets: seq<string>,
                                                     p: Problem)
    requires Together(DevelopmentOutcomes(runner, host, pin, targets)).Ok?
    ensures p in Together(DevelopmentOutcomes(runner, host, pin, targets)).value.0 <==>
            exists i, commands ::
              && 0 <= i < |targets| && p.target == targets[i] && HasCommands(runner, targets[i], host, commands)
              && IsDue(p.complaint, p.target, commands, host, pin)
  {
    var outcomes := DevelopmentOutcomes(runner, host, pin, targets);
    TogetherIsClean(outcomes);
    ProblemsOfSome(outcomes, p);
    forall i | 0 <= i < |targets|
      ensures p in outcomes[i].value.0 <==>
              exists commands ::
                && p.target == targets[i] && HasCommands(runner, targets[i], host, commands)
                && IsDue(p.complaint, p.target, commands, host, pin)
    {
      var r := MakeCommands(runner, targets[i], host);
      assert outcomes[i].Ok?;
      CommandsAre(runner, targets[i], host, r.value);
      TargetProblemsAreDue(targets[i], host, pin, r.value, p);
    }
  }

  /** Complaints come in the order of the commands, the one about the policy last. */
  lemma PolicyComesLast(target: string, host: Host, pin: Pin, a: seq<Assignment>, b: seq<Assignment>)
    ensures DevelopmentComplaints(host, pin, a + b)
            == DevelopmentComplaints(host, pin, a) + DevelopmentComplaints(host, pin, b)
    ensures At(target, DevelopmentComplaints(host, pin, a)) <= DevelopmentProblemsOf(target, host, pin, a)
  {
    ComplaintsConcat(host, pin, a, b);
    var complaints := DevelopmentComplaints(host, pin, a);
    assert DevelopmentProblemsOf(target, host, pin, a)[..|complaints|] == At(target, complaints);
  }

  /** The number read is the number of commands that assign. */
  lemma {:induction false} CountsTheAssigned(commands: seq<Assignment>)
    ensures CountAssigned(commands) == |set i | 0 <= i < |commands| && commands[i].Assigned?|
  {
    var all := set i | 0 <= i < |commands| && commands[i].Assigned?;
    if commands == [] {
      assert all == {};
    } else {
      var n := |commands| - 1;
      CountsTheAssigned(commands[..n]);
      CountSnoc(commands[..n], commands[n]);
      assert commands == commands[..n] + [commands[n]];
      var before := set i | 0 <= i < n && commands[..n][i].Assigned?;
      assert all == before + if commands[n].Assigned? then {n} else {};
    }
  }

  lemma {:induction false} CountSnoc(commands: seq<Assignment>, a: Assignment)
    ensures CountAssigned(commands + [a]) == CountAssigned(commands) + if a.Assigned? then 1 else 0
  {
    if commands == [] {
      assert ([] + [a])[1..] == [];
    } else {
      assert (commands + [a])[1..] == commands[1..] + [a];
      CountSnoc(commands[1..], a);
    }
  }

  /** Every target counts what it read: its assignments, or for a held-out one all its commands. */
  lemma OutcomesCount(runner: Runner, host: Host, pin: Pin, target: string, commands: seq<Assignment>)
    ensures HasCommands(runner, target, host, commands) ==>
              && DevelopmentOutcome(runner, host, pin, target).Ok?
              && DevelopmentOutcome(runner, host, pin, target).value.1
                 == |set i | 0 <= i < |commands| && commands[i].Assigned?|
    ensures HasCommands(runner, target, Linux, commands) ==>
              HeldOutOutcome(runner, target).Ok? && HeldOutOutcome(runner, target).value.1 == |commands|
  {
    CommandsAre(runner, target, host, commands);
    CommandsAre(runner, target, Linux, commands);
    CountsTheAssigned(commands);
  }

  /** What a held-out command is told. */
  predicate IsHeldOutFault(c: Complaint, a: Assignment, target: string) {
    match c
    case RunsBare(command) => a == Bare(command)
    case TakesFlag(flag) =>
      && a.Assigned? && flag in a.flags
      && (flag == "-Zthreads=8" || flag == "-Clink-arg=-fuse-ld=mold")
    case DropsCallersFlags => a.Assigned? && target == "release" && !a.inherits
    case _ => false
  }

  lemma HeldOutFaultsOfOne(target: string, a: Assignment, c: Complaint)
    ensures c in HeldOutComplaint(target, a) <==> IsHeldOutFault(c, a, target)
  {
  }

  /** Those of some complaints that a command is told. */
  function Told(complaints: seq<Complaint>, a: Assignment, target: string): seq<Complaint> {
    if complaints == [] then []
    else
      (if IsHeldOutFault(complaints[0], a, target) then [complaints[0]] else []) + Told(complaints[1..], a, target)
  }

  /** A held-out command is told of the frontend flag, then of the linker, then of the caller's flags. */
  lemma HeldOutFaultsInOrder(target: string, a: Assignment)
    ensures a.Assigned? ==>
              HeldOutComplaint(target, a)
              == Told([TakesFlag("-Zthreads=8"), TakesFlag("-Clink-arg=-fuse-ld=mold"), DropsCallersFlags], a, target)
    ensures !a.Assigned? ==> |HeldOutComplaint(target, a)| <= 1
  {
    var threads, linker := TakesFlag("-Zthreads=8"), TakesFlag("-Clink-arg=-fuse-ld=mold");
    assert [threads, linker, DropsCallersFlags][1..] == [linker, DropsCallersFlags];
    assert [linker, DropsCallersFlags][1..] == [DropsCallersFlags] && [DropsCallersFlags][1..] == [];
    assert Told([DropsCallersFlags], a, target)
           == if IsHeldOutFault(DropsCallersFlags, a, target) then [DropsCallersFlags] else [];
    assert Told([linker, DropsCallersFlags], a, target)
           == (if IsHeldOutFault(linker, a, target) then [linker] else []) + Told([DropsCallersFlags], a, target);
  }

  lemma {:induction false} HeldOutFaultsOfAll(target: string, commands: seq<Assignment>, c: Complaint)
    ensures c in HeldOutComplaints(target, commands) <==> exists a :: a in commands && IsHeldOutFault(c, a, target)
  {
    if commands != [] {
      HeldOutFaultsOfOne(target, commands[0], c);
      HeldOutFaultsOfAll(target, commands[1..], c);
      assert forall a :: a in commands <==> a == commands[0] || a in commands[1..];
    }
  }

  lemma {:induction false} HeldOutConcat(target: string, a: seq<Assignment>, b: seq<Assignment>)
    ensures HeldOutComplaints(target, a + b) == HeldOutComplaints(target, a) + HeldOutComplaints(target, b)
  {
    if a == [] {
      assert a + b == b;
    } else {
      assert (a + b)[1..] == a[1..] + b;
      HeldOutConcat(target, a[1..], b);
      Reassociate(HeldOutComplaint(target, a[0]), HeldOutComplaints(target, a[1..]), HeldOutComplaints(target, b));
    }
  }

  /** What is due to a held-out target: the faults of its commands, or a word that there is nothing to read. */
  ghost predicate IsHeldOutDue(c: Complaint, target: string, commands: seq<Assignment>) {
    || (exists a :: a in commands && IsHeldOutFault(c, a, target))
    || (c == RunsNothing && forall a | a in commands :: a == Unassigned)
  }

  lemma HeldOutTargetProblemsAreDue(target: string, commands: seq<Assignment>, p: Problem)
    ensures p in HeldOutProblemsOf(target, commands)
            <==> p.target == target && IsHeldOutDue(p.complaint, target, commands)
  {
    ProblemsAt(target, EmptyTargetComplaint(commands) + HeldOutComplaints(target, commands), p);
    HeldOutFaultsOfAll(target, commands, p.complaint);
    if a :| a in commands && a != Unassigned {
      var i :| 0 <= i < |commands| && commands[i] == a;
    }
    if RunsSomething(commands) {
      var i :| 0 <= i < |commands| && !commands[i].Unassigned?;
      assert commands[i] in commands;
    }
  }

  /** Each complaint about the held-out targets is raised exactly when it is due, and names its own target. */
  lemma {:induction false} HeldOutProblemsAreDue(runner: Runner, targets: seq<string>, p: Problem)
    requires Together(HeldOutOutcomes(runner, targets)).Ok?
    ensures p in Together(HeldOutOutcomes(runner, targets)).value.0 <==>
            exists i, commands ::
              && 0 <= i < |targets| && p.target == targets[i] && HasCommands(runner, targets[i], Linux, commands)
              && IsHeldOutDue(p.complaint, p.target, commands)
  {
    var outcomes := HeldOutOutcomes(runner, targets);
    TogetherIsClean(outcomes);
    ProblemsOfSome(outcomes, p);
    forall i | 0 <= i < |targets|
      ensures p in outcomes[i].value.0 <==>
              exists commands ::
                && p.target == targets[i] && HasCommands(runner, targets[i], Linux, commands)
                && IsHeldOutDue(p.complaint, p.target, commands)
    {
      var r := MakeCommands(runner, targets[i], Linux);
      assert outcomes[i].Ok?;
      CommandsAre(runner, targets[i], Linux, r.value);
      HeldOutTargetProblemsAreDue(targets[i], r.value, p);
    }
  }

  // ---------------------------------------------------------------- chained recipes

  function ComplaintsOfEach(host: Host, pin: Pin, readings: seq<Reading>): seq<Complaint>
    requires forall i | 0 <= i < |readings| :: readings[i].Ok?
  {
    if readings == [] then []
    else DevelopmentComplaints(host, pin, readings[0].value) + ComplaintsOfEach(host, pin, readings[1..])
  }

  lemma {:induction false} ComplaintsConcat(host: Host, pin: Pin, a: seq<Assignment>, b: seq<Assignment>)
    ensures DevelopmentComplaints(host, pin, a + b)
            == DevelopmentComplaints(host, pin, a) + DevelopmentComplaints(host, pin, b)
  {
    if a == [] {
      assert a + b == b;
    } else {
      assert (a + b)[1..] == a[1..] + b;
      ComplaintsConcat(host, pin, a[1..], b);
      Reassociate(DevelopmentComplaint(host, pin, a[0]), DevelopmentComplaints(host, pin, a[1..]),
                  DevelopmentComplaints(host, pin, b));
    }
  }

  lemma {:induction false} ComplaintsOfChain(host: Host, pin: Pin, readings: seq<Reading>)
    ensures ChainAll(readings).Ok? <==> forall i | 0 <= i < |readings| :: readings[i].Ok?
    ensures ChainAll(readings).Ok? ==>
              DevelopmentComplaints(host, pin, ChainAll(readings).value) == ComplaintsOfEach(host, pin, readings)
  {
    if readings != [] {
      ComplaintsOfChain(host, pin, readings[1..]);
      assert forall i | 0 < i < |readings| :: readings[i] == readings[1..][i - 1];
      if ChainAll(readings).Ok? {
        ComplaintsConcat(host, pin, readings[0].value, ChainAll(readings[1..]).value);
      }
    }
  }

  /** A chained recipe is judged command by command: its complaints are those of each command on its own, in order,
      so no command hides behind another, whatever joins them and whatever keywords lead them. */
  lemma ChainedRecipesAreJudgedOneByOne(leads: seq<seq<Lead>>, commands: seq<string>, separators: seq<string>,
                                        host: Host, pin: Pin)
    requires IsChain(leads, commands, separators)
    ensures var r := CommandsFrom(Rejoin(LedAll(leads, commands), separators));
            && (r.Ok? <==> forall i | 0 <= i < |commands| :: ReadEach(commands)[i].Ok?)
            && (r.Ok? ==> DevelopmentComplaints(host, pin, r.value) == ComplaintsOfEach(host, pin, ReadEach(commands)))
  {
    ChainedCommandsAreReadOneByOne(leads, commands, separators);
    ComplaintsOfChain(host, pin, ReadEach(commands));
  }
}
