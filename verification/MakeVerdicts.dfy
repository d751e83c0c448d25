/** What one command reads as (tests/build_standard_support/make.rs and shell.rs), stated without the functions that
    read it. */
module MakeVerdicts {
  import opened Wrappers
  import opened Text
  import opened Shell
  import opened Make
  import Flags

  // ---------------------------------------------------------------- which commands compile

  /** The word runs the tool, named by any path. */
  predicate Runs(word: string, tool: string) {
    word == tool || exists k :: 0 <= k < |word| && word[k..] == "/" + tool
  }

  lemma {:induction false} AfterLastParts(s: string, c: char) returns (front: string)
    ensures c !in AfterLast(s, c)
    ensures s == AfterLast(s, c) || s == front + [c] + AfterLast(s, c)
  {
    front := [];
    if s != [] {
      var n := |s| - 1;
      assert s == s[..n] + [s[n]];
      if s[n] == c {
        front := s[..n];
      } else {
        front := AfterLastParts(s[..n], c);
      }
    }
  }

  lemma RunsIs(word: string, tool: string)
    requires '/' !in tool
    ensures AfterLast(word, '/') == tool <==> Runs(word, tool)
  {
    if AfterLast(word, '/') == tool {
      EndsInTool(word, tool);
    }
    if Runs(word, tool) {
      ToolIsLast(word, tool);
    }
  }

  lemma EndsInTool(word: string, tool: string)
    requires AfterLast(word, '/') == tool
    ensures Runs(word, tool)
  {
    var front := AfterLastParts(word, '/');
    if word != tool {
      assert word[|front|..] == "/" + tool;
    }
  }

  lemma ToolIsLast(word: string, tool: string)
    requires '/' !in tool && Runs(word, tool)
    ensures AfterLast(word, '/') == tool
  {
    AfterLastOf([], '/', tool);
    if word != tool {
      var k :| 0 <= k < |word| && word[k..] == "/" + tool;
      AfterLastOf(word[..k], '/', tool);
      assert word == word[..k] + word[k..];
      Reassociate(word[..k], ['/'], tool);
    }
  }

  /** A toolchain or an option. */
  predicate IsOption(word: string) {
    word != [] && (word[0] == '+' || word[0] == '-')
  }

  /** The first word that runs Cargo, and the first word after it that is no option: its subcommand. */
  predicate RunsCargo(words: seq<string>, at: nat, sub: nat) {
    && at < sub < |words| && Runs(words[at], "cargo") && !IsOption(words[sub])
    && (forall i | 0 <= i < at :: !Runs(words[i], "cargo"))
    && (forall i | at < i < sub :: IsOption(words[i]))
  }

  /** The subcommands that compile nothing. */
  const INSPECTIONS: seq<string> :=
    ["fmt", "metadata", "doc", "install", "binstall", "audit", "deny", "machete", "version", "help"]

  /** Whether Cargo runs a subcommand that compiles. */
  predicate CargoBuilds(words: seq<string>) {
    exists at: nat, sub: nat | at < |words| && sub < |words| ::
      RunsCargo(words, at, sub) && words[sub] !in INSPECTIONS
  }

  /** The command runs Whitaker, or Cargo with a subcommand that is no inspection; a version probe runs neither. */
  predicate Builds(words: seq<string>) {
    && "--version" !in words && "-V" !in words
    && (CargoBuilds(words) || exists i :: 0 <= i < |words| && Runs(words[i], "whitaker"))
  }

  lemma InspectionsAre(sub: string)
    ensures IsInspection(sub) <==> sub in INSPECTIONS
  {
  }

  lemma {:induction false} AfterCargoIs(words: seq<string>) returns (at: nat)
    ensures AfterCargo(words).None? ==> forall i | 0 <= i < |words| :: !Runs(words[i], "cargo")
    ensures AfterCargo(words).Some? ==>
              && at < |words| && Runs(words[at], "cargo") && AfterCargo(words).value == words[at + 1..]
              && forall i | 0 <= i < at :: !Runs(words[i], "cargo")
  {
    at := 0;
    if words != [] {
      RunsIs(words[0], "cargo");
      if AfterLast(words[0], '/') != "cargo" {
        at := AfterCargoIs(words[1..]);
        assert forall i | 0 < i < |words| :: words[i] == words[1..][i - 1];
        at := at + 1;
      }
    }
  }

  lemma {:induction false} SubcommandIs(words: seq<string>) returns (k: nat)
    ensures Subcommand(words).None? ==> forall i | 0 <= i < |words| :: IsOption(words[i])
    ensures Subcommand(words).Some? ==>
              && k < |words| && Subcommand(words).value == words[k] && !IsOption(words[k])
              && forall i | 0 <= i < k :: IsOption(words[i])
  {
    k := 0;
    if words != [] && IsOption(words[0]) {
      k := SubcommandIs(words[1..]);
      assert forall i | 0 < i < |words| :: words[i] == words[1..][i - 1];
      k := k + 1;
    }
  }

  lemma CargoBuildsIs(words: seq<string>)
    ensures CargoBuilds(words) <==>
            var rest := AfterCargo(words);
            rest.Some? && var sub := Subcommand(rest.value); sub.Some? && !IsInspection(sub.value)
  {
    var at := AfterCargoIs(words);
    if AfterCargo(words).Some? {
      var rest := words[at + 1..];
      var k := SubcommandIs(rest);
      assert forall i | 0 <= i < |rest| :: rest[i] == words[at + 1 + i];
      if Subcommand(rest).Some? {
        InspectionsAre(rest[k]);
        assert RunsCargo(words, at, at + 1 + k) by {
          assert forall i | at < i < at + 1 + k :: words[i] == rest[i - at - 1];
        }
      } else {
        assert forall b | at < b < |words| :: words[b] == rest[b - at - 1];
      }
    }
  }

  lemma CompilesIs(command: string)
    ensures Compiles(command) <==> Builds(Words(command))
  {
    var words := Words(command);
    CargoBuildsIs(words);
    forall i | 0 <= i < |words| ensures AfterLast(words[i], '/') == "whitaker" <==> Runs(words[i], "whitaker") {
      RunsIs(words[i], "whitaker");
    }
  }

  // ---------------------------------------------------------------- what an assignment says

  /** `s` with every `p`, from the left, replaced. */
  function Scanned(s: string, p: string, filler: string): string
    requires p != []
  {
    if s == [] then []
    else if p <= s then filler + Scanned(s[|p|..], p, filler)
    else [s[0]] + Scanned(s[1..], p, filler)
  }

  lemma {:induction false} ReplaceScans(s: string, p: string, filler: string)
    requires p != []
    ensures Replace(s, p, filler) == Scanned(s, p, filler)
    decreases |s|
  {
    if s == [] {
      assert !(p <= s);
    } else if p <= s {
      ReplaceScans(s[|p|..], p, filler);
      ReplaceFirst(s, p, filler);
    } else {
      ReplaceScans(s[1..], p, filler);
      assert s == [s[0]] + s[1..];
      SplitOnSkips(s[0], s[1..], p);
      JoinPrepends([s[0]], SplitOn(s[1..], p), filler);
    }
  }

  /** Somewhere in the value the next flag touches `p`: more text follows it, neither white space nor `p` again. */
  predicate IsTouched(value: string, p: string) {
    exists k: nat | k <= |value| :: TouchesAt(value, p, k)
  }

  predicate TouchesAt(value: string, p: string, k: nat) {
    k + |p| <= |value| && value[k..k + |p|] == p && IsTouching(value[k + |p|..], p)
  }

  predicate IsTouching(rest: string, p: string) {
    rest != [] && rest[0] != ' ' && !(p <= rest)
  }

  predicate HasTouchingPart(parts: seq<string>) {
    exists i :: 1 <= i < |parts| && parts[i] != [] && parts[i][0] != ' '
  }

  /** No occurrence overlaps another. */
  predicate StartsOnce(p: string) {
    p != [] && forall k | 1 <= k < |p| :: p[k] != p[0]
  }

  lemma FirstPiece(s: string, p: string)
    requires p != []
    ensures SplitOn(s, p)[0] <= s && (SplitOn(s, p)[0] == [] <==> s == [] || p <= s)
  {
  }

  lemma TouchingPartCons(first: string, more: seq<string>)
    requires more != []
    ensures HasTouchingPart([first] + more) <==> (more[0] != [] && more[0][0] != ' ') || HasTouchingPart(more)
  {
    var parts := [first] + more;
    assert parts[1] == more[0];
    assert forall i | 1 <= i < |more| :: more[i] == parts[i + 1];
    assert forall i | 2 <= i < |parts| :: parts[i] == more[i - 1];
  }

  lemma TouchingPart(value: string, p: string, at: nat)
    requires p != [] && Find(value, p) == Some(at)
    ensures var rest := value[at + |p|..];
            HasTouchingPart(SplitOn(value, p)) <==> IsTouching(rest, p) || HasTouchingPart(SplitOn(rest, p))
  {
    var rest := value[at + |p|..];
    SplitOnSome(value, p, at);
    FirstPiece(rest, p);
    TouchingPartCons(value[..at], SplitOn(rest, p));
  }

  /** No two occurrences overlap. */
  lemma NoOverlap(value: string, p: string, at: nat, k: nat)
    requires StartsOnce(p) && at < k && at + |p| <= |value| && k + |p| <= |value|
    requires value[at..at + |p|] == p && value[k..k + |p|] == p
    ensures k >= at + |p|
  {
    assert value[k] == value[k..k + |p|][0];
    forall i | at <= i < at + |p| ensures value[i] == p[i - at] {
      assert value[i] == value[at..at + |p|][i - at];
    }
  }

  lemma TouchesLater(value: string, p: string, from: nat, k: nat)
    requires from <= |value|
    ensures TouchesAt(value[from..], p, k) <==> TouchesAt(value, p, from + k)
  {
    if from + k + |p| <= |value| {
      assert value[from..][k..k + |p|] == value[from + k..from + k + |p|];
      assert value[from..][k + |p|..] == value[from + k + |p|..];
    }
  }

  lemma OccursBy(value: string, p: string, k: nat)
    requires k + |p| <= |value| && value[k..k + |p|] == p
    ensures Find(value, p).Some? && Find(value, p).value <= k
  {
    assert value[k..][..|p|] == value[k..k + |p|];
    FindIsFirst(value, p, k);
  }

  /** The first occurrence is touched, or one after it is. */
  lemma TouchedLater(value: string, p: string, at: nat, k: nat)
    requires StartsOnce(p) && Find(value, p) == Some(at) && TouchesAt(value, p, k)
    ensures IsTouching(value[at + |p|..], p) || IsTouched(value[at + |p|..], p)
  {
    OccursBy(value, p, k);
    if k > at {
      TouchedAfter(value, p, at, k);
    }
  }

  lemma TouchedAfter(value: string, p: string, at: nat, k: nat)
    requires StartsOnce(p) && at < k && at + |p| <= |value| && value[at..at + |p|] == p && TouchesAt(value, p, k)
    ensures IsTouched(value[at + |p|..], p)
  {
    NoOverlap(value, p, at, k);
    var from := at + |p|;
    TouchesLater(value, p, from, k - from);
    assert TouchesAt(value[from..], p, k - from);
  }

  lemma TouchedBefore(value: string, p: string, at: nat)
    requires p != [] && Find(value, p) == Some(at)
    ensures var rest := value[at + |p|..]; IsTouching(rest, p) || IsTouched(rest, p) ==> IsTouched(value, p)
  {
    var rest := value[at + |p|..];
    if IsTouching(rest, p) {
      assert TouchesAt(value, p, at);
    }
    if k: nat :| k <= |rest| && TouchesAt(rest, p, k) {
      TouchesLater(value, p, at + |p|, k);
    }
  }

  lemma {:induction false} TouchedParts(value: string, p: string)
    requires StartsOnce(p)
    ensures HasTouchingPart(SplitOn(value, p)) <==> IsTouched(value, p)
    decreases |value|
  {
    match Find(value, p)
    case None =>
      if k: nat :| k <= |value| && TouchesAt(value, p, k) {
        OccursBy(value, p, k);
      }
    case Some(at) =>
      TouchingPart(value, p, at);
      TouchedParts(value[at + |p|..], p);
      TouchedBefore(value, p, at);
      if k: nat :| k <= |value| && TouchesAt(value, p, k) {
        TouchedLater(value, p, at, k);
      }
  }

  lemma GluedIsTouched(value: string)
    ensures IsGlued(value) <==> IsTouched(value, FALLBACK)
  {
    TouchedParts(value, FALLBACK);
  }

  /** The flags of a value: its words, both expansions read as white space, normalised. */
  function FlagsOf(value: string): seq<string> {
    Flags.Joined(Words(Scanned(Scanned(value, PREPENDED, " "), FALLBACK, " ")))
  }

  /** A quoted value is refused exactly when the next flag touches an expansion; otherwise its flags are its words, and
      it keeps the caller's exactly when it holds an expansion. */
  lemma ReadsTheQuotedValue(before: string, value: string, after: string)
    requires !Holds(before, QUOTED) && '"' !in value
    ensures AssignedRustflags(Assigning(before, value, after)) ==
            if IsTouched(value, FALLBACK) then Err(Glued(Assigning(before, value, after)))
            else Ok(Assigned(FlagsOf(value), Holds(value, PREPENDED) || Holds(value, FALLBACK)))
  {
    ContainsIs(before, QUOTED);
    QuotedValueIsRead(before, value, after);
    GluedIsTouched(value);
    ReplaceScans(value, PREPENDED, " ");
    ReplaceScans(Replace(value, PREPENDED, " "), FALLBACK, " ");
    ContainsIs(value, PREPENDED);
    ContainsIs(value, FALLBACK);
  }

  /** An assignment without the opening quote is unreadable, one without the closing quote unterminated, and a command
      without any assigns nothing. */
  lemma OtherAssignments(before: string, rest: string)
    requires !Holds(before, QUOTED) && '"' !in rest
    ensures AssignedRustflags(before)
            == if Holds(before, "RUSTFLAGS=") then Err(Unreadable(before)) else Ok(Unassigned)
    ensures AssignedRustflags(before + (QUOTED + rest)) == Err(Unterminated(before + (QUOTED + rest)))
  {
    ContainsIs(before, QUOTED);
    ContainsIs(before, "RUSTFLAGS=");
    CutAfter(before, QUOTED, rest);
    FindAbsent(rest, "\"", '"');
  }

  // ---------------------------------------------------------------- what a command reads as

  /** A command as a chain leaves it: on one line, not to be cut, nothing around it and no keyword in front. */
  predicate IsCommand(c: string) {
    && '\n' !in c && Uncut(c, None)
    && (c != [] ==> !IsSpace(c[0]) && !IsSpace(c[|c| - 1]))
    && IsUnled(c)
  }

  predicate IsUnled(c: string) {
    exists n :: 0 <= n <= |c| && NoSpace(c[..n]) && (n == |c| || (IsSpace(c[n]) && c[..n] !in KEYWORDS))
  }

  /** A message, a probe for a tool, or a command that names neither tool. */
  predicate IsSilent(c: string) {
    "echo" <= c || "command -v" <= c || (!Holds(c, "cargo") && !Holds(c, "whitaker"))
  }

  /** Whitaker behind the one literal assignment that isolates it. */
  predicate IsIsolated(c: string) {
    "RUSTFLAGS=\"-D warnings\" " <= c && var words := Words(c[24..]); words != [] && Runs(words[0], "whitaker")
  }

  lemma IsolationIs(c: string)
    ensures IsIsolatedWhitaker(c) <==> IsIsolated(c)
  {
    if "RUSTFLAGS=\"-D warnings\" " <= c && Words(c[24..]) != [] {
      RunsIs(Words(c[24..])[0], "whitaker");
    }
  }

  lemma CommandIsJudged(c: string)
    requires IsCommand(c)
    ensures CommandsFrom(c) == Gather([Verdict(c)])
  {
    var n :| 0 <= n <= |c| && NoSpace(c[..n]) && (n == |c| || (IsSpace(c[n]) && c[..n] !in KEYWORDS));
    UnledCommandsStay(c[..n], c[n..]);
    assert c == c[..n] + c[n..];
    TrimOf([], c, []);
    assert [] + c + [] == c == [] + c;
    UncutSplit(c, None, []);
    ReadOne(c);
  }

  lemma GatherOne(verdict: Option<Result<Assignment, ReadError>>)
    ensures Gather([verdict])
            == match verdict case None => Ok([]) case Some(Err(e)) => Err(e) case Some(Ok(a)) => Ok([a])
  {
    assert [verdict][1..] == [];
    if verdict.Some? && verdict.value.Ok? {
      assert [verdict.value.value] + [] == [verdict.value.value];
    }
  }

  /** Messages, probes and commands that name neither tool add nothing. */
  lemma SilentCommandsAddNothing(c: string)
    requires IsCommand(c) && IsSilent(c)
    ensures CommandsFrom(c) == Ok([])
  {
    CommandIsJudged(c);
    ContainsIs(c, "cargo");
    ContainsIs(c, "whitaker");
    GatherOne(None);
  }

  /** A command that assigns nothing is bare exactly when it builds, and unassigned otherwise. */
  lemma BareCommandsAreThoseThatBuild(c: string)
    requires IsCommand(c) && !IsSilent(c) && !Holds(c, "RUSTFLAGS=")
    ensures CommandsFrom(c) == Ok([if Builds(Words(c)) then Bare(c) else Unassigned])
  {
    CommandIsJudged(c);
    ContainsIs(c, "cargo");
    ContainsIs(c, "whitaker");
    NoAssignment(c);
    CompilesIs(c);
    GatherOne(Verdict(c));
  }

  lemma HoldsTheFront(s: string, p: string, q: string)
    ensures Holds(s, p + q) ==> Holds(s, p)
  {
    if k :| 0 <= k <= |s| && p + q <= s[k..] {
      assert s[k..][..|p|] == (p + q)[..|p|] == p;
    }
  }

  lemma NoAssignment(c: string)
    requires !Holds(c, "RUSTFLAGS=")
    ensures AssignedRustflags(c) == Ok(Unassigned)
  {
    assert QUOTED == "RUSTFLAGS=" + "\"";
    HoldsTheFront(c, "RUSTFLAGS=", "\"");
    OtherAssignments(c, []);
  }

  /** A command that assigns in quotes reads as its assignment, or as nothing when it is isolated Whitaker; it fails
      when a flag touches an expansion. */
  lemma AssigningCommandsAreRead(before: string, value: string, after: string)
    requires !Holds(before, QUOTED) && '"' !in value
    requires var c := Assigning(before, value, after); IsCommand(c) && !IsSilent(c)
    ensures var c := Assigning(before, value, after);
            CommandsFrom(c) ==
            if IsTouched(value, FALLBACK) then Err(Glued(c))
            else if IsIsolated(c) then Ok([Unassigned])
            else Ok([Assigned(FlagsOf(value), Holds(value, PREPENDED) || Holds(value, FALLBACK))])
  {
    var c := Assigning(before, value, after);
    CommandIsJudged(c);
    ContainsIs(c, "cargo");
    ContainsIs(c, "whitaker");
    ReadsTheQuotedValue(before, value, after);
    IsolationIs(c);
    GatherOne(Verdict(c));
  }

  /** A command whose assignment has no opening quote, or no closing one, fails for that. */
  lemma BrokenAssignmentsFail(before: string, rest: string)
    requires !Holds(before, QUOTED) && '"' !in rest
    ensures IsCommand(before) && !IsSilent(before) && Holds(before, "RUSTFLAGS=") ==>
              CommandsFrom(before) == Err(Unreadable(before))
    ensures var c := before + (QUOTED + rest);
            IsCommand(c) && !IsSilent(c) ==> CommandsFrom(c) == Err(Unterminated(c))
  {
    OtherAssignments(before, rest);
    FailedCommand(before);
    FailedCommand(before + (QUOTED + rest));
  }

  lemma FailedCommand(c: string)
    ensures IsCommand(c) && !IsSilent(c) && AssignedRustflags(c).Err? ==>
              CommandsFrom(c) == Err(AssignedRustflags(c).error)
  {
    if IsCommand(c) && !IsSilent(c) {
      CommandIsJudged(c);
      ContainsIs(c, "cargo");
      ContainsIs(c, "whitaker");
      GatherOne(Verdict(c));
    }
  }
}
