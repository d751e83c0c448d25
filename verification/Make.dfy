/** The reader of the commands that `make -n` prints (tests/build_standard_support/make.rs). */
module Make {
  import opened Wrappers
  import opened Text
  import opened Shell
  import Flags

  // ---------------------------------------------------------------- one command

  datatype Assignment = Unassigned | Bare(command: string) | Assigned(flags: seq<string>, inherits: bool)

  datatype ReadError = Unreadable(line: string) | Unterminated(line: string) | Glued(line: string)

  type Reading = Result<seq<Assignment>, ReadError>

  /** The next flag touches the caller's own. */
  predicate IsGlued(text: string) {
    var parts := SplitOn(text, "${RUSTFLAGS-}");
    exists i :: 1 <= i < |parts| && parts[i] != [] && parts[i][0] != ' '
  }

  function OwnFlags(text: string): seq<string> {
    Flags.Joined(Words(Replace(Replace(text, "${RUSTFLAGS:+$RUSTFLAGS }", " "), "${RUSTFLAGS-}", " ")))
  }

  function AssignedRustflags(line: string): Result<Assignment, ReadError> {
    match SplitOnce(line, "RUSTFLAGS=\"")
    case None => if Contains(line, "RUSTFLAGS=") then Err(Unreadable(line)) else Ok(Unassigned)
    case Some((_, rest)) =>
      match SplitOnce(rest, "\"")
      case None => Err(Unterminated(line))
      case Some((text, _)) =>
        if IsGlued(text) then Err(Glued(line))
        else
          Ok(Assigned(OwnFlags(text), Contains(text, "${RUSTFLAGS:+$RUSTFLAGS }") || Contains(text, "${RUSTFLAGS-}")))
  }

  predicate IsInspection(sub: string) {
    sub in {"fmt", "metadata", "doc", "install", "binstall", "audit", "deny", "machete", "version", "help"}
  }

  /** The first word that is a subcommand: neither a toolchain nor an option. */
  function Subcommand(words: seq<string>): Option<string> {
    if words == [] then None
    else if "+" <= words[0] || "-" <= words[0] then Subcommand(words[1..])
    else Some(words[0])
  }

  /** The words after the first that names Cargo, by any path. */
  function AfterCargo(words: seq<string>): Option<seq<string>> {
    if words == [] then None
    else if AfterLast(words[0], '/') == "cargo" then Some(words[1..])
    else AfterCargo(words[1..])
  }

  predicate Compiles(command: string) {
    var words := Words(command);
    && "--version" !in words && "-V" !in words
    && (|| (var rest := AfterCargo(words);
            rest.Some? && var sub := Subcommand(rest.value); sub.Some? && !IsInspection(sub.value))
        || exists i :: 0 <= i < |words| && AfterLast(words[i], '/') == "whitaker")
  }

  predicate IsIsolatedWhitaker(command: string) {
    && "RUSTFLAGS=\"-D warnings\" " <= command
    && var words := Words(command[24..]);
       words != [] && AfterLast(words[0], '/') == "whitaker"
  }

  /** The verdict on one command that is left after stripping keywords; none for a message or a probe. */
  function Verdict(command: string): Option<Result<Assignment, ReadError>> {
    if "echo" <= command || "command -v" <= command then None
    else if !Contains(command, "cargo") && !Contains(command, "whitaker") then None
    else
      match AssignedRustflags(command)
      case Err(e) => Some(Err(e))
      case Ok(Unassigned) => Some(Ok(if Compiles(command) then Bare(command) else Unassigned))
      case Ok(Bare(c)) => Some(Ok(Bare(c)))
      case Ok(Assigned(flags, inherits)) =>
        Some(Ok(if IsIsolatedWhitaker(command) then Unassigned else Assigned(flags, inherits)))
  }

  function ReadCommand(piece: string): Option<Result<Assignment, ReadError>> {
    Verdict(StripKeywords(Trim(piece)))
  }

  /** Every verdict in order, or the first error. */
  function Gather(verdicts: seq<Option<Result<Assignment, ReadError>>>): Reading {
    if verdicts == [] then Ok([])
    else
      match verdicts[0]
      case None => Gather(verdicts[1..])
      case Some(Err(e)) => Err(e)
      case Some(Ok(a)) => Chain(Ok([a]), Gather(verdicts[1..]))
  }

  function ReadAll(pieces: seq<string>): seq<Option<Result<Assignment, ReadError>>> {
    Mapped(ReadCommand, pieces)
  }

  function Collect(pieces: seq<string>): Reading {
    Gather(ReadAll(pieces))
  }

  function Chain(first: Reading, second: Reading): Reading {
    if first.Err? then first else if second.Err? then second else Ok(first.value + second.value)
  }

  function ChainAll(readings: seq<Reading>): Reading {
    if readings == [] then Ok([]) else Chain(readings[0], ChainAll(readings[1..]))
  }

  function AllCommands(lines: seq<string>): seq<string> {
    if lines == [] then [] else Commands(lines[0]) + AllCommands(lines[1..])
  }

  function CommandsFrom(stdout: string): Reading {
    Collect(AllCommands(Lines(Replace(stdout, "\\\n", " "))))
  }

  // ---------------------------------------------------------------- reading is a homomorphism

  lemma {:induction false} GatherConcat(a: seq<Option<Result<Assignment, ReadError>>>,
                                        b: seq<Option<Result<Assignment, ReadError>>>)
    ensures Gather(a + b) == Chain(Gather(a), Gather(b))
  {
    if a == [] {
      assert a + b == b && (Gather(b).Ok? ==> [] + Gather(b).value == Gather(b).value);
    } else {
      assert (a + b)[1..] == a[1..] + b;
      GatherConcat(a[1..], b);
      if a[0].Some? && a[0].value.Ok? {
        ChainAssociates(Ok([a[0].value.value]), Gather(a[1..]), Gather(b));
      }
    }
  }

  lemma CollectConcat(a: seq<string>, b: seq<string>)
    ensures Collect(a + b) == Chain(Collect(a), Collect(b))
  {
    MappedConcat(ReadCommand, a, b);
    GatherConcat(ReadAll(a), ReadAll(b));
  }

  lemma ChainAssociates(a: Reading, b: Reading, c: Reading)
    ensures Chain(a, Chain(b, c)) == Chain(Chain(a, b), c)
  {
    if a.Ok? && b.Ok? && c.Ok? {
      assert a.value + (b.value + c.value) == a.value + b.value + c.value;
    }
  }

  /** One line on its own. */
  lemma OneLine(s: string)
    requires '\n' !in s
    ensures CommandsFrom(s) == Collect(Commands(s))
  {
    FindAbsent(s, "\\\n", '\n');
    FindAbsent(s, "\n", '\n');
    assert Replace(s, "\\\n", " ") == s;
    if s == [] {
      BlankIsNoCommand([]);
      assert Commands([]) == [[]];
    } else {
      assert AllCommands([s]) == Commands(s) + [] == Commands(s);
    }
  }

  /** A command of nothing but white space, or of keywords alone, is no command. */
  lemma BlankIsNoCommand(s: string)
    requires Trim(s) == []
    ensures ReadCommand(s) == None && Collect([s]) == Ok([])
  {
    assert Find([], "cargo").None? && Find([], "whitaker").None?;
    var none: seq<Option<Result<Assignment, ReadError>>> := [None];
    assert none[1..] == [] && Gather(none[1..]) == Ok([]);
    assert ReadCommand(s) == None;
    assert ReadAll([s]) == [ReadCommand(s)] == none && Gather(none) == Gather(none[1..]);
  }

  lemma KeywordIsNoCommand(k: string)
    requires IsKeyword(k)
    ensures Find(k, "cargo").None? && Find(k, "whitaker").None?
  {
    KeywordLetters(k);
    FindNothing(k, "cargo");
  }

  lemma KeywordLetters(k: string)
    requires IsKeyword(k)
    ensures forall i | 0 <= i < |k| :: k[i] != 'c'
    ensures |k| < 8
  {
  }

  lemma {:induction false} LedBlankIsNoCommand(leads: seq<Lead>, s: string)
    requires forall i | 0 <= i < |leads| :: IsLead(leads[i])
    requires Trim(s) == []
    ensures ReadCommand(Led(leads, s)) == None
  {
    if leads == [] {
      BlankIsNoCommand(s);
    } else if |leads| == 1 {
      LastLeadStays(leads[0], s);
      assert Led(leads, s) == leads[0].before + leads[0].keyword + leads[0].after + s by { assert leads[1..] == []; }
      KeywordIsNoCommand(leads[0].keyword);
    } else {
      LedBlankIsNoCommand(leads[1..], s);
      LeadIsNotBlank(leads[1], Led(leads[2..], s));
      assert leads[1..][1..] == leads[2..];
      LeadIsStripped(leads[0], Led(leads[1..], s));
    }
  }

  lemma LastLeadStays(lead: Lead, s: string)
    requires IsLead(lead) && Trim(s) == []
    ensures StripKeywords(Trim(lead.before + lead.keyword + lead.after + s)) == lead.keyword
  {
    KeywordShape(lead.keyword);
    var before, after := TrimParts(s);
    assert lead.before + lead.keyword + lead.after + s == lead.before + lead.keyword + (lead.after + s);
    TrimOf(lead.before, lead.keyword, lead.after + s);
    WordLengthOf(lead.keyword, []);
    assert lead.keyword + [] == lead.keyword;
  }

  lemma LeadsDoNotMatter(leads: seq<Lead>, command: string)
    requires forall i | 0 <= i < |leads| :: IsLead(leads[i])
    ensures ReadCommand(Led(leads, command)) == ReadCommand(command)
  {
    if Trim(command) == [] {
      LedBlankIsNoCommand(leads, command);
      BlankIsNoCommand(command);
    } else {
      LeadsAreStripped(leads, command);
    }
  }

  function LedAll(leads: seq<seq<Lead>>, commands: seq<string>): seq<string>
    requires |leads| == |commands|
  {
    seq(|commands|, i requires 0 <= i < |commands| => Led(leads[i], commands[i]))
  }

  function ReadEach(commands: seq<string>): seq<Reading> {
    Mapped(CommandsFrom, commands)
  }

  lemma {:induction false} LedNewlineFree(leads: seq<Lead>, command: string)
    requires forall i | 0 <= i < |leads| :: IsLead(leads[i]) && '\n' !in leads[i].before && '\n' !in leads[i].after
    requires '\n' !in command
    ensures '\n' !in Led(leads, command)
  {
    if leads != [] {
      KeywordShape(leads[0].keyword);
      LedNewlineFree(leads[1..], command);
    }
  }

  lemma {:induction false} RejoinNewlineFree(commands: seq<string>, separators: seq<string>)
    requires |commands| == |separators| + 1
    requires forall i | 0 <= i < |commands| :: '\n' !in commands[i]
    requires forall i | 0 <= i < |separators| :: IsSeparator(separators[i])
    ensures '\n' !in Rejoin(commands, separators)
  {
    if separators != [] {
      RejoinNewlineFree(commands[1..], separators[1..]);
    }
  }

  lemma ReadOne(command: string)
    requires '\n' !in command && Commands(command) == [command]
    ensures CommandsFrom(command) == Gather([ReadCommand(command)])
  {
    OneLine(command);
    assert ReadAll([command]) == [ReadCommand(command)];
  }

  lemma {:induction false} GatherEach(verdicts: seq<Option<Result<Assignment, ReadError>>>, readings: seq<Reading>)
    requires |verdicts| == |readings|
    requires forall i | 0 <= i < |verdicts| :: readings[i] == Gather([verdicts[i]])
    ensures Gather(verdicts) == ChainAll(readings)
  {
    if verdicts != [] {
      GatherEach(verdicts[1..], readings[1..]);
      GatherConcat([verdicts[0]], verdicts[1..]);
      assert [verdicts[0]] + verdicts[1..] == verdicts;
    }
  }

  lemma LedCommandIsRead(leads: seq<Lead>, command: string)
    requires '\n' !in command && Uncut(command, None)
    requires forall j | 0 <= j < |leads| :: IsLead(leads[j]) && '\n' !in leads[j].before && '\n' !in leads[j].after
    ensures Uncut(Led(leads, command), None) && '\n' !in Led(leads, command)
    ensures CommandsFrom(command) == Gather([ReadCommand(Led(leads, command))])
  {
    LedFits(leads, command, []);
    LedNewlineFree(leads, command);
    UncutSplit(command, None, []);
    assert [] + command == command;
    ReadOne(command);
    LeadsDoNotMatter(leads, command);
  }

  predicate IsNewlineFree(lead: Lead) {
    IsLead(lead) && '\n' !in lead.before && '\n' !in lead.after
  }

  /** A line of commands, each led by keywords and fit to stand before the separator after it. */
  predicate IsChain(leads: seq<seq<Lead>>, commands: seq<string>, separators: seq<string>) {
    && |leads| == |commands| == |separators| + 1
    && (forall i | 0 <= i < |separators| :: IsSeparator(separators[i]) && Fits(commands[i], None, separators[i]))
    && Uncut(commands[|separators|], None)
    && (forall i | 0 <= i < |commands| :: '\n' !in commands[i])
    && (forall i, j | 0 <= i < |leads| && 0 <= j < |leads[i]| :: IsNewlineFree(leads[i][j]))
  }

  lemma ChainedCommandIsRead(leads: seq<seq<Lead>>, commands: seq<string>, separators: seq<string>, i: nat)
    requires IsChain(leads, commands, separators) && i < |commands|
    ensures i < |separators| ==> Fits(Led(leads[i], commands[i]), None, separators[i])
    ensures Uncut(Led(leads[i], commands[i]), None) && '\n' !in Led(leads[i], commands[i])
    ensures CommandsFrom(commands[i]) == Gather([ReadCommand(Led(leads[i], commands[i]))])
  {
    if i < |separators| {
      FitsUncut(commands[i], None, separators[i]);
      LedFits(leads[i], commands[i], separators[i]);
    }
    assert forall j | 0 <= j < |leads[i]| :: IsNewlineFree(leads[i][j]);
    LedCommandIsRead(leads[i], commands[i]);
  }

  lemma ChainIsSplit(leads: seq<seq<Lead>>, commands: seq<string>, separators: seq<string>)
    requires IsChain(leads, commands, separators)
    ensures var line := Rejoin(LedAll(leads, commands), separators);
            Commands(line) == LedAll(leads, commands) && '\n' !in line
  {
    var led := LedAll(leads, commands);
    forall i | 0 <= i < |commands|
      ensures i < |separators| ==> Fits(led[i], None, separators[i])
      ensures Uncut(led[i], None) && '\n' !in led[i]
    {
      ChainedCommandIsRead(leads, commands, separators, i);
    }
    SplitUndoesJoin(led, separators);
    RejoinNewlineFree(led, separators);
  }

  /** Reading is a homomorphism: the commands read from a chained line are those read from each command on its own,
      in order, with the first error winning, whatever separators join them and whatever keywords lead them. */
  lemma ChainedCommandsAreReadOneByOne(leads: seq<seq<Lead>>, commands: seq<string>, separators: seq<string>)
    requires IsChain(leads, commands, separators)
    ensures CommandsFrom(Rejoin(LedAll(leads, commands), separators)) == ChainAll(ReadEach(commands))
  {
    var led := LedAll(leads, commands);
    ChainIsSplit(leads, commands, separators);
    OneLine(Rejoin(led, separators));
    forall i | 0 <= i < |commands| ensures ReadEach(commands)[i] == Gather([ReadAll(led)[i]]) {
      ChainedCommandIsRead(leads, commands, separators, i);
    }
    GatherEach(ReadAll(led), ReadEach(commands));
  }

  /** All assignments of some readings, in order. */
  function AllOf(readings: seq<Reading>): seq<Assignment>
    requires forall i | 0 <= i < |readings| :: readings[i].Ok?
  {
    if readings == [] then [] else readings[0].value + AllOf(readings[1..])
  }

  /** Readings chain in order, and the first error is the one reported. */
  lemma {:induction false} ChainsInOrder(readings: seq<Reading>, failed: Reading, after: seq<Reading>)
    requires forall i | 0 <= i < |readings| :: readings[i].Ok?
    requires failed.Err?
    ensures ChainAll(readings) == Ok(AllOf(readings))
    ensures ChainAll(readings + ([failed] + after)) == failed
  {
    var all := readings + ([failed] + after);
    if readings == [] {
      assert all == [failed] + after;
    } else {
      assert all[1..] == readings[1..] + ([failed] + after);
      ChainsInOrder(readings[1..], failed, after);
    }
  }

  // ---------------------------------------------------------------- lines

  /** Every backslash before a line feed, and that line feed, as one space. */
  function Unfolded(s: string): string {
    if s == [] then []
    else if "\\\n" <= s then " " + Unfolded(s[2..])
    else [s[0]] + Unfolded(s[1..])
  }

  lemma FindSkips(c: char, t: string, p: string)
    requires p != [] && !(p <= [c] + t)
    ensures Find([c] + t, p) == match Find(t, p) case None => None case Some(at) => Some(at + 1)
  {
    assert ([c] + t)[1..] == t;
  }

  lemma {:induction false} SplitOnSkips(c: char, t: string, p: string)
    requires p != [] && !(p <= [c] + t)
    ensures SplitOn([c] + t, p) == [[c] + SplitOn(t, p)[0]] + SplitOn(t, p)[1..]
  {
    var s, found := [c] + t, Find(t, p);
    FindSkips(c, t, p);
    if found.None? {
      SplitOnNone(t, p);
      SplitOnNone(s, p);
    } else {
      var at := found.value;
      SplitOnSome(t, p, at);
      SplitOnSome(s, p, at + 1);
      var rest := SplitOn(t[at + |p|..], p);
      assert s[..at + 1] == [c] + t[..at];
      assert s[at + 1 + |p|..] == t[at + |p|..];
      assert ([t[..at]] + rest)[1..] == rest;
    }
  }

  lemma SplitOnNone(s: string, p: string)
    requires p != [] && Find(s, p) == None
    ensures SplitOn(s, p) == [s]
  {
  }

  lemma SplitOnSome(s: string, p: string, at: nat)
    requires p != [] && Find(s, p) == Some(at)
    ensures SplitOn(s, p) == [s[..at]] + SplitOn(s[at + |p|..], p)
  {
  }

  lemma ReplaceFirst(s: string, p: string, filler: string)
    requires p != [] && p <= s
    ensures Replace(s, p, filler) == filler + Replace(s[|p|..], p, filler)
  {
    var rest := SplitOn(s[|p|..], p);
    assert SplitOn(s, p) == [s[..0]] + rest;
    assert ([s[..0]] + rest)[1..] == rest;
  }

  lemma {:induction false} ReplaceUnfolds(s: string)
    ensures Replace(s, "\\\n", " ") == Unfolded(s)
    decreases |s|
  {
    var p := "\\\n";
    if p <= s {
      ReplaceUnfolds(s[2..]);
      ReplaceFirst(s, p, " ");
    } else if s != [] {
      ReplaceUnfolds(s[1..]);
      assert s == [s[0]] + s[1..];
      SplitOnSkips(s[0], s[1..], p);
      JoinPrepends([s[0]], SplitOn(s[1..], p), " ");
    }
  }

  lemma JoinPrepends(head: string, parts: seq<string>, glue: string)
    requires parts != []
    ensures Join([head + parts[0]] + parts[1..], glue) == head + Join(parts, glue)
  {
    var changed := [head + parts[0]] + parts[1..];
    assert changed[1..] == parts[1..];
    if |parts| > 1 {
      assert head + parts[0] + glue + Join(parts[1..], glue) == head + (parts[0] + glue + Join(parts[1..], glue));
    }
  }

  lemma {:induction false} UnfoldedAround(a: string, b: string)
    ensures Unfolded(a + "\\\n" + b) == Unfolded(a + " " + b)
    decreases |a|
  {
    var s, t := a + "\\\n" + b, a + " " + b;
    if a == [] {
      assert s[2..] == b && t[1..] == b;
    } else if "\\\n" <= a {
      assert s[2..] == a[2..] + "\\\n" + b && t[2..] == a[2..] + " " + b;
      UnfoldedAround(a[2..], b);
    } else {
      assert s[1..] == a[1..] + "\\\n" + b && t[1..] == a[1..] + " " + b;
      assert |a| > 1 ==> s[1] == a[1] && t[1] == a[1];
      UnfoldedAround(a[1..], b);
    }
  }

  /** A recipe continued with a trailing backslash is one logical line. */
  lemma ContinuedLinesAreOne(a: string, b: string)
    ensures CommandsFrom(a + "\\\n" + b) == CommandsFrom(a + " " + b)
  {
    ReplaceUnfolds(a + "\\\n" + b);
    ReplaceUnfolds(a + " " + b);
    UnfoldedAround(a, b);
  }

  function Ended(lines: seq<string>): string {
    if lines == [] then [] else lines[0] + "\n" + Ended(lines[1..])
  }

  function ReadOneLine(line: string): Reading {
    CommandsFrom(StripCr(line))
  }

  function ReadLines(lines: seq<string>): seq<Reading> {
    Mapped(ReadOneLine, lines)
  }

  predicate IsLine(line: string) {
    '\n' !in line && (line == [] || line[|line| - 1] != '\\')
  }

  lemma UnfoldedKeeps(c: char, t: string)
    requires !(c == '\\' && t != [] && t[0] == '\n')
    ensures Unfolded([c] + t) == [c] + Unfolded(t)
  {
    var s := [c] + t;
    assert s[1..] == t;
    if t != [] {
      assert s[0] == c && s[1] == t[0];
    }
  }

  lemma {:induction false} UnfoldedLine(line: string, rest: string)
    requires IsLine(line)
    ensures Unfolded(line + "\n" + rest) == line + "\n" + Unfolded(rest)
  {
    var s := line + "\n" + rest;
    if line == [] {
      assert s[1..] == rest && [] + "\n" + Unfolded(rest) == "\n" + Unfolded(rest);
    } else {
      var t := line[1..] + "\n" + rest;
      assert s == [line[0]] + t;
      assert |line| > 1 ==> t[0] == line[1] != '\n';
      UnfoldedKeeps(line[0], t);
      UnfoldedLine(line[1..], rest);
      assert [line[0]] + (line[1..] + "\n" + Unfolded(rest)) == line + "\n" + Unfolded(rest);
    }
  }

  function ReadUnfolded(s: string): Reading {
    Collect(AllCommands(Lines(Unfolded(s))))
  }

  lemma ReadFirstLine(line: string, rest: string)
    requires IsLine(line)
    ensures ReadUnfolded(line + "\n" + rest) == Chain(CommandsFrom(StripCr(line)), ReadUnfolded(rest))
  {
    UnfoldedLine(line, rest);
    FirstLine(line, Unfolded(rest));
    var first, tail := StripCr(line), Lines(Unfolded(rest));
    assert ([first] + tail)[1..] == tail;
    CollectConcat(Commands(first), AllCommands(tail));
    OneLine(first);
  }

  lemma ChainAllFirst(first: Reading, rest: seq<Reading>)
    ensures ChainAll([first] + rest) == Chain(first, ChainAll(rest))
  {
    assert ([first] + rest)[1..] == rest;
  }

  lemma {:induction false} ReadEndedLines(lines: seq<string>)
    requires forall i | 0 <= i < |lines| :: IsLine(lines[i])
    ensures ReadUnfolded(Ended(lines)) == ChainAll(ReadLines(lines))
  {
    if lines == [] {
      assert AllCommands([]) == [] && ReadAll([]) == [];
    } else {
      ReadEndedLines(lines[1..]);
      ReadFirstLine(lines[0], Ended(lines[1..]));
      assert lines == [lines[0]] + lines[1..];
      MappedConcat(ReadOneLine, [lines[0]], lines[1..]);
      ChainAllFirst(ReadOneLine(lines[0]), ReadLines(lines[1..]));
    }
  }

  /** The output of `make -n` is read line by line: each line that ends in no backslash on its own, without
      its carriage return if it has one. */
  lemma {:induction false} LinesAreReadOneByOne(lines: seq<string>)
    requires forall i | 0 <= i < |lines| :: IsLine(lines[i])
    ensures CommandsFrom(Ended(lines)) == ChainAll(ReadLines(lines))
  {
    ReplaceUnfolds(Ended(lines));
    ReadEndedLines(lines);
  }

  // ---------------------------------------------------------------- the forms of an assignment

  const QUOTED: string := "RUSTFLAGS=\""
  const PREPENDED: string := "${RUSTFLAGS:+$RUSTFLAGS }"
  const FALLBACK: string := "${RUSTFLAGS-}"

  /** A command that assigns `value` in quotes, with no quote inside. */
  function Assigning(before: string, value: string, after: string): string {
    before + QUOTED + value + "\"" + after
  }

  /** Such a command is cut at the opening quote, then at the closing one. */
  lemma AssigningIsCut(before: string, value: string, after: string)
    requires !Contains(before, QUOTED) && '"' !in value
    ensures var rest := value + ("\"" + after);
            && SplitOnce(Assigning(before, value, after), QUOTED) == Some((before, rest))
            && SplitOnce(rest, "\"") == Some((value, after))
  {
    var rest := value + ("\"" + after);
    assert Assigning(before, value, after) == before + (QUOTED + rest);
    CutAfter(before, QUOTED, rest);
    FindAbsent(value, "\"", '"');
    CutAfter(value, "\"", after);
  }

  lemma QuotedValueIsRead(before: string, value: string, after: string)
    requires !Contains(before, QUOTED) && '"' !in value
    ensures AssignedRustflags(Assigning(before, value, after)) ==
            if IsGlued(value) then Err(Glued(Assigning(before, value, after)))
            else Ok(Assigned(OwnFlags(value), Contains(value, PREPENDED) || Contains(value, FALLBACK)))
  {
    AssigningIsCut(before, value, after);
  }

  /** Text that inherits nothing: neither expansion is in it. */
  predicate IsOwn(words: string) {
    !Contains(words, PREPENDED) && !Contains(words, FALLBACK)
  }

  /** Other dollar signs are no expansion, and a space before them makes none. */
  lemma SpacedIsOwn(words: string)
    requires IsOwn(words)
    ensures IsOwn(" " + words)
  {
    var s := " " + words;
    assert s[1..] == words && s[0] == ' ' && PREPENDED[0] == FALLBACK[0] == '$';
    assert !(PREPENDED <= s) && !(FALLBACK <= s);
  }

  lemma {:induction false} LeadingPiece(p: string, words: string)
    requires p != [] && Find(words, p).None?
    ensures SplitOn(p + words, p) == [[], words] && Contains(p + words, p)
    ensures Replace(p + words, p, " ") == " " + words
  {
    assert (p + words)[..0] == [] && (p + words)[|p|..] == words;
    ReplaceFirst(p + words, p, " ");
    assert SplitOn(words, p) == [words];
  }

  lemma PrependedIsNotFallback(words: string)
    requires IsOwn(words)
    ensures Find(PREPENDED + words, FALLBACK).None?
  {
    var s := PREPENDED + words;
    forall i | 0 <= i < |s| && s[i] == FALLBACK[0] ensures !(FALLBACK <= s[i..]) {
      if i == 0 {
        assert s[0..][11] == ':';
      } else if i < |PREPENDED| {
        assert i == 13 && s[13..][1] == 'R';
      } else {
        LaterIsNot(PREPENDED, words, FALLBACK, i);
      }
    }
    FindNothing(s, FALLBACK);
  }

  lemma LaterIsNot(first: string, words: string, p: string, i: nat)
    requires !Contains(words, p) && |first| <= i < |first| + |words|
    ensures !(p <= (first + words)[i..])
  {
    assert (first + words)[i..] == words[i - |first|..];
    if p <= words[i - |first|..] {
      FindIsFirst(words, p, i - |first|);
    }
  }

  lemma SpaceChangesNoWords(words: string)
    ensures Words(" " + words) == Words(words)
  {
    TrimStartSkips(" ", words);
  }

  /** No expansion: the flags are the words, normalised, and the caller's own are dropped. */
  lemma {:induction false} PlainAssignment(before: string, words: string, after: string)
    requires !Contains(before, QUOTED) && '"' !in words && IsOwn(words)
    ensures AssignedRustflags(Assigning(before, words, after)) == Ok(Assigned(Flags.Joined(Words(words)), false))
  {
    QuotedValueIsRead(before, words, after);
  }

  /** The separating expansion keeps the caller's flags and is itself no flag. */
  lemma {:induction false} PrependedAssignment(before: string, words: string, after: string)
    requires !Contains(before, QUOTED) && '"' !in words && IsOwn(words)
    ensures AssignedRustflags(Assigning(before, PREPENDED + words, after))
            == Ok(Assigned(Flags.Joined(Words(words)), true))
  {
    QuotedValueIsRead(before, PREPENDED + words, after);
    LeadingPiece(PREPENDED, words);
    PrependedIsNotFallback(words);
    SpaceChangesNoWords(words);
    SpacedIsOwn(words);
  }

  /** The empty-fallback expansion is refused exactly when the next flag touches it. */
  lemma FallbackAssignment(before: string, words: string, after: string)
    requires !Contains(before, QUOTED) && '"' !in words && IsOwn(words)
    ensures AssignedRustflags(Assigning(before, FALLBACK + words, after)) ==
            if words == [] || words[0] == ' ' then Ok(Assigned(Flags.Joined(Words(words)), true))
            else Err(Glued(Assigning(before, FALLBACK + words, after)))
  {
    QuotedValueIsRead(before, FALLBACK + words, after);
    LeadingPiece(FALLBACK, words);
    FallbackIsNotPrepended(words);
    SpaceChangesNoWords(words);
    assert SplitOn(FALLBACK + words, FALLBACK)[1] == words;
  }

  lemma FallbackIsNotPrepended(words: string)
    requires IsOwn(words)
    ensures Find(FALLBACK + words, PREPENDED).None?
  {
    var s := FALLBACK + words;
    forall i | 0 <= i < |s| && s[i] == PREPENDED[0] ensures !(PREPENDED <= s[i..]) {
      if i < |FALLBACK| {
        assert i == 0 && s[0..][11] == '-';
      } else {
        LaterIsNot(FALLBACK, words, PREPENDED, i);
      }
    }
    FindNothing(s, PREPENDED);
  }
}
