/** The reader of `rustflags` sources in a Cargo configuration, and the verdict on them
    (tests/build_standard_support/config.rs). */
module Config {
  import opened Wrappers
  import opened Text
  import opened Flags

  // ---------------------------------------------------------------- one line

  /** Where the first `#` outside quotes is. */
  function CommentStart(line: string, quote: Option<char>): (at: Option<nat>)
    ensures at.Some? ==> at.value < |line|
  {
    if line == [] then None
    else if quote.None? && line[0] == '#' then Some(0)
    else
      match CommentStart(line[1..], AfterQuote(quote, line[0]))
      case None => None
      case Some(at) => Some(at + 1)
  }

  function Uncommented(line: string): string {
    match CommentStart(line, None)
    case None => line
    case Some(at) => TrimEnd(line[..at])
  }

  method WithoutComment(line: string) returns (r: string)
    ensures r == Uncommented(line)
  {
    var quote := None;
    for index := 0 to |line|
      invariant CommentStart(line, None) ==
                match CommentStart(line[index..], quote) { case None => None case Some(at) => Some(index + at) }
    {
      var c := line[index];
      assert line[index..][1..] == line[index + 1..];
      if quote.None? && IsQuote(c) {
        quote := Some(c);
      } else if quote.Some? && c == quote.value {
        quote := None;
      } else if quote.None? && c == '#' {
        return TrimEnd(line[..index]);
      }
    }
    return line;
  }

  datatype Line = Table(name: string) | Rustflags(flags: seq<string>) | Other

  datatype ConfigError = SpansLines

  function TrimBrackets(s: string): string {
    if s != [] && (s[0] == '[' || s[0] == ']') then TrimBrackets(s[1..])
    else if s != [] && (s[|s| - 1] == '[' || s[|s| - 1] == ']') then TrimBrackets(s[..|s| - 1])
    else s
  }

  /** Every second part, from the second. */
  function Odd(parts: seq<string>): seq<string> {
    if |parts| < 2 then [] else [parts[1]] + Odd(parts[2..])
  }

  function Quoted(line: string): seq<string> {
    Odd(SplitOn(line, "\""))
  }

  function ReadLine(raw: string): Result<Line, ConfigError> {
    var line := Uncommented(raw);
    if "[" <= line then Ok(Table(Trim(TrimBrackets(line))))
    else if "rustflags" <= line && "=" <= TrimStart(line[9..]) then
      var value := line[9..];
      if ']' in value then Ok(Rustflags(Joined(Quoted(value)))) else Err(SpansLines)
    else Ok(Other)
  }

  /** The key that the lines of a configuration assign. */
  const KEY: string := "rustflags"

  // ---------------------------------------------------------------- the sources

  datatype Source = Source(table: string, flags: seq<string>)

  /** The sources on the lines still to come, the current table being `table`. */
  function SourcesFrom(lines: seq<string>, table: string): Result<seq<Source>, ConfigError>
    decreases lines
  {
    if lines == [] then Ok([])
    else
      var line := Trim(lines[0]);
      if "#" <= line then SourcesFrom(lines[1..], table)
      else
        match ReadLine(line)
        case Err(e) => Err(e)
        case Ok(Table(name)) => SourcesFrom(lines[1..], name)
        case Ok(Other) => SourcesFrom(lines[1..], table)
        case Ok(Rustflags(flags)) => Prepend(Source(table, flags), SourcesFrom(lines[1..], table))
  }

  function Prepend(source: Source, rest: Result<seq<Source>, ConfigError>): Result<seq<Source>, ConfigError> {
    match rest
    case Ok(found) => Ok([source] + found)
    case Err(e) => Err(e)
  }

  function Append(found: seq<Source>, rest: Result<seq<Source>, ConfigError>): Result<seq<Source>, ConfigError> {
    match rest
    case Ok(more) => Ok(found + more)
    case Err(e) => Err(e)
  }

  lemma AppendOne(found: seq<Source>, source: Source, rest: Result<seq<Source>, ConfigError>)
    ensures Append(found, Prepend(source, rest)) == Append(found + [source], rest)
  {
    if rest.Ok? {
      assert found + ([source] + rest.value) == found + [source] + rest.value;
    }
  }

  lemma AppendNone(rest: Result<seq<Source>, ConfigError>)
    ensures Append([], rest) == rest
  {
    if rest.Ok? {
      assert [] + rest.value == rest.value;
    }
  }

  method Sources(config: string) returns (r: Result<seq<Source>, ConfigError>)
    ensures r == SourcesFrom(Lines(config), "")
  {
    var table, found := "", [];
    var lines := Lines(config);
    AppendNone(SourcesFrom(lines, ""));
    assert lines[0..] == lines;
    for i := 0 to |lines|
      invariant SourcesFrom(lines, "") == Append(found, SourcesFrom(lines[i..], table))
    {
      var line := Trim(lines[i]);
      assert lines[i..][1..] == lines[i + 1..];
      if "#" <= line {
        continue;
      }
      match ReadLine(line) {
        case Err(e) => return Err(e);
        case Ok(Table(name)) => table := name;
        case Ok(Other) =>
        case Ok(Rustflags(flags)) =>
          AppendOne(found, Source(table, flags), SourcesFrom(lines[i + 1..], table));
          found := found + [Source(table, flags)];
      }
    }
    assert lines[|lines|..] == [] && found + [] == found;
    r := Ok(found);
  }

  // ---------------------------------------------------------------- the verdict

  const ALL_LINUX_TABLE: string := "target.'cfg(target_os = \"linux\")'"

  predicate IsLinux(table: string) {
    "target." <= table && Contains(table, "linux")
  }

  datatype Problem =
    | NoSource
    | NoLinuxTable
    | NoAllLinuxTable
    | NoBuildTable
    | WrongFlags(table: string, reason: FlagProblem)
    | Drift(stripped: seq<seq<string>>)

  predicate AnyLinux(found: seq<Source>) {
    exists i :: 0 <= i < |found| && IsLinux(found[i].table)
  }

  predicate AnyTable(found: seq<Source>, table: string) {
    exists i :: 0 <= i < |found| && found[i].table == table
  }

  function Complaint(failed: bool, problem: Problem): seq<Problem> {
    if failed then [problem] else []
  }

  function ShapeProblems(found: seq<Source>, pin: Pin): seq<Problem> {
    Complaint(found == [], NoSource)
    + Complaint(!AnyLinux(found), NoLinuxTable)
    + Complaint(AnyLinux(found) && !AnyTable(found, ALL_LINUX_TABLE), NoAllLinuxTable)
    + Complaint(TakesThreads(pin) && !AnyTable(found, "build"), NoBuildTable)
  }

  function SourceProblems(found: seq<Source>, pin: Pin): seq<Problem> {
    if found == [] then []
    else
      var rest := SourceProblems(found[1..], pin);
      match Meets(found[0].flags, pin, IsLinux(found[0].table))
      case None => rest
      case Some(reason) => [WrongFlags(found[0].table, reason)] + rest
  }

  /** `dedup`: neighbours that are equal become one. */
  function Dedup(lists: seq<seq<string>>): seq<seq<string>> {
    if |lists| < 2 then lists
    else if lists[0] == lists[1] then Dedup(lists[1..])
    else [lists[0]] + Dedup(lists[1..])
  }

  function Stripped(found: seq<Source>): seq<seq<string>> {
    seq(|found|, i requires 0 <= i < |found| => WithoutLinker(found[i].flags))
  }

  function DriftProblems(found: seq<Source>): seq<Problem> {
    var stripped := Dedup(Stripped(found));
    Complaint(|stripped| > 1, Drift(stripped))
  }

  function Problems(found: seq<Source>, pin: Pin): seq<Problem> {
    ShapeProblems(found, pin) + SourceProblems(found, pin) + DriftProblems(found)
  }

  function ConfigProblems(config: string, pin: Pin): Result<seq<Problem>, ConfigError> {
    match SourcesFrom(Lines(config), "")
    case Err(e) => Err(e)
    case Ok(found) => Ok(Problems(found, pin))
  }

  // ---------------------------------------------------------------- the verdict is the standard

  /** A table that applies on Linux alone. */
  predicate IsLinuxTable(table: string) {
    "target." <= table && Holds(table, "linux")
  }

  lemma LinuxTablesAre(table: string)
    ensures IsLinux(table) <==> IsLinuxTable(table)
  {
    ContainsIs(table, "linux");
  }

  /** The declared standard: an all-Linux source, a source for the other hosts on a nightly pin, the frontend
      flag in each source on a nightly pin only, the linker in Linux tables only, and no other difference. */
  ghost predicate MeetsStandard(found: seq<Source>, pin: Pin) {
    && (exists s :: s in found && s.table == "target.'cfg(target_os = \"linux\")'")
    && (pin.Nightly? ==> exists s :: s in found && s.table == "build")
    && (forall s | s in found ::
          && ("-Zthreads=8" in s.flags <==> pin.Nightly?)
          && ("-Clink-arg=-fuse-ld=mold" in s.flags <==> IsLinuxTable(s.table)))
    && (forall s, u | s in found && u in found :: SameButLinker(s.flags, u.flags))
  }

  lemma AllLinuxIsLinux()
    ensures IsLinux(ALL_LINUX_TABLE)
  {
    assert ALL_LINUX_TABLE[25..][..5] == "linux";
    FindIsFirst(ALL_LINUX_TABLE, "linux", 25);
  }

  predicate AllSame(lists: seq<seq<string>>) {
    |lists| < 2 || (lists[0] == lists[1] && AllSame(lists[1..]))
  }

  lemma {:induction false} DedupShort(lists: seq<seq<string>>)
    ensures |Dedup(lists)| <= 1 <==> AllSame(lists)
    ensures lists != [] ==> Dedup(lists) != []
  {
    if |lists| >= 2 {
      DedupShort(lists[1..]);
    }
  }

  lemma {:induction false} AllSameMeans(lists: seq<seq<string>>)
    ensures AllSame(lists) <==> forall i | 0 <= i < |lists| :: lists[i] == lists[0]
  {
    if |lists| >= 2 {
      var rest := lists[1..];
      AllSameMeans(rest);
      if AllSame(lists) {
        forall i | 1 <= i < |lists| ensures lists[i] == lists[0] {
          assert rest[i - 1] == rest[0];
        }
      }
      if forall i | 0 <= i < |lists| :: lists[i] == lists[0] {
        assert forall i | 0 <= i < |rest| :: rest[i] == lists[i + 1];
      }
    }
  }

  /** One pass over neighbours finds drift between any two sources, however far apart. */
  lemma DriftIsAnyDifference(found: seq<Source>)
    ensures DriftProblems(found) == [] <==>
            forall s, u | s in found && u in found :: SameButLinker(s.flags, u.flags)
  {
    var lists := Stripped(found);
    DedupShort(lists);
    AllSameMeans(lists);
    if AllSame(lists) {
      forall s, u | s in found && u in found ensures SameButLinker(s.flags, u.flags) {
        SameButLinkerIs(s.flags, u.flags);
        var i :| 0 <= i < |found| && found[i] == s;
        var j :| 0 <= j < |found| && found[j] == u;
        assert lists[i] == lists[0] && lists[j] == lists[0];
      }
    } else {
      var i :| 0 <= i < |lists| && lists[i] != lists[0];
      SameButLinkerIs(found[i].flags, found[0].flags);
      assert found[i] in found && found[0] in found;
    }
  }

  lemma {:induction false} SourceProblemsNone(found: seq<Source>, pin: Pin)
    ensures SourceProblems(found, pin) == [] <==>
            forall s | s in found :: Meets(s.flags, pin, IsLinuxTable(s.table)) == None
  {
    if found != [] {
      SourceProblemsNone(found[1..], pin);
      LinuxTablesAre(found[0].table);
      assert forall s :: s in found <==> s == found[0] || s in found[1..];
    }
  }

  lemma ShapeProblemsNone(found: seq<Source>, pin: Pin)
    ensures ShapeProblems(found, pin) == [] <==>
            AnyTable(found, ALL_LINUX_TABLE) && (TakesThreads(pin) ==> AnyTable(found, "build"))
  {
    AllLinuxIsLinux();
    if AnyTable(found, ALL_LINUX_TABLE) {
      var i :| 0 <= i < |found| && found[i].table == ALL_LINUX_TABLE;
      assert IsLinux(found[i].table);
    }
  }

  lemma AnyTableIn(found: seq<Source>, table: string)
    ensures AnyTable(found, table) <==> exists s :: s in found && s.table == table
  {
    if s :| s in found && s.table == table {
      var i :| 0 <= i < |found| && found[i] == s;
    }
  }

  /** The verdict on any number of sources: nothing to complain about exactly when they meet the standard. */
  lemma VerdictIsTheStandard(found: seq<Source>, pin: Pin)
    ensures Problems(found, pin) == [] <==> MeetsStandard(found, pin)
  {
    ShapeProblemsNone(found, pin);
    SourceProblemsNone(found, pin);
    DriftIsAnyDifference(found);
    AnyTableIn(found, ALL_LINUX_TABLE);
    AnyTableIn(found, "build");
    forall s | s in found
      ensures Meets(s.flags, pin, IsLinuxTable(s.table)) == None <==>
              && ("-Zthreads=8" in s.flags <==> pin.Nightly?)
              && ("-Clink-arg=-fuse-ld=mold" in s.flags <==> IsLinuxTable(s.table))
    {
      MeetsIs(s.flags, pin, IsLinuxTable(s.table));
    }
  }

  /** The verdict on a file: readable and nothing to complain about exactly when its sources meet the standard. */
  lemma ConfigVerdictIsTheStandard(config: string, pin: Pin)
    ensures ConfigProblems(config, pin) == Ok([]) <==>
            SourcesFrom(Lines(config), "").Ok? && MeetsStandard(SourcesFrom(Lines(config), "").value, pin)
  {
    if SourcesFrom(Lines(config), "").Ok? {
      VerdictIsTheStandard(SourcesFrom(Lines(config), "").value, pin);
    }
  }

  /** What raises each complaint. */
  ghost predicate IsDue(p: Problem, found: seq<Source>, pin: Pin) {
    match p
    case NoSource => found == []
    case NoLinuxTable => forall s | s in found :: !IsLinuxTable(s.table)
    case NoAllLinuxTable =>
      && (exists s :: s in found && IsLinuxTable(s.table))
      && forall s | s in found :: s.table != "target.'cfg(target_os = \"linux\")'"
    case NoBuildTable => pin == Nightly && forall s | s in found :: s.table != "build"
    case WrongFlags(table, reason) =>
      exists s :: s in found && s.table == table && Meets(s.flags, pin, IsLinuxTable(table)) == Some(reason)
    case Drift(lists) =>
      (exists s, u :: s in found && u in found && !SameButLinker(s.flags, u.flags)) && lists == Dedup(Stripped(found))
  }

  /** Each complaint is raised exactly when it is due. */
  lemma ProblemsAreDue(found: seq<Source>, pin: Pin, p: Problem)
    ensures p in Problems(found, pin) <==> IsDue(p, found, pin)
  {
    ShapeProblemsAreDue(found, pin, p);
    SourceProblemsAreDue(found, pin, p);
    DriftIsAnyDifference(found);
  }

  lemma AnyLinuxIn(found: seq<Source>)
    ensures AnyLinux(found) <==> exists s :: s in found && IsLinuxTable(s.table)
  {
    forall s | s in found ensures IsLinux(s.table) <==> IsLinuxTable(s.table) {
      LinuxTablesAre(s.table);
    }
    if s :| s in found && IsLinuxTable(s.table) {
      var i :| 0 <= i < |found| && found[i] == s;
      assert IsLinux(found[i].table);
    }
    if i :| 0 <= i < |found| && IsLinux(found[i].table) {
      assert found[i] in found;
    }
  }

  lemma ShapeProblemsAreDue(found: seq<Source>, pin: Pin, p: Problem)
    ensures p in ShapeProblems(found, pin) <==> !p.WrongFlags? && !p.Drift? && IsDue(p, found, pin)
  {
    AnyLinuxIn(found);
    AnyTableIn(found, ALL_LINUX_TABLE);
    AnyTableIn(found, "build");
  }

  lemma {:induction false} SourceProblemsAreDue(found: seq<Source>, pin: Pin, p: Problem)
    ensures p in SourceProblems(found, pin) <==> p.WrongFlags? && IsDue(p, found, pin)
  {
    if found != [] {
      SourceProblemsAreDue(found[1..], pin, p);
      LinuxTablesAre(found[0].table);
      assert forall s :: s in found <==> s == found[0] || s in found[1..];
    }
  }

  /** The order of complaints: what is missing, what is wrong with each source, and drift. */
  function Rank(p: Problem): nat {
    match p
    case NoSource => 0
    case NoLinuxTable => 1
    case NoAllLinuxTable => 2
    case NoBuildTable => 3
    case WrongFlags(_, _) => 4
    case Drift(_) => 5
  }

  /** Ascending in rank, from `lo` to `hi`. */
  predicate IsRanked(problems: seq<Problem>, lo: nat, hi: nat) {
    && (forall i | 0 <= i < |problems| :: lo <= Rank(problems[i]) <= hi)
    && (forall i, j | 0 <= i < j < |problems| :: Rank(problems[i]) <= Rank(problems[j]))
  }

  lemma RankedConcat(a: seq<Problem>, b: seq<Problem>, lo: nat, mid: nat, hi: nat)
    requires IsRanked(a, lo, mid) && IsRanked(b, mid, hi) && lo <= mid <= hi
    ensures IsRanked(a + b, lo, hi)
  {
  }

  lemma ProblemsAreRanked(found: seq<Source>, pin: Pin)
    ensures IsRanked(Problems(found, pin), 0, 5)
  {
    WrongFlagsOnly(found, pin);
    RankedConcat(ShapeProblems(found, pin), SourceProblems(found, pin), 0, 4, 4);
    RankedConcat(ShapeProblems(found, pin) + SourceProblems(found, pin), DriftProblems(found), 0, 4, 5);
  }

  lemma {:induction false} WrongFlagsOnly(found: seq<Source>, pin: Pin)
    ensures forall i | 0 <= i < |SourceProblems(found, pin)| :: SourceProblems(found, pin)[i].WrongFlags?
  {
    if found != [] {
      WrongFlagsOnly(found[1..], pin);
    }
  }

  /** Sources are complained about in their order. */
  lemma {:induction false} SourceProblemsConcat(a: seq<Source>, b: seq<Source>, pin: Pin)
    ensures SourceProblems(a + b, pin) == SourceProblems(a, pin) + SourceProblems(b, pin)
  {
    if a == [] {
      assert a + b == b;
    } else {
      assert (a + b)[1..] == a[1..] + b;
      SourceProblemsConcat(a[1..], b, pin);
    }
  }

  /** Equal neighbours count once. */
  lemma {:induction false} DedupMerges(a: seq<seq<string>>, x: seq<string>, b: seq<seq<string>>)
    ensures Dedup(a + [x, x] + b) == Dedup(a + [x] + b)
  {
    var s, t := a + [x, x] + b, a + [x] + b;
    if a == [] {
      assert s[1..] == t;
    } else {
      assert s[1..] == a[1..] + [x, x] + b && t[1..] == a[1..] + [x] + b;
      assert s[0] == t[0] == a[0] && s[1] == t[1];
      DedupMerges(a[1..], x, b);
    }
  }

  lemma {:induction false} DedupKeeps(lists: seq<seq<string>>)
    requires forall i | 0 <= i < |lists| - 1 :: lists[i] != lists[i + 1]
    ensures Dedup(lists) == lists
  {
    if |lists| >= 2 {
      DedupKeeps(lists[1..]);
    }
  }

  const BUILD_SOURCE: Source := Source("build", ["-Zthreads=8"])
  const LINUX_SOURCE: Source :=
    Source("target.'cfg(target_os = \"linux\")'", ["-Zthreads=8", "-Clink-arg=-fuse-ld=mold"])

  lemma DeclaredTables()
    ensures IsLinuxTable(LINUX_SOURCE.table) && !IsLinuxTable("build")
  {
    AllLinuxIsLinux();
    LinuxTablesAre(LINUX_SOURCE.table);
  }

  /** Two sources in the declared tables are clean if both take the frontend flag, only the second takes the linker, and
      they are otherwise the same. */
  lemma DeclaredPairsAreClean(a: Source, b: Source)
    requires a.table == BUILD_SOURCE.table && b.table == LINUX_SOURCE.table
    requires "-Zthreads=8" in a.flags && "-Zthreads=8" in b.flags
    requires "-Clink-arg=-fuse-ld=mold" !in a.flags && "-Clink-arg=-fuse-ld=mold" in b.flags
    requires SameButLinker(a.flags, b.flags)
    ensures Problems([a, b], Nightly) == []
  {
    var found := [a, b];
    DeclaredTables();
    SameButLinkerIs(a.flags, b.flags);
    forall s, u | s in found && u in found ensures SameButLinker(s.flags, u.flags) {
      SameButLinkerIs(s.flags, u.flags);
    }
    assert a in found && b in found;
    VerdictIsTheStandard(found, Nightly);
  }

  /** So the repository's own configuration is clean. */
  lemma DeclaredSourcesAreClean()
    ensures Problems([BUILD_SOURCE, LINUX_SOURCE], Nightly) == []
  {
    LinkerAlone();
    assert LINUX_SOURCE.flags[1] == "-Clink-arg=-fuse-ld=mold";
    DeclaredPairsAreClean(BUILD_SOURCE, LINUX_SOURCE);
  }

  /** One more flag in one of its sources is drift. */
  lemma OneMoreFlagIsDrift()
    ensures DriftProblems([BUILD_SOURCE, Source("build", ["-Zthreads=8", "-Copt-level=1"])]) != []
  {
    var more := Source("build", ["-Zthreads=8", "-Copt-level=1"]);
    LinkerAlone();
    assert BUILD_SOURCE in [BUILD_SOURCE, more] && more in [BUILD_SOURCE, more];
    DriftIsAnyDifference([BUILD_SOURCE, more]);
  }

  // ---------------------------------------------------------------- decoration is not part of the meaning

  /** Every quote in a line is closed, or a comment has started. */
  predicate Unquoted(line: string, quote: Option<char>) {
    if line == [] then quote.None?
    else (quote.None? && line[0] == '#') || Unquoted(line[1..], AfterQuote(quote, line[0]))
  }

  lemma {:induction false} CommentAfter(line: string, quote: Option<char>, gap: string, rest: string)
    requires Unquoted(line, quote) && AllSpace(gap) && "#" <= rest
    ensures CommentStart(line + gap + rest, quote) ==
            if CommentStart(line, quote).Some? then CommentStart(line, quote) else Some(|line| + |gap|)
    decreases |line| + |gap|
  {
    var s := line + gap + rest;
    if line != [] {
      assert s[1..] == line[1..] + gap + rest && s[0] == line[0];
      if !(quote.None? && line[0] == '#') {
        CommentAfter(line[1..], AfterQuote(quote, line[0]), gap, rest);
      }
    } else if gap != [] {
      assert s[1..] == [] + gap[1..] + rest && s[0] == gap[0];
      CommentAfter([], None, gap[1..], rest);
    } else {
      assert s == rest;
    }
  }

  /** What follows a kept line: nothing but white space, or white space and a comment. */
  predicate IsTrailer(tail: string) {
    AllSpace(tail) || exists k :: 0 <= k < |tail| && AllSpace(tail[..k]) && tail[k] == '#'
  }

  lemma {:induction false} TrimmedUncommented(core: string, gap: string, rest: string)
    requires Unquoted(core, None) && AllSpace(gap) && "#" <= rest
    requires core == [] || !IsSpace(core[|core| - 1])
    ensures Uncommented(core + gap + rest) == Uncommented(core)
  {
    CommentAfter(core, None, gap, rest);
    var s := core + gap + rest;
    var found := CommentStart(core, None);
    if found.Some? {
      assert s[..found.value] == core[..found.value];
    } else {
      assert s[..|core| + |gap|] == core + gap;
      TrimEndSkips(core, gap);
      assert TrimEnd(core) == core;
    }
  }

  /** A comment after a kept line. */
  lemma CommentChangesNothing(before: string, line: string, gap: string, comment: string)
    requires AllSpace(before) && AllSpace(gap) && "#" <= comment
    requires Trim(line) != [] && Unquoted(Trim(line), None)
    ensures ReadLine(Trim(before + line + gap + comment)) == ReadLine(Trim(line))
  {
    var left, right := TrimParts(line);
    var core, c := Trim(line), TrimEnd(comment);
    TrimEndShortens(comment);
    LongPrefixSurvives(comment, 1);
    var body := core + (right + gap) + c;
    assert before + line + gap + comment == (before + left) + body + comment[|c|..];
    TrimOf(before + left, body, comment[|c|..]);
    TrimmedUncommented(core, right + gap, c);
  }

  /** The quote that is open at the end of a line. */
  function QuoteAfter(line: string, quote: Option<char>): Option<char> {
    if line == [] then quote else QuoteAfter(line[1..], AfterQuote(quote, line[0]))
  }

  /** After an open quote, a `#` starts a comment only once the quote is closed. */
  lemma {:induction false} OpenQuoteStays(line: string, quote: Option<char>, rest: string)
    requires !Unquoted(line, quote) && (quote.Some? ==> IsQuote(quote.value))
    ensures CommentStart(line, quote) == None
    ensures QuoteAfter(line, quote).Some? && IsQuote(QuoteAfter(line, quote).value)
    ensures CommentStart(line + rest, quote) ==
            match CommentStart(rest, QuoteAfter(line, quote)) case None => None case Some(at) => Some(|line| + at)
    ensures quote.None? ==> exists i :: 0 <= i < |line| && IsQuote(line[i])
  {
    if line == [] {
      assert line + rest == rest;
    } else {
      assert (line + rest)[1..] == line[1..] + rest && (line + rest)[0] == line[0];
      OpenQuoteStays(line[1..], AfterQuote(quote, line[0]), rest);
      if quote.None? && !IsQuote(line[0]) {
        var i :| 0 <= i < |line| - 1 && IsQuote(line[1..][i]);
        assert IsQuote(line[i + 1]);
      }
    }
  }

  /** What a line with an open quote reads as when more follows: nothing of it is cut. */
  lemma OpenLineIsKept(core: string, rest: string)
    requires !Unquoted(core, None) && core != [] && !IsSpace(core[|core| - 1])
    ensures Uncommented(core) == core && core <= Uncommented(core + rest)
    ensures CommentStart(rest, QuoteAfter(core, None)) == None ==> Uncommented(core + rest) == core + rest
  {
    OpenQuoteStays(core, None, rest);
    var found := CommentStart(core + rest, None);
    if found.Some? {
      var cut := (core + rest)[..found.value];
      assert cut[..|core|] == core && cut[|core| - 1] == core[|core| - 1];
      LongPrefixSurvives(cut, |core|);
    }
  }

  /** Neither header nor key, whatever follows. */
  lemma OtherStaysOther(core: string, raw: string)
    requires Uncommented(core) == core && core <= Uncommented(raw) && ReadLine(core) == Ok(Other)
    requires exists i :: 0 <= i < |core| && IsQuote(core[i])
    ensures ReadLine(raw) == Ok(Other)
  {
    var line := Uncommented(raw);
    var i :| 0 <= i < |core| && IsQuote(core[i]);
    assert line[0] == core[0] && line[i] == core[i];
    if KEY <= line {
      assert i >= |KEY|;
      assert core[..|KEY|] == line[..|KEY|];
      PrefixDrops(core, line, |KEY|);
      assert core[|KEY|..][i - |KEY|] == core[i];
      SameStart(core[|KEY|..], line[|KEY|..], i - |KEY|);
    }
  }

  lemma PrefixDrops(a: string, b: string, n: nat)
    requires a <= b && n <= |a|
    ensures a[n..] <= b[n..]
  {
    assert b[n..][..|a| - n] == b[..|a|][n..];
  }

  lemma {:induction false} SameStart(a: string, b: string, i: nat)
    requires a <= b && i < |a| && !IsSpace(a[i])
    ensures TrimStart(a) != [] && TrimStart(b) != [] && TrimStart(a)[0] == TrimStart(b)[0]
  {
    if IsSpace(a[0]) {
      assert a[1..] == b[1..][..|a| - 1];
      SameStart(a[1..], b[1..], i - 1);
    }
  }

  /** The text of a line and a comment after it. */
  lemma {:induction false} CommentedCore(before: string, line: string, gap: string, comment: string)
    returns (right: string)
    requires AllSpace(before) && AllSpace(gap) && "#" <= comment && Trim(line) != []
    ensures AllSpace(right) && !IsSpace(Trim(line)[|Trim(line)| - 1])
    ensures Trim(before + line + gap + comment) == Trim(line) + (right + gap + TrimEnd(comment))
    ensures comment == ['#'] || !IsSpace(comment[|comment| - 1]) ==> TrimEnd(comment) == comment
  {
    var left, trailing := TrimParts(line);
    right := trailing;
    var core, c := Trim(line), TrimEnd(comment);
    TrimEndShortens(comment);
    LongPrefixSurvives(comment, 1);
    var body := core + (right + gap + c);
    assert before + line + gap + comment == (before + left) + body + comment[|c|..];
    TrimOf(before + left, body, comment[|c|..]);
  }

  /** A comment after a line that leaves a quote open but reads as nothing. */
  lemma OtherLinesTakeComments(before: string, line: string, gap: string, comment: string)
    requires AllSpace(before) && AllSpace(gap) && "#" <= comment
    requires !Unquoted(Trim(line), None) && ReadLine(Trim(line)) == Ok(Other)
    ensures ReadLine(Trim(before + line + gap + comment)) == Ok(Other)
  {
    var core := Trim(line);
    var right := CommentedCore(before, line, gap, comment);
    var rest := right + gap + TrimEnd(comment);
    OpenQuoteStays(core, None, rest);
    OpenLineIsKept(core, rest);
    OtherStaysOther(core, core + rest);
  }

  /** A comment after a blank line. */
  lemma CommentOnBlank(before: string, comment: string)
    requires AllSpace(before) && "#" <= comment
    ensures ReadLine(Trim(before + comment)) == Ok(Other)
  {
    var c := TrimEnd(comment);
    TrimEndShortens(comment);
    LongPrefixSurvives(comment, 1);
    assert before + comment == before + c + comment[|c|..];
    TrimOf(before, c, comment[|c|..]);
    CommentLinesAreOther(c);
  }

  /** A comment may follow the line: it leaves no quote open, or reads as nothing anyway. */
  predicate TakesComments(line: string) {
    Unquoted(Trim(line), None) || ReadLine(Trim(line)) == Ok(Other)
  }

  lemma TrailerChangesNothing(before: string, line: string, tail: string)
    requires AllSpace(before) && (AllSpace(tail) || (IsTrailer(tail) && TakesComments(line)))
    ensures ReadLine(Trim(before + line + tail)) == ReadLine(Trim(line))
  {
    var left, right := TrimParts(line);
    if AllSpace(tail) {
      assert before + line + tail == (before + left) + Trim(line) + (right + tail);
      TrimOf(before + left, Trim(line), right + tail);
    } else {
      var k :| 0 <= k < |tail| && AllSpace(tail[..k]) && tail[k] == '#';
      if Trim(line) == [] {
        assert before + line + tail == (before + line + tail[..k]) + tail[k..];
        CommentOnBlank(before + line + tail[..k], tail[k..]);
      } else {
        assert before + line + tail == before + line + tail[..k] + tail[k..];
        if Unquoted(Trim(line), None) {
          CommentChangesNothing(before, line, tail[..k], tail[k..]);
        } else {
          OtherLinesTakeComments(before, line, tail[..k], tail[k..]);
        }
      }
    }
  }

  /** Skipping comment lines is the same as reading them: they read as nothing. */
  lemma CommentLinesAreOther(line: string)
    requires "#" <= line
    ensures ReadLine(line) == Ok(Other)
  {
    assert CommentStart(line, None) == Some(0) && line[..0] == [];
  }

  lemma LongPrefixSurvives(s: string, k: nat)
    requires 0 < k <= |s| && !IsSpace(s[k - 1])
    ensures |TrimEnd(s)| >= k && TrimEnd(s)[..k] == s[..k]
  {
    TrimEndShortens(s);
  }

  /** A line of a decorated file: one that means nothing, or one of the plain file, indented and commented. */
  datatype Decorated = Noise(text: string) | Kept(before: string, line: string, tail: string)

  predicate IsDecoration(d: Decorated) {
    match d
    case Noise(text) => ReadLine(Trim(text)) == Ok(Other)
    case Kept(before, line, tail) => AllSpace(before) && (AllSpace(tail) || (IsTrailer(tail) && TakesComments(line)))
  }

  function DecoratedLines(ds: seq<Decorated>): seq<string> {
    if ds == [] then []
    else [match ds[0] case Noise(text) => text case Kept(before, line, tail) => before + line + tail]
         + DecoratedLines(ds[1..])
  }

  function Plain(ds: seq<Decorated>): seq<string> {
    if ds == [] then []
    else (match ds[0] case Noise(_) => [] case Kept(_, line, _) => [line]) + Plain(ds[1..])
  }

  lemma {:induction false} DecorationKeepsSources(ds: seq<Decorated>, table: string)
    requires forall i | 0 <= i < |ds| :: IsDecoration(ds[i])
    ensures SourcesFrom(DecoratedLines(ds), table) == SourcesFrom(Plain(ds), table)
    decreases ds
  {
    if ds != [] {
      var decorated := DecoratedLines(ds);
      assert decorated[1..] == DecoratedLines(ds[1..]);
      if "#" <= Trim(decorated[0]) {
        CommentLinesAreOther(Trim(decorated[0]));
      }
      match ds[0]
      case Noise(text) =>
        DecorationKeepsSources(ds[1..], table);
        assert Plain(ds) == Plain(ds[1..]);
      case Kept(before, line, tail) =>
        TrailerChangesNothing(before, line, tail);
        if "#" <= Trim(line) {
          CommentLinesAreOther(Trim(line));
        }
        var plain := Plain(ds);
        assert plain[1..] == Plain(ds[1..]) && plain[0] == line;
        match ReadLine(Trim(line)) {
          case Ok(Table(name)) => DecorationKeepsSources(ds[1..], name);
          case _ => DecorationKeepsSources(ds[1..], table);
        }
    }
  }

  /** Decoration is not part of the meaning: indentation, trailing comments and lines that read as nothing, added
      anywhere in a file of any length, never change its result, errors included. */
  lemma DecorationChangesNothing(decorated: string, plain: string, ds: seq<Decorated>, pin: Pin)
    requires forall i | 0 <= i < |ds| :: IsDecoration(ds[i])
    requires Lines(decorated) == DecoratedLines(ds) && Lines(plain) == Plain(ds)
    ensures ConfigProblems(decorated, pin) == ConfigProblems(plain, pin)
  {
    DecorationKeepsSources(ds, "");
  }

  /** Blank lines, comment lines and keys that only begin like `rustflags` read as nothing. */
  lemma BlanksAndCommentsAreNoise(before: string, rest: string)
    requires AllSpace(before) && (rest == [] || rest[0] == '#')
    ensures IsDecoration(Noise(before + rest))
  {
    if rest == [] {
      TrimOf(before, [], []);
      assert before + [] + [] == before + rest;
    } else {
      CommentOnBlank(before, rest);
    }
  }

  lemma {:induction false} NoCommentBefore(s: string, quote: Option<char>, k: nat)
    requires k <= |s| && forall i | 0 <= i < k :: s[i] != '#'
    ensures CommentStart(s, quote).Some? ==> CommentStart(s, quote).value >= k
  {
    if k > 0 {
      NoCommentBefore(s[1..], AfterQuote(quote, s[0]), k - 1);
    }
  }

  lemma LookalikeKeysAreNoise(before: string, rest: string)
    requires AllSpace(before)
    requires rest != [] && !IsSpace(rest[0]) && rest[0] != '='
    ensures IsDecoration(Noise(before + KEY + rest))
  {
    var s := KEY + rest;
    TrimEndShortens(s);
    var core := TrimEnd(s);
    LongPrefixSurvives(s, |KEY| + 1);
    assert before + KEY + rest == before + core + s[|core|..];
    TrimOf(before, core, s[|core|..]);
    assert core[|KEY|] == rest[0];
    LookalikeStays(core);
    LookalikeIsOther(core);
  }

  /** A key that goes on past `rustflags`, or a bare `rustflags`. */
  predicate IsLookalike(s: string) {
    KEY <= s && (|s| > |KEY| ==> !IsSpace(s[|KEY|]) && s[|KEY|] != '=')
  }

  lemma LookalikeStays(core: string)
    requires IsLookalike(core)
    ensures IsLookalike(Uncommented(core))
  {
    NoCommentBefore(core, None, |KEY|);
    var found := CommentStart(core, None);
    if found.Some? {
      var at := found.value;
      var cut := core[..at];
      TrimEndShortens(cut);
      LongPrefixSurvives(cut, if at > |KEY| then |KEY| + 1 else |KEY|);
    }
  }

  lemma LookalikeIsOther(raw: string)
    requires IsLookalike(Uncommented(raw))
    ensures ReadLine(raw) == Ok(Other)
  {
    var line := Uncommented(raw);
    assert line[0] == KEY[0];
    if |line| > |KEY| {
      assert line[|KEY|..][0] == line[|KEY|];
    } else {
      assert line[|KEY|..] == [];
    }
  }

  // ---------------------------------------------------------------- reading what was written

  predicate Unquotable(words: seq<string>) {
    forall i | 0 <= i < |words| :: '"' !in words[i]
  }

  lemma OddOf(a: string, b: string, rest: seq<string>)
    ensures Odd([a] + ([b] + rest)) == [b] + Odd(rest)
  {
    assert ([a] + ([b] + rest))[2..] == rest;
  }

  lemma SplitAtQuotes(before: string, word: string, rest: string)
    requires '"' !in before && '"' !in word
    ensures Quoted(before + "\"" + (word + "\"" + rest)) == [word] + Quoted(rest)
  {
    SplitAtChar(before, '"', word + "\"" + rest);
    SplitAtChar(word, '"', rest);
    OddOf(before, word, SplitOn(rest, "\""));
  }

  /** Quoted words with any text between them. */
  function Spaced(gaps: seq<string>, words: seq<string>): string
    requires |gaps| == |words| + 1
  {
    if words == [] then gaps[0] else gaps[0] + "\"" + (words[0] + "\"" + Spaced(gaps[1..], words[1..]))
  }

  /** No quote mark and no comment in the text between. */
  predicate IsPlain(gaps: seq<string>) {
    forall i, j | 0 <= i < |gaps| && 0 <= j < |gaps[i]| :: gaps[i][j] != '#' && !IsQuote(gaps[i][j])
  }

  lemma {:induction false} QuotedSpaced(gaps: seq<string>, words: seq<string>)
    requires |gaps| == |words| + 1 && IsPlain(gaps) && Unquotable(words)
    ensures Quoted(Spaced(gaps, words)) == words
    decreases words
  {
    assert '"' !in gaps[0];
    if words == [] {
      FindAbsent(gaps[0], "\"", '"');
    } else {
      QuotedSpaced(gaps[1..], words[1..]);
      SplitAtQuotes(gaps[0], words[0], Spaced(gaps[1..], words[1..]));
    }
  }

  lemma {:induction false} CommentInQuotes(word: string, rest: string)
    requires '"' !in word
    ensures CommentStart(word + "\"" + rest, Some('"')).Some? <==> CommentStart(rest, None).Some?
  {
    var s := word + "\"" + rest;
    if word == [] {
      assert s[1..] == rest;
    } else {
      assert s[1..] == word[1..] + "\"" + rest && s[0] == word[0];
      CommentInQuotes(word[1..], rest);
    }
  }

  lemma {:induction false} CommentAfterPlain(plain: string, rest: string)
    requires forall i | 0 <= i < |plain| :: plain[i] != '#' && !IsQuote(plain[i])
    ensures CommentStart(plain + rest, None).Some? <==> CommentStart(rest, None).Some?
  {
    if plain == [] {
      assert plain + rest == rest;
    } else {
      assert (plain + rest)[1..] == plain[1..] + rest && (plain + rest)[0] == plain[0];
      CommentAfterPlain(plain[1..], rest);
    }
  }

  lemma {:induction false} NoCommentInSpaced(gaps: seq<string>, words: seq<string>)
    requires |gaps| == |words| + 1 && IsPlain(gaps) && Unquotable(words)
    ensures CommentStart(Spaced(gaps, words), None) == None
    decreases words
  {
    if words == [] {
      assert gaps[0] + [] == gaps[0];
      CommentAfterPlain(gaps[0], []);
    } else {
      var rest := Spaced(gaps[1..], words[1..]);
      var quoted := words[0] + "\"" + rest;
      assert Spaced(gaps, words) == gaps[0] + ("\"" + quoted);
      CommentAfterPlain(gaps[0], "\"" + quoted);
      assert ("\"" + quoted)[1..] == quoted;
      CommentInQuotes(words[0], rest);
      NoCommentInSpaced(gaps[1..], words[1..]);
    }
  }

  lemma AssignmentHasNoComment(gap: string, value: string)
    requires AllSpace(gap) && CommentStart(value, None) == None
    ensures CommentStart(KEY + (gap + ("=" + value)), None) == None
  {
    assert forall i | 0 <= i < |gap| :: IsSpace(gap[i]);
    CommentAfterPlain(KEY, gap + ("=" + value));
    CommentAfterPlain(gap, "=" + value);
    CommentAfterPlain("=", value);
  }

  lemma KeyLineIsRead(line: string, rest: string)
    requires KEY <= line && line[|KEY|..] == rest && Uncommented(line) == line
    requires "=" <= TrimStart(rest) && ']' in rest
    ensures ReadLine(line) == Ok(Rustflags(Joined(Quoted(rest))))
  {
    assert line[0] == 'r';
  }

  lemma AssignmentIsRead(gap: string, value: string)
    requires AllSpace(gap) && CommentStart(value, None) == None && ']' in value
    ensures ReadLine(KEY + (gap + ("=" + value))) == Ok(Rustflags(Joined(Quoted(gap + ("=" + value)))))
  {
    var tail := "=" + value;
    var rest := gap + tail;
    var line := KEY + rest;
    AssignmentHasNoComment(gap, value);
    TrimStartSkips(gap, tail);
    assert TrimStart(tail) == tail;
    KeyLineIsRead(line, rest);
  }

  lemma QuotedAssignment(gap: string, value: string)
    requires AllSpace(gap)
    ensures Quoted(gap + ("=" + value)) == Quoted(value)
  {
    assert forall i | 0 <= i < |gap| :: IsSpace(gap[i]);
    QuotedAfter(gap, "=" + value);
    QuotedAfter("=", value);
  }

  /** A line that assigns quoted words gives back exactly those words, normalised, however it is spaced: a `#` in them
      starts no comment. */
  lemma FlagLinesInAnySpelling(gap: string, gaps: seq<string>, words: seq<string>)
    requires |gaps| == |words| + 1 && IsPlain(gaps) && Unquotable(words)
    requires AllSpace(gap) && ']' in Spaced(gaps, words)
    ensures ReadLine(KEY + (gap + ("=" + Spaced(gaps, words)))) == Ok(Rustflags(Joined(words)))
  {
    NoCommentInSpaced(gaps, words);
    QuotedSpaced(gaps, words);
    QuotedAssignment(gap, Spaced(gaps, words));
    AssignmentIsRead(gap, Spaced(gaps, words));
  }

  /** What comes before the first quote mark is not quoted. */
  lemma QuotedAfter(plain: string, value: string)
    requires '"' !in plain
    ensures Quoted(plain + value) == Quoted(value)
  {
    var first, rest := CutAtChar(value, '"');
    if '"' in value {
      Reassociate(plain, first, "\"" + rest);
      assert value == first + ("\"" + rest);
      QuotedOfCut(first, rest);
      QuotedOfCut(plain + first, rest);
    } else {
      SplitAtNoChar(value, '"');
      SplitAtNoChar(plain + value, '"');
    }
  }

  lemma QuotedOfCut(first: string, rest: string)
    requires '"' !in first
    ensures Quoted(first + ("\"" + rest)) == Odd([[]] + SplitOn(rest, "\""))
  {
    Reassociate(first, ['"'], rest);
    SplitAtChar(first, '"', rest);
    OddSkips(first, [], SplitOn(rest, "\""));
  }

  lemma OddSkips(a: string, b: string, rest: seq<string>)
    requires rest != []
    ensures Odd([a] + rest) == Odd([b] + rest)
  {
    assert ([a] + rest)[2..] == rest[1..] && ([b] + rest)[2..] == rest[1..];
  }

  function Gaps(first: string, words: seq<string>): (gaps: seq<string>)
    ensures |gaps| == |words| + 1
    decreases words
  {
    if words == [] then [first + "]"] else [first] + Gaps(if |words| == 1 then [] else ", ", words[1..])
  }

  lemma {:induction false} GapsArePlain(first: string, words: seq<string>)
    requires forall j | 0 <= j < |first| :: first[j] != '#' && !IsQuote(first[j])
    ensures IsPlain(Gaps(first, words))
    decreases words
  {
    var gaps := Gaps(first, words);
    if words != [] {
      GapsArePlain(if |words| == 1 then [] else ", ", words[1..]);
      assert forall i | 1 <= i < |gaps| :: gaps[i] == gaps[1..][i - 1];
    }
  }

  lemma {:induction false} ArraysAreClosed(first: string, words: seq<string>)
    ensures var value := Spaced(Gaps(first, words), words); value != [] && value[|value| - 1] == ']'
    decreases words
  {
    if words != [] {
      var gap := if |words| == 1 then [] else ", ";
      ArraysAreClosed(gap, words[1..]);
      assert Gaps(first, words)[1..] == Gaps(gap, words[1..]);
    }
  }

  /** A list of words as a one-line array of strings, assigned to the key. */
  function FlagLine(words: seq<string>): string {
    KEY + (" " + ("=" + Spaced(Gaps(" [", words), words)))
  }

  lemma FlagLinesAreTrim(words: seq<string>)
    ensures Trim(FlagLine(words)) == FlagLine(words)
  {
    var value := Spaced(Gaps(" [", words), words);
    var line := FlagLine(words);
    ArraysAreClosed(" [", words);
    assert line[0] == 'r' && line[|line| - 1] == value[|value| - 1];
    TrimOfEnds(line);
  }

  /** Reading a written flag line gives back its words, normalised. */
  lemma FlagLineIsRead(words: seq<string>)
    requires Unquotable(words)
    ensures ReadLine(FlagLine(words)) == Ok(Rustflags(Joined(words)))
  {
    ArraysAreClosed(" [", words);
    GapsArePlain(" [", words);
    FlagLinesInAnySpelling(" ", Gaps(" [", words), words);
  }

  predicate IsTableName(name: string) {
    && Trim(name) == name && CommentStart("[" + name + "]", None) == None
    && Unbracketed(name)
  }

  predicate Unbracketed(name: string) {
    name == [] || (name[0] != '[' && name[0] != ']' && name[|name| - 1] != '[' && name[|name| - 1] != ']')
  }

  lemma ClosingBracketIsTrimmed(name: string, s: string)
    requires Unbracketed(name) && s == name + "]"
    ensures TrimBrackets(s) == name
  {
    if name == [] {
      assert s[1..] == [];
    } else {
      assert s[0] == name[0] && s[|s| - 1] == ']' && s[..|s| - 1] == name;
    }
  }

  lemma BracketsAreTrimmed(name: string, s: string)
    requires Unbracketed(name) && s == "[" + name + "]"
    ensures TrimBrackets(s) == name
  {
    assert s[0] == '[' && s[1..] == name + "]";
    ClosingBracketIsTrimmed(name, s[1..]);
  }

  lemma TableLineIsRead(name: string)
    requires IsTableName(name)
    ensures ReadLine("[" + name + "]") == Ok(Table(name))
  {
    BracketsAreTrimmed(name, "[" + name + "]");
    assert Uncommented("[" + name + "]") == "[" + name + "]";
  }

  predicate AllBrackets(s: string) {
    forall i | 0 <= i < |s| :: s[i] == '[' || s[i] == ']'
  }

  lemma {:induction false} ClosingBracketsAreTrimmed(core: string, right: string)
    requires Unbracketed(core) && AllBrackets(right)
    ensures TrimBrackets(core + right) == core
    decreases |right|
  {
    var s := core + right;
    if right == [] {
      assert s == core;
    } else if core == [] {
      assert s == right && s[1..] == core + right[1..];
      ClosingBracketsAreTrimmed(core, right[1..]);
    } else {
      var n := |right| - 1;
      assert s[0] == core[0] && s[|s| - 1] == right[n] && s[..|s| - 1] == core + right[..n];
      ClosingBracketsAreTrimmed(core, right[..n]);
    }
  }

  lemma {:induction false} AllBracketsAreTrimmed(left: string, core: string, right: string)
    requires AllBrackets(left) && AllBrackets(right) && Unbracketed(core)
    ensures TrimBrackets(left + (core + right)) == core
    decreases |left|
  {
    var s := left + (core + right);
    if left == [] {
      assert s == core + right;
      ClosingBracketsAreTrimmed(core, right);
    } else {
      assert s[0] == left[0] && s[1..] == left[1..] + (core + right);
      AllBracketsAreTrimmed(left[1..], core, right);
    }
  }

  /** A table line in any shape: brackets of any number on either side, white space around the name. */
  lemma TableLinesInAnyShape(left: string, before: string, name: string, after: string, right: string)
    requires AllBrackets(left) && "[" <= left && AllBrackets(right) && AllSpace(before) && AllSpace(after)
    requires Unbracketed(before + name + after) && Trim(name) == name
    requires CommentStart(left + ((before + name + after) + right), None) == None
    ensures ReadLine(left + ((before + name + after) + right)) == Ok(Table(name))
  {
    AllBracketsAreTrimmed(left, before + name + after, right);
    var none, nothing := TrimParts(name);
    TrimOf(before, name, after);
  }

  /** An array that is not closed on its line is refused. */
  lemma OpenArraysAreRefused(gap: string, value: string)
    requires AllSpace(gap) && '#' !in value && ']' !in value
    ensures ReadLine(KEY + (gap + ("=" + value))) == Err(SpansLines)
  {
    var rest := gap + ("=" + value);
    var line := KEY + rest;
    NoCommentBefore(line, None, |line|);
    assert line[|KEY|..] == rest && line[0] == 'r';
    TrimStartSkips(gap, "=" + value);
    assert ']' !in gap by {
      assert forall i | 0 <= i < |gap| :: IsSpace(gap[i]);
    }
  }

  /** A table of a written configuration and the flags it carries, if any. */
  datatype Section = Section(name: string, flags: Option<seq<string>>)

  function Written(sections: seq<Section>): seq<string> {
    if sections == [] then []
    else
      ["[" + sections[0].name + "]"]
      + (if sections[0].flags.Some? then [FlagLine(sections[0].flags.value)] else [])
      + Written(sections[1..])
  }

  function SourcesOf(sections: seq<Section>): seq<Source> {
    if sections == [] then []
    else
      (if sections[0].flags.Some? then [Source(sections[0].name, Joined(sections[0].flags.value))] else [])
      + SourcesOf(sections[1..])
  }

  predicate IsSection(section: Section) {
    IsTableName(section.name) && (section.flags.Some? ==> Unquotable(section.flags.value))
  }

  lemma TrimOfEnds(s: string)
    requires s != [] && !IsSpace(s[0]) && !IsSpace(s[|s| - 1])
    ensures Trim(s) == s
  {
    TrimOf([], s, []);
    assert [] + s + [] == s;
  }

  lemma HeaderIsRead(name: string, rest: seq<string>, table: string)
    requires IsTableName(name)
    ensures SourcesFrom(["[" + name + "]"] + rest, table) == SourcesFrom(rest, name)
  {
    var header := "[" + name + "]";
    TrimOfEnds(header);
    TableLineIsRead(name);
    assert ([header] + rest)[1..] == rest;
  }

  lemma FlagLineIsASource(words: seq<string>, rest: seq<string>, table: string)
    requires Unquotable(words)
    ensures SourcesFrom([FlagLine(words)] + rest, table)
            == Prepend(Source(table, Joined(words)), SourcesFrom(rest, table))
  {
    var line := FlagLine(words);
    FlagLinesAreTrim(words);
    FlagLineIsRead(words);
    assert line[0] == 'r';
    assert ([line] + rest)[1..] == rest;
  }

  lemma SectionIsRead(section: Section, rest: seq<string>, table: string)
    requires IsSection(section)
    ensures
      var flagLine := if section.flags.Some? then [FlagLine(section.flags.value)] else [];
      SourcesFrom(["[" + section.name + "]"] + flagLine + rest, table) ==
      if section.flags.Some?
        then Prepend(Source(section.name, Joined(section.flags.value)), SourcesFrom(rest, section.name))
      else SourcesFrom(rest, section.name)
  {
    var flagLine := if section.flags.Some? then [FlagLine(section.flags.value)] else [];
    Reassociate(["[" + section.name + "]"], flagLine, rest);
    HeaderIsRead(section.name, flagLine + rest, table);
    if section.flags.Some? {
      FlagLineIsASource(section.flags.value, rest, section.name);
    } else {
      assert flagLine + rest == rest;
    }
  }

  lemma {:induction false} SectionsAreRead(sections: seq<Section>, table: string)
    requires forall i | 0 <= i < |sections| :: IsSection(sections[i])
    ensures SourcesFrom(Written(sections), table) == Ok(SourcesOf(sections))
  {
    if sections != [] {
      var rest := Written(sections[1..]);
      SectionsAreRead(sections[1..], sections[0].name);
      SectionIsRead(sections[0], rest, table);
      assert sections[0].flags.None? ==> SourcesOf(sections) == SourcesOf(sections[1..]);
    }
  }

  /** A written configuration, of any number of sections and decorated in any way, has nothing to complain about
      exactly when its sections meet the standard. */
  lemma WrittenConfigIsJudgedByTheStandard(sections: seq<Section>, decorated: string, ds: seq<Decorated>, pin: Pin)
    requires forall i | 0 <= i < |sections| :: IsSection(sections[i])
    requires forall i | 0 <= i < |ds| :: IsDecoration(ds[i])
    requires Lines(decorated) == DecoratedLines(ds) && Plain(ds) == Written(sections)
    ensures ConfigProblems(decorated, pin) == Ok([]) <==> MeetsStandard(SourcesOf(sections), pin)
  {
    DecorationKeepsSources(ds, "");
    SectionsAreRead(sections, "");
    VerdictIsTheStandard(SourcesOf(sections), pin);
  }
}
