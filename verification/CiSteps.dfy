/** The reader of workflow files one step at a time (tests/build_standard_support/ci_steps.rs). A workflow
    is its lines. */
module CiSteps {
  import opened Wrappers
  import opened Text
  import Flags

  // ---------------------------------------------------------------- finding a step

  function Indent(line: string): nat {
    TrimStartShortens(line);
    ByteLen(line[..|line| - |TrimStart(line)|])
  }

  predicate OpensStep(line: string) {
    "- " <= TrimStart(line)
  }

  predicate IsComment(line: string) {
    "#" <= TrimStart(line)
  }

  /** `lines[index]` may be where the step holding `lines[at]` starts. */
  predicate StartsTheStep(lines: seq<string>, index: nat, at: nat)
    requires index <= at < |lines|
  {
    OpensStep(lines[index]) && (index == at || Indent(lines[index]) < Indent(lines[at]))
  }

  /** The nearest start at or before `index`, or `at` itself. */
  function StartOf(lines: seq<string>, index: nat, at: nat): (start: nat)
    requires index <= at < |lines|
    ensures start <= at
  {
    if StartsTheStep(lines, index, at) then index
    else if index == 0 then at
    else StartOf(lines, index - 1, at)
  }

  predicate EndsTheStep(line: string, stepIndent: nat) {
    Trim(line) != [] && (Indent(line) < stepIndent || (OpensStep(line) && Indent(line) <= stepIndent))
  }

  function EndOf(lines: seq<string>, index: nat, stepIndent: nat): (end: nat)
    requires index <= |lines|
    ensures index <= end <= |lines|
    decreases |lines| - index
  {
    if index == |lines| || EndsTheStep(lines[index], stepIndent) then index
    else EndOf(lines, index + 1, stepIndent)
  }

  function StepLines(lines: seq<string>, at: nat): seq<string>
    requires at < |lines|
  {
    var start := StartOf(lines, at, at);
    lines[start..EndOf(lines, at + 1, Indent(lines[start]))]
  }

  /** A step found by the action it uses: the number of its `uses:` line, and its lines. */
  datatype Step = Step(line: nat, lines: seq<string>)

  predicate Uses(line: string, marker: string) {
    Contains(line, marker) && !IsComment(line)
  }

  /** The steps found on lines `first` up to `last`. */
  function StepsBetween(lines: seq<string>, first: nat, last: nat, marker: string): seq<Step>
    requires first <= last <= |lines|
    decreases last - first
  {
    if first == last then []
    else
      (if Uses(lines[first], marker) then [Step(first + 1, StepLines(lines, first))] else [])
      + StepsBetween(lines, first + 1, last, marker)
  }

  function StepsUsing(lines: seq<string>, marker: string): seq<Step> {
    StepsBetween(lines, 0, |lines|, marker)
  }

  // ---------------------------------------------------------------- what a line is

  /** A line is white space and text: what it opens, comments and uses, how far it is indented, and whether it ends a
      step, which a blank line never does. */
  lemma LinesAre(gap: string, text: string, stepIndent: nat, marker: string)
    requires AllSpace(gap) && (text == [] || !IsSpace(text[0]))
    ensures OpensStep(gap + text) <==> |text| >= 2 && text[0] == '-' && text[1] == ' '
    ensures IsComment(gap + text) <==> text != [] && text[0] == '#'
    ensures Indent(gap + text) == ByteLen(gap)
    ensures EndsTheStep(gap + text, stepIndent) <==>
            && text != []
            && (ByteLen(gap) < stepIndent
                || (ByteLen(gap) == stepIndent && |text| >= 2 && text[0] == '-' && text[1] == ' '))
    ensures Uses(gap + text, marker) <==> Holds(gap + text, marker) && !(text != [] && text[0] == '#')
  {
    var line := gap + text;
    TrimStartSkips(gap, text);
    assert TrimStart(line) == text;
    assert line[..|line| - |text|] == gap;
    ContainsIs(line, marker);
    var before, after := TrimParts(line);
    if text == [] {
      assert line == gap;
    } else {
      assert line[|gap|] == text[0];
    }
  }

  // ---------------------------------------------------------------- judging a step

  function Squeezed(line: string): string {
    if line == [] then []
    else (if line[0] == ' ' || line[0] == '\'' || line[0] == '"' then [] else [line[0]]) + Squeezed(line[1..])
  }

  predicate PassesTheInstallInput(lines: seq<string>) {
    exists i :: 0 <= i < |lines| && Squeezed(lines[i]) == "install-mold:true"
  }

  function OwnRustflags(lines: seq<string>): Option<string> {
    if lines == [] then None
    else if "RUSTFLAGS:" <= Trim(lines[0]) then Some(Trim(Trim(lines[0])[10..]))
    else OwnRustflags(lines[1..])
  }

  function TrimQuotes(s: string): string {
    if s != [] && IsQuote(s[0]) then TrimQuotes(s[1..])
    else if s != [] && IsQuote(s[|s| - 1]) then TrimQuotes(s[..|s| - 1])
    else s
  }

  /** The words before an inline comment, without quote marks around them. */
  function ValueWords(words: seq<string>): seq<string> {
    if words == [] || "#" <= words[0] then [] else [TrimQuotes(words[0])] + ValueWords(words[1..])
  }

  predicate NamesStandardFlag(words: seq<string>) {
    exists i :: 0 <= i < |words| && (Contains(words[i], Flags.THREADS_FLAG) || Contains(words[i], "mold"))
  }

  /** This repository's coverage steps deny warnings. */
  const COVERAGE_DENIES_WARNINGS: bool := true

  datatype Complaint = NoInstallInput | NoRustflags | StandardFlag(value: string) | OtherPolicy(value: string)

  function InstallComplaint(lines: seq<string>): Option<Complaint> {
    if PassesTheInstallInput(lines) then None else Some(NoInstallInput)
  }

  function CoverageComplaint(lines: seq<string>): Option<Complaint> {
    match OwnRustflags(lines)
    case None => Some(NoRustflags)
    case Some(value) =>
      var words := ValueWords(Words(value));
      if NamesStandardFlag(words) then Some(StandardFlag(value))
      else if Flags.DeniesWarnings(Flags.Joined(words)) != COVERAGE_DENIES_WARNINGS then Some(OtherPolicy(value))
      else None
  }

  /** A complaint at a line of the workflow. */
  datatype Problem = Problem(line: nat, complaint: Complaint)

  function JudgeOne(step: Step, complaint: seq<string> -> Option<Complaint>): seq<Problem> {
    match complaint(step.lines)
    case None => []
    case Some(c) => [Problem(step.line, c)]
  }

  function Judge(steps: seq<Step>, complaint: seq<string> -> Option<Complaint>): seq<Problem> {
    if steps == [] then [] else JudgeOne(steps[0], complaint) + Judge(steps[1..], complaint)
  }

  function LinkerInstallProblems(lines: seq<string>): seq<Problem> {
    Judge(StepsUsing(lines, "setup-rust@"), InstallComplaint)
  }

  function CoverageProblems(lines: seq<string>): seq<Problem> {
    Judge(StepsUsing(lines, "generate-coverage@"), CoverageComplaint)
  }

  // ---------------------------------------------------------------- workflows of any number of steps

  /** What a workflow is made of: prose that uses no action, and steps. */
  datatype Section = Prose(lines: seq<string>) | Block(lines: seq<string>)

  /** The `uses:` line sits directly in the step: no list item nested to its left lies between. */
  predicate Direct(lines: seq<string>, k: nat)
    requires 0 < |lines| && k < |lines|
  {
    k == 0 || (
      && !OpensStep(lines[k]) && Indent(lines[0]) < Indent(lines[k])
      && forall j | 1 <= j < k :: !(OpensStep(lines[j]) && Indent(lines[j]) < Indent(lines[k])))
  }

  ghost predicate IsSection(section: Section, marker: string) {
    && section.lines != []
    && match section
       case Prose(lines) => forall k | 0 <= k < |lines| :: !Uses(lines[k], marker)
       case Block(lines) =>
         && OpensStep(lines[0])
         && (forall k | 1 <= k < |lines| :: !EndsTheStep(lines[k], Indent(lines[0])))
         && (forall k | 0 <= k < |lines| && Uses(lines[k], marker) :: Direct(lines, k))
  }

  /** A step is ended by the first line after it. */
  ghost predicate Ended(section: Section, after: seq<string>) {
    section.Block? && section.lines != [] && after != [] ==> EndsTheStep(after[0], Indent(section.lines[0]))
  }

  function Written(sections: seq<Section>): seq<string> {
    if sections == [] then [] else sections[0].lines + Written(sections[1..])
  }

  ghost predicate IsWorkflow(sections: seq<Section>, marker: string) {
    sections != [] ==>
      && IsSection(sections[0], marker)
      && Ended(sections[0], Written(sections[1..]))
      && IsWorkflow(sections[1..], marker)
  }

  /** One step for each `uses:` line of a block, at its own line number, with the block's own lines. */
  function OwnSteps(lines: seq<string>, k: nat, offset: nat, marker: string): seq<Step>
    requires k <= |lines|
    decreases |lines| - k
  {
    if k == |lines| then []
    else (if Uses(lines[k], marker) then [Step(offset + k + 1, lines)] else []) + OwnSteps(lines, k + 1, offset, marker)
  }

  function ExpectedSteps(sections: seq<Section>, offset: nat, marker: string): seq<Step> {
    if sections == [] then []
    else
      (if sections[0].Block? then OwnSteps(sections[0].lines, 0, offset, marker) else [])
      + ExpectedSteps(sections[1..], offset + |sections[0].lines|, marker)
  }

  lemma {:induction false} StartFound(lines: seq<string>, index: nat, at: nat, start: nat)
    requires start <= index <= at < |lines|
    requires StartsTheStep(lines, start, at)
    requires forall j | start < j <= index :: !StartsTheStep(lines, j, at)
    ensures StartOf(lines, index, at) == start
  {
    if index != start {
      StartFound(lines, index - 1, at, start);
    }
  }

  lemma {:induction false} EndFound(lines: seq<string>, index: nat, stepIndent: nat, end: nat)
    requires index <= end <= |lines|
    requires forall j | index <= j < end :: !EndsTheStep(lines[j], stepIndent)
    requires end == |lines| || EndsTheStep(lines[end], stepIndent)
    ensures EndOf(lines, index, stepIndent) == end
    decreases end - index
  {
    if index != end {
      EndFound(lines, index + 1, stepIndent, end);
    }
  }

  /** `own` stands in `lines` from `s` on. */
  predicate StandsAt(lines: seq<string>, s: nat, own: seq<string>) {
    s + |own| <= |lines| && forall j | 0 <= j < |own| :: lines[s + j] == own[j]
  }

  lemma StartInContext(lines: seq<string>, s: nat, block: Section, k: nat, marker: string)
    requires block.Block? && IsSection(block, marker) && StandsAt(lines, s, block.lines)
    requires k < |block.lines| && Uses(block.lines[k], marker)
    ensures StartOf(lines, s + k, s + k) == s
  {
    var own := block.lines;
    assert Direct(own, k) && lines[s + 0] == own[0] && lines[s + k] == own[k];
    var at := s + k;
    forall j | s < j <= at ensures !StartsTheStep(lines, j, at) {
      assert lines[s + (j - s)] == own[j - s];
    }
    StartFound(lines, at, at, s);
  }

  lemma EndInContext(lines: seq<string>, s: nat, block: Section, k: nat, marker: string)
    requires block.Block? && IsSection(block, marker) && StandsAt(lines, s, block.lines)
    requires block.lines != [] && Ended(block, lines[s + |block.lines|..])
    requires k < |block.lines|
    ensures EndOf(lines, s + k + 1, Indent(block.lines[0])) == s + |block.lines|
  {
    var own := block.lines;
    forall j | s + k + 1 <= j < s + |own| ensures !EndsTheStep(lines[j], Indent(own[0])) {
      assert lines[s + (j - s)] == own[j - s];
    }
    assert s + |own| < |lines| ==> lines[s + |own|..][0] == lines[s + |own|];
    EndFound(lines, s + k + 1, Indent(own[0]), s + |own|);
  }

  /** A step is found whole wherever it stands. */
  lemma StepInContext(lines: seq<string>, s: nat, block: Section, k: nat, marker: string)
    requires block.Block? && IsSection(block, marker) && StandsAt(lines, s, block.lines)
    requires Ended(block, lines[s + |block.lines|..])
    requires k < |block.lines| && Uses(block.lines[k], marker)
    ensures StepLines(lines, s + k) == block.lines
  {
    StartInContext(lines, s, block, k, marker);
    EndInContext(lines, s, block, k, marker);
    assert lines[s + 0] == block.lines[0];
    assert lines[s..s + |block.lines|] == block.lines;
  }

  lemma BlockStepsFound(lines: seq<string>, s: nat, block: Section, marker: string)
    requires block.Block? && IsSection(block, marker) && StandsAt(lines, s, block.lines)
    requires Ended(block, lines[s + |block.lines|..])
    ensures StepsBetween(lines, s, s + |block.lines|, marker) == OwnSteps(block.lines, 0, s, marker)
  {
    forall k | 0 <= k < |block.lines| && Uses(block.lines[k], marker) ensures StepLines(lines, s + k) == block.lines {
      StepInContext(lines, s, block, k, marker);
    }
    StepsOfRange(lines, s, block.lines, 0, marker);
  }

  lemma {:induction false} StepsOfRange(lines: seq<string>, s: nat, own: seq<string>, k: nat, marker: string)
    requires k <= |own| && StandsAt(lines, s, own)
    requires forall j | 0 <= j < |own| && Uses(own[j], marker) :: StepLines(lines, s + j) == own
    ensures StepsBetween(lines, s + k, s + |own|, marker) == OwnSteps(own, k, s, marker)
    decreases |own| - k
  {
    if k < |own| {
      StepsOfRange(lines, s, own, k + 1, marker);
      assert lines[s + k] == own[k];
    }
  }

  lemma {:induction false} ProseHasNoSteps(lines: seq<string>, first: nat, last: nat, marker: string)
    requires first <= last <= |lines|
    requires forall k | first <= k < last :: !Uses(lines[k], marker)
    ensures StepsBetween(lines, first, last, marker) == []
    decreases last - first
  {
    if first < last {
      ProseHasNoSteps(lines, first + 1, last, marker);
    }
  }

  lemma {:induction false} StepsJoin(lines: seq<string>, first: nat, mid: nat, last: nat, marker: string)
    requires first <= mid <= last <= |lines|
    ensures StepsBetween(lines, first, last, marker)
            == StepsBetween(lines, first, mid, marker) + StepsBetween(lines, mid, last, marker)
    decreases mid - first
  {
    if first < mid {
      StepsJoin(lines, first + 1, mid, last, marker);
    }
  }

  lemma SectionStepsFound(lines: seq<string>, s: nat, section: Section, marker: string)
    requires IsSection(section, marker) && StandsAt(lines, s, section.lines)
    requires Ended(section, lines[s + |section.lines|..])
    ensures StepsBetween(lines, s, s + |section.lines|, marker)
            == if section.Block? then OwnSteps(section.lines, 0, s, marker) else []
  {
    if section.Block? {
      BlockStepsFound(lines, s, section, marker);
    } else {
      forall k | s <= k < s + |section.lines| ensures !Uses(lines[k], marker) {
        assert lines[s + (k - s)] == section.lines[k - s];
      }
      ProseHasNoSteps(lines, s, s + |section.lines|, marker);
    }
  }

  lemma FirstSectionFound(lines: seq<string>, k: nat, section: Section, after: seq<string>, marker: string)
    requires IsSection(section, marker) && Ended(section, after)
    requires k <= |lines| && lines[k..] == section.lines + after
    ensures StepsBetween(lines, k, k + |section.lines|, marker)
            == if section.Block? then OwnSteps(section.lines, 0, k, marker) else []
    ensures lines[k + |section.lines|..] == after
  {
    assert forall j | 0 <= j < |section.lines| :: lines[k + j] == lines[k..][j];
    assert lines[k + |section.lines|..] == lines[k..][|section.lines|..];
    SectionStepsFound(lines, k, section, marker);
  }

  lemma {:induction false} StepsFoundFrom(lines: seq<string>, k: nat, sections: seq<Section>, marker: string)
    requires IsWorkflow(sections, marker)
    requires k <= |lines| && lines[k..] == Written(sections)
    ensures StepsBetween(lines, k, |lines|, marker) == ExpectedSteps(sections, k, marker)
    decreases sections
  {
    if sections != [] {
      var mid := k + |sections[0].lines|;
      FirstSectionFound(lines, k, sections[0], Written(sections[1..]), marker);
      StepsFoundFrom(lines, mid, sections[1..], marker);
      StepsJoin(lines, k, mid, |lines|, marker);
    }
  }

  /** Each step of a workflow is found by its own `uses:` line and judged by its own lines, for any number of steps
      and jobs: nothing before or after it adds a step, hides one, or lends it a line. */
  lemma StepsAreFoundWhole(sections: seq<Section>, marker: string)
    requires IsWorkflow(sections, marker)
    ensures StepsUsing(Written(sections), marker) == ExpectedSteps(sections, 0, marker)
  {
    assert Written(sections)[0..] == Written(sections);
    StepsFoundFrom(Written(sections), 0, sections, marker);
  }

  // ---------------------------------------------------------------- complaints

  lemma {:induction false} JudgeConcat(a: seq<Step>, b: seq<Step>, complaint: seq<string> -> Option<Complaint>)
    ensures Judge(a + b, complaint) == Judge(a, complaint) + Judge(b, complaint)
  {
    if a == [] {
      assert a + b == b;
    } else {
      assert (a + b)[1..] == a[1..] + b;
      JudgeConcat(a[1..], b, complaint);
    }
  }

  /** The complaints due: for each block that fails, one at each of its own `uses:` lines. */
  function Due(sections: seq<Section>, offset: nat, marker: string,
               complaint: seq<string> -> Option<Complaint>): seq<Problem> {
    if sections == [] then []
    else
      var own := sections[0].lines;
      (if sections[0].Block? && complaint(own).Some?
       then OwnProblems(own, 0, offset, marker, complaint(own).value) else [])
      + Due(sections[1..], offset + |own|, marker, complaint)
  }

  function OwnProblems(lines: seq<string>, k: nat, offset: nat, marker: string, c: Complaint): seq<Problem>
    requires k <= |lines|
    decreases |lines| - k
  {
    if k == |lines| then []
    else
      (if Uses(lines[k], marker) then [Problem(offset + k + 1, c)] else [])
      + OwnProblems(lines, k + 1, offset, marker, c)
  }

  lemma JudgeOneIs(line: nat, lines: seq<string>, complaint: seq<string> -> Option<Complaint>)
    ensures JudgeOne(Step(line, lines), complaint)
            == if complaint(lines).Some? then [Problem(line, complaint(lines).value)] else []
  {
  }

  lemma JudgeFirst(step: Step, rest: seq<Step>, complaint: seq<string> -> Option<Complaint>)
    ensures Judge([step] + rest, complaint) == JudgeOne(step, complaint) + Judge(rest, complaint)
  {
    assert ([step] + rest)[1..] == rest;
  }

  lemma OwnStepsOf(lines: seq<string>, k: nat, offset: nat, marker: string)
    requires k < |lines|
    ensures OwnSteps(lines, k, offset, marker)
            == if Uses(lines[k], marker)
               then [Step(offset + k + 1, lines)] + OwnSteps(lines, k + 1, offset, marker)
               else OwnSteps(lines, k + 1, offset, marker)
  {
    assert [] + OwnSteps(lines, k + 1, offset, marker) == OwnSteps(lines, k + 1, offset, marker);
  }

  lemma OwnProblemsOf(lines: seq<string>, k: nat, offset: nat, marker: string, c: Complaint)
    requires k < |lines|
    ensures OwnProblems(lines, k, offset, marker, c)
            == if Uses(lines[k], marker)
               then [Problem(offset + k + 1, c)] + OwnProblems(lines, k + 1, offset, marker, c)
               else OwnProblems(lines, k + 1, offset, marker, c)
  {
    assert [] + OwnProblems(lines, k + 1, offset, marker, c) == OwnProblems(lines, k + 1, offset, marker, c);
  }

  /** One step more, if there is one, adds its own problem. */
  lemma JudgeOneMore(used: bool, line: nat, lines: seq<string>, rest: seq<Step>, steps: seq<Step>,
                     more: seq<Problem>, problems: seq<Problem>, complaint: seq<string> -> Option<Complaint>)
    requires Judge(rest, complaint) == more
    requires steps == if used then [Step(line, lines)] + rest else rest
    requires problems == if used && complaint(lines).Some? then [Problem(line, complaint(lines).value)] + more else more
    ensures Judge(steps, complaint) == problems
  {
    if used {
      JudgeFirst(Step(line, lines), rest, complaint);
      JudgeOneIs(line, lines, complaint);
      assert [] + more == more;
    }
  }

  /** From line `k` on, a step's own steps are judged as its own problems. */
  predicate JudgedOwn(lines: seq<string>, k: nat, offset: nat, marker: string,
                      complaint: seq<string> -> Option<Complaint>)
    requires k <= |lines|
  {
    Judge(OwnSteps(lines, k, offset, marker), complaint)
    == if complaint(lines).Some? then OwnProblems(lines, k, offset, marker, complaint(lines).value) else []
  }

  lemma JudgeOwnStep(lines: seq<string>, k: nat, offset: nat, marker: string,
                     complaint: seq<string> -> Option<Complaint>)
    requires k < |lines| && JudgedOwn(lines, k + 1, offset, marker, complaint)
    ensures JudgedOwn(lines, k, offset, marker, complaint)
  {
    var used, found := Uses(lines[k], marker), complaint(lines);
    var rest, steps := OwnSteps(lines, k + 1, offset, marker), OwnSteps(lines, k, offset, marker);
    OwnStepsOf(lines, k, offset, marker);
    if found.Some? {
      OwnProblemsOf(lines, k, offset, marker, found.value);
      JudgeOneMore(used, offset + k + 1, lines, rest, steps, OwnProblems(lines, k + 1, offset, marker, found.value),
                   OwnProblems(lines, k, offset, marker, found.value), complaint);
    } else {
      JudgeOneMore(used, offset + k + 1, lines, rest, steps, [], [], complaint);
    }
  }

  lemma {:induction false} JudgeOwn(lines: seq<string>, k: nat, offset: nat, marker: string,
                                    complaint: seq<string> -> Option<Complaint>)
    requires k <= |lines|
    ensures JudgedOwn(lines, k, offset, marker, complaint)
    decreases |lines| - k
  {
    if k < |lines| {
      JudgeOwn(lines, k + 1, offset, marker, complaint);
      JudgeOwnStep(lines, k, offset, marker, complaint);
    }
  }

  lemma {:induction false} JudgeExpected(sections: seq<Section>, offset: nat, marker: string,
                                         complaint: seq<string> -> Option<Complaint>)
    ensures Judge(ExpectedSteps(sections, offset, marker), complaint) == Due(sections, offset, marker, complaint)
    decreases sections
  {
    if sections != [] {
      var own := sections[0].lines;
      JudgeExpected(sections[1..], offset + |own|, marker, complaint);
      JudgeOwn(own, 0, offset, marker, complaint);
      JudgeConcat(if sections[0].Block? then OwnSteps(own, 0, offset, marker) else [],
                  ExpectedSteps(sections[1..], offset + |own|, marker), complaint);
    }
  }

  const SETUP_RUST: string := "setup-rust@"
  const GENERATE_COVERAGE: string := "generate-coverage@"

  /** `line` spells `text` once blanks and quote marks are skipped. */
  predicate SpellsOut(line: string, text: string) {
    if line == [] then text == []
    else if line[0] in {' ', '\'', '"'} then SpellsOut(line[1..], text)
    else text != [] && line[0] == text[0] && SpellsOut(line[1..], text[1..])
  }

  lemma {:induction false} SpellsOutIsSqueezed(line: string, text: string)
    ensures SpellsOut(line, text) <==> Squeezed(line) == text
  {
    if line != [] {
      var rest := Squeezed(line[1..]);
      if line[0] in {' ', '\'', '"'} {
        SpellsOutIsSqueezed(line[1..], text);
        assert [] + rest == rest;
      } else if text != [] {
        SpellsOutIsSqueezed(line[1..], text[1..]);
        assert text == [text[0]] + text[1..];
        assert ([line[0]] + rest)[1..] == rest;
      }
    }
  }

  /** What is due to a `setup-rust` step: a complaint unless one of its lines spells the input. */
  function InstallDue(lines: seq<string>): Option<Complaint> {
    if exists i :: 0 <= i < |lines| && SpellsOut(lines[i], "install-mold:true") then None else Some(NoInstallInput)
  }

  lemma InstallComplaintIsDue(lines: seq<string>)
    ensures InstallComplaint(lines) == InstallDue(lines)
  {
    forall i | 0 <= i < |lines|
      ensures SpellsOut(lines[i], "install-mold:true") <==> Squeezed(lines[i]) == "install-mold:true"
    {
      SpellsOutIsSqueezed(lines[i], "install-mold:true");
    }
  }

  lemma {:induction false} DueIsDue(sections: seq<Section>, offset: nat, marker: string,
                                    f: seq<string> -> Option<Complaint>, g: seq<string> -> Option<Complaint>)
    requires forall lines :: f(lines) == g(lines)
    ensures Due(sections, offset, marker, f) == Due(sections, offset, marker, g)
    decreases sections
  {
    if sections != [] {
      DueIsDue(sections[1..], offset + |sections[0].lines|, marker, f, g);
    }
  }

  /** Every `setup-rust` step is judged by its own lines, for any number of steps: the complaints name exactly the
      steps none of whose lines spells the input, each at its own `uses:` line. */
  lemma SetupStepsAreJudgedByTheirOwnLines(sections: seq<Section>)
    requires IsWorkflow(sections, SETUP_RUST)
    ensures LinkerInstallProblems(Written(sections)) == Due(sections, 0, SETUP_RUST, InstallDue)
  {
    StepsAreFoundWhole(sections, SETUP_RUST);
    JudgeExpected(sections, 0, SETUP_RUST, InstallComplaint);
    forall lines ensures InstallComplaint(lines) == InstallDue(lines) {
      InstallComplaintIsDue(lines);
    }
    DueIsDue(sections, 0, SETUP_RUST, InstallComplaint, InstallDue);
  }

  /** Every coverage step likewise. */
  lemma CoverageStepsAreJudgedByTheirOwnLines(sections: seq<Section>)
    requires IsWorkflow(sections, GENERATE_COVERAGE)
    ensures CoverageProblems(Written(sections)) == Due(sections, 0, GENERATE_COVERAGE, CoverageComplaint)
  {
    StepsAreFoundWhole(sections, GENERATE_COVERAGE);
    JudgeExpected(sections, 0, GENERATE_COVERAGE, CoverageComplaint);
  }

  // ---------------------------------------------------------------- ordinary workflows

  /** A step as the workflows write it: an item at indent `p`, then blank lines, lines past the dash that open no item,
      and comments at the dash or past it. */
  ghost predicate IsOrdinary(lines: seq<string>, p: nat) {
    && lines != [] && OpensStep(lines[0]) && Indent(lines[0]) == p
    && forall k | 1 <= k < |lines| ::
         || Trim(lines[k]) == []
         || (IsComment(lines[k]) && Indent(lines[k]) >= p)
         || (Indent(lines[k]) > p && !OpensStep(lines[k]))
  }

  function Blocks(steps: seq<seq<string>>): seq<Section> {
    if steps == [] then [] else [Block(steps[0])] + Blocks(steps[1..])
  }

  lemma {:induction false} OrdinaryBlocks(steps: seq<seq<string>>, p: nat, marker: string)
    requires !AllSpace(marker)
    requires forall i | 0 <= i < |steps| :: IsOrdinary(steps[i], p)
    ensures IsWorkflow(Blocks(steps), marker)
    ensures steps != [] ==> Written(Blocks(steps)) != [] && EndsTheStep(Written(Blocks(steps))[0], p)
    ensures steps == [] ==> Written(Blocks(steps)) == []
  {
    if steps != [] {
      OrdinaryBlocks(steps[1..], p, marker);
      OrdinaryIsSection(steps[0], p, marker);
      OpenersAreNotBlank(steps[0][0]);
      assert Blocks(steps)[1..] == Blocks(steps[1..]);
    }
  }

  /** Ordinary steps at one indent, after a preamble that uses no action, are a workflow. */
  lemma {:induction false} OrdinaryStepsAreAWorkflow(preamble: seq<string>, steps: seq<seq<string>>, p: nat,
                                                     marker: string)
    requires !AllSpace(marker)
    requires preamble != [] && forall k | 0 <= k < |preamble| :: !Uses(preamble[k], marker)
    requires forall i | 0 <= i < |steps| :: IsOrdinary(steps[i], p)
    ensures IsWorkflow([Prose(preamble)] + Blocks(steps), marker)
  {
    OrdinaryBlocks(steps, p, marker);
    assert ([Prose(preamble)] + Blocks(steps))[1..] == Blocks(steps);
  }

  lemma OpenersAreNotBlank(line: string)
    requires OpensStep(line)
    ensures Trim(line) != []
  {
    var before, after := TrimParts(line);
    TrimStartShortens(line);
    assert TrimStart(line)[0] == line[|line| - |TrimStart(line)|];
  }

  /** A blank line opens no step and uses no action. */
  lemma BlankLinesAreInert(line: string, marker: string)
    requires Trim(line) == [] && !AllSpace(marker)
    ensures !OpensStep(line) && !Uses(line, marker)
  {
    var before, after := TrimParts(line);
    var i :| 0 <= i < |marker| && !IsSpace(marker[i]);
    FindAbsent(line, marker, marker[i]);
    TrimStartSkips(line, []);
    assert line + [] == line;
  }

  lemma OrdinaryLine(lines: seq<string>, p: nat, marker: string, k: nat)
    requires IsOrdinary(lines, p) && !AllSpace(marker) && 1 <= k < |lines|
    ensures !OpensStep(lines[k]) && !EndsTheStep(lines[k], p)
    ensures Uses(lines[k], marker) ==> Indent(lines[k]) > p
  {
    if Trim(lines[k]) == [] {
      BlankLinesAreInert(lines[k], marker);
    } else if IsComment(lines[k]) {
      assert TrimStart(lines[k])[0] == '#';
    }
  }

  lemma OrdinaryIsSection(lines: seq<string>, p: nat, marker: string)
    requires IsOrdinary(lines, p) && !AllSpace(marker)
    ensures IsSection(Block(lines), marker)
  {
    forall k | 1 <= k < |lines|
      ensures !OpensStep(lines[k]) && !EndsTheStep(lines[k], p) && (Uses(lines[k], marker) ==> Indent(lines[k]) > p)
    {
      OrdinaryLine(lines, p, marker, k);
    }
  }

  // ---------------------------------------------------------------- what a step's value says

  const ASSIGNS: string := "RUSTFLAGS:"

  predicate AssignsRustflags(line: string) {
    ASSIGNS <= Trim(line)
  }

  /** A value as written: words, then nothing or a comment. */
  predicate IsValue(words: string, tail: string) {
    && (tail == [] || (IsSpace(tail[0]) && (Words(tail) == [] || "#" <= Words(tail)[0])))
    && forall i | 0 <= i < |Words(words)| :: !("#" <= Words(words)[i])
  }

  function Unquoted(words: seq<string>): seq<string> {
    seq(|words|, i requires 0 <= i < |words| => TrimQuotes(words[i]))
  }

  lemma {:induction false} CommentEndsTheWords(words: seq<string>, rest: seq<string>)
    requires forall i | 0 <= i < |words| :: !("#" <= words[i])
    requires rest == [] || "#" <= rest[0]
    ensures ValueWords(words + rest) == Unquoted(words)
  {
    if words == [] {
      assert words + rest == rest;
    } else {
      assert (words + rest)[1..] == words[1..] + rest;
      CommentEndsTheWords(words[1..], rest);
    }
  }

  lemma CutInText(key: string, text: string, k: nat)
    requires |key| <= k <= |key + text|
    ensures (key + text)[..k] == key + text[..k - |key|] && (key + text)[k..] == text[k - |key|..]
  {
  }

  /** Trimming a line that starts with a key keeps the key and some of the text, and drops white space only. */
  lemma TrimmedKeyLine(gap: string, key: string, text: string) returns (front: string, back: string)
    requires AllSpace(gap) && key != [] && !IsSpace(key[0]) && !IsSpace(key[|key| - 1])
    ensures Trim(gap + (key + text)) == key + front && text == front + back && AllSpace(back)
  {
    var s := key + text;
    TrimStartSkips(gap, s);
    assert s[0] == key[0] && TrimStart(s) == s;
    TrimEndShortens(s);
    var k := |TrimEnd(s)|;
    assert s[|key| - 1] == key[|key| - 1];
    CutInText(key, text, k);
    front, back := text[..k - |key|], text[k - |key|..];
  }

  lemma TrimmedAssignment(gap: string, text: string) returns (front: string, back: string)
    requires AllSpace(gap)
    ensures Trim(gap + ASSIGNS + text) == ASSIGNS + front && text == front + back && AllSpace(back)
  {
    Reassociate(gap, ASSIGNS, text);
    front, back := TrimmedKeyLine(gap, ASSIGNS, text);
  }

  /** The words after `RUSTFLAGS:` on its line, whatever the indentation. */
  lemma AssignedWords(gap: string, text: string)
    requires AllSpace(gap)
    ensures AssignsRustflags(gap + ASSIGNS + text)
    ensures Trim(Trim(gap + ASSIGNS + text)[10..]) == Trim(text) && Words(Trim(text)) == Words(text)
  {
    var front, back := TrimmedAssignment(gap, text);
    assert (ASSIGNS + front)[10..] == front;
    TrimOfFront(front, back);
    WordsTrim(text);
  }

  lemma TrimOfFront(front: string, back: string)
    requires AllSpace(back)
    ensures Trim(front + back) == Trim(front)
  {
    var left, right := TrimParts(front);
    assert front + back == left + Trim(front) + (right + back);
    TrimOf(left, Trim(front), right + back);
  }

  lemma {:induction false} FirstAssignmentCounts(before: seq<string>, line: string, after: seq<string>)
    requires forall i | 0 <= i < |before| :: !AssignsRustflags(before[i])
    requires AssignsRustflags(line)
    ensures OwnRustflags(before + [line] + after) == Some(Trim(Trim(line)[10..]))
  {
    var lines := before + [line] + after;
    if before != [] {
      assert lines[1..] == before[1..] + [line] + after;
      FirstAssignmentCounts(before[1..], line, after);
    }
  }

  lemma {:induction false} NoAssignmentCounts(lines: seq<string>)
    ensures OwnRustflags(lines) == None <==> forall i | 0 <= i < |lines| :: !AssignsRustflags(lines[i])
  {
    if lines != [] {
      NoAssignmentCounts(lines[1..]);
      assert forall i | 0 < i < |lines| :: lines[i] == lines[1..][i - 1];
      assert forall i | 0 <= i < |lines| - 1 :: lines[1..][i] == lines[i + 1];
    }
  }

  predicate AllQuotes(s: string) {
    forall i | 0 <= i < |s| :: s[i] == '\'' || s[i] == '"'
  }

  /** `core` is `word` without the quote marks, of either kind and in any mix, around it. */
  ghost predicate IsBared(word: string, core: string) {
    && (core != [] ==> core[0] !in {'\'', '"'} && core[|core| - 1] !in {'\'', '"'})
    && exists left, right :: AllQuotes(left) && AllQuotes(right) && word == left + (core + right)
  }

  predicate IsBare(core: string) {
    core != [] ==> !IsQuote(core[0]) && !IsQuote(core[|core| - 1])
  }

  lemma {:induction false} ClosingQuotesAreTrimmed(core: string, right: string)
    requires IsBare(core) && AllQuotes(right)
    ensures TrimQuotes(core + right) == core
    decreases |right|
  {
    var s := core + right;
    if right == [] {
      assert s == core;
    } else if core == [] {
      assert s == right && s[1..] == core + right[1..];
      ClosingQuotesAreTrimmed(core, right[1..]);
    } else {
      var n := |right| - 1;
      assert s[0] == core[0] && s[|s| - 1] == right[n] && s[..|s| - 1] == core + right[..n];
      ClosingQuotesAreTrimmed(core, right[..n]);
    }
  }

  lemma {:induction false} QuotesAreTrimmed(left: string, core: string, right: string)
    requires AllQuotes(left) && IsBare(core) && AllQuotes(right)
    ensures TrimQuotes(left + (core + right)) == core
    decreases |left|
  {
    var s := left + (core + right);
    if left == [] {
      assert s == core + right;
      ClosingQuotesAreTrimmed(core, right);
    } else {
      assert s[0] == left[0] && s[1..] == left[1..] + (core + right);
      QuotesAreTrimmed(left[1..], core, right);
    }
  }

  lemma BaredIsTrimmed(word: string, core: string)
    requires IsBared(word, core)
    ensures TrimQuotes(word) == core
  {
    var left, right :| AllQuotes(left) && AllQuotes(right) && word == left + (core + right);
    QuotesAreTrimmed(left, core, right);
  }

  /** The verdict on the words of a value. */
  ghost predicate IsVerdict(value: string, own: seq<string>, verdict: Option<Complaint>) {
    if exists i :: 0 <= i < |own| && (Holds(own[i], "-Zthreads=8") || Holds(own[i], "mold")) then
      verdict == Some(StandardFlag(value))
    else if !Flags.DeniesWarnings(Flags.Joined(own)) then verdict == Some(OtherPolicy(value))
    else verdict == None
  }

  /** A coverage step is judged by the words of its first assignment: the quotes around them are dropped, an inline
      comment is no part of them, and nothing else in the step counts. A standard flag in one of them is complained
      about first, then a policy that does not deny warnings. */
  lemma {:induction false} CoverageIsJudgedByItsValue(before: seq<string>, gap: string, words: string, tail: string,
                                                      after: seq<string>, own: seq<string>)
    requires forall i | 0 <= i < |before| :: !AssignsRustflags(before[i])
    requires AllSpace(gap) && IsValue(words, tail)
    requires |own| == |Words(words)| && forall i | 0 <= i < |own| :: IsBared(Words(words)[i], own[i])
    ensures IsVerdict(Trim(words + tail), own, CoverageComplaint(before + [gap + ASSIGNS + (words + tail)] + after))
  {
    var text := words + tail;
    var line := gap + ASSIGNS + text;
    AssignedWords(gap, text);
    FirstAssignmentCounts(before, line, after);
    WordsConcat(words, tail);
    CommentEndsTheWords(Words(words), Words(tail));
    BaredWords(Words(words), own);
    NamedFlags(own);
  }

  lemma BaredWords(words: seq<string>, own: seq<string>)
    requires |own| == |words| && forall i | 0 <= i < |own| :: IsBared(words[i], own[i])
    ensures Unquoted(words) == own
  {
    forall i | 0 <= i < |own| ensures TrimQuotes(words[i]) == own[i] {
      BaredIsTrimmed(words[i], own[i]);
    }
  }

  lemma NamedFlags(own: seq<string>)
    ensures NamesStandardFlag(own) <==>
            exists i :: 0 <= i < |own| && (Holds(own[i], "-Zthreads=8") || Holds(own[i], "mold"))
  {
    forall i | 0 <= i < |own|
      ensures Contains(own[i], "-Zthreads=8") <==> Holds(own[i], "-Zthreads=8")
      ensures Contains(own[i], "mold") <==> Holds(own[i], "mold")
    {
      ContainsIs(own[i], "-Zthreads=8");
      ContainsIs(own[i], "mold");
    }
  }

  /** A coverage step is told that it assigns nothing exactly when no line of it does. */
  lemma CoverageNeedsAnAssignment(lines: seq<string>)
    ensures CoverageComplaint(lines) == Some(NoRustflags)
            <==> forall i | 0 <= i < |lines| :: !AssignsRustflags(lines[i])
  {
    NoAssignmentCounts(lines);
  }

  predicate IsNoise(c: char) {
    c == ' ' || c == '\'' || c == '"'
  }

  predicate AllNoise(s: string) {
    forall i | 0 <= i < |s| :: IsNoise(s[i])
  }

  predicate NoNoise(s: string) {
    forall i | 0 <= i < |s| :: !IsNoise(s[i])
  }

  lemma {:induction false} SqueezedConcat(a: string, b: string)
    ensures Squeezed(a + b) == Squeezed(a) + Squeezed(b)
  {
    if a == [] {
      assert a + b == b;
    } else {
      assert (a + b)[1..] == a[1..] + b;
      SqueezedConcat(a[1..], b);
    }
  }

  lemma {:induction false} SqueezedParts(s: string)
    ensures AllNoise(s) ==> Squeezed(s) == []
    ensures NoNoise(s) ==> Squeezed(s) == s
  {
    if s != [] {
      SqueezedParts(s[1..]);
    }
  }

  lemma {:induction false} SqueezedSpelling(p: string, key: string, q: string, value: string, r: string)
    requires AllNoise(p) && AllNoise(q) && AllNoise(r) && NoNoise(key) && NoNoise(value)
    ensures Squeezed(p + key + q + value + r) == key + value
  {
    SqueezedParts(p);
    SqueezedExtends(p, key, []);
    SqueezedExtends(p + key, q, key);
    SqueezedExtends(p + key + q, value, key);
    SqueezedExtends(p + key + q + value, r, key + value);
  }

  lemma SqueezedExtends(a: string, b: string, squeezed: string)
    requires Squeezed(a) == squeezed
    ensures AllNoise(b) ==> Squeezed(a + b) == squeezed
    ensures NoNoise(b) ==> Squeezed(a + b) == squeezed + b
  {
    SqueezedConcat(a, b);
    SqueezedParts(b);
    assert squeezed + [] == squeezed;
  }

  /** The install input passes however it is indented, spaced and quoted. */
  lemma InstallInputInAnySpelling(lines: seq<string>, i: nat, p: string, q: string, r: string)
    requires i < |lines| && lines[i] == p + "install-mold:" + q + "true" + r
    requires AllNoise(p) && AllNoise(q) && AllNoise(r)
    ensures InstallComplaint(lines) == None
  {
    SqueezedSpelling(p, "install-mold:", q, "true", r);
    assert "install-mold:" + "true" == "install-mold:true";
  }

  /** No line that holds no such input passes it. */
  lemma WithoutTheInput(lines: seq<string>)
    requires forall i | 0 <= i < |lines| :: !SpellsOut(lines[i], "install-mold:true")
    ensures InstallComplaint(lines) == Some(NoInstallInput)
  {
    InstallComplaintIsDue(lines);
  }
}
