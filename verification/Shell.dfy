/** The quote-aware splitter and the keyword stripper of tests/build_standard_support/shell.rs, with
    the laws that its test suite enumerates for short lines, here for every line. */
module Shell {
  import opened Wrappers
  import opened Text

  const AND_IF: string := "&&"
  const OR_IF: string := "||"

  predicate IsSeparator(s: string) {
    s == ";" || s == AND_IF || s == OR_IF
  }

  // ---------------------------------------------------------------- the splitter

  /** The commands still to come, given the open quote and the text of the command so far. */
  function Split(line: string, quote: Option<char>, current: string): (commands: seq<string>)
    ensures commands != []
    decreases |line|
  {
    if line == [] then [current]
    else if line[0] == '\\' then
      if |line| > 1 then Split(line[2..], quote, current + [line[0]] + [line[1]])
      else Split(line[1..], quote, current + [line[0]])
    else if quote.None? && line[0] == ';' then [current] + Split(line[1..], None, [])
    else if quote.None? && (line[0] == '&' || line[0] == '|') && |line| > 1 && line[1] == line[0] then
      [current] + Split(line[2..], None, [])
    else Split(line[1..], AfterQuote(quote, line[0]), current + [line[0]])
  }

  function Commands(line: string): (commands: seq<string>)
    ensures commands != []
  {
    Split(line, None, [])
  }

  method ShellCommands(line: string) returns (commands: seq<string>)
    ensures commands == Commands(line)
  {
    commands := [];
    var current := "";
    var quote := None;
    var i := 0;
    while i < |line|
      invariant i <= |line|
      invariant commands + Split(line[i..], quote, current) == Commands(line)
    {
      var c := line[i];
      ghost var rest := line[i..];
      ghost var read, before := current, commands;
      i := i + 1;
      assert rest[1..] == line[i..];
      if c == '\\' {
        current := current + [c];
        if i < |line| {
          current := current + [line[i]];
          i := i + 1;
          assert rest[2..] == line[i..];
        }
      } else if quote.Some? {
        current := current + [c];
        if c == quote.value {
          quote := None;
        }
      } else if IsQuote(c) {
        current := current + [c];
        quote := Some(c);
      } else if c == ';' {
        commands := commands + [current];
        current := "";
        Reassociate(before, [read], Split(line[i..], None, []));
      } else if (c == '&' || c == '|') && i < |line| && line[i] == c {
        i := i + 1;
        assert rest[2..] == line[i..];
        commands := commands + [current];
        current := "";
        Reassociate(before, [read], Split(line[i..], None, []));
      } else {
        current := current + [c];
      }
    }
    commands := commands + [current];
  }

  // ---------------------------------------------------------------- what the splitter accepts

  /** The separators that the splitter drops. */
  function Dropped(line: string, quote: Option<char>): seq<string>
    decreases |line|
  {
    if line == [] then []
    else if line[0] == '\\' then Dropped(line[if |line| > 1 then 2 else 1..], quote)
    else if quote.None? && line[0] == ';' then [";"] + Dropped(line[1..], None)
    else if quote.None? && (line[0] == '&' || line[0] == '|') && |line| > 1 && line[1] == line[0] then
      [line[..2]] + Dropped(line[2..], None)
    else Dropped(line[1..], AfterQuote(quote, line[0]))
  }

  function Rejoin(commands: seq<string>, separators: seq<string>): string
    requires |commands| == |separators| + 1
  {
    if separators == [] then commands[0]
    else commands[0] + separators[0] + Rejoin(commands[1..], separators[1..])
  }

  /** Read from inside `quote` or outside any, `c` has no unquoted separator. */
  predicate Uncut(c: string, quote: Option<char>)
    decreases |c|
  {
    if c == [] then true
    else if c[0] == '\\' then |c| == 1 || Uncut(c[2..], quote)
    else
      && (quote.None? ==> c[0] != ';')
      && (quote.None? && (c[0] == '&' || c[0] == '|') ==> |c| == 1 || c[1] != c[0])
      && Uncut(c[1..], AfterQuote(quote, c[0]))
  }

  /** `c` can stand before the separator `next`: it has no unquoted separator, its quotes are closed, no
      backslash dangles, and its last bare `&` or `|` does not run into the separator. */
  predicate Fits(c: string, quote: Option<char>, next: string)
    decreases |c|
  {
    if c == [] then quote.None?
    else if c[0] == '\\' then |c| > 1 && Fits(c[2..], quote, next)
    else
      && (quote.None? ==> c[0] != ';')
      && (quote.None? && (c[0] == '&' || c[0] == '|') ==>
            if |c| > 1 then c[1] != c[0] else next == [] || next[0] != c[0])
      && Fits(c[1..], AfterQuote(quote, c[0]), next)
  }

  /** `c` can stand before any separator: it also ends in no bare `&` or `|`. */
  predicate Closed(c: string, quote: Option<char>)
    decreases |c|
  {
    if c == [] then quote.None?
    else if c[0] == '\\' then |c| > 1 && Closed(c[2..], quote)
    else
      && (quote.None? ==> c[0] != ';')
      && (quote.None? && (c[0] == '&' || c[0] == '|') ==> |c| > 1 && c[1] != c[0])
      && Closed(c[1..], AfterQuote(quote, c[0]))
  }

  /** Closed commands are exactly those that fit before every separator. */
  lemma {:induction false} ClosedFits(c: string, quote: Option<char>, next: string)
    ensures Closed(c, quote) <==> Fits(c, quote, AND_IF) && Fits(c, quote, OR_IF)
    ensures Closed(c, quote) ==> Fits(c, quote, next)
    decreases |c|
  {
    if c != [] {
      if c[0] == '\\' {
        if |c| > 1 {
          ClosedFits(c[2..], quote, next);
        }
      } else {
        ClosedFits(c[1..], AfterQuote(quote, c[0]), next);
      }
    }
  }

  lemma {:induction false} FitsUncut(c: string, quote: Option<char>, next: string)
    requires Fits(c, quote, next)
    ensures Uncut(c, quote)
    decreases |c|
  {
    if c != [] {
      if c[0] == '\\' {
        FitsUncut(c[2..], quote, next);
      } else {
        FitsUncut(c[1..], AfterQuote(quote, c[0]), next);
      }
    }
  }

  lemma {:induction false} UncutSplit(c: string, quote: Option<char>, current: string)
    requires Uncut(c, quote)
    ensures Split(c, quote, current) == [current + c] && Dropped(c, quote) == []
    decreases |c|
  {
    if c == [] {
      assert current + c == current;
    } else if c == ['\\'] {
    } else if c[0] == '\\' {
      UncutSplit(c[2..], quote, current + [c[0]] + [c[1]]);
      assert current + [c[0]] + [c[1]] + c[2..] == current + c;
    } else {
      UncutSplit(c[1..], AfterQuote(quote, c[0]), current + [c[0]]);
      assert current + [c[0]] + c[1..] == current + c;
    }
  }

  /** A command that fits before a separator is read whole, whatever follows the separator. */
  lemma {:induction false} FitsSplit(c: string, quote: Option<char>, current: string, sep: string, rest: string)
    requires IsSeparator(sep) && Fits(c, quote, sep)
    ensures Split(c + sep + rest, quote, current) == [current + c] + Split(rest, None, [])
    ensures Dropped(c + sep + rest, quote) == [sep] + Dropped(rest, None)
    decreases |c|
  {
    var line := c + sep + rest;
    if c == [] {
      assert line == sep + rest && current + c == current;
      assert line[|sep|..] == rest && line[..|sep|] == sep;
    } else if c[0] == '\\' {
      assert line[2..] == c[2..] + sep + rest && line[1] == c[1];
      FitsSplit(c[2..], quote, current + [c[0]] + [c[1]], sep, rest);
      assert current + [c[0]] + [c[1]] + c[2..] == current + c;
    } else {
      assert line[1..] == c[1..] + sep + rest && line[0] == c[0];
      assert |c| > 1 ==> line[1] == c[1];
      assert |c| == 1 ==> line[1] == sep[0];
      FitsSplit(c[1..], AfterQuote(quote, c[0]), current + [c[0]], sep, rest);
      assert current + [c[0]] + c[1..] == current + c;
    }
  }

  /** `line` is uncut, or starts with `c`, which fits before the first separator dropped. */
  ghost predicate FirstOf(line: string, quote: Option<char>, c: string, rest: string) {
    var seps := Dropped(line, quote);
    if seps == [] then Uncut(line, quote)
    else IsSeparator(seps[0]) && Fits(c, quote, seps[0]) && line == c + seps[0] + rest
  }

  lemma FirstSkips(line: string, quote: Option<char>, k: nat, next: Option<char>, c: string, rest: string)
    requires (k == 2 && |line| > 1 && line[0] == '\\' && next == quote)
             || (k == 1 && line != [] && line[0] != '\\' && next == AfterQuote(quote, line[0])
                 && (quote.None? ==> line[0] != ';')
                 && (quote.None? && (line[0] == '&' || line[0] == '|') ==> |line| == 1 || line[1] != line[0]))
    requires FirstOf(line[k..], next, c, rest)
    ensures FirstOf(line, quote, line[..k] + c, rest)
  {
    var seps := Dropped(line, quote);
    assert seps == Dropped(line[k..], next);
    var c' := line[..k] + c;
    assert c'[k..] == c && c'[0] == line[0];
    if seps != [] {
      assert line == line[..k] + line[k..] == c' + seps[0] + rest;
      assert |c'| > 1 ==> c'[1] == line[1];
      assert |c'| == 1 ==> seps[0][0] == line[1];
    }
  }

  lemma {:induction false} FirstCut(line: string, quote: Option<char>) returns (c: string, rest: string)
    ensures FirstOf(line, quote, c, rest)
    decreases |line|
  {
    c, rest := [], [];
    if line == [] || line == ['\\'] {
    } else if line[0] == '\\' {
      c, rest := FirstCut(line[2..], quote);
      FirstSkips(line, quote, 2, quote, c, rest);
      c := line[..2] + c;
    } else if quote.None? && line[0] == ';' {
      rest := line[1..];
    } else if quote.None? && (line[0] == '&' || line[0] == '|') && |line| > 1 && line[1] == line[0] {
      rest := line[2..];
    } else {
      c, rest := FirstCut(line[1..], AfterQuote(quote, line[0]));
      FirstSkips(line, quote, 1, AfterQuote(quote, line[0]), c, rest);
      c := line[..1] + c;
    }
  }

  // ---------------------------------------------------------------- the splitter's laws

  /** One way to read a line as commands and the separators between them. */
  ghost predicate Reads(line: string, commands: seq<string>, separators: seq<string>) {
    && |commands| == |separators| + 1
    && Rejoin(commands, separators) == line
    && (forall i | 0 <= i < |separators| :: IsSeparator(separators[i]) && Fits(commands[i], None, separators[i]))
    && Uncut(commands[|separators|], None)
  }

  /** The splitter is exact: for every line whatever, its commands and the separators it drops are the one and
      only reading. Interleaved they rebuild the line; no other reading rebuilds it. */
  lemma {:induction false} CommandsAreTheOnlyReading(line: string, commands: seq<string>, separators: seq<string>)
    ensures Reads(line, commands, separators) <==> commands == Commands(line) && separators == Dropped(line, None)
    decreases |line|
  {
    if Reads(line, commands, separators) {
      ReadingIsSplit(line, commands, separators);
    }
    SplitIsReading(line);
  }

  lemma {:induction false} ReadingIsSplit(line: string, commands: seq<string>, separators: seq<string>)
    requires Reads(line, commands, separators)
    ensures commands == Commands(line) && separators == Dropped(line, None)
    decreases |separators|
  {
    if separators == [] {
      UncutSplit(line, None, []);
      assert [] + line == line && commands == [line];
    } else {
      var rest := Rejoin(commands[1..], separators[1..]);
      ReadingIsSplit(rest, commands[1..], separators[1..]);
      FitsSplit(commands[0], None, [], separators[0], rest);
      assert [] + commands[0] == commands[0];
    }
  }

  lemma {:induction false} SplitIsReading(line: string)
    ensures Reads(line, Commands(line), Dropped(line, None))
    decreases |line|
  {
    var c, rest := FirstCut(line, None);
    var separators := Dropped(line, None);
    if separators == [] {
      UncutSplit(line, None, []);
      assert [] + line == line;
    } else {
      FitsSplit(c, None, [], separators[0], rest);
      assert [] + c == c;
      SplitIsReading(rest);
      assert Commands(line)[1..] == Commands(rest) && separators[1..] == Dropped(rest, None);
    }
  }

  /** Splitting any piece again returns just that piece. */
  lemma PiecesAreWhole(line: string, i: nat)
    requires i < |Commands(line)|
    ensures Commands(Commands(line)[i]) == [Commands(line)[i]]
  {
    SplitIsReading(line);
    var c := Commands(line)[i];
    if i < |Dropped(line, None)| {
      FitsUncut(c, None, Dropped(line, None)[i]);
    }
    UncutSplit(c, None, []);
    assert [] + c == c;
  }

  /** Split undoes join: commands that fit before the separators after them come back as they were. Closed commands
      fit before any separator; the last one may leave a quote open, dangle a backslash or end in a bare `&` or `|`. */
  lemma {:induction false} SplitUndoesJoin(commands: seq<string>, separators: seq<string>)
    requires |commands| == |separators| + 1
    requires forall i | 0 <= i < |separators| :: IsSeparator(separators[i]) && Fits(commands[i], None, separators[i])
    requires Uncut(commands[|separators|], None)
    ensures Commands(Rejoin(commands, separators)) == commands
  {
    ReadingIsSplit(Rejoin(commands, separators), commands, separators);
  }

  /** What either quote mark encloses belongs to one command, separators included. */
  lemma QuotedTextIsOneCommand(before: string, mark: char, text: string, after: string)
    requires mark == '\'' || mark == '"'
    requires mark !in text && '\\' !in text
    requires forall i | 0 <= i < |before| :: before[i] !in {'\\', '\'', '"', ';', '&', '|'}
    requires Uncut(after, None)
    ensures Commands(before + ([mark] + text + [mark] + after)) == [before + ([mark] + text + [mark] + after)]
  {
    var quoted := [mark] + text + [mark] + after;
    QuotesAre(mark);
    assert quoted[1..] == text + ([mark] + after);
    QuotedTextIsUncut(mark, text, after);
    PlainPrefix(before, quoted, []);
    UncutSplit(before + quoted, None, []);
    assert [] + (before + quoted) == before + quoted;
  }

  lemma {:induction false} QuotedTextIsUncut(mark: char, text: string, after: string)
    requires mark == '\'' || mark == '"'
    requires mark !in text && '\\' !in text && Uncut(after, None)
    ensures Uncut(text + ([mark] + after), Some(mark))
  {
    var s := text + ([mark] + after);
    if text == [] {
      QuotesAre(mark);
      assert s[0] == mark && s[1..] == after;
    } else {
      QuotesAre(text[0]);
      assert s[0] == text[0] && s[1..] == text[1..] + ([mark] + after);
      QuotedTextIsUncut(mark, text[1..], after);
    }
  }

  // ---------------------------------------------------------------- leading keywords

  predicate IsKeyword(word: string) {
    word in {"if", "then", "else", "elif", "do", "while", "until", "!", "{", "("}
  }

  /** `split_once(char::is_whitespace)`. */
  function SplitOnceSpace(s: string): Option<(string, string)> {
    var n := WordLength(s);
    if n < |s| then Some((s[..n], s[n + 1..])) else None
  }

  function StripKeywords(rest: string): string
    decreases |rest|
  {
    match SplitOnceSpace(rest)
    case Some((word, after)) =>
      TrimStartShortens(after);
      if IsKeyword(word) then StripKeywords(TrimStart(after)) else rest
    case None => rest
  }

  method WithoutLeadingKeywords(command: string) returns (rest: string)
    ensures rest == StripKeywords(Trim(command))
  {
    rest := Trim(command);
    while true
      invariant StripKeywords(rest) == StripKeywords(Trim(command))
      decreases |rest|
    {
      var split := SplitOnceSpace(rest);
      if split.None? {
        break;
      }
      var (word, after) := split.value;
      TrimStartShortens(after);
      if IsKeyword(word) {
        rest := TrimStart(after);
      } else {
        break;
      }
    }
  }

  /** The words that may stand before a command. */
  const KEYWORDS: seq<string> := ["if", "then", "else", "elif", "do", "while", "until", "!", "{", "("]

  lemma KeywordsAre(word: string)
    ensures IsKeyword(word) <==> word in KEYWORDS
  {
  }

  /** A command led by no keyword stays as it is; so does a word that nothing follows. */
  lemma UnledCommandsStay(word: string, rest: string)
    requires NoSpace(word) && (rest == [] || (IsSpace(rest[0]) && word !in KEYWORDS))
    ensures StripKeywords(word + rest) == word + rest
  {
    KeywordsAre(word);
    WordLengthOf(word, rest);
    assert (word + rest)[..|word|] == word;
  }

  /** White space, a keyword and more white space. */
  datatype Lead = Lead(before: string, keyword: string, after: string)

  predicate IsLead(lead: Lead) {
    AllSpace(lead.before) && lead.keyword in KEYWORDS && AllSpace(lead.after) && lead.after != []
  }

  function Led(leads: seq<Lead>, command: string): string {
    if leads == [] then command
    else leads[0].before + leads[0].keyword + leads[0].after + Led(leads[1..], command)
  }

  lemma KeywordShape(k: string)
    requires k in KEYWORDS
    ensures IsKeyword(k) && k != [] && NoSpace(k)
    ensures forall i | 0 <= i < |k| :: k[i] !in {'\\', '\'', '"', ';', '&', '|', '\n'}
  {
  }

  lemma SplitAtGap(word: string, gap: string, core: string)
    requires NoSpace(word) && AllSpace(gap) && gap != []
    ensures SplitOnceSpace(word + gap + core) == Some((word, gap[1..] + core))
  {
    var rest := gap + core;
    assert word + gap + core == word + rest && rest[0] == gap[0];
    WordLengthOf(word, rest);
    assert (word + rest)[..|word|] == word;
    assert (word + rest)[|word| + 1..] == gap[1..] + core;
  }

  lemma {:induction false} KeywordIsStripped(keyword: string, gap: string, core: string)
    requires IsKeyword(keyword) && NoSpace(keyword) && AllSpace(gap) && gap != []
    requires core != [] && !IsSpace(core[0])
    ensures StripKeywords(keyword + gap + core) == StripKeywords(core)
  {
    SplitAtGap(keyword, gap, core);
    TrimStartSkips(gap[1..], core);
  }

  lemma LeadIsStripped(lead: Lead, s: string)
    requires IsLead(lead) && Trim(s) != []
    ensures StripKeywords(Trim(lead.before + lead.keyword + lead.after + s)) == StripKeywords(Trim(s))
  {
    KeywordShape(lead.keyword);
    var left, right := TrimParts(s);
    var core, gap := Trim(s), lead.after + left;
    var body := lead.keyword + gap + core;
    assert body[0] == lead.keyword[0] && body[|body| - 1] == core[|core| - 1];
    assert lead.before + lead.keyword + lead.after + s == lead.before + body + right;
    TrimOf(lead.before, body, right);
    KeywordIsStripped(lead.keyword, gap, core);
  }

  /** Whatever shell keywords lead a command, what is left after stripping them is the same. */
  lemma {:induction false} LeadsAreStripped(leads: seq<Lead>, command: string)
    requires forall i | 0 <= i < |leads| :: IsLead(leads[i])
    requires Trim(command) != []
    ensures StripKeywords(Trim(Led(leads, command))) == StripKeywords(Trim(command))
    ensures Trim(Led(leads, command)) != []
  {
    if leads != [] {
      LeadsAreStripped(leads[1..], command);
      LeadIsStripped(leads[0], Led(leads[1..], command));
      LeadIsNotBlank(leads[0], Led(leads[1..], command));
    }
  }

  lemma LeadIsNotBlank(lead: Lead, s: string)
    requires IsLead(lead)
    ensures Trim(lead.before + lead.keyword + lead.after + s) != []
  {
    KeywordShape(lead.keyword);
    var t := lead.before + lead.keyword + lead.after + s;
    assert t[|lead.before|] == lead.keyword[0];
    var before, after := TrimParts(t);
  }

  lemma {:induction false} LedFits(leads: seq<Lead>, command: string, next: string)
    requires forall i | 0 <= i < |leads| :: IsLead(leads[i])
    ensures Fits(Led(leads, command), None, next) == Fits(command, None, next)
    ensures Closed(Led(leads, command), None) == Closed(command, None)
    ensures Uncut(Led(leads, command), None) == Uncut(command, None)
  {
    if leads != [] {
      LedFits(leads[1..], command, next);
      KeywordShape(leads[0].keyword);
      PlainPrefix(leads[0].before + leads[0].keyword + leads[0].after, Led(leads[1..], command), next);
    }
  }

  lemma {:induction false} PlainPrefix(plain: string, s: string, next: string)
    requires forall i | 0 <= i < |plain| :: plain[i] !in {'\\', '\'', '"', ';', '&', '|'}
    ensures Fits(plain + s, None, next) == Fits(s, None, next)
    ensures Closed(plain + s, None) == Closed(s, None)
    ensures Uncut(plain + s, None) == Uncut(s, None)
  {
    if plain == [] {
      assert plain + s == s;
    } else {
      assert (plain + s)[1..] == plain[1..] + s && (plain + s)[0] == plain[0];
      PlainPrefix(plain[1..], s, next);
    }
  }
}
