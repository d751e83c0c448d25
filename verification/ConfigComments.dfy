/** After which lines of a Cargo configuration a comment is no part of the meaning, and after which it is
    (tests/build_standard_support/config.rs). */
module ConfigComments {
  import opened Wrappers
  import opened Text
  import opened Flags
  import opened Config

  /** Whether any comment after the line leaves its reading alone. */
  ghost predicate ReadsTheSameCommented(line: string) {
    forall gap, comment | AllSpace(gap) && "#" <= comment :: ReadsTheSame(line, gap, comment)
  }

  predicate ReadsTheSame(line: string, gap: string, comment: string) {
    ReadLine(Trim(line + gap + comment)) == ReadLine(Trim(line))
  }

  function Hashes(s: string): nat {
    multiset(s)['#']
  }

  lemma HashesConcat(a: string, b: string)
    ensures Hashes(a + b) == Hashes(a) + Hashes(b)
  {
  }

  lemma {:induction false} BracketsHoldNoHash(s: string)
    ensures Hashes(TrimBrackets(s)) == Hashes(s)
    decreases |s|
  {
    if s != [] && (s[0] == '[' || s[0] == ']') {
      BracketsHoldNoHash(s[1..]);
      assert s == [s[0]] + s[1..];
      HashesConcat([s[0]], s[1..]);
    } else if s != [] && (s[|s| - 1] == '[' || s[|s| - 1] == ']') {
      BracketsHoldNoHash(s[..|s| - 1]);
      assert s == s[..|s| - 1] + [s[|s| - 1]];
      HashesConcat(s[..|s| - 1], [s[|s| - 1]]);
    }
  }

  lemma {:induction false} SpaceHoldsNoHash(s: string)
    requires AllSpace(s)
    ensures Hashes(s) == 0
  {
    if s != [] {
      SpaceHoldsNoHash(s[1..]);
      assert s == [s[0]] + s[1..];
      HashesConcat([s[0]], s[1..]);
      assert IsSpace(s[0]);
    }
  }

  lemma TrimHoldsHashes(s: string)
    ensures Hashes(Trim(s)) == Hashes(s)
  {
    var before, after := TrimParts(s);
    HashesConcat(before + Trim(s), after);
    HashesConcat(before, Trim(s));
    SpaceHoldsNoHash(before);
    SpaceHoldsNoHash(after);
  }

  /** A header that leaves a quote open takes the comment into its name. */
  lemma HeaderTakesTheHash(core: string, rest: string)
    requires "[" <= core && Uncommented(core) == core && Uncommented(core + rest) == core + rest
    requires '#' in rest
    ensures ReadLine(core + rest) != ReadLine(core)
  {
    HashesConcat(core, rest);
    BracketsHoldNoHash(core);
    BracketsHoldNoHash(core + rest);
    TrimHoldsHashes(TrimBrackets(core));
    TrimHoldsHashes(TrimBrackets(core + rest));
    assert (core + rest)[0] == core[0];
  }

  /** The value of a line that assigns the key. */
  ghost predicate Assigns(core: string, value: string) {
    core == KEY + value && "=" <= TrimStart(value)
  }

  function ReadValue(value: string): Result<Line, ConfigError> {
    if ']' in value then Ok(Rustflags(Joined(Quoted(value)))) else Err(SpansLines)
  }

  lemma AssignedValueIsRead(core: string, value: string, rest: string)
    requires Assigns(core, value) && Uncommented(core + rest) == core + rest
    ensures ReadLine(core + rest) == ReadValue(value + rest)
  {
    var line := core + rest;
    TrimStartShortens(value);
    var i := |value| - |TrimStart(value)|;
    assert value[i] == TrimStart(value)[0];
    SameStart(value, value + rest, i);
    assert KEY <= line && line[|KEY|..] == value + rest && line[0] == KEY[0];
  }

  lemma {:induction false} SplitOnConcat(a: string, c: char, b: string)
    ensures SplitOn(a + [c] + b, [c]) == SplitOn(a, [c]) + SplitOn(b, [c])
    decreases |a|
  {
    var first, rest := CutAtChar(a, c);
    if c in a {
      assert a + [c] + b == first + [c] + (rest + [c] + b);
      SplitAtChar(first, c, rest + [c] + b);
      SplitAtChar(first, c, rest);
      SplitOnConcat(rest, c, b);
      Reassociate([first], SplitOn(rest, [c]), SplitOn(b, [c]));
    } else {
      SplitAtChar(a, c, b);
      SplitAtNoChar(a, c);
    }
  }

  /** Text without the character goes to the last part. */
  lemma {:induction false} SplitOnGrows(a: string, c: char, b: string) returns (front: seq<string>, last: string)
    requires c !in b
    ensures SplitOn(a, [c]) == front + [last] && SplitOn(a + b, [c]) == front + [last + b]
    decreases |a|
  {
    var first, rest := CutAtChar(a, c);
    if c in a {
      front, last := SplitOnGrows(rest, c, b);
      assert a + b == first + [c] + (rest + b);
      SplitAtChar(first, c, rest);
      SplitAtChar(first, c, rest + b);
      Reassociate([first], front, [last]);
      Reassociate([first], front, [last + b]);
      front := [first] + front;
    } else {
      SplitAtNoChar(a, c);
      SplitAtNoChar(a + b, c);
      front, last := [], a;
    }
  }

  lemma {:induction false} OddSnoc(parts: seq<string>, last: string)
    ensures Odd(parts + [last]) == Odd(parts) + if |parts| % 2 == 1 then [last] else []
    decreases |parts|
  {
    if |parts| >= 2 {
      assert (parts + [last])[2..] == parts[2..] + [last];
      OddSnoc(parts[2..], last);
    }
  }

  lemma JoinedSnoc(words: seq<string>, last: string)
    ensures Joined(words + [last]) == Push(Joined(words), last)
  {
    PushAllConcat([], words, [last]);
    assert [last][1..] == [];
  }

  /** Another last word is another list, however it joins. */
  lemma JoinedTellsLastWords(words: seq<string>, x: string, y: string)
    requires x != y
    ensures Joined(words + [x]) != Joined(words + [y])
    ensures x != [] ==> Joined(words + [x]) != Joined(words)
  {
    JoinedSnoc(words, x);
    JoinedSnoc(words, y);
    var flags := Joined(words);
    if Pending(flags) {
      var front := flags[..|flags| - 1];
      assert Push(flags, x) == front + ["-C" + x] && Push(flags, y) == front + ["-C" + y];
      assert ("-C" + x)[2..] == x && ("-C" + y)[2..] == y;
      assert (front + ["-C" + x])[|front|] == "-C" + x && (front + ["-C" + y])[|front|] == "-C" + y;
    } else {
      assert (flags + [x])[|flags|] == x && (flags + [y])[|flags|] == y;
    }
  }

  lemma ValuesDiffer(a: string, b: string)
    requires ']' in a && ']' in b && Joined(Quoted(a)) != Joined(Quoted(b))
    ensures ReadValue(a) != ReadValue(b)
  {
  }

  lemma LastWordGrows(value: string, rest: string) returns (words: seq<string>, last: string)
    requires |SplitOn(value, "\"")| % 2 == 0 && '"' !in rest
    ensures Quoted(value) == words + [last] && Quoted(value + rest) == words + [last + rest]
  {
    var front, end := SplitOnGrows(value, '"', rest);
    OddSnoc(front, end);
    OddSnoc(front, end + rest);
    words, last := Odd(front), end;
  }

  lemma {:induction false} UnquotedTextIsDropped(value: string, rest: string)
    requires |SplitOn(value, "\"")| % 2 == 1 && '"' !in rest
    ensures Quoted(value + rest) == Quoted(value) && |SplitOn(value + rest, "\"")| % 2 == 1
  {
    var front, last := SplitOnGrows(value, '"', rest);
    OddIgnoresLast(SplitOn(value, "\""), SplitOn(value + rest, "\""), front, last, last + rest);
  }

  lemma {:induction false} OddIgnoresLast(a: seq<string>, b: seq<string>, front: seq<string>, x: string, y: string)
    requires a == front + [x] && b == front + [y] && |a| % 2 == 1
    ensures Odd(a) == Odd(b) && |b| % 2 == 1
  {
    var n := |front|;
    assert |a| == n + 1 && |b| == n + 1;
    assert n % 2 == 0;
    OddSnoc(front, x);
    OddSnoc(front, y);
  }

  lemma QuotedWordIsAdded(value: string, word: string)
    requires |SplitOn(value, "\"")| % 2 == 1 && '"' !in word
    ensures Quoted(value + ['"'] + word) == Quoted(value) + [word]
  {
    SplitOnConcat(value, '"', word);
    SplitAtNoChar(word, '"');
    OddSnoc(SplitOn(value, "\""), word);
  }

  /** A value with an odd number of quotes takes the comment into its last word. */
  lemma LastWordTakesTheComment(value: string, rest: string)
    requires ']' in value && |SplitOn(value, "\"")| % 2 == 0 && '"' !in rest && rest != []
    ensures ReadValue(value + rest) != ReadValue(value)
  {
    var words, last := LastWordGrows(value, rest);
    assert |last + rest| != |last|;
    JoinedTellsLastWords(words, last, last + rest);
    ValuesDiffer(value + rest, value);
  }

  /** One with an even number takes what the comment quotes as another word. */
  lemma {:induction false} CommentQuotesAWord(value: string, rest: string, word: string)
    requires ']' in value && |SplitOn(value, "\"")| % 2 == 1 && '"' !in rest && '"' !in word && word != []
    ensures ReadValue((value + rest) + ['"'] + word) != ReadValue(value)
  {
    UnquotedTextIsDropped(value, rest);
    QuotedWordIsAdded(value + rest, word);
    JoinedTellsLastWords(Quoted(value), word, []);
    ValuesDiffer((value + rest) + ['"'] + word, value);
  }

  /** The comment that changes a line: a bare one, one that quotes a word, or one that closes the array. */
  function SpoilingComment(line: string): string {
    if "[" <= line then "#"
    else if |line| >= |KEY| && ']' in line[|KEY|..] then
      (if |SplitOn(line[|KEY|..], "\"")| % 2 == 0 then "#" else "#\"b")
    else "#]"
  }

  lemma {:induction false} SpaceStartsNoComment(gap: string, quote: Option<char>, rest: string)
    requires AllSpace(gap) && (quote.Some? ==> IsQuote(quote.value))
    ensures CommentStart(gap + rest, quote) ==
            match CommentStart(rest, quote) case None => None case Some(at) => Some(|gap| + at)
  {
    if gap == [] {
      assert gap + rest == rest;
    } else {
      assert IsSpace(gap[0]);
      assert (gap + rest)[1..] == gap[1..] + rest && (gap + rest)[0] == gap[0];
      SpaceStartsNoComment(gap[1..], quote, rest);
    }
  }

  lemma SpoilingCommentIsKept(line: string, quote: char)
    requires IsQuote(quote)
    ensures CommentStart(SpoilingComment(line), Some(quote)) == None
  {
    var comment := SpoilingComment(line);
    assert forall i | 0 < i < |comment| :: comment[i] != '#';
    NoCommentBefore(comment[1..], Some(quote), |comment| - 1);
  }

  /** A header or key that leaves a quote open is changed by some comment after it. */
  lemma OpenLinesAreSpoiled(line: string)
    requires !Unquoted(Trim(line), None) && ReadLine(Trim(line)) != Ok(Other)
    ensures !ReadsTheSame(line, [], SpoilingComment(Trim(line)))
  {
    var core, comment := Trim(line), SpoilingComment(Trim(line));
    var right := CommentedCore([], line, [], comment);
    assert TrimEnd(comment) == comment && right + [] == right && [] + line + [] + comment == line + [] + comment;
    var rest := right + comment;
    OpenQuoteStays(core, None, rest);
    SpaceStartsNoComment(right, QuoteAfter(core, None), comment);
    SpoilingCommentIsKept(core, QuoteAfter(core, None).value);
    OpenLineIsKept(core, rest);
    OpenCoreIsSpoiled(core, right);
  }

  lemma OpenCoreIsSpoiled(core: string, gap: string)
    requires AllSpace(gap) && ReadLine(core) != Ok(Other) && Uncommented(core) == core
    requires Uncommented(core + (gap + SpoilingComment(core))) == core + (gap + SpoilingComment(core))
    ensures ReadLine(core + (gap + SpoilingComment(core))) != ReadLine(core)
  {
    var rest := gap + SpoilingComment(core);
    assert rest[|gap|] == '#';
    if "[" <= core {
      HeaderTakesTheHash(core, rest);
    } else {
      var value := core[|KEY|..];
      assert core == KEY + value && Assigns(core, value) && core + [] == core && value + [] == value;
      AssignedValueIsRead(core, value, []);
      AssignedValueIsRead(core, value, rest);
      SpoiledValue(value, gap);
    }
  }

  lemma SpoiledValue(value: string, gap: string)
    requires AllSpace(gap)
    ensures ReadValue(value + (gap + SpoilingComment(KEY + value))) != ReadValue(value)
  {
    var line := KEY + value;
    assert line[0] == 'r' && line[|KEY|..] == value;
    assert '"' !in gap;
    if ']' !in value {
      assert (gap + "#]")[|gap| + 1] == ']';
    } else if |SplitOn(value, "\"")| % 2 == 0 {
      LastWordTakesTheComment(value, gap + "#");
    } else {
      assert value + (gap + "#\"b") == (value + (gap + "#")) + ['"'] + "b";
      CommentQuotesAWord(value, gap + "#", "b");
    }
  }

  /** Comments are no part of the meaning exactly after lines that leave no quote open or read as nothing: on any other
      line some comment changes what is read. */
  lemma CommentsAreSafeExactly(line: string)
    ensures ReadsTheSameCommented(line) <==> TakesComments(line)
  {
    if TakesComments(line) {
      forall gap, comment | AllSpace(gap) && "#" <= comment ensures ReadsTheSame(line, gap, comment) {
        var tail := gap + comment;
        assert tail[..|gap|] == gap && tail[|gap|] == '#';
        TrailerChangesNothing([], line, tail);
        assert [] + line + tail == line + gap + comment;
      }
    } else {
      OpenLinesAreSpoiled(line);
      assert AllSpace([]) && "#" <= SpoilingComment(Trim(line));
    }
  }

  /** A value that closes its array and then opens a word. */
  function UnclosedValue(word: string): string {
    " = ] " + ['"'] + word
  }

  lemma UnclosedLineIsKept(word: string)
    requires '"' !in word
    ensures Uncommented(KEY + UnclosedValue(word)) == KEY + UnclosedValue(word)
  {
    var line := KEY + UnclosedValue(word);
    assert line == (KEY + " = ] ") + (['"'] + word);
    CommentAfterPlain(KEY + " = ] ", ['"'] + word);
    assert (['"'] + word)[1..] == word;
    UnclosedWordHidesComments(word);
  }

  lemma UnclosedValueIsQuoted(word: string)
    requires '"' !in word
    ensures Quoted(UnclosedValue(word)) == [word]
  {
    SplitAtNoChar(" = ] ", '"');
    QuotedWordIsAdded(" = ] ", word);
    assert [] + [word] == [word];
  }

  lemma UnclosedValueIsAssigned(word: string)
    ensures "=" <= TrimStart(UnclosedValue(word)) && ']' in UnclosedValue(word)
  {
    var value := UnclosedValue(word);
    assert value[1..] == "= ] " + ['"'] + word && value[3] == ']';
    assert TrimStart(value) == TrimStart(value[1..]) == value[1..];
  }

  lemma UnclosedWordIsRead(word: string)
    requires '"' !in word && word != [] && !IsSpace(word[|word| - 1])
    ensures ReadLine(Trim(KEY + UnclosedValue(word))) == Ok(Rustflags([word]))
  {
    var value := UnclosedValue(word);
    var line := KEY + value;
    UnclosedLineIsKept(word);
    UnclosedValueIsQuoted(word);
    UnclosedValueIsAssigned(word);
    JoinedSnoc([], word);
    assert [] + [word] == [word];
    TrimOfEnds(line);
    assert line + [] == line && value + [] == value;
    AssignedValueIsRead(line, value, []);
  }

  lemma {:induction false} UnclosedWordHidesComments(word: string)
    requires '"' !in word
    ensures CommentStart(word, Some('"')) == None
  {
    if word != [] {
      UnclosedWordHidesComments(word[1..]);
    }
  }

  /** For instance, after `rustflags = ] "` and a word, a comment is read as part of the word. */
  lemma UnclosedWordTakesTheComment(word: string, comment: string)
    requires '"' !in word && word != [] && !IsSpace(word[|word| - 1])
    requires '"' !in comment && comment != [] && !IsSpace(comment[|comment| - 1])
    ensures ReadLine(Trim(KEY + UnclosedValue(word))) == Ok(Rustflags([word]))
    ensures ReadLine(Trim(KEY + UnclosedValue(word) + comment)) == Ok(Rustflags([word + comment]))
  {
    UnclosedWordIsRead(word);
    UnclosedWordIsRead(word + comment);
    var opening := " = ] " + ['"'];
    Reassociate(KEY, opening + word, comment);
    Reassociate(opening, word, comment);
  }
}
