/** The string operations of Rust's standard library that the readers use, on sequences of Unicode scalar
    values. `len` counts bytes of UTF-8, as it does there. */
module Text {
  import opened Wrappers

  /** The Unicode White_Space property. */
  predicate IsSpace(c: char) {
    var n := c as int;
    || 0x09 <= n <= 0x0D || n == 0x20 || n == 0x85 || n == 0xA0 || n == 0x1680
    || 0x2000 <= n <= 0x200A || n == 0x2028 || n == 0x2029 || n == 0x202F || n == 0x205F || n == 0x3000
  }

  /** The 25 characters that have that property. */
  const WHITE_SPACE: string :=
    "\t\n\U{b}\U{c}\r \U{85}\U{a0}\U{1680}\U{2000}\U{2001}\U{2002}\U{2003}\U{2004}\U{2005}\U{2006}\U{2007}"
    + "\U{2008}\U{2009}\U{200a}\U{2028}\U{2029}\U{202f}\U{205f}\U{3000}"

  lemma WhiteSpaceIsUnicodes(c: char)
    ensures IsSpace(c) <==> c in WHITE_SPACE
  {
  }

  predicate AllSpace(s: string) {
    forall i | 0 <= i < |s| :: IsSpace(s[i])
  }

  predicate NoSpace(s: string) {
    forall i | 0 <= i < |s| :: !IsSpace(s[i])
  }

  function TrimStart(s: string): string {
    if s != [] && IsSpace(s[0]) then TrimStart(s[1..]) else s
  }

  function TrimEnd(s: string): string {
    if s != [] && IsSpace(s[|s| - 1]) then TrimEnd(s[..|s| - 1]) else s
  }

  function Trim(s: string): string {
    TrimEnd(TrimStart(s))
  }

  /** The length of the longest prefix without white space. */
  function WordLength(s: string): nat
    ensures WordLength(s) <= |s| && NoSpace(s[..WordLength(s)])
    ensures WordLength(s) < |s| ==> IsSpace(s[WordLength(s)])
  {
    if s == [] || IsSpace(s[0]) then 0 else 1 + WordLength(s[1..])
  }

  /** `split_whitespace`. */
  function Words(s: string): seq<string>
    decreases |s|
  {
    TrimStartShortens(s);
    var t := TrimStart(s);
    if t == [] then []
    else
      var n := WordLength(t);
      [t[..n]] + Words(t[n..])
  }

  lemma {:induction false} TrimStartShortens(s: string)
    ensures |TrimStart(s)| <= |s| && TrimStart(s) == s[|s| - |TrimStart(s)|..]
    ensures AllSpace(s[..|s| - |TrimStart(s)|])
    ensures TrimStart(s) == [] || !IsSpace(TrimStart(s)[0])
  {
    if s != [] && IsSpace(s[0]) {
      TrimStartShortens(s[1..]);
      var k := |s| - |TrimStart(s)|;
      assert s[..k] == [s[0]] + s[1..][..k - 1];
    }
  }

  lemma {:induction false} TrimEndShortens(s: string)
    ensures |TrimEnd(s)| <= |s| && TrimEnd(s) == s[..|TrimEnd(s)|]
    ensures AllSpace(s[|TrimEnd(s)|..])
    ensures TrimEnd(s) == [] || !IsSpace(TrimEnd(s)[|TrimEnd(s)| - 1])
    ensures forall j | |TrimEnd(s)| <= j < |s| :: IsSpace(s[j])
  {
    if s != [] && IsSpace(s[|s| - 1]) {
      var u := s[..|s| - 1];
      TrimEndShortens(u);
      var k := |TrimEnd(s)|;
      assert s[k..] == u[k..] + [s[|s| - 1]];
    }
  }

  lemma {:induction false} TrimStartSkips(ws: string, s: string)
    requires AllSpace(ws)
    ensures TrimStart(ws + s) == TrimStart(s)
  {
    if ws == [] {
      assert ws + s == s;
    } else {
      assert (ws + s)[1..] == ws[1..] + s;
      TrimStartSkips(ws[1..], s);
    }
  }

  lemma {:induction false} TrimEndSkips(s: string, ws: string)
    requires AllSpace(ws)
    ensures TrimEnd(s + ws) == TrimEnd(s)
  {
    if ws == [] {
      assert s + ws == s;
    } else {
      assert (s + ws)[..|s + ws| - 1] == s + ws[..|ws| - 1];
      TrimEndSkips(s, ws[..|ws| - 1]);
    }
  }

  /** Trimming is exactly the removal of surrounding white space. */
  lemma TrimOf(before: string, s: string, after: string)
    requires AllSpace(before) && AllSpace(after)
    requires s == [] || (!IsSpace(s[0]) && !IsSpace(s[|s| - 1]))
    ensures Trim(before + s + after) == s
  {
    assert before + s + after == before + (s + after);
    TrimStartSkips(before, s + after);
    if s == [] {
      TrimStartSkips(after, []);
      assert after + [] == after && s + after == after;
    } else {
      assert (s + after)[0] == s[0];
      TrimEndSkips(s, after);
    }
  }

  /** Any text is white space around its trimmed core. */
  lemma TrimParts(s: string) returns (before: string, after: string)
    ensures AllSpace(before) && AllSpace(after) && s == before + Trim(s) + after
    ensures Trim(s) != [] ==> !IsSpace(Trim(s)[0]) && !IsSpace(Trim(s)[|Trim(s)| - 1])
    ensures Trim(s) == [] <==> AllSpace(s)
  {
    TrimStartShortens(s);
    TrimEndShortens(TrimStart(s));
    before, after := s[..|s| - |TrimStart(s)|], TrimStart(s)[|Trim(s)|..];
    if Trim(s) != [] {
      assert Trim(s)[0] == TrimStart(s)[0] == s[|before|];
    } else {
      assert s == before + after;
    }
  }

  /** Where `p` first occurs in `s`. */
  function Find(s: string, p: string): (at: Option<nat>)
    ensures at.Some? ==> at.value + |p| <= |s| && s[at.value..at.value + |p|] == p
  {
    if p <= s then Some(0)
    else if s == [] then None
    else
      match Find(s[1..], p)
      case None => None
      case Some(at) => Some(at + 1)
  }

  lemma {:induction false} FindIsFirst(s: string, p: string, i: nat)
    requires i <= |s| && p <= s[i..]
    ensures Find(s, p).Some? && Find(s, p).value <= i
  {
    if !(p <= s) {
      assert i > 0 && s[1..][i - 1..] == s[i..];
      FindIsFirst(s[1..], p, i - 1);
    }
  }

  /** A pattern is not found when no place in the text starts it. */
  lemma {:induction false} FindNothing(s: string, p: string)
    requires p != [] && forall i | 0 <= i < |s| && s[i] == p[0] :: !(p <= s[i..])
    ensures Find(s, p).None?
  {
    assert s[0..] == s;
    if s != [] {
      assert forall i | 0 <= i < |s| - 1 :: s[1..][i..] == s[i + 1..];
      FindNothing(s[1..], p);
    }
  }

  /** A pattern is not found in a text that lacks one of its characters. */
  lemma {:induction false} FindAbsent(s: string, p: string, c: char)
    requires c in p && c !in s
    ensures Find(s, p).None?
  {
    if s != [] {
      FindAbsent(s[1..], p, c);
    }
  }

  predicate Contains(s: string, p: string) {
    Find(s, p).Some?
  }

  /** `p` stands somewhere in `s`. */
  predicate Holds(s: string, p: string) {
    exists k :: 0 <= k <= |s| && p <= s[k..]
  }

  lemma ContainsIs(s: string, p: string)
    ensures Contains(s, p) <==> Holds(s, p)
  {
    if k :| 0 <= k <= |s| && p <= s[k..] {
      FindIsFirst(s, p, k);
    }
    if Contains(s, p) {
      assert p <= s[Find(s, p).value..];
    }
  }

  function SplitOnce(s: string, p: string): Option<(string, string)> {
    match Find(s, p)
    case None => None
    case Some(at) => Some((s[..at], s[at + |p|..]))
  }

  /** `split` at every occurrence of a non-empty pattern. */
  function SplitOn(s: string, p: string): (parts: seq<string>)
    requires p != []
    ensures parts != []
    decreases |s|
  {
    match Find(s, p)
    case None => [s]
    case Some(at) => [s[..at]] + SplitOn(s[at + |p|..], p)
  }

  function Join(parts: seq<string>, glue: string): string {
    if parts == [] then [] else if |parts| == 1 then parts[0] else parts[0] + glue + Join(parts[1..], glue)
  }

  function Replace(s: string, p: string, filler: string): string
    requires p != []
  {
    Join(SplitOn(s, p), filler)
  }

  function StripCr(s: string): string {
    if s != [] && s[|s| - 1] == '\r' then s[..|s| - 1] else s
  }

  /** `lines`: split at line feeds, each with an optional carriage return before it; no empty last line. */
  function Lines(s: string): seq<string>
    decreases |s|
  {
    if s == [] then []
    else
      match Find(s, "\n")
      case None => [s]
      case Some(at) => [StripCr(s[..at])] + Lines(s[at + 1..])
  }

  /** What follows the last `c`: the first item of `rsplit(c)`. */
  function AfterLast(s: string, c: char): string {
    if s == [] || s[|s| - 1] == c then [] else AfterLast(s[..|s| - 1], c) + [s[|s| - 1]]
  }

  lemma {:induction false} AfterLastOf(front: string, c: char, last: string)
    requires c !in last
    ensures AfterLast(last, c) == last && AfterLast(front + [c] + last, c) == last
  {
    var s := front + [c] + last;
    if last != [] {
      var n := |last| - 1;
      assert s[..|s| - 1] == front + [c] + last[..n] && s[|s| - 1] == last[n];
      AfterLastOf(front, c, last[..n]);
      assert last == last[..n] + [last[n]];
    }
  }

  lemma FirstLine(line: string, rest: string)
    requires '\n' !in line
    ensures Lines(line + "\n" + rest) == [StripCr(line)] + Lines(rest)
  {
    var s := line + "\n" + rest;
    FindChar(line, '\n', rest);
    assert s[..|line|] == line && s[|line| + 1..] == rest;
  }

  /** A line ends at a line feed, with or without one carriage return before it; the last needs no ending, and a
      carriage return at its end is its own. */
  lemma LinesAreCut(line: string, rest: string)
    requires '\n' !in line
    ensures Lines(line + "\r" + "\n" + rest) == [line] + Lines(rest)
    ensures (line == [] || line[|line| - 1] != '\r') ==> Lines(line + "\n" + rest) == [line] + Lines(rest)
    ensures Lines(line) == if line == [] then [] else [line]
  {
    var ended := line + "\r";
    FirstLine(ended, rest);
    assert ended[..|line|] == line;
    FirstLine(line, rest);
    FindAbsent(line, "\n", '\n');
  }

  predicate IsQuote(c: char) {
    c == '\'' || c == '"'
  }

  /** Whether a quote is open after a character. */
  function AfterQuote(quote: Option<char>, c: char): Option<char> {
    if quote.Some? then (if c == quote.value then None else quote)
    else if IsQuote(c) then Some(c)
    else None
  }

  /** Either mark opens a quotation, and that mark alone closes it. */
  lemma QuotesAre(c: char)
    ensures AfterQuote(None, c) == if c == '\'' then Some('\'') else if c == '"' then Some('"') else None
    ensures AfterQuote(Some('\''), c) == if c == '\'' then None else Some('\'')
    ensures AfterQuote(Some('"'), c) == if c == '"' then None else Some('"')
  {
  }

  function LowerChar(c: char): char {
    if 'A' <= c <= 'Z' then ((c as int) + 32) as char else c
  }

  /** `to_ascii_lowercase`. */
  function Lower(s: string): (r: string)
    ensures |r| == |s| && forall i | 0 <= i < |s| :: r[i] == LowerChar(s[i])
  {
    seq(|s|, i requires 0 <= i < |s| => LowerChar(s[i]))
  }

  /** The number of bytes a character takes in UTF-8. */
  function CharLen(c: char): nat {
    var n := c as int;
    if n < 0x80 then 1 else if n < 0x800 then 2 else if n < 0x1_0000 then 3 else 4
  }

  function ByteLen(s: string): nat {
    if s == [] then 0 else CharLen(s[0]) + ByteLen(s[1..])
  }

  predicate Ascii(s: string) {
    forall i | 0 <= i < |s| :: s[i] < '\U{80}'
  }

  lemma {:induction false} AsciiByteLen(s: string)
    requires Ascii(s)
    ensures ByteLen(s) == |s|
  {
    if s != [] {
      AsciiByteLen(s[1..]);
    }
  }

  lemma {:induction false} ByteLenConcat(a: string, b: string)
    ensures ByteLen(a + b) == ByteLen(a) + ByteLen(b)
  {
    if a == [] {
      assert a + b == b;
    } else {
      assert (a + b)[1..] == a[1..] + b;
      ByteLenConcat(a[1..], b);
    }
  }

  // ---------------------------------------------------------------- words in context

  lemma {:induction false} WordLengthOf(word: string, rest: string)
    requires NoSpace(word) && (rest == [] || IsSpace(rest[0]))
    ensures WordLength(word + rest) == |word|
  {
    if word == [] {
      assert word + rest == rest;
    } else {
      assert (word + rest)[1..] == word[1..] + rest;
      WordLengthOf(word[1..], rest);
    }
  }

  /** White space, then a word that ends at white space or at the end. */
  lemma {:induction false} FirstWord(gap: string, word: string, rest: string)
    requires AllSpace(gap) && NoSpace(word) && word != []
    requires rest == [] || IsSpace(rest[0])
    ensures Words(gap + word + rest) == [word] + Words(rest)
  {
    var t := word + rest;
    assert gap + word + rest == gap + t && t[0] == word[0];
    TrimStartSkips(gap, t);
    assert TrimStart(t) == t;
    WordLengthOf(word, rest);
    assert t[..|word|] == word && t[|word|..] == rest;
  }

  lemma NoWords(gap: string)
    requires AllSpace(gap)
    ensures Words(gap) == []
  {
    TrimStartSkips(gap, []);
    assert gap + [] == gap;
  }

  /** Any text is white space, or white space, its first word, and the rest. */
  lemma WordsParts(s: string) returns (gap: string, rest: string)
    ensures AllSpace(gap) && (rest == [] || IsSpace(rest[0]))
    ensures Words(s) == [] ==> s == gap && rest == []
    ensures Words(s) != [] ==>
              var word := Words(s)[0];
              s == gap + word + rest && Words(s)[1..] == Words(rest) && word != [] && NoSpace(word)
  {
    TrimStartShortens(s);
    var t := TrimStart(s);
    gap := s[..|s| - |t|];
    if t == [] {
      rest := [];
    } else {
      var n := WordLength(t);
      rest := t[n..];
      assert s == gap + t && t == t[..n] + rest;
    }
  }

  lemma WordsSkip(gap: string, s: string)
    requires AllSpace(gap)
    ensures Words(gap + s) == Words(s)
  {
    TrimStartSkips(gap, s);
  }

  /** Text that starts at white space, or is empty, adds its own words to those before it. */
  lemma {:induction false} WordsConcat(a: string, b: string)
    requires b == [] || IsSpace(b[0])
    ensures Words(a + b) == Words(a) + Words(b)
    decreases |a|
  {
    var gap, rest := WordsParts(a);
    if Words(a) == [] {
      WordsSkip(gap, b);
    } else {
      var word := Words(a)[0];
      Reassociate(gap + word, rest, b);
      FirstWord(gap, word, rest + b);
      WordsConcat(rest, b);
      Reassociate([word], Words(rest), Words(b));
      assert Words(a) == [word] + Words(rest);
    }
  }

  lemma Reassociate<T>(a: seq<T>, b: seq<T>, c: seq<T>)
    ensures a + (b + c) == a + b + c
  {
  }

  /** `f` of every element, in order. */
  function Mapped<T, U>(f: T -> U, s: seq<T>): seq<U> {
    seq(|s|, i requires 0 <= i < |s| => f(s[i]))
  }

  lemma MappedConcat<T, U>(f: T -> U, a: seq<T>, b: seq<T>)
    ensures Mapped(f, a + b) == Mapped(f, a) + Mapped(f, b)
  {
  }

  lemma WordsTrim(s: string)
    ensures Words(Trim(s)) == Words(s)
  {
    var before, after := TrimParts(s);
    assert s == before + (Trim(s) + after);
    WordsSkip(before, Trim(s) + after);
    WordsConcat(Trim(s), after);
    NoWords(after);
  }

  // ---------------------------------------------------------------- splitting and joining

  lemma {:induction false} JoinUndoesSplit(s: string, p: string)
    requires p != []
    ensures Join(SplitOn(s, p), p) == s
    decreases |s|
  {
    match Find(s, p)
    case None =>
    case Some(at) =>
      var rest := s[at + |p|..];
      JoinUndoesSplit(rest, p);
      assert ([s[..at]] + SplitOn(rest, p))[1..] == SplitOn(rest, p);
      assert s == s[..at] + p + rest;
  }

  /** The first occurrence of one character. */
  lemma {:induction false} FindChar(s: string, c: char, rest: string)
    requires c !in s
    ensures Find(s + [c] + rest, [c]) == Some(|s|)
  {
    var t := s + [c] + rest;
    if s != [] {
      assert t[1..] == s[1..] + [c] + rest && t[0] == s[0];
      FindChar(s[1..], c, rest);
    }
  }

  lemma {:induction false} SplitAtChar(s: string, c: char, rest: string)
    requires c !in s
    ensures SplitOn(s + [c] + rest, [c]) == [s] + SplitOn(rest, [c])
    ensures SplitOnce(s + [c] + rest, [c]) == Some((s, rest))
  {
    FindChar(s, c, rest);
    var t := s + [c] + rest;
    assert t[..|s|] == s && t[|s| + 1..] == rest;
  }

  lemma SplitAtNoChar(s: string, c: char)
    requires c !in s
    ensures SplitOn(s, [c]) == [s] && SplitOnce(s, [c]) == None
  {
    FindAbsent(s, [c], c);
  }

  /** A pattern that never starts inside itself is first found after a text that does not hold it. */
  lemma {:induction false} FindAfter(s: string, p: string, rest: string)
    requires p != [] && p <= rest && Find(s, p).None?
    requires forall k | 1 <= k < |p| :: p[k] != p[0]
    ensures Find(s + rest, p) == Some(|s|)
  {
    if s == [] {
      assert s + rest == rest;
    } else {
      var t := s + rest;
      assert t[1..] == s[1..] + rest;
      if |s| < |p| {
        assert t[|s|] == rest[0] == p[0] && p[|s|] != p[0];
      } else {
        assert t[..|p|] == s[..|p|];
      }
      FindAfter(s[1..], p, rest);
    }
  }

  lemma CutAfter(s: string, p: string, rest: string)
    requires p != [] && Find(s, p).None?
    requires forall k | 1 <= k < |p| :: p[k] != p[0]
    ensures SplitOnce(s + (p + rest), p) == Some((s, rest))
  {
    var tail := p + rest;
    FindAfter(s, p, tail);
    var whole := s + tail;
    assert whole[..|s|] == s && whole[|s|..] == tail && tail[|p|..] == rest;
    assert whole[|s| + |p|..] == whole[|s|..][|p|..];
  }

  /** Any text lacks a character, or is cut at its first occurrence. */
  lemma {:induction false} CutAtChar(s: string, c: char) returns (first: string, rest: string)
    ensures c !in first
    ensures c in s ==> s == first + [c] + rest
    ensures c !in s ==> s == first
  {
    if s == [] || s[0] == c {
      first, rest := [], if s == [] then [] else s[1..];
      assert s != [] ==> s == first + [c] + rest;
    } else {
      first, rest := CutAtChar(s[1..], c);
      first := [s[0]] + first;
      assert s == [s[0]] + s[1..];
    }
  }

  // ---------------------------------------------------------------- case

  /** `lowered` is `s` with each of its letters `A` to `Z` 32 places on, and nothing else changed. */
  predicate IsLowered(s: string, lowered: string) {
    && |lowered| == |s|
    && forall i | 0 <= i < |s| ::
         if 'A' <= s[i] <= 'Z' then lowered[i] as int == s[i] as int + 32 else lowered[i] == s[i]
  }

  /** The same text, but for the case of its letters. */
  predicate SameLetters(a: string, b: string) {
    |a| == |b| && forall i | 0 <= i < |a| :: IsSameLetter(a[i], b[i])
  }

  predicate IsSameLetter(c: char, d: char) {
    c == d || ('A' <= c <= 'Z' && d as int == c as int + 32) || ('A' <= d <= 'Z' && c as int == d as int + 32)
  }

  lemma LowerIsLowered(s: string)
    ensures IsLowered(s, Lower(s))
    ensures forall t | IsLowered(s, t) :: t == Lower(s)
  {
  }

  lemma SameLettersLower(a: string, b: string)
    ensures SameLetters(a, b) <==> Lower(a) == Lower(b)
  {
    if SameLetters(a, b) {
      assert forall i | 0 <= i < |a| :: IsSameLetter(a[i], b[i]) ==> Lower(a)[i] == Lower(b)[i];
    }
    if Lower(a) == Lower(b) {
      assert |a| == |Lower(a)| == |b|;
      forall i | 0 <= i < |a| ensures IsSameLetter(a[i], b[i]) {
        assert Lower(a)[i] == Lower(b)[i];
      }
    }
  }

  lemma LowerConcat(a: string, b: string)
    ensures Lower(a + b) == Lower(a) + Lower(b)
  {
  }

  lemma LowerTwice(s: string)
    ensures Lower(Lower(s)) == Lower(s)
  {
  }

  lemma {:induction false} LowerByteLen(s: string)
    ensures ByteLen(Lower(s)) == ByteLen(s)
  {
    if s != [] {
      assert Lower(s)[1..] == Lower(s[1..]);
      LowerByteLen(s[1..]);
    }
  }

  lemma LowerKeepsSpace(s: string)
    ensures AllSpace(Lower(s)) == AllSpace(s) && NoSpace(Lower(s)) == NoSpace(s)
    ensures forall i | 0 <= i < |s| :: IsSpace(Lower(s)[i]) == IsSpace(s[i])
  {
    assert forall i | 0 <= i < |s| :: IsSpace(Lower(s)[i]) == IsSpace(s[i]);
  }

  /** Lower case and trimming commute. */
  lemma LowerTrim(s: string)
    ensures Trim(Lower(s)) == Lower(Trim(s))
  {
    var before, after := TrimParts(s);
    var core := Trim(s);
    LowerKeepsSpace(before);
    LowerKeepsSpace(after);
    LowerKeepsSpace(core);
    LowerConcat(before + core, after);
    LowerConcat(before, core);
    TrimOf(Lower(before), Lower(core), Lower(after));
  }

  function LowerAll(parts: seq<string>): seq<string> {
    seq(|parts|, i requires 0 <= i < |parts| => Lower(parts[i]))
  }

  lemma LowerAllCons(first: string, rest: seq<string>)
    ensures LowerAll([first] + rest) == [Lower(first)] + LowerAll(rest)
  {
  }

  lemma {:induction false} LowerWords(s: string)
    ensures Words(Lower(s)) == LowerAll(Words(s))
    decreases |s|
  {
    var gap, rest := WordsParts(s);
    LowerKeepsSpace(gap);
    if Words(s) == [] {
      NoWords(Lower(s));
    } else {
      var word := Words(s)[0];
      LowerKeepsSpace(word);
      LowerKeepsSpace(rest);
      LowerConcat(gap + word, rest);
      LowerConcat(gap, word);
      FirstWord(Lower(gap), Lower(word), Lower(rest));
      LowerWords(rest);
      assert Words(s) == [word] + Words(rest);
      LowerAllCons(word, Words(rest));
    }
  }

  /** Lower case and splitting at a character that has none commute. */
  lemma {:induction false} LowerSplit(s: string, c: char)
    requires !('A' <= c <= 'Z') && !('a' <= c <= 'z')
    ensures SplitOn(Lower(s), [c]) == LowerAll(SplitOn(s, [c]))
    ensures SplitOnce(Lower(s), [c]) ==
            match SplitOnce(s, [c]) case None => None case Some((a, b)) => Some((Lower(a), Lower(b)))
    decreases |s|
  {
    var first, rest := CutAtChar(s, c);
    LowerKeepsAbsent(first, c);
    if c in s {
      LowerCut(first, c, rest);
      SplitAtChar(first, c, rest);
      SplitAtChar(Lower(first), c, Lower(rest));
      LowerSplit(rest, c);
      LowerAllCons(first, SplitOn(rest, [c]));
    } else {
      SplitAtNoChar(s, c);
      SplitAtNoChar(Lower(s), c);
    }
  }

  lemma LowerCut(first: string, c: char, rest: string)
    requires !('A' <= c <= 'Z')
    ensures Lower(first + [c] + rest) == Lower(first) + [c] + Lower(rest)
  {
  }

  lemma LowerKeepsAbsent(s: string, c: char)
    requires !('A' <= c <= 'Z') && !('a' <= c <= 'z') && c !in s
    ensures c !in Lower(s)
  {
    assert forall i | 0 <= i < |s| :: Lower(s)[i] != c;
  }
}
