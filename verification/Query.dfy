/** The query line parser (src/query.rs), a variant of the query grammar in section 2.3 of RFC 1288. */
module Query {
  import opened Wrappers
  import opened Text
  import opened Identity

  datatype FingerQuery = FingerQuery(username: string, host: Option<string>, verbose: bool)

  datatype QueryError =
    | MissingCrlf
    | ControlCharacter
    | MissingUsername
    | UnknownOption
    | TrailingInput
    | InvalidUsername(reason: IdentityError)
    | InvalidHostname(reason: IdentityError)
    | InvalidEncoding

  /** A line as received: bytes that are not UTF-8, or text. */
  datatype Wire = NotUtf8 | Decoded(text: string)

  const CRLF: string := "\r\n"

  // ---------------------------------------------------------------- parsing, as a function

  predicate IsEmbeddedControl(c: char) {
    c < ' ' && c != '\r' && c != '\n'
  }

  predicate NoControls(s: string) {
    forall i | 0 <= i < |s| :: !IsEmbeddedControl(s[i])
  }

  function ValidateInput(wire: Wire): Result<string, QueryError> {
    match wire
    case NotUtf8 => Err(InvalidEncoding)
    case Decoded(raw) =>
      if |raw| < 2 || raw[|raw| - 2..] != CRLF then Err(MissingCrlf)
      else if !NoControls(raw[..|raw| - 2]) then Err(ControlCharacter)
      else Ok(raw[..|raw| - 2])
  }

  predicate IsVerboseFlag(token: string) {
    token == "/W" || token == "/w"
  }

  function EnsureValid(token: string): Result<string, QueryError> {
    if token == [] then Err(MissingUsername) else if "/" <= token then Err(UnknownOption) else Ok(token)
  }

  /** The first fragment after an `@`. */
  function FirstFragment(fragments: string): string {
    match SplitOnce(fragments, "@")
    case None => fragments
    case Some((first, _)) => first
  }

  function ParseHost(fragments: Option<string>): Result<Option<string>, QueryError> {
    match fragments
    case None => Ok(None)
    case Some(f) =>
      if FirstFragment(f) == [] then Ok(None)
      else
        match ParseHostname(FirstFragment(f))
        case Err(e) => Err(InvalidHostname(e))
        case Ok(h) => Ok(Some(h))
  }

  function ParseUserHost(token: string): Result<(string, Option<string>), QueryError> {
    var (user, fragments) := match SplitOnce(token, "@") case None => (token, None) case Some((u, f)) => (u, Some(f));
    if user == [] then Err(MissingUsername)
    else
      match ParseUsername(user)
      case Err(e) => Err(InvalidUsername(e))
      case Ok(username) =>
        match ParseHost(fragments)
        case Err(e) => Err(e)
        case Ok(host) => Ok((username, host))
  }

  /** The verbose flag and the token after it, if the flag leads. */
  function ParseFlag(tokens: seq<string>): Result<(bool, string, seq<string>), QueryError> {
    if tokens == [] then Err(MissingUsername)
    else
      var flag := IsVerboseFlag(tokens[0]);
      var rest := if flag then tokens[1..] else tokens;
      if rest == [] then Err(MissingUsername)
      else
        match EnsureValid(rest[0])
        case Err(e) => Err(e)
        case Ok(token) => Ok((flag, token, rest[1..]))
  }

  function ParseTokens(tokens: seq<string>): Result<FingerQuery, QueryError> {
    match ParseFlag(tokens)
    case Err(e) => Err(e)
    case Ok((verbose, token, rest)) =>
      if rest != [] then Err(TrailingInput)
      else
        match ParseUserHost(token)
        case Err(e) => Err(e)
        case Ok((username, host)) => Ok(FingerQuery(username, host, verbose))
  }

  function Parsed(wire: Wire): Result<FingerQuery, QueryError> {
    match ValidateInput(wire)
    case Err(e) => Err(e)
    case Ok(raw) => ParseTokens(Words(raw))
  }

  // ---------------------------------------------------------------- parsing, over a shared token iterator

  /** The iterator of white-space separated tokens that the parser and its flag reader advance. */
  class Tokens {
    var rest: seq<string>

    constructor (raw: string)
      ensures rest == Words(raw)
    {
      rest := Words(raw);
    }

    method Next() returns (token: Option<string>)
      modifies this
      ensures old(rest) == [] ==> token == None && rest == []
      ensures old(rest) != [] ==> token == Some(old(rest)[0]) && rest == old(rest)[1..]
    {
      if rest == [] {
        return None;
      }
      token := Some(rest[0]);
      rest := rest[1..];
    }
  }

  method ParseVerboseFlag(tokens: Tokens, first: string) returns (r: Result<(bool, string), QueryError>)
    modifies tokens
    ensures match ParseFlag([first] + old(tokens.rest))
            case Err(e) => r == Err(e)
            case Ok((verbose, token, rest)) => r == Ok((verbose, token)) && tokens.rest == rest
  {
    assert ([first] + tokens.rest)[1..] == tokens.rest;
    if IsVerboseFlag(first) {
      var next := tokens.Next();
      if next.None? {
        return Err(MissingUsername);
      }
      var token := EnsureValid(next.value);
      if token.Err? {
        return Err(token.error);
      }
      return Ok((true, token.value));
    }
    var token := EnsureValid(first);
    if token.Err? {
      return Err(token.error);
    }
    return Ok((false, token.value));
  }

  method Parse(wire: Wire) returns (r: Result<FingerQuery, QueryError>)
    ensures r == Parsed(wire)
  {
    var raw := ValidateInput(wire);
    if raw.Err? {
      return Err(raw.error);
    }
    var tokens := new Tokens(raw.value);
    var first := tokens.Next();
    if first.None? {
      return Err(MissingUsername);
    }
    assert Words(raw.value) == [first.value] + tokens.rest;
    var flagged := ParseVerboseFlag(tokens, first.value);
    if flagged.Err? {
      return Err(flagged.error);
    }
    var extra := tokens.Next();
    if extra.Some? {
      return Err(TrailingInput);
    }
    var names := ParseUserHost(flagged.value.1);
    if names.Err? {
      return Err(names.error);
    }
    return Ok(FingerQuery(names.value.0, names.value.1, flagged.value.0));
  }

  // ---------------------------------------------------------------- the grammar

  /** The parts of an acceptable line: white space, a flag with white space after it, a user, fragments each after an
      `@`, white space. */
  datatype Shape = Shape(
    before: string,
    flag: Option<Flag>,
    user: string,
    fragment: Option<Fragment>,
    after: string)

  datatype Flag = Flag(text: string, gap: string)

  /** The first fragment, and what follows it, which is ignored. */
  datatype Fragment = Fragment(host: string, ignored: Option<string>)

  predicate IsBlank(s: string) {
    AllSpace(s) && NoControls(s)
  }

  /** Fit to stand inside a token. */
  predicate IsInner(s: string) {
    NoSpace(s) && NoControls(s)
  }

  predicate IsFragment(fragment: Fragment) {
    && (fragment.host == [] || IsHostname(fragment.host))
    && (fragment.ignored.Some? ==> IsInner(fragment.ignored.value))
  }

  predicate IsFlag(flag: Flag) {
    (flag.text == "/W" || flag.text == "/w") && IsBlank(flag.gap) && flag.gap != []
  }

  predicate IsShape(shape: Shape) {
    && IsBlank(shape.before) && IsBlank(shape.after)
    && (shape.flag.Some? ==> IsFlag(shape.flag.value))
    && IsUsername(shape.user)
    && (shape.fragment.Some? ==> IsFragment(shape.fragment.value))
  }

  function SpelledFragments(fragment: Fragment): string {
    fragment.host + if fragment.ignored.Some? then "@" + fragment.ignored.value else []
  }

  function SpelledNames(user: string, fragment: Option<Fragment>): string {
    match fragment
    case None => user
    case Some(f) => user + "@" + SpelledFragments(f)
  }

  function SpelledToken(shape: Shape): string {
    SpelledNames(shape.user, shape.fragment)
  }

  function Spelled(shape: Shape): string {
    shape.before
    + (if shape.flag.Some? then shape.flag.value.text + shape.flag.value.gap else [])
    + SpelledToken(shape) + shape.after
  }

  function Meaning(shape: Shape): FingerQuery {
    FingerQuery(
      Lower(shape.user),
      if shape.fragment.Some? && shape.fragment.value.host != [] then Some(Lower(shape.fragment.value.host)) else None,
      shape.flag.Some?)
  }

  /** The query that a shape means: its names with their letters lowered, no host for an empty fragment, and verbose
      exactly with the flag. */
  predicate Means(shape: Shape, q: FingerQuery) {
    && IsLowered(shape.user, q.username)
    && (q.host.Some? <==> shape.fragment.Some? && shape.fragment.value.host != [])
    && (q.host.Some? ==> IsLowered(shape.fragment.value.host, q.host.value))
    && (q.verbose <==> shape.flag.Some?)
  }

  lemma MeaningIsMeant(shape: Shape, q: FingerQuery)
    ensures Means(shape, q) <==> q == Meaning(shape)
  {
    LowerIsLowered(shape.user);
    if shape.fragment.Some? {
      LowerIsLowered(shape.fragment.value.host);
    }
  }

  lemma UserCharsAreInner(s: string)
    requires forall i | 0 <= i < |s| :: IsUserChar(s[i]) || s[i] == '.'
    ensures '@' !in s && IsInner(s) && !("/" <= s)
  {
    assert s != [] ==> s[0] != '/';
  }

  lemma HostCharsAreInner(s: string)
    requires s == [] || IsHostname(s)
    ensures '@' !in s && IsInner(s)
  {
    if s != [] {
      assert forall i | 0 <= i < |s| :: IsUserChar(s[i]) || s[i] == '.';
      UserCharsAreInner(s);
    }
  }

  lemma NoControlsConcat(a: string, b: string)
    ensures NoControls(a + b) <==> NoControls(a) && NoControls(b)
  {
    assert forall i | 0 <= i < |a| :: (a + b)[i] == a[i];
    assert forall i | 0 <= i < |b| :: (a + b)[|a| + i] == b[i];
  }

  lemma InnerConcat(a: string, b: string)
    ensures IsInner(a + b) <==> IsInner(a) && IsInner(b)
  {
    NoControlsConcat(a, b);
    assert forall i | 0 <= i < |a| :: (a + b)[i] == a[i];
    assert forall i | 0 <= i < |b| :: (a + b)[|a| + i] == b[i];
  }

  lemma InnerAround(a: string, b: string)
    ensures IsInner(a + "@" + b) <==> IsInner(a) && IsInner(b)
  {
    InnerConcat(a + "@", b);
    InnerConcat(a, "@");
  }

  // ---- completeness: a line of the grammar parses to its meaning

  lemma HostParses(host: string)
    requires IsHostname(host)
    ensures ParseHostname(host) == Ok(Lower(host))
  {
    HostCharsAreInner(host);
    TrimOfSolid(host);
    HostnamesAreExact(host);
  }

  lemma FirstFragmentOf(fragment: Fragment)
    requires '@' !in fragment.host
    ensures FirstFragment(SpelledFragments(fragment)) == fragment.host
  {
    if fragment.ignored.Some? {
      assert SpelledFragments(fragment) == fragment.host + "@" + fragment.ignored.value;
      SplitAtChar(fragment.host, '@', fragment.ignored.value);
    } else {
      assert SpelledFragments(fragment) == fragment.host;
      SplitAtNoChar(fragment.host, '@');
    }
  }

  lemma FragmentsAreInner(fragment: Fragment)
    requires IsFragment(fragment)
    ensures IsInner(SpelledFragments(fragment)) && '@' !in fragment.host
  {
    HostCharsAreInner(fragment.host);
    if fragment.ignored.Some? {
      Reassociate(fragment.host, "@", fragment.ignored.value);
      InnerAround(fragment.host, fragment.ignored.value);
    } else {
      assert SpelledFragments(fragment) == fragment.host;
    }
  }

  lemma FragmentParses(fragment: Fragment)
    requires IsFragment(fragment)
    ensures ParseHost(Some(SpelledFragments(fragment)))
            == Ok(if fragment.host == [] then None else Some(Lower(fragment.host)))
    ensures IsInner(SpelledFragments(fragment))
  {
    FragmentsAreInner(fragment);
    FirstFragmentOf(fragment);
    if fragment.host != [] {
      HostParses(fragment.host);
    }
  }

  lemma TokenParses(shape: Shape)
    requires IsShape(shape)
    ensures ParseUserHost(SpelledToken(shape)) == Ok((Meaning(shape).username, Meaning(shape).host))
    ensures SpelledToken(shape) != [] && IsInner(SpelledToken(shape)) && !("/" <= SpelledToken(shape))
  {
    var user := shape.user;
    UserCharsAreInner(user);
    TrimOfSolid(user);
    UsernamesAreExact(user);
    if shape.fragment.Some? {
      var fragments := SpelledFragments(shape.fragment.value);
      assert SpelledToken(shape) == user + "@" + fragments;
      SplitAtChar(user, '@', fragments);
      FragmentParses(shape.fragment.value);
      InnerAround(user, fragments);
      assert SpelledToken(shape)[0] == user[0];
    } else {
      assert SpelledToken(shape) == user;
      SplitAtNoChar(user, '@');
    }
  }

  lemma PlainWords(before: string, token: string, after: string)
    requires AllSpace(before) && AllSpace(after) && NoSpace(token) && token != []
    ensures Words(before + token + after) == [token]
  {
    FirstWord(before, token, after);
    NoWords(after);
  }

  lemma {:induction false} FlaggedWords(before: string, text: string, gap: string, token: string, after: string)
    requires AllSpace(before) && AllSpace(after) && AllSpace(gap) && gap != []
    requires NoSpace(token) && token != [] && NoSpace(text) && text != []
    ensures Words(before + (text + gap) + token + after) == [text, token]
  {
    var rest := gap + token + after;
    PlainWords(gap, token, after);
    assert rest[0] == gap[0];
    FirstWord(before, text, rest);
    Regroup(before, text, gap, token, after);
  }

  lemma Regroup(a: string, b: string, c: string, d: string, e: string)
    ensures a + (b + c) + d + e == a + b + (c + d + e)
  {
    assert a + (b + c) == a + b + c;
    assert a + b + c + d + e == a + b + (c + d + e);
  }

  lemma NoControlsOfFour(a: string, b: string, c: string, d: string)
    ensures NoControls(a + b + c + d) <==> NoControls(a) && NoControls(b) && NoControls(c) && NoControls(d)
  {
    NoControlsConcat(a + b + c, d);
    NoControlsConcat(a + b, c);
    NoControlsConcat(a, b);
  }

  lemma SpelledWords(shape: Shape)
    requires IsShape(shape)
    ensures Words(Spelled(shape))
            == if shape.flag.Some? then [shape.flag.value.text, SpelledToken(shape)] else [SpelledToken(shape)]
    ensures NoControls(Spelled(shape))
  {
    var token := SpelledToken(shape);
    TokenParses(shape);
    if shape.flag.Some? {
      var Flag(text, gap) := shape.flag.value;
      FlaggedWords(shape.before, text, gap, token, shape.after);
      NoControlsConcat(text, gap);
      NoControlsOfFour(shape.before, text + gap, token, shape.after);
    } else {
      PlainWords(shape.before, token, shape.after);
      assert shape.before + [] == shape.before;
      NoControlsOfFour(shape.before, [], token, shape.after);
    }
  }

  lemma GrammarIsAccepted(shape: Shape)
    requires IsShape(shape)
    ensures Parsed(Decoded(Spelled(shape) + CRLF)) == Ok(Meaning(shape))
  {
    SpelledWords(shape);
    TokenParses(shape);
    var raw, token := Spelled(shape) + CRLF, SpelledToken(shape);
    assert raw[|raw| - 2..] == CRLF && raw[..|raw| - 2] == Spelled(shape);
    var tokens := Words(Spelled(shape));
    if shape.flag.Some? {
      assert tokens[1..] == [token];
    } else {
      assert IsVerboseFlag(token) ==> "/" <= token;
    }
    assert [token][1..] == [];
  }

  // ---- soundness: a line that parses is of the grammar

  lemma ParsedHostIsValid(host: string)
    requires NoSpace(host) && ParseHostname(host).Ok?
    ensures IsHostname(host)
  {
    TrimOfSolid(host);
    HostnamesAreExact(host);
  }

  lemma FirstFragmentIsValid(fragments: string)
    requires ParseHost(Some(fragments)).Ok? && NoSpace(FirstFragment(fragments))
    ensures FirstFragment(fragments) == [] || IsHostname(FirstFragment(fragments))
  {
    if FirstFragment(fragments) != [] {
      ParsedHostIsValid(FirstFragment(fragments));
    }
  }

  lemma CutFragments(fragments: string) returns (fragment: Fragment)
    requires IsInner(fragments)
    ensures SpelledFragments(fragment) == fragments && '@' !in fragment.host && IsInner(fragment.host)
    ensures fragment.ignored.Some? ==> IsInner(fragment.ignored.value)
  {
    var first, rest := CutAtChar(fragments, '@');
    if '@' in fragments {
      fragment := Fragment(first, Some(rest));
      assert SpelledFragments(fragment) == first + "@" + rest;
      InnerAround(first, rest);
    } else {
      fragment := Fragment(first, None);
      assert SpelledFragments(fragment) == fragments;
    }
  }

  lemma FragmentOf(fragments: string) returns (fragment: Fragment)
    requires ParseHost(Some(fragments)).Ok? && IsInner(fragments)
    ensures SpelledFragments(fragment) == fragments && IsFragment(fragment)
  {
    fragment := CutFragments(fragments);
    FirstFragmentOf(fragment);
    FirstFragmentIsValid(fragments);
  }

  lemma ParsedUserIsValid(user: string)
    requires NoSpace(user) && ParseUsername(user).Ok?
    ensures IsUsername(user)
  {
    TrimOfSolid(user);
    UsernamesAreExact(user);
  }

  lemma PlainTokenIsValid(user: string)
    requires '@' !in user && ParseUserHost(user).Ok? && NoSpace(user)
    ensures IsUsername(user)
  {
    SplitAtNoChar(user, '@');
    ParsedUserIsValid(user);
  }

  lemma HostedTokenIsValid(user: string, fragments: string)
    requires '@' !in user && ParseUserHost(user + "@" + fragments).Ok? && NoSpace(user)
    ensures IsUsername(user) && ParseHost(Some(fragments)).Ok?
  {
    SplitAtChar(user, '@', fragments);
    ParsedUserIsValid(user);
  }

  lemma TokenOf(token: string) returns (user: string, fragment: Option<Fragment>)
    requires ParseUserHost(token).Ok? && IsInner(token)
    ensures IsUsername(user) && (fragment.Some? ==> IsFragment(fragment.value))
    ensures SpelledNames(user, fragment) == token
  {
    var rest;
    user, rest := CutAtChar(token, '@');
    if '@' in token {
      assert token == user + "@" + rest;
      InnerAround(user, rest);
      HostedTokenIsValid(user, rest);
      var f := FragmentOf(rest);
      fragment := Some(f);
    } else {
      PlainTokenIsValid(user);
      fragment := None;
    }
  }

  /** Text whose only word is `token`. */
  lemma OneWordParts(s: string, token: string) returns (before: string, after: string)
    requires NoControls(s) && Words(s) == [token]
    ensures IsBlank(before) && IsBlank(after) && IsInner(token) && s == before + token + after
    ensures token != []
  {
    before, after := WordsParts(s);
    var none, nothing := WordsParts(after);
    NoControlsConcat(before + token, after);
    NoControlsConcat(before, token);
  }

  lemma GapIsNotEmpty(gap: string, token: string, after: string)
    requires token != [] && NoSpace(token) && IsSpace((gap + token + after)[0])
    ensures gap != []
  {
    assert !IsSpace(token[0]);
  }

  lemma FlaggedShape(raw: string, text: string, token: string) returns (shape: Shape)
    requires NoControls(raw) && Words(raw) == [text, token] && IsVerboseFlag(text) && ParseUserHost(token).Ok?
    ensures IsShape(shape) && Spelled(shape) == raw
  {
    var before, rest := WordsParts(raw);
    assert Words(rest) == [token];
    NoControlsConcat(before + text, rest);
    NoControlsConcat(before, text);
    var gap, after := OneWordParts(rest, token);
    GapIsNotEmpty(gap, token, after);
    var user, fragment := TokenOf(token);
    shape := Shape(before, Some(Flag(text, gap)), user, fragment, after);
    assert SpelledToken(shape) == token;
    Regroup(before, text, gap, token, after);
  }

  lemma {:induction false} PlainShape(raw: string, token: string) returns (shape: Shape)
    requires NoControls(raw) && Words(raw) == [token] && ParseUserHost(token).Ok?
    ensures IsShape(shape) && Spelled(shape) == raw
  {
    var before, after := OneWordParts(raw, token);
    var user, fragment := TokenOf(token);
    shape := Shape(before, None, user, fragment, after);
    assert SpelledToken(shape) == token;
    assert before + [] == before;
  }

  lemma ShapeOf(raw: string) returns (shape: Shape)
    requires NoControls(raw) && ParseTokens(Words(raw)).Ok?
    ensures IsShape(shape) && Spelled(shape) == raw
  {
    var tokens := Words(raw);
    if IsVerboseFlag(tokens[0]) {
      assert |tokens[1..]| == 1 && tokens == [tokens[0], tokens[1]];
      shape := FlaggedShape(raw, tokens[0], tokens[1]);
    } else {
      assert tokens == [tokens[0]];
      shape := PlainShape(raw, tokens[0]);
    }
  }

  /** The parser is sound and complete for the grammar: it accepts a line exactly when the line is spelled by some
      shape, and then returns what that shape means. */
  lemma ParserIsExact(line: string, q: FingerQuery)
    ensures Parsed(Decoded(line)) == Ok(q)
            <==> exists shape :: IsShape(shape) && line == Spelled(shape) + "\r\n" && Means(shape, q)
  {
    if Parsed(Decoded(line)) == Ok(q) {
      var raw := line[..|line| - 2];
      var shape := ShapeOf(raw);
      assert line == raw + line[|line| - 2..];
      GrammarIsAccepted(shape);
      MeaningIsMeant(shape, q);
    }
    if shape :| IsShape(shape) && line == Spelled(shape) + "\r\n" && Means(shape, q) {
      GrammarIsAccepted(shape);
      MeaningIsMeant(shape, q);
    }
  }

  // ---------------------------------------------------------------- what is refused, and why

  lemma {:induction false} WordsAreSolid(s: string)
    ensures forall i | 0 <= i < |Words(s)| :: Words(s)[i] != [] && NoSpace(Words(s)[i])
    decreases |s|
  {
    var gap, rest := WordsParts(s);
    if Words(s) != [] {
      WordsAreSolid(rest);
      assert Words(s) == [Words(s)[0]] + Words(rest);
    }
  }

  lemma NameErrorsAreOfNames(token: string)
    ensures var r := ParseUserHost(token);
            r.Err? ==> r.error.MissingUsername? || r.error.InvalidUsername? || r.error.InvalidHostname?
  {
  }

  lemma TokenErrorsAreOfTokens(tokens: seq<string>)
    ensures var r := ParseTokens(tokens);
            r.Err? ==> !r.error.MissingCrlf? && !r.error.ControlCharacter? && !r.error.InvalidEncoding?
  {
    if ParseFlag(tokens).Ok? {
      NameErrorsAreOfNames(ParseFlag(tokens).value.1);
    }
  }

  /** A line is refused for its encoding, then for its end, then for its characters, before any word is read. Its end
      is its last two characters, or all it has. */
  lemma FramingIsRefusedFirst(raw: string, end: string)
    requires |end| == 2 || (|end| < 2 && raw == [])
    ensures Parsed(NotUtf8) == Err(InvalidEncoding)
    ensures Parsed(Decoded(raw + end)) == Err(MissingCrlf) <==> end != "\r\n"
    ensures Parsed(Decoded(raw + end)) == Err(ControlCharacter)
            <==> end == "\r\n" && exists i :: 0 <= i < |raw| && raw[i] < ' ' && raw[i] != '\r' && raw[i] != '\n'
  {
    if |end| == 2 {
      var line := raw + end;
      assert line[|line| - 2..] == end && line[..|line| - 2] == raw;
      TokenErrorsAreOfTokens(Words(raw));
    }
  }

  /** The words of a line after its flag, if it starts with one. */
  function NameWords(words: seq<string>): seq<string> {
    if words != [] && (words[0] == "/W" || words[0] == "/w") then words[1..] else words
  }

  /** A word names nobody exactly when it starts with `@`. */
  lemma NamelessIsMissing(token: string)
    ensures ParseUserHost(token) == Err(MissingUsername) <==> token == [] || "@" <= token
  {
    var user, rest := CutAtChar(token, '@');
    if '@' in token {
      SplitAtChar(user, '@', rest);
    } else {
      SplitAtNoChar(token, '@');
    }
    assert token != [] ==> ("@" <= token <==> token[0] == '@');
  }

  /** Words are refused as options before they are counted, and counted before any name is read. */
  lemma WordsAreRefusedInOrder(raw: string)
    requires NoControls(raw)
    ensures var names, r := NameWords(Words(raw)), Parsed(Decoded(raw + "\r\n"));
            && (r == Err(MissingUsername) <==> names == [] || (|names| == 1 && "@" <= names[0]))
            && (r == Err(UnknownOption) <==> names != [] && "/" <= names[0])
            && (r == Err(TrailingInput) <==> |names| > 1 && !("/" <= names[0]))
  {
    WordsAreSolid(raw);
    FramedLine(raw);
    var words := Words(raw);
    var names := NameWords(words);
    if names != [] {
      NameErrorsAreOfNames(names[0]);
      NamelessIsMissing(names[0]);
      assert names[0] != [];
      assert ParseFlag(words)
             == if "/" <= names[0] then Err(UnknownOption) else Ok((IsVerboseFlag(words[0]), names[0], names[1..]));
    }
  }

  /** An empty token, which no line has, would name nobody. */
  lemma EmptyTokensAreMissing(flag: string, rest: seq<string>)
    requires flag == "/W" || flag == "/w"
    ensures ParseFlag([""] + rest) == ParseFlag([flag, ""] + rest) == Err(MissingUsername)
  {
    assert ([flag, ""] + rest)[1..] == [""] + rest;
  }

  /** No host, or a valid one. */
  predicate IsHostOrNone(host: string) {
    host == [] || IsHostname(host)
  }

  /** What is wrong with the host of a fragment, if anything. */
  function HostFault(fragment: Option<Fragment>): Option<IdentityError> {
    if fragment.None? || fragment.value.host == [] then None
    else match ParseHostname(fragment.value.host) case Ok(_) => None case Err(e) => Some(e)
  }

  /** A name is refused for its user before its host: an empty user as missing, a long one for its length, any other
      for its characters; and a host only for the fragment after the first `@`, for what the host parser says of it. */
  lemma NamesAreRefusedInOrder(user: string, fragment: Option<Fragment>)
    requires '@' !in user && NoSpace(user)
    requires fragment.Some? ==> '@' !in fragment.value.host && NoSpace(fragment.value.host)
    ensures var r := ParseUserHost(SpelledNames(user, fragment));
            if user == [] then r == Err(MissingUsername)
            else if ByteLen(user) > 32 then r == Err(InvalidUsername(UsernameLength))
            else if !IsUsername(user) then r == Err(InvalidUsername(UsernameCharacters))
            else if HostFault(fragment).Some? then r == Err(InvalidHostname(HostFault(fragment).value))
            else r.Ok?
    ensures HostFault(fragment).Some? <==> fragment.Some? && !IsHostOrNone(fragment.value.host)
  {
    UserIsJudged(user);
    SpelledNamesApart(user, fragment);
    HostFaultIs(fragment);
  }

  lemma SpelledNamesApart(user: string, fragment: Option<Fragment>)
    requires '@' !in user && (fragment.Some? ==> '@' !in fragment.value.host)
    ensures ParseUserHost(SpelledNames(user, fragment)) ==
            if user == [] then Err(MissingUsername)
            else if ParseUsername(user).Err? then Err(InvalidUsername(ParseUsername(user).error))
            else if HostFault(fragment).Some? then Err(InvalidHostname(HostFault(fragment).value))
            else Ok((ParseUsername(user).value, HostOf(fragment)))
  {
    if fragment.Some? {
      var fragments := SpelledFragments(fragment.value);
      NamesAreReadApart(user, Some(fragments));
      Reassociate(user, "@", fragments);
      FirstFragmentOf(fragment.value);
    } else {
      NamesAreReadApart(user, None);
      assert user + [] == user;
    }
  }

  /** The host a fragment names, if it is at no fault. */
  function HostOf(fragment: Option<Fragment>): Option<string> {
    if fragment.None? || fragment.value.host == [] || ParseHostname(fragment.value.host).Err? then None
    else Some(ParseHostname(fragment.value.host).value)
  }

  lemma HostFaultIs(fragment: Option<Fragment>)
    requires fragment.Some? ==> NoSpace(fragment.value.host)
    ensures HostFault(fragment).Some? <==> fragment.Some? && !IsHostOrNone(fragment.value.host)
  {
    if fragment.Some? {
      HostIsJudged(fragment.value.host);
    }
  }

  lemma NamesAreReadApart(user: string, fragments: Option<string>)
    requires '@' !in user
    ensures ParseUserHost(user + if fragments.Some? then "@" + fragments.value else []) ==
            if user == [] then Err(MissingUsername)
            else if ParseUsername(user).Err? then Err(InvalidUsername(ParseUsername(user).error))
            else if ParseHost(fragments).Err? then Err(ParseHost(fragments).error)
            else Ok((ParseUsername(user).value, ParseHost(fragments).value))
  {
    if fragments.Some? {
      SplitAtChar(user, '@', fragments.value);
      assert user + "@" + fragments.value == user + ("@" + fragments.value);
    } else {
      SplitAtNoChar(user, '@');
      assert user + [] == user;
    }
  }

  lemma {:induction false} UserIsJudged(user: string)
    requires NoSpace(user)
    ensures ByteLen(user) == 0 <==> user == []
    ensures user != [] ==>
              ParseUsername(user) == if ByteLen(user) > 32 then Err(UsernameLength)
                                     else if IsUsername(user) then Ok(Lower(user)) else Err(UsernameCharacters)
    ensures ByteLen(user) > 32 ==> !IsUsername(user)
  {
    TrimOfSolid(user);
    UsernamesAreExact(user);
    if IsUsername(user) {
      NameCharsAreAscii(user);
    }
  }

  lemma HostIsJudged(host: string)
    requires NoSpace(host)
    ensures ParseHostname(host).Ok? <==> IsHostname(host)
  {
    TrimOfSolid(host);
    HostnamesAreExact(host);
  }

  // ---------------------------------------------------------------- printing and parsing

  /** What `Display` writes. */
  function Display(q: FingerQuery): string {
    q.username + "@" + if q.host.Some? then q.host.value else "<default>"
  }

  /** A query as a line: its display, after the flag if it is verbose. */
  function Printed(q: FingerQuery): string {
    (if q.verbose then "/W " else []) + Display(q) + "\r\n"
  }

  predicate IsNormal(q: FingerQuery) {
    IsNormalUsername(q.username) && (q.host.Some? ==> IsNormalHostname(q.host.value))
  }

  lemma ParsedQueriesAreNormal(wire: Wire)
    requires Parsed(wire).Ok?
    ensures IsNormal(Parsed(wire).value)
  {
    var raw := ValidateInput(wire).value;
    var (verbose, token, rest) := ParseFlag(Words(raw)).value;
    var (user, fragments) := match SplitOnce(token, "@") case None => (token, None) case Some((u, f)) => (u, Some(f));
    ParsersAreIdempotent(user);
    if fragments.Some? {
      ParsersAreIdempotent(FirstFragment(fragments.value));
    }
  }

  lemma HostedQueriesRoundTrip(q: FingerQuery)
    requires IsNormal(q) && q.host.Some?
    ensures Parsed(Decoded(Printed(q))) == Ok(q)
  {
    DisplayIsInner(q);
    LineOfOneToken(q.verbose, Display(q));
    TokensOfOne(q.verbose, Display(q));
    NormalTokenParses(q.username, q.host.value);
  }

  lemma NormalHostParses(host: string)
    requires IsNormalHostname(host)
    ensures ParseHost(Some(host)) == Ok(Some(host))
  {
    HostCharsAreInner(host);
    SplitAtNoChar(host, '@');
    NormalHostnamesParse(host);
  }

  lemma NormalTokenParses(user: string, host: string)
    requires IsNormalUsername(user) && IsNormalHostname(host)
    ensures ParseUserHost(user + "@" + host) == Ok((user, Some(host)))
  {
    UserCharsAreInner(user);
    NamesAreReadApart(user, Some(host));
    Reassociate(user, "@", host);
    NormalUsernamesParse(user);
    NormalHostParses(host);
  }

  lemma DisplayIsInner(q: FingerQuery)
    requires IsNormal(q)
    ensures IsInner(Display(q)) && Display(q) != [] && !("/" <= Display(q))
  {
    var host := if q.host.Some? then q.host.value else "<default>";
    UserCharsAreInner(q.username);
    if q.host.Some? {
      HostCharsAreInner(host);
    }
    InnerAround(q.username, host);
    assert Display(q) == q.username + "@" + host;
    assert Display(q)[0] == q.username[0] != '/';
  }

  lemma FramedLine(raw: string)
    requires NoControls(raw)
    ensures Parsed(Decoded(raw + CRLF)) == ParseTokens(Words(raw))
  {
    var line := raw + CRLF;
    assert line[|line| - 2..] == CRLF && line[..|line| - 2] == raw;
  }

  lemma TokensOfOne(verbose: bool, token: string)
    requires token != [] && !("/" <= token)
    ensures ParseTokens(if verbose then ["/W", token] else [token]) ==
            match ParseUserHost(token)
            case Err(e) => Err(e)
            case Ok((username, host)) => Ok(FingerQuery(username, host, verbose))
  {
    assert !IsVerboseFlag(token);
    assert ["/W", token][1..] == [token] && [token][1..] == [];
  }

  lemma NothingAround(a: string, b: string)
    ensures [] + a + b + [] == a + b
  {
  }

  /** A line of one token, after the flag if there is one. */
  lemma LineOfOneToken(verbose: bool, token: string)
    requires IsInner(token) && token != [] && !("/" <= token)
    ensures Parsed(Decoded((if verbose then "/W " else []) + token + CRLF))
            == ParseTokens(if verbose then ["/W", token] else [token])
  {
    if verbose {
      FlaggedWords([], "/W", " ", token, []);
      NoControlsConcat("/W ", token);
      NothingAround("/W" + " ", token);
      assert "/W" + " " == "/W ";
      FramedLine("/W " + token);
    } else {
      PlainWords([], token, []);
      assert [] + token + [] == token == [] + token;
      FramedLine([] + token);
    }
  }

  /** One label that starts with a character that no label may have. */
  predicate IsBadLabel(s: string) {
    && 1 <= |s| <= MAX_HOSTNAME && Ascii(s) && NoSpace(s) && '.' !in s && '@' !in s
    && s[0] != '-' && s[|s| - 1] != '-' && !IsLabelChar(s[0])
  }

  lemma BadLabelIsRefused(s: string)
    requires IsBadLabel(s)
    ensures ParseHost(Some(s)) == Err(InvalidHostname(HostCharacters))
  {
    SplitAtNoChar(s, '@');
    TrimOfSolid(s);
    AsciiByteLen(s);
    SplitAtNoChar(s, '.');
    assert LabelError(s) == Some(HostCharacters);
  }

  lemma BadHostIsRefused(user: string, host: string, e: QueryError)
    requires IsNormalUsername(user) && ParseHost(Some(host)) == Err(e)
    ensures ParseUserHost(user + "@" + host) == Err(e)
  {
    UserCharsAreInner(user);
    SplitAtChar(user, '@', host);
    NormalUsernamesParse(user);
  }

  lemma BadHostLineIsRefused(q: FingerQuery, host: string)
    requires IsNormal(q) && IsBadLabel(host) && Display(q) == q.username + "@" + host
    ensures Parsed(Decoded(Printed(q))) == Err(InvalidHostname(HostCharacters))
  {
    DisplayIsInner(q);
    LineOfOneToken(q.verbose, Display(q));
    TokensOfOne(q.verbose, Display(q));
    BadLabelIsRefused(host);
    BadHostIsRefused(q.username, host, InvalidHostname(HostCharacters));
  }

  lemma HostlessDisplay(q: FingerQuery)
    requires q.host.None?
    ensures Display(q) == q.username + "@<default>"
  {
  }

  /** Without a host, the display names `<default>`, which is no host name: the line is refused for its characters. */
  lemma HostlessQueriesAreRefused(q: FingerQuery)
    requires IsNormal(q) && q.host.None?
    ensures Parsed(Decoded(Printed(q))) == Err(InvalidHostname(HostCharacters))
  {
    BadHostLineIsRefused(q, "<default>");
  }

  /** Printing and parsing a query gives it back exactly when it has a host. */
  lemma QueriesWithAHostRoundTrip(q: FingerQuery)
    requires IsNormal(q)
    ensures Parsed(Decoded(Printed(q))) == Ok(q) <==> q.host.Some?
  {
    if q.host.Some? {
      HostedQueriesRoundTrip(q);
    } else {
      HostlessQueriesAreRefused(q);
    }
  }

  // ---------------------------------------------------------------- case

  lemma LowerKeepsControls(s: string)
    ensures NoControls(Lower(s)) == NoControls(s)
  {
    assert forall i | 0 <= i < |s| :: IsEmbeddedControl(Lower(s)[i]) == IsEmbeddedControl(s[i]);
  }

  lemma LowerKeepsHost(fragments: string)
    ensures ParseHost(Some(Lower(fragments))) == ParseHost(Some(fragments))
  {
    LowerSplit(fragments, '@');
    assert FirstFragment(Lower(fragments)) == Lower(FirstFragment(fragments));
    LowerKeepsNames(FirstFragment(fragments));
  }

  lemma LowerKeepsUserHost(token: string)
    ensures ParseUserHost(Lower(token)) == ParseUserHost(token)
  {
    LowerSplit(token, '@');
    match SplitOnce(token, "@")
    case None => LowerKeepsNames(token);
    case Some((user, fragments)) =>
      LowerKeepsNames(user);
      LowerKeepsHost(fragments);
  }

  lemma LowerKeepsFlag(token: string)
    ensures IsVerboseFlag(Lower(token)) == IsVerboseFlag(token)
  {
    var lower := Lower(token);
    assert IsVerboseFlag(lower) <==> |lower| == 2 && lower[0] == '/' && (lower[1] == 'W' || lower[1] == 'w');
    assert IsVerboseFlag(token) <==> |token| == 2 && token[0] == '/' && (token[1] == 'W' || token[1] == 'w');
  }

  lemma LowerKeepsTokens(tokens: seq<string>)
    ensures ParseTokens(LowerAll(tokens)) == ParseTokens(tokens)
  {
    var lower := LowerAll(tokens);
    if tokens != [] {
      LowerKeepsFlag(tokens[0]);
      var rest := if IsVerboseFlag(tokens[0]) then tokens[1..] else tokens;
      var lowerRest := if IsVerboseFlag(lower[0]) then lower[1..] else lower;
      assert |rest| == |lowerRest|;
      if rest != [] {
        assert lowerRest[0] == Lower(rest[0]);
        assert ("/" <= lowerRest[0]) == ("/" <= rest[0]);
        LowerKeepsUserHost(rest[0]);
      }
    }
  }

  /** Changing the case of letters never changes the result, errors included. */
  lemma CaseNeverMatters(a: string, b: string)
    requires SameLetters(a, b)
    ensures Parsed(Decoded(a)) == Parsed(Decoded(b))
  {
    SameLettersLower(a, b);
    LowerIsEnough(a);
    LowerIsEnough(b);
  }

  lemma LowerIsEnough(line: string)
    ensures Parsed(Decoded(Lower(line))) == Parsed(Decoded(line))
  {
    var l := Lower(line);
    if |line| >= 2 {
      var raw := line[..|line| - 2];
      assert l[..|l| - 2] == Lower(raw);
      assert (l[|l| - 2..] == CRLF) == (line[|line| - 2..] == CRLF) by {
        var end, lowerEnd := line[|line| - 2..], l[|l| - 2..];
        assert lowerEnd == Lower(end);
        assert end == CRLF <==> end[0] == '\r' && end[1] == '\n';
        assert lowerEnd == CRLF <==> lowerEnd[0] == '\r' && lowerEnd[1] == '\n';
      }
      LowerKeepsControls(raw);
      LowerWords(raw);
      LowerKeepsTokens(Words(raw));
    }
  }
}
