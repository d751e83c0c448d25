/** User and host names (src/identity.rs): parsing and normal forms. */
module Identity {
  import opened Wrappers
  import opened Text

  datatype IdentityError =
    | UsernameLength
    | UsernameCharacters
    | HostLength
    | HostCharacters
    | HostLabelHyphen
    | HostEmptyLabel

  const MAX_USERNAME: nat := 32
  const MAX_HOSTNAME: nat := 253

  predicate IsAlnum(c: char) {
    'a' <= c <= 'z' || 'A' <= c <= 'Z' || '0' <= c <= '9'
  }

  predicate IsUserChar(c: char) {
    IsAlnum(c) || c == '-' || c == '_'
  }

  predicate IsLabelChar(c: char) {
    IsAlnum(c) || c == '-'
  }

  // ---------------------------------------------------------------- parsing

  function ParseUsername(input: string): Result<string, IdentityError> {
    var trimmed := Trim(input);
    if trimmed == [] || ByteLen(trimmed) > MAX_USERNAME then Err(UsernameLength)
    else if forall i | 0 <= i < |trimmed| :: IsUserChar(trimmed[i]) then Ok(Lower(trimmed))
    else Err(UsernameCharacters)
  }

  function LabelError(part: string): Option<IdentityError> {
    if part == [] then Some(HostEmptyLabel)
    else if part[0] == '-' || part[|part| - 1] == '-' then Some(HostLabelHyphen)
    else if exists i :: 0 <= i < |part| && !IsLabelChar(part[i]) then Some(HostCharacters)
    else None
  }

  /** The error of the first bad label. */
  function LabelsError(labels: seq<string>): Option<IdentityError> {
    if labels == [] then None
    else if LabelError(labels[0]).Some? then LabelError(labels[0])
    else LabelsError(labels[1..])
  }

  function ParseHostname(input: string): Result<string, IdentityError> {
    var trimmed := Trim(input);
    if trimmed == [] || ByteLen(trimmed) > MAX_HOSTNAME then Err(HostLength)
    else
      match LabelsError(SplitOn(trimmed, "."))
      case Some(e) => Err(e)
      case None => Ok(Lower(trimmed))
  }

  lemma {:induction false} JoinSnoc(parts: seq<string>, last: string, glue: string)
    requires parts != []
    ensures Join(parts + [last], glue) == Join(parts, glue) + glue + last
  {
    var all := parts + [last];
    if |parts| == 1 {
      assert all[1..] == [last];
    } else {
      assert all[1..] == parts[1..] + [last];
      JoinSnoc(parts[1..], last, glue);
      var head := parts[0] + glue;
      assert head + (Join(parts[1..], glue) + glue + last) == head + Join(parts[1..], glue) + glue + last;
    }
  }

  /** The loop that splits, lowers and rejoins the labels gives back exactly the trimmed input in lower case. */
  method HostName(input: string) returns (r: Result<string, IdentityError>)
    ensures r == ParseHostname(input)
  {
    var trimmed := Trim(input);
    if trimmed == [] || ByteLen(trimmed) > MAX_HOSTNAME {
      return Err(HostLength);
    }
    var output := "";
    var labels := SplitOn(trimmed, ".");
    for i := 0 to |labels|
      invariant LabelsError(labels) == LabelsError(labels[i..])
      invariant output == Lower(Join(labels[..i], "."))
      invariant i > 0 ==> output != []
    {
      var part := labels[i];
      assert labels[i..][1..] == labels[i + 1..];
      assert labels[..i + 1] == labels[..i] + [part];
      var error := LabelError(part);
      if error.Some? {
        return Err(error.value);
      }
      if i > 0 {
        JoinSnoc(labels[..i], part, ".");
        LowerConcat(Join(labels[..i], ".") + ".", part);
        LowerConcat(Join(labels[..i], "."), ".");
        assert Lower(".") == ".";
      } else {
        assert labels[..i + 1] == [part];
      }
      if output != [] {
        output := output + ".";
      }
      output := output + Lower(part);
    }
    assert labels[..|labels|] == labels;
    JoinUndoesSplit(trimmed, ".");
    return Ok(output);
  }

  // ---------------------------------------------------------------- what a valid name is

  predicate IsLetterOrDigit(c: char) {
    'A' <= c <= 'Z' || 'a' <= c <= 'z' || '0' <= c <= '9'
  }

  predicate IsUsername(s: string) {
    1 <= |s| <= 32 && forall i | 0 <= i < |s| :: IsLetterOrDigit(s[i]) || s[i] == '-' || s[i] == '_'
  }

  /** At either end of a label. */
  predicate AtEdge(s: string, i: nat)
    requires i < |s|
  {
    i == 0 || i == |s| - 1 || s[i - 1] == '.' || s[i + 1] == '.'
  }

  /** Letters, digits, hyphens and dots, where every label starts and ends in a letter or digit. */
  predicate IsDotted(s: string) {
    && s != []
    && forall i | 0 <= i < |s| :: IsLetterOrDigit(s[i]) || (!AtEdge(s, i) && (s[i] == '-' || s[i] == '.'))
  }

  predicate IsHostname(s: string) {
    |s| <= 253 && IsDotted(s)
  }

  lemma LabelIsDotted(part: string)
    requires '.' !in part
    ensures LabelError(part) == None <==> IsDotted(part)
  {
  }

  lemma DottedJoin(part: string, rest: string)
    requires '.' !in part
    ensures IsDotted(part + "." + rest) <==> IsDotted(part) && IsDotted(rest)
  {
    var s, n := part + "." + rest, |part|;
    assert s[n] == '.';
    assert forall i | 0 <= i < n :: s[i] == part[i];
    assert forall i | 0 <= i < |rest| :: s[n + 1 + i] == rest[i];
    if IsDotted(s) {
      assert n > 0 && |rest| > 0 by {
        assert !AtEdge(s, n);
      }
      forall i | 0 <= i < n
        ensures IsLetterOrDigit(part[i]) || (!AtEdge(part, i) && (part[i] == '-' || part[i] == '.'))
      {
        assert AtEdge(part, i) ==> AtEdge(s, i);
      }
      forall i | 0 <= i < |rest|
        ensures IsLetterOrDigit(rest[i]) || (!AtEdge(rest, i) && (rest[i] == '-' || rest[i] == '.'))
      {
        assert AtEdge(rest, i) ==> AtEdge(s, n + 1 + i);
      }
    }
    if IsDotted(part) && IsDotted(rest) {
      assert IsLetterOrDigit(part[n - 1]) && IsLetterOrDigit(rest[0]) by {
        assert AtEdge(part, n - 1) && AtEdge(rest, 0);
      }
      forall i | 0 <= i < |s|
        ensures IsLetterOrDigit(s[i]) || (!AtEdge(s, i) && (s[i] == '-' || s[i] == '.'))
      {
        if i < n {
          assert AtEdge(s, i) ==> AtEdge(part, i);
        } else if i > n {
          assert AtEdge(s, i) ==> AtEdge(rest, i - n - 1);
        }
      }
    }
  }

  lemma {:induction false} LabelsAreDotted(s: string)
    ensures LabelsError(SplitOn(s, ".")) == None <==> IsDotted(s)
    decreases |s|
  {
    var part, rest := CutAtChar(s, '.');
    LabelIsDotted(part);
    if '.' in s {
      SplitAtChar(part, '.', rest);
      LabelsAreDotted(rest);
      DottedJoin(part, rest);
      var labels := [part] + SplitOn(rest, ".");
      assert labels[1..] == SplitOn(rest, ".");
    } else {
      SplitAtNoChar(s, '.');
    }
  }

  lemma NameCharsAreAscii(s: string)
    requires forall i | 0 <= i < |s| :: IsUserChar(s[i]) || s[i] == '.'
    ensures Ascii(s) && NoSpace(s) && ByteLen(s) == |s|
  {
    AsciiByteLen(s);
  }

  /** Usernames are accepted exactly when the trimmed text is a valid name, and come out with their letters lowered; any
      other is refused for its length, if that is wrong, or else for its characters. */
  lemma UsernamesAreExact(input: string)
    ensures ParseUsername(input) == Ok(Lower(Trim(input))) <==> IsUsername(Trim(input))
    ensures match ParseUsername(input)
            case Ok(name) => IsUsername(Trim(input)) && IsLowered(Trim(input), name)
            case Err(e) =>
              && !IsUsername(Trim(input))
              && e == if Trim(input) == [] || ByteLen(Trim(input)) > 32 then UsernameLength else UsernameCharacters
  {
    var t := Trim(input);
    LowerIsLowered(t);
    if forall i | 0 <= i < |t| :: IsUserChar(t[i]) {
      NameCharsAreAscii(t);
    }
    if IsUsername(t) {
      assert forall i | 0 <= i < |t| :: IsUserChar(t[i]);
    }
  }

  /** Host names likewise, against a definition that knows no labels. */
  lemma HostnamesAreExact(input: string)
    ensures ParseHostname(input) == Ok(Lower(Trim(input))) <==> IsHostname(Trim(input))
    ensures ParseHostname(input) == Err(HostLength) <==> Trim(input) == [] || ByteLen(Trim(input)) > 253
    ensures match ParseHostname(input)
            case Ok(name) => IsHostname(Trim(input)) && IsLowered(Trim(input), name)
            case Err(_) => !IsHostname(Trim(input))
  {
    var t := Trim(input);
    LowerIsLowered(t);
    LabelsAreDotted(t);
    NoLabelIsTooLong(SplitOn(t, "."));
    if IsDotted(t) {
      NameCharsAreAscii(t);
    }
  }

  lemma {:induction false} NoLabelIsTooLong(labels: seq<string>)
    ensures LabelsError(labels) != Some(HostLength)
  {
    if labels != [] {
      NoLabelIsTooLong(labels[1..]);
    }
  }

  /** Nothing, or valid labels and a dot. */
  predicate IsGoodFront(front: string) {
    front == [] || (front[|front| - 1] == '.' && IsDotted(front[..|front| - 1]))
  }

  lemma {:induction false} GoodLabelsRaiseNothing(front: string, rest: string)
    requires IsGoodFront(front)
    ensures LabelsError(SplitOn(front + rest, ".")) == LabelsError(SplitOn(rest, "."))
    decreases |front|
  {
    if front == [] {
      assert front + rest == rest;
    } else {
      var part, more := CutAtChar(front, '.');
      var dotted := front[..|front| - 1];
      assert front == part + "." + more;
      assert front + rest == part + "." + (more + rest);
      SplitAtChar(part, '.', more + rest);
      if more == [] {
        assert dotted == part;
      } else {
        assert more[|more| - 1] == '.';
        assert dotted == part + "." + more[..|more| - 1];
        DottedJoin(part, more[..|more| - 1]);
      }
      LabelIsDotted(part);
      GoodLabelsRaiseNothing(more, rest);
      var labels := [part] + SplitOn(more + rest, ".");
      assert labels[1..] == SplitOn(more + rest, ".");
    }
  }

  /** What is wrong with a bad label. */
  function Fault(part: string): IdentityError {
    if part == [] then HostEmptyLabel
    else if part[0] == '-' || part[|part| - 1] == '-' then HostLabelHyphen
    else HostCharacters
  }

  lemma BadLabelRaises(part: string, rest: string)
    requires '.' !in part && !IsDotted(part) && (rest == [] || rest[0] == '.')
    ensures LabelsError(SplitOn(part + rest, ".")) == Some(Fault(part))
  {
    LabelIsDotted(part);
    if rest == [] {
      assert part + rest == part;
      SplitAtNoChar(part, '.');
    } else {
      assert part + rest == part + "." + rest[1..];
      SplitAtChar(part, '.', rest[1..]);
    }
  }

  /** The first bad label decides: an empty one is refused as empty, one with a hyphen at either end for that hyphen,
      and any other for its characters, whatever follows it. */
  lemma FirstBadLabelDecides(input: string, front: string, part: string, rest: string)
    requires Trim(input) == front + (part + rest) && Trim(input) != [] && ByteLen(Trim(input)) <= 253
    requires IsGoodFront(front) && '.' !in part && !IsDotted(part) && (rest == [] || rest[0] == '.')
    ensures ParseHostname(input) == Err(Fault(part))
  {
    GoodLabelsRaiseNothing(front, part + rest);
    BadLabelRaises(part, rest);
  }

  // ---------------------------------------------------------------- normal forms

  predicate IsNormalUsername(s: string) {
    IsUsername(s) && IsLowered(s, s)
  }

  predicate IsNormalHostname(s: string) {
    IsHostname(s) && IsLowered(s, s)
  }

  lemma TrimOfSolid(s: string)
    requires NoSpace(s)
    ensures Trim(s) == s
  {
    TrimOf([], s, []);
    assert [] + s + [] == s;
  }

  lemma LowerKeepsKind(s: string, i: nat)
    requires i < |s|
    ensures IsLetterOrDigit(Lower(s)[i]) == IsLetterOrDigit(s[i]) && AtEdge(Lower(s), i) == AtEdge(s, i)
    ensures (Lower(s)[i] == '.') == (s[i] == '.') && (Lower(s)[i] == '-') == (s[i] == '-')
  {
  }

  lemma LowerKeepsDotted(s: string)
    ensures IsDotted(Lower(s)) <==> IsDotted(s)
  {
    var l := Lower(s);
    forall i | 0 <= i < |s|
      ensures IsLetterOrDigit(l[i]) || (!AtEdge(l, i) && (l[i] == '-' || l[i] == '.'))
              <==> IsLetterOrDigit(s[i]) || (!AtEdge(s, i) && (s[i] == '-' || s[i] == '.'))
    {
      LowerKeepsKind(s, i);
    }
  }

  /** Both parsers are idempotent: what they return is a normal form, and parsing a normal form returns it. */
  lemma ParsersAreIdempotent(input: string)
    ensures ParseUsername(input).Ok? ==>
              && IsNormalUsername(ParseUsername(input).value)
              && ParseUsername(ParseUsername(input).value) == ParseUsername(input)
    ensures ParseHostname(input).Ok? ==>
              && IsNormalHostname(ParseHostname(input).value)
              && ParseHostname(ParseHostname(input).value) == ParseHostname(input)
  {
    var t := Trim(input);
    UsernamesAreExact(input);
    HostnamesAreExact(input);
    LowerTwice(t);
    if IsUsername(t) {
      assert forall i | 0 <= i < |t| :: IsUserChar(Lower(t)[i]) == IsUserChar(t[i]);
      NormalUsernamesParse(Lower(t));
    }
    if IsHostname(t) {
      LowerKeepsDotted(t);
      NormalHostnamesParse(Lower(t));
    }
  }

  lemma NormalUsernamesParse(s: string)
    requires IsNormalUsername(s)
    ensures ParseUsername(s) == Ok(s)
  {
    NameCharsAreAscii(s);
    TrimOfSolid(s);
    LowerIsLowered(s);
    UsernamesAreExact(s);
  }

  lemma NormalHostnamesParse(s: string)
    requires IsNormalHostname(s)
    ensures ParseHostname(s) == Ok(s)
  {
    NameCharsAreAscii(s);
    TrimOfSolid(s);
    LowerIsLowered(s);
    HostnamesAreExact(s);
  }

  lemma LowerKeepsLabelError(part: string)
    ensures LabelError(Lower(part)) == LabelError(part)
  {
    var l := Lower(part);
    assert forall i | 0 <= i < |part| :: IsLabelChar(l[i]) == IsLabelChar(part[i]) && (l[i] == '-') == (part[i] == '-');
  }

  lemma {:induction false} LowerKeepsLabelsError(labels: seq<string>)
    ensures LabelsError(LowerAll(labels)) == LabelsError(labels)
  {
    if labels != [] {
      LowerKeepsLabelError(labels[0]);
      LowerKeepsLabelsError(labels[1..]);
      assert LowerAll(labels)[1..] == LowerAll(labels[1..]);
    }
  }

  lemma LowerKeepsNames(input: string)
    ensures ParseUsername(Lower(input)) == ParseUsername(input)
    ensures ParseHostname(Lower(input)) == ParseHostname(input)
  {
    var t := Trim(input);
    LowerTrim(input);
    LowerByteLen(t);
    LowerTwice(t);
    assert forall i | 0 <= i < |t| :: IsUserChar(Lower(t)[i]) == IsUserChar(t[i]);
    LowerSplit(t, '.');
    LowerKeepsLabelsError(SplitOn(t, "."));
  }

  /** The case of letters never matters to either parser, errors included. */
  lemma CaseNeverMattersToNames(a: string, b: string)
    requires SameLetters(a, b)
    ensures ParseUsername(a) == ParseUsername(b) && ParseHostname(a) == ParseHostname(b)
  {
    SameLettersLower(a, b);
    LowerKeepsNames(a);
    LowerKeepsNames(b);
  }
}
