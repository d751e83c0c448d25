/** The profile a finger client is shown (src/user.rs). */
module Profile {
  import opened Wrappers
  import opened Text
  import opened Identity
  import opened Framing

  datatype FingerProfile = FingerProfile(username: string, attributes: seq<(string, string)>)

  predicate IsPrintable(c: char) {
    ' ' <= c <= '~'
  }

  predicate AllPrintable(s: string) {
    forall i | 0 <= i < |s| :: IsPrintable(s[i])
  }

  function UpperChar(c: char): char {
    if 'a' <= c <= 'z' then ((c as int) - 32) as char else c
  }

  /** The first character in upper case, and a space for each later underscore. */
  function NormalKey(key: string): (r: string)
    ensures |r| == |key|
  {
    seq(|key|, i requires 0 <= i < |key| => if i == 0 then UpperChar(key[0]) else if key[i] == '_' then ' ' else key[i])
  }

  method NormaliseKey(key: string) returns (output: string)
    ensures output == NormalKey(key)
  {
    output := [];
    if key != [] {
      output := [UpperChar(key[0])];
      for i := 1 to |key|
        invariant output == NormalKey(key)[..i]
      {
        output := output + [if key[i] == '_' then ' ' else key[i]];
      }
    }
  }

  function SanitiseLine(input: string): string {
    if input == [] then []
    else (if IsPrintable(input[0]) then [input[0]] else []) + SanitiseLine(input[1..])
  }

  function SanitiseAll(lines: seq<string>): seq<string> {
    seq(|lines|, i requires 0 <= i < |lines| => SanitiseLine(lines[i]))
  }

  function PlanLines(plan: Option<string>): seq<string> {
    match plan
    case None => ["(no plan)"]
    case Some(content) => if Trim(content) == [] then ["(empty plan)"] else SanitiseAll(Lines(content))
  }

  function AttributeLine(attribute: (string, string)): string {
    NormalKey(attribute.0) + ": " + SanitiseLine(attribute.1)
  }

  function AttributeLines(attributes: seq<(string, string)>): seq<string> {
    seq(|attributes|, i requires 0 <= i < |attributes| => AttributeLine(attributes[i]))
  }

  function PlanBlock(includePlan: bool, plan: Option<string>): seq<string> {
    if includePlan then ["", "Plan:"] + PlanLines(plan) else []
  }

  const FOOTER: seq<string> := ["", "Powered by fingermouse"]

  function Rendered(p: FingerProfile, includePlan: bool, plan: Option<string>): seq<string> {
    ["User: " + p.username] + AttributeLines(p.attributes) + PlanBlock(includePlan, plan) + FOOTER
  }

  // ---------------------------------------------------------------- what a line shows

  /** A shown key: the first character with a letter `a` to `z` 32 places back, a space for each later underscore, and
      nothing else changed. */
  predicate IsShownKey(key: string, shown: string) {
    && |shown| == |key|
    && forall i | 0 <= i < |key| ::
         if i > 0 then shown[i] == (if key[i] == '_' then ' ' else key[i])
         else if 'a' <= key[0] <= 'z' then shown[0] as int == key[0] as int - 32
         else shown[0] == key[0]
  }

  /** The characters of `s` from space to tilde, in their order. */
  predicate IsFiltered(s: string, shown: string) {
    if s == [] then shown == []
    else if ' ' <= s[0] <= '~' then shown != [] && shown[0] == s[0] && IsFiltered(s[1..], shown[1..])
    else IsFiltered(s[1..], shown)
  }

  lemma KeyIsShown(key: string)
    ensures IsShownKey(key, NormalKey(key))
  {
  }

  lemma {:induction false} SanitisedIsFiltered(s: string)
    ensures IsFiltered(s, SanitiseLine(s))
  {
    if s != [] {
      SanitisedIsFiltered(s[1..]);
      var rest := SanitiseLine(s[1..]);
      assert ([s[0]] + rest)[1..] == rest && [] + rest == rest;
    }
  }

  /** There is one way to filter a text, and printable text is left as it is. */
  lemma {:induction false} FilteredIsUnique(s: string, a: string, b: string)
    requires IsFiltered(s, a) && IsFiltered(s, b)
    ensures a == b
    ensures (forall i | 0 <= i < |s| :: ' ' <= s[i] <= '~') ==> a == s
  {
    if s != [] {
      if ' ' <= s[0] <= '~' {
        FilteredIsUnique(s[1..], a[1..], b[1..]);
        assert a == [s[0]] + a[1..] && b == [s[0]] + b[1..] && s == [s[0]] + s[1..];
      } else {
        FilteredIsUnique(s[1..], a, b);
      }
    }
  }

  /** A line shows an attribute: its key, a colon and a space, and its value. */
  ghost predicate Shows(line: string, attribute: (string, string)) {
    exists key, value ::
      IsShownKey(attribute.0, key) && IsFiltered(attribute.1, value) && line == key + ": " + value
  }

  lemma AttributeIsShown(attribute: (string, string))
    ensures Shows(AttributeLine(attribute), attribute)
  {
    KeyIsShown(attribute.0);
    SanitisedIsFiltered(attribute.1);
  }

  /** Plan lines: what the plan says, line by line, or that there is none, or that it is blank. */
  predicate ShowsPlan(lines: seq<string>, plan: Option<string>) {
    match plan
    case None => lines == ["(no plan)"]
    case Some(content) =>
      if AllSpace(content) then lines == ["(empty plan)"]
      else
        |lines| == |Lines(content)| && forall i | 0 <= i < |lines| :: IsFiltered(Lines(content)[i], lines[i])
  }

  lemma PlanIsShown(plan: Option<string>)
    ensures ShowsPlan(PlanLines(plan), plan)
  {
    if plan.Some? {
      var before, after := TrimParts(plan.value);
      var lines := Lines(plan.value);
      forall i | 0 <= i < |lines| ensures IsFiltered(lines[i], SanitiseLine(lines[i])) {
        SanitisedIsFiltered(lines[i]);
      }
    }
  }

  // ---------------------------------------------------------------- rendering

  lemma OneAttributeMore(head: seq<string>, attributes: seq<(string, string)>, i: nat)
    requires i < |attributes|
    ensures head + AttributeLines(attributes)[..i] + [AttributeLine(attributes[i])]
            == head + AttributeLines(attributes)[..i + 1]
  {
  }

  lemma AppendInTurn<T>(lines: seq<T>, a: T, b: T, rest: seq<T>)
    ensures lines + [a] + [b] + rest == lines + ([a, b] + rest)
  {
  }

  method Render(p: FingerProfile, includePlan: bool, plan: Option<string>) returns (lines: seq<string>)
    ensures lines == Rendered(p, includePlan, plan)
  {
    ghost var head := ["User: " + p.username];
    lines := ["User: " + p.username];
    for i := 0 to |p.attributes|
      invariant lines == head + AttributeLines(p.attributes)[..i]
    {
      var (key, value) := p.attributes[i];
      var normal := NormaliseKey(key);
      OneAttributeMore(head, p.attributes, i);
      lines := lines + [normal + ": " + SanitiseLine(value)];
    }
    ghost var shown := lines;
    assert shown == head + AttributeLines(p.attributes);
    if includePlan {
      AppendInTurn(lines, "", "Plan:", PlanLines(plan));
      lines := lines + [""];
      lines := lines + ["Plan:"];
      lines := lines + PlanLines(plan);
    }
    assert lines == shown + PlanBlock(includePlan, plan);
    AppendInTurn(lines, "", "Powered by fingermouse", []);
    lines := lines + [""];
    lines := lines + ["Powered by fingermouse"];
  }

  // ---------------------------------------------------------------- what the lines hold

  lemma {:induction false} SanitisedIsPrintable(s: string)
    ensures AllPrintable(SanitiseLine(s))
    ensures AllPrintable(s) <==> SanitiseLine(s) == s
    ensures |SanitiseLine(s)| <= |s|
  {
    if s != [] {
      var rest := SanitiseLine(s[1..]);
      SanitisedIsPrintable(s[1..]);
      assert s == [s[0]] + s[1..];
      if IsPrintable(s[0]) {
        assert SanitiseLine(s) == [s[0]] + rest;
        assert SanitiseLine(s)[1..] == rest;
      }
    }
  }

  lemma NormalKeyKeeps(key: string)
    ensures AllPrintable(NormalKey(key)) <==> AllPrintable(key)
    ensures HasCrlf(NormalKey(key)) <==> HasCrlf(key)
  {
    var r := NormalKey(key);
    assert forall i | 0 <= i < |key| :: IsPrintable(r[i]) <==> IsPrintable(key[i]);
    assert forall i | 0 <= i < |key| :: (r[i] == '\r' <==> key[i] == '\r') && (r[i] == '\n' <==> key[i] == '\n');
  }

  predicate PrintableKeys(p: FingerProfile) {
    forall i | 0 <= i < |p.attributes| :: AllPrintable(p.attributes[i].0)
  }

  predicate WholeKeys(p: FingerProfile) {
    forall i | 0 <= i < |p.attributes| :: !HasCrlf(p.attributes[i].0)
  }

  predicate AllLinesPrintable(lines: seq<string>) {
    forall i | 0 <= i < |lines| :: AllPrintable(lines[i])
  }

  predicate AllLinesPlain(lines: seq<string>) {
    forall i | 0 <= i < |lines| :: IsPlain(lines[i])
  }

  lemma PrintableIsPlain(line: string)
    requires AllPrintable(line)
    ensures IsPlain(line)
  {
  }

  /** A line is printable, or in one piece, exactly when its key is. */
  lemma AttributeLineKeeps(attribute: (string, string))
    ensures AllPrintable(AttributeLine(attribute)) <==> AllPrintable(attribute.0)
    ensures IsPlain(AttributeLine(attribute)) <==> !HasCrlf(attribute.0)
  {
    var key, tail := NormalKey(attribute.0), ": " + SanitiseLine(attribute.1);
    var line := AttributeLine(attribute);
    SanitisedIsPrintable(attribute.1);
    NormalKeyKeeps(attribute.0);
    assert line == key + tail && AllPrintable(tail);
    assert forall i | 0 <= i < |line| :: line[i] == if i < |key| then key[i] else tail[i - |key|];
    if AllPrintable(line) {
      assert forall i | 0 <= i < |key| :: key[i] == line[i];
    }
    assert IsPrintable(line[|line| - 1]);
    PairsInFront(key, tail);
  }

  /** A CRLF lies wholly in front of printable text. */
  lemma PairsInFront(front: string, tail: string)
    requires AllPrintable(tail)
    ensures HasCrlf(front + tail) <==> HasCrlf(front)
  {
    var line := front + tail;
    if HasCrlf(line) {
      var i :| 0 <= i < |line| - 1 && line[i] == '\r' && line[i + 1] == '\n';
      assert i + 1 < |front|;
      assert front[i] == '\r' && front[i + 1] == '\n';
    }
    if HasCrlf(front) {
      var i :| 0 <= i < |front| - 1 && front[i] == '\r' && front[i + 1] == '\n';
      assert line[i] == '\r' && line[i + 1] == '\n';
    }
  }

  lemma PlanIsPrintable(plan: Option<string>)
    ensures AllLinesPrintable(PlanLines(plan))
  {
    if plan.Some? && Trim(plan.value) != [] {
      var lines := Lines(plan.value);
      forall i | 0 <= i < |lines| ensures AllPrintable(SanitiseLine(lines[i])) {
        SanitisedIsPrintable(lines[i]);
      }
    }
  }

  lemma UsernameIsPrintable(username: string)
    requires IsNormalUsername(username)
    ensures AllPrintable("User: " + username)
  {
  }

  /** The rendered lines are all printable, or all in one piece, exactly when every key is; no plan text and no
      value can spoil them. */
  lemma LinesAreAsCleanAsKeys(p: FingerProfile, includePlan: bool, plan: Option<string>)
    requires IsNormalUsername(p.username)
    ensures AllLinesPrintable(Rendered(p, includePlan, plan)) <==> PrintableKeys(p)
    ensures AllLinesPlain(Rendered(p, includePlan, plan)) <==> WholeKeys(p)
  {
    var lines, before := Rendered(p, includePlan, plan), ["User: " + p.username];
    var middle, after := AttributeLines(p.attributes), PlanBlock(includePlan, plan) + FOOTER;
    UsernameIsPrintable(p.username);
    PlanIsPrintable(plan);
    AfterIsPrintable(includePlan, plan);
    assert lines == before + middle + after;
    forall i | 0 <= i < |p.attributes|
      ensures AllPrintable(lines[i + 1]) <==> AllPrintable(p.attributes[i].0)
      ensures IsPlain(lines[i + 1]) <==> !HasCrlf(p.attributes[i].0)
    {
      assert lines[i + 1] == middle[i];
      AttributeLineKeeps(p.attributes[i]);
    }
    forall i | 0 <= i < |lines| && !(1 <= i <= |p.attributes|) ensures AllPrintable(lines[i]) && IsPlain(lines[i]) {
      if i > 0 {
        assert lines[i] == after[i - 1 - |middle|];
      }
      PrintableIsPlain(lines[i]);
    }
    if PrintableKeys(p) {
      forall i | 0 <= i < |lines| ensures AllPrintable(lines[i]) {
        if 1 <= i <= |p.attributes| {
          assert AllPrintable(p.attributes[i - 1].0);
        }
      }
    }
    if WholeKeys(p) {
      forall i | 0 <= i < |lines| ensures IsPlain(lines[i]) {
        if 1 <= i <= |p.attributes| {
          assert !HasCrlf(p.attributes[i - 1].0);
        }
      }
    }
    if AllLinesPrintable(lines) {
      forall i | 0 <= i < |p.attributes| ensures AllPrintable(p.attributes[i].0) {
        assert AllPrintable(lines[i + 1]);
      }
    }
    if AllLinesPlain(lines) {
      forall i | 0 <= i < |p.attributes| ensures !HasCrlf(p.attributes[i].0) {
        assert IsPlain(lines[i + 1]);
      }
    }
  }

  lemma AfterIsPrintable(includePlan: bool, plan: Option<string>)
    ensures AllLinesPrintable(PlanBlock(includePlan, plan) + FOOTER)
  {
    BlockIsPrintable(includePlan, plan);
    PrintableConcat(PlanBlock(includePlan, plan), FOOTER);
  }

  lemma BlockIsPrintable(includePlan: bool, plan: Option<string>)
    ensures AllLinesPrintable(PlanBlock(includePlan, plan))
  {
    PlanIsPrintable(plan);
    PrintableConcat(["", "Plan:"], PlanLines(plan));
  }

  lemma PrintableConcat(a: seq<string>, b: seq<string>)
    requires AllLinesPrintable(a) && AllLinesPrintable(b)
    ensures AllLinesPrintable(a + b)
  {
  }

  // ---------------------------------------------------------------- the response on the wire

  /** A client that cuts the response at CRLF sees exactly the rendered lines when, and only when, no attribute key
      holds a CRLF; and then the response fills its estimate to the byte. */
  lemma ResponsesAreFramedExactly(p: FingerProfile, includePlan: bool, plan: Option<string>)
    requires IsNormalUsername(p.username)
    ensures var lines := Rendered(p, includePlan, plan);
            Split(Framed(lines), []) == Encoded(lines) + [[]] <==> WholeKeys(p)
    ensures var lines := Rendered(p, includePlan, plan);
            WholeKeys(p) ==> |Framed(lines)| == Estimate(lines)
  {
    var lines := Rendered(p, includePlan, plan);
    LinesAreAsCleanAsKeys(p, includePlan, plan);
    FramingRoundTrips(lines);
    FrameFitsTheEstimate(lines);
    assert AllLinesPlain(lines) <==> forall i | 0 <= i < |lines| :: IsPlain(lines[i]);
  }

  /** A quoted TOML key may hold a CRLF, which the response carries through: the reader gets more lines than were
      rendered. */
  lemma CrlfInAKeyAddsLines(p: FingerProfile, includePlan: bool, plan: Option<string>)
    requires !WholeKeys(p)
    ensures var lines := Rendered(p, includePlan, plan);
            |Split(Framed(lines), [])| > |lines| + 1
  {
    var lines := Rendered(p, includePlan, plan);
    var i :| 0 <= i < |p.attributes| && HasCrlf(p.attributes[i].0);
    AttributeLineKeepsCrlf(p.attributes[i]);
    assert lines[i + 1] == AttributeLines(p.attributes)[i];
    FramePieces(lines);
    CountPieces(lines);
    NoneHasCrlfMeans(lines);
  }

  lemma AttributeLineKeepsCrlf(attribute: (string, string))
    requires HasCrlf(attribute.0)
    ensures HasCrlf(TrimLineEndings(AttributeLine(attribute)))
  {
    var key, tail := NormalKey(attribute.0), ": " + SanitiseLine(attribute.1);
    var line := AttributeLine(attribute);
    SanitisedIsPrintable(attribute.1);
    NormalKeyKeeps(attribute.0);
    assert line == key + tail;
    PairsInFront(key, tail);
    assert line[|line| - 1] == tail[|tail| - 1] && IsPrintable(tail[|tail| - 1]);
  }

  predicate PrintableBytes(piece: seq<byte>) {
    forall i | 0 <= i < |piece| :: 0x20 <= piece[i] <= 0x7E
  }

  lemma {:induction false} PrintableEncoding(s: string)
    requires AllPrintable(s)
    ensures |Encode(s)| == |s| && PrintableBytes(Encode(s))
    ensures forall i | 0 <= i < |s| :: Encode(s)[i] == s[i] as int
  {
    if s != [] {
      PrintableEncoding(s[1..]);
      assert Encode(s) == [s[0] as int] + Encode(s[1..]);
    }
  }

  /** With printable keys, nothing but printable ASCII stands between the CRLFs. */
  lemma ResponsesArePrintable(p: FingerProfile, includePlan: bool, plan: Option<string>)
    requires IsNormalUsername(p.username) && PrintableKeys(p)
    ensures var pieces := Split(Framed(Rendered(p, includePlan, plan)), []);
            && JoinCrlf(pieces) == Framed(Rendered(p, includePlan, plan))
            && forall i | 0 <= i < |pieces| :: PrintableBytes(pieces[i])
  {
    var lines := Rendered(p, includePlan, plan);
    var pieces := Split(Framed(lines), []);
    LinesAreAsCleanAsKeys(p, includePlan, plan);
    ResponsesAreFramedExactly(p, includePlan, plan);
    FramesEndInCrlf(lines);
    PrintableKeysAreWhole(p);
    forall i | 0 <= i < |pieces| ensures PrintableBytes(pieces[i]) {
      if i < |lines| {
        assert pieces[i] == Encode(lines[i]) && AllPrintable(lines[i]);
        PrintableEncoding(lines[i]);
      }
    }
  }

  lemma PrintableKeysAreWhole(p: FingerProfile)
    requires PrintableKeys(p)
    ensures WholeKeys(p)
  {
    forall i | 0 <= i < |p.attributes| ensures !HasCrlf(p.attributes[i].0) {
      assert AllPrintable(p.attributes[i].0);
    }
  }

  // ---------------------------------------------------------------- reading a response back

  datatype Reply = Reply(username: string, attributes: seq<string>, plan: Option<seq<string>>)

  /** The number of lines before the first empty one. */
  function FirstBlank(lines: seq<string>): (n: nat)
    ensures n <= |lines|
  {
    if lines == [] || lines[0] == [] then 0 else 1 + FirstBlank(lines[1..])
  }

  /** How a reader makes out the parts: the name in the first line, attributes up to the first empty line, the plan
      between its heading and the footer. */
  function ReadReply(lines: seq<string>): Option<Reply> {
    var n := FirstBlank(lines);
    var tail := |lines| - n;
    if n == 0 || !("User: " <= lines[0]) || tail < 2 || lines[|lines| - 2..] != ["", "Powered by fingermouse"] then None
    else if tail == 2 then Some(Reply(lines[0][6..], lines[1..n], None))
    else if tail == 3 || lines[n..n + 2] != ["", "Plan:"] then None
    else Some(Reply(lines[0][6..], lines[1..n], Some(lines[n + 2..|lines| - 2])))
  }

  /** The reply tells the whole profile: the name, every attribute in order, and the plan if it was asked for. */
  ghost predicate Tells(reply: Reply, p: FingerProfile, includePlan: bool, plan: Option<string>) {
    && reply.username == p.username
    && |reply.attributes| == |p.attributes|
    && (forall i | 0 <= i < |p.attributes| :: Shows(reply.attributes[i], p.attributes[i]))
    && (reply.plan.Some? <==> includePlan)
    && (includePlan ==> ShowsPlan(reply.plan.value, plan))
  }

  lemma {:induction false} FirstBlankAt(front: seq<string>, rest: seq<string>)
    requires forall i | 0 <= i < |front| :: front[i] != []
    requires rest != [] && rest[0] == []
    ensures FirstBlank(front + rest) == |front|
  {
    if front == [] {
      assert front + rest == rest;
    } else {
      FirstBlankAt(front[1..], rest);
      assert (front + rest)[1..] == front[1..] + rest;
    }
  }

  lemma PartsAreRead(name: string, attributes: seq<string>, plan: Option<seq<string>>)
    requires forall i | 0 <= i < |attributes| :: attributes[i] != []
    ensures ReadReply(["User: " + name] + attributes
                      + (if plan.Some? then ["", "Plan:"] + plan.value else [])
                      + ["", "Powered by fingermouse"])
            == Some(Reply(name, attributes, plan))
  {
    var block := if plan.Some? then ["", "Plan:"] + plan.value else [];
    var front, rest := ["User: " + name] + attributes, block + ["", "Powered by fingermouse"];
    var lines := front + block + ["", "Powered by fingermouse"];
    assert lines == front + rest && rest[0] == "";
    FirstBlankAt(front, rest);
    assert lines[0] == "User: " + name && lines[0][6..] == name;
    assert lines[1..|front|] == attributes;
    assert lines[|lines| - 2..] == ["", "Powered by fingermouse"];
    if plan.Some? {
      assert lines[|front|..|front| + 2] == ["", "Plan:"];
      assert lines[|front| + 2..|lines| - 2] == plan.value;
    }
  }

  /** The name, every attribute and every plan line can be read back, whatever the profile and the plan. */
  lemma RenderingReadsBack(p: FingerProfile, includePlan: bool, plan: Option<string>)
    ensures var reply := ReadReply(Rendered(p, includePlan, plan));
            reply.Some? && Tells(reply.value, p, includePlan, plan)
  {
    var attributes, shown := AttributeLines(p.attributes), if includePlan then Some(PlanLines(plan)) else None;
    forall i | 0 <= i < |p.attributes| ensures attributes[i] != [] && Shows(attributes[i], p.attributes[i]) {
      AttributeIsShown(p.attributes[i]);
    }
    PlanIsShown(plan);
    PartsAreRead(p.username, attributes, shown);
  }

  /** A colon and then a space, or an underscore that is shown as one. */
  predicate HasColonGap(key: string) {
    exists i :: 0 <= i < |key| - 1 && key[i] == ':' && (key[i + 1] == ' ' || key[i + 1] == '_')
  }

  /** A shown line comes apart again, at its first colon and space, into the shown key and value exactly when its key
      shows none of its own. */
  lemma AttributesComeApart(attribute: (string, string), line: string)
    requires Shows(line, attribute)
    ensures (exists key, value ::
               && IsShownKey(attribute.0, key) && IsFiltered(attribute.1, value)
               && SplitOnce(line, ": ") == Some((key, value)))
            <==> !HasColonGap(attribute.0)
  {
    var key, value :| IsShownKey(attribute.0, key) && IsFiltered(attribute.1, value) && line == key + ": " + value;
    assert line == key + (": " + value);
    if HasColonGap(attribute.0) {
      var i :| 0 <= i < |key| - 1 && attribute.0[i] == ':' && (attribute.0[i + 1] == ' ' || attribute.0[i + 1] == '_');
      assert line[i] == ':' && line[i + 1] == ' ' && ": " <= line[i..];
      FindIsFirst(line, ": ", i);
    } else {
      forall i | 0 <= i < |key| && key[i] == ':' ensures !(": " <= key[i..]) {
        assert i < |key| - 1 ==> key[i..][1] == key[i + 1] != ' ';
      }
      FindNothing(key, ": ");
      CutAfter(key, ": ", value);
    }
  }

  function AsText(piece: seq<byte>): string {
    seq(|piece|, i requires 0 <= i < |piece| => piece[i] as char)
  }

  function AsTexts(pieces: seq<seq<byte>>): seq<string> {
    seq(|pieces|, i requires 0 <= i < |pieces| => AsText(pieces[i]))
  }

  /** From the wire: with printable keys, a client recovers name, attributes and plan from the bytes alone. */
  lemma ResponsesReadBack(p: FingerProfile, includePlan: bool, plan: Option<string>)
    requires IsNormalUsername(p.username) && PrintableKeys(p)
    ensures var pieces := Split(Framed(Rendered(p, includePlan, plan)), []);
            var reply := ReadReply(AsTexts(pieces[..|pieces| - 1]));
            reply.Some? && Tells(reply.value, p, includePlan, plan)
  {
    var lines := Rendered(p, includePlan, plan);
    var pieces := Split(Framed(lines), []);
    LinesAreAsCleanAsKeys(p, includePlan, plan);
    PrintableKeysAreWhole(p);
    ResponsesAreFramedExactly(p, includePlan, plan);
    assert pieces[..|pieces| - 1] == Encoded(lines);
    forall i | 0 <= i < |lines| ensures AsText(Encoded(lines)[i]) == lines[i] {
      assert AllPrintable(lines[i]);
      PrintableEncoding(lines[i]);
      assert AsText(Encode(lines[i])) == lines[i];
    }
    assert AsTexts(Encoded(lines)) == lines;
    RenderingReadsBack(p, includePlan, plan);
  }

  // ---------------------------------------------------------------- plan text

  /** A plan file: each line with its ending, a line feed or a carriage return and a line feed. */
  function PlanText(lines: seq<string>, crlf: seq<bool>): string
    requires |crlf| == |lines|
  {
    if lines == [] then []
    else lines[0] + (if crlf[0] then "\r" else "") + "\n" + PlanText(lines[1..], crlf[1..])
  }

  lemma {:induction false} PlanTextLines(lines: seq<string>, crlf: seq<bool>)
    requires |crlf| == |lines| && AllLinesPrintable(lines)
    ensures Lines(PlanText(lines, crlf)) == lines
  {
    if lines != [] {
      var first, rest := lines[0] + (if crlf[0] then "\r" else ""), PlanText(lines[1..], crlf[1..]);
      var text := PlanText(lines, crlf);
      assert AllPrintable(lines[0]) && '\n' !in first;
      FindChar(first, '\n', rest);
      assert text == first + ['\n'] + rest;
      assert text[..|first|] == first && text[|first| + 1..] == rest;
      assert StripCr(first) == lines[0];
      PlanTextLines(lines[1..], crlf[1..]);
      assert lines == [lines[0]] + lines[1..];
    }
  }

  /** Printable plan lines, however each is ended, are shown exactly as written; a blank plan is said to be empty. */
  lemma {:induction false} PlansAreShownAsWritten(lines: seq<string>, crlf: seq<bool>)
    requires |crlf| == |lines| && AllLinesPrintable(lines)
    ensures PlanLines(Some(PlanText(lines, crlf)))
            == if forall i | 0 <= i < |lines| :: AllSpace(lines[i]) then ["(empty plan)"] else lines
  {
    var text := PlanText(lines, crlf);
    var before, after := TrimParts(text);
    PlanTextIsSpace(lines, crlf);
    PlanTextLines(lines, crlf);
    forall i | 0 <= i < |lines| ensures SanitiseLine(lines[i]) == lines[i] {
      SanitisedIsPrintable(lines[i]);
    }
    assert SanitiseAll(lines) == lines;
  }

  lemma {:induction false} PlanTextIsSpace(lines: seq<string>, crlf: seq<bool>)
    requires |crlf| == |lines|
    ensures AllSpace(PlanText(lines, crlf)) <==> forall i | 0 <= i < |lines| :: AllSpace(lines[i])
  {
    if lines != [] {
      PlanTextIsSpace(lines[1..], crlf[1..]);
      var ending := (if crlf[0] then "\r" else "") + "\n";
      var rest := PlanText(lines[1..], crlf[1..]);
      assert PlanText(lines, crlf) == lines[0] + ending + rest;
      SpaceInParts(lines[0], ending, rest);
      assert forall i | 1 <= i < |lines| :: lines[i] == lines[1..][i - 1];
      assert forall i | 0 <= i < |lines| - 1 :: lines[1..][i] == lines[i + 1];
    }
  }

  lemma SpaceInParts(a: string, b: string, c: string)
    requires AllSpace(b)
    ensures AllSpace(a + b + c) <==> AllSpace(a) && AllSpace(c)
  {
    var s := a + b + c;
    assert forall i | 0 <= i < |a| :: s[i] == a[i];
    assert forall i | 0 <= i < |c| :: s[|a| + |b| + i] == c[i];
  }
}
