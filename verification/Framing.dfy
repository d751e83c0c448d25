/** The buffer that frames response lines with CRLF (src/framing.rs), and the bytes it holds. */
module Framing {
  import opened Text

  type byte = n: int | 0 <= n < 0x100

  const CR: byte := 13
  const LF: byte := 10

  /** UTF-8, section 3 of RFC 3629. */
  function Utf8(c: char): (b: seq<byte>)
    ensures |b| == CharLen(c)
    ensures c < '\U{80}' ==> b == [c as int]
    ensures c >= '\U{80}' ==> forall i | 0 <= i < |b| :: b[i] >= 0x80
  {
    var n := c as int;
    if n < 0x80 then [n]
    else if n < 0x800 then [0xC0 + n / 0x40, 0x80 + n % 0x40]
    else if n < 0x1_0000 then [0xE0 + n / 0x1000, 0x80 + n / 0x40 % 0x40, 0x80 + n % 0x40]
    else [0xF0 + n / 0x4_0000, 0x80 + n / 0x1000 % 0x40, 0x80 + n / 0x40 % 0x40, 0x80 + n % 0x40]
  }

  /** The bytes of one character spell its number, by the table in section 3 of RFC 3629. */
  predicate Spells(b: seq<int>, n: int) {
    && (forall i | 1 <= i < |b| :: 0x80 <= b[i] <= 0xBF)
    && if |b| == 1 then n == b[0] <= 0x7F
       else if |b| == 2 then n == (b[0] - 0xC0) * 0x40 + (b[1] - 0x80) && 0xC2 <= b[0] <= 0xDF
       else if |b| == 3 then
         n == (b[0] - 0xE0) * 0x1000 + (b[1] - 0x80) * 0x40 + (b[2] - 0x80) && 0xE0 <= b[0] <= 0xEF && n >= 0x800
       else
         && |b| == 4 && 0xF0 <= b[0] <= 0xF4 && n >= 0x1_0000
         && n == (b[0] - 0xF0) * 0x4_0000 + (b[1] - 0x80) * 0x1000 + (b[2] - 0x80) * 0x40 + (b[3] - 0x80)
  }

  lemma Utf8Spells(c: char)
    ensures Spells(Utf8(c), c as int)
  {
    SixBits(c as int);
    SixBits(c as int / 0x40);
    SixBits(c as int / 0x1000);
  }

  lemma SixBits(n: nat)
    ensures n == n / 0x40 * 0x40 + n % 0x40
    ensures n / 0x40 / 0x40 == n / 0x1000 && n / 0x1000 / 0x40 == n / 0x4_0000
  {
  }

  function Encode(s: string): (b: seq<byte>)
    ensures |b| == ByteLen(s)
  {
    if s == [] then [] else Utf8(s[0]) + Encode(s[1..])
  }

  lemma {:induction false} EncodeConcat(a: string, b: string)
    ensures Encode(a + b) == Encode(a) + Encode(b)
    ensures |a| == 1 ==> Encode(a) == Utf8(a[0])
  {
    if a == [] {
      assert a + b == b;
    } else {
      assert (a + b)[1..] == a[1..] + b;
      EncodeConcat(a[1..], b);
    }
  }

  function TrimLineEndings(line: string): string {
    if line != [] && (line[|line| - 1] == '\r' || line[|line| - 1] == '\n')
    then TrimLineEndings(line[..|line| - 1]) else line
  }

  function Terminated(line: string): seq<byte> {
    Encode(TrimLineEndings(line)) + [CR, LF]
  }

  /** The lines one after another, each with exactly one ending of its own. */
  function Framed(lines: seq<string>): seq<byte> {
    if lines == [] then [] else Terminated(lines[0]) + Framed(lines[1..])
  }

  class CrlfBuffer {
    var bytes: seq<byte>

    constructor ()
      ensures bytes == []
    {
      bytes := [];
    }

    method PushLine(line: string)
      modifies this
      ensures bytes == old(bytes) + Framed([line])
    {
      var trimmed := TrimLineEndings(line);
      bytes := bytes + Encode(trimmed);
      bytes := bytes + [CR, LF];
      assert Framed([line]) == Terminated(line);
    }
  }

  /** The capacity `as_bytes` asks for. */
  function Estimate(lines: seq<string>): nat {
    if lines == [] then 0 else ByteLen(lines[0]) + 2 + Estimate(lines[1..])
  }

  method AsBytes(lines: seq<string>) returns (bytes: seq<byte>)
    ensures bytes == Framed(lines) && |bytes| <= Estimate(lines)
  {
    var buffer := new CrlfBuffer();
    for i := 0 to |lines|
      invariant buffer.bytes == Framed(lines[..i])
    {
      FramedConcat(lines[..i], [lines[i]]);
      assert lines[..i + 1] == lines[..i] + [lines[i]];
      buffer.PushLine(lines[i]);
    }
    assert lines[..|lines|] == lines;
    FrameFitsTheEstimate(lines);
    return buffer.bytes;
  }

  lemma FramedFront(line: string, rest: seq<string>)
    ensures Framed([line] + rest) == Framed([line]) + Framed(rest)
  {
    assert ([line] + rest)[1..] == rest;
    assert Framed([line]) == Terminated(line);
  }

  lemma {:induction false} FramedConcat(a: seq<string>, b: seq<string>)
    ensures Framed(a + b) == Framed(a) + Framed(b)
  {
    if a == [] {
      assert a + b == b;
    } else {
      var first, rest := [a[0]], a[1..];
      assert a == first + rest && a + b == first + (rest + b);
      calc {
        Framed(a + b);
      == { FramedFront(a[0], rest + b); }
        Framed(first) + Framed(rest + b);
      == { FramedConcat(rest, b); }
        Framed(first) + (Framed(rest) + Framed(b));
      == { Reassociate(Framed(first), Framed(rest), Framed(b)); }
        Framed(first) + Framed(rest) + Framed(b);
      == { FramedFront(a[0], rest); }
        Framed(a) + Framed(b);
      }
    }
  }

  // ---------------------------------------------------------------- what a client reads

  /** Cut at every CRLF; the last piece is what no CRLF follows. */
  function Split(b: seq<byte>, line: seq<byte>): (pieces: seq<seq<byte>>)
    ensures pieces != []
    decreases |b|
  {
    if b == [] then [line]
    else if |b| >= 2 && b[0] == CR && b[1] == LF then [line] + Split(b[2..], [])
    else Split(b[1..], line + [b[0]])
  }

  function JoinCrlf(pieces: seq<seq<byte>>): seq<byte>
    requires pieces != []
  {
    if |pieces| == 1 then pieces[0] else pieces[0] + [CR, LF] + JoinCrlf(pieces[1..])
  }

  predicate HasPair<T(==)>(s: seq<T>, cr: T, lf: T) {
    exists i :: 0 <= i < |s| - 1 && s[i] == cr && s[i + 1] == lf
  }

  predicate HasCrlf(line: string) {
    HasPair(line, '\r', '\n')
  }

  function Encoded(lines: seq<string>): seq<seq<byte>> {
    seq(|lines|, i requires 0 <= i < |lines| => Encode(lines[i]))
  }

  lemma HasPairCons<T>(s: seq<T>, cr: T, lf: T)
    requires s != []
    ensures HasPair(s, cr, lf) <==> (|s| >= 2 && s[0] == cr && s[1] == lf) || HasPair(s[1..], cr, lf)
  {
    if HasPair(s, cr, lf) {
      var i :| 0 <= i < |s| - 1 && s[i] == cr && s[i + 1] == lf;
      if i > 0 {
        assert s[1..][i - 1] == cr && s[1..][i] == lf;
      }
    }
    if HasPair(s[1..], cr, lf) {
      var i :| 0 <= i < |s[1..]| - 1 && s[1..][i] == cr && s[1..][i + 1] == lf;
      assert s[i + 1] == cr && s[i + 2] == lf;
    }
  }

  /** Bytes that are not CR cannot start a pair. */
  lemma {:induction false} HasPairSkips(prefix: seq<byte>, rest: seq<byte>)
    requires CR !in prefix
    ensures HasPair(prefix + rest, CR, LF) <==> HasPair(rest, CR, LF)
  {
    if prefix == [] {
      assert prefix + rest == rest;
    } else {
      HasPairCons(prefix + rest, CR, LF);
      assert (prefix + rest)[1..] == prefix[1..] + rest;
      assert (prefix + rest)[0] == prefix[0];
      HasPairSkips(prefix[1..], rest);
    }
  }

  /** Encoding neither makes nor hides a CRLF. */
  lemma {:induction false} EncodingKeepsCrlf(s: string)
    ensures HasPair(Encode(s), CR, LF) <==> HasCrlf(s)
  {
    if s != [] {
      var rest := Encode(s[1..]);
      EncodingKeepsCrlf(s[1..]);
      HasPairCons(s, '\r', '\n');
      if s[0] == '\r' {
        assert Encode(s) == [CR] + rest;
        HasPairCons(Encode(s), CR, LF);
        assert Encode(s)[1..] == rest;
        FirstByte(s[1..]);
      } else {
        HasPairSkips(Utf8(s[0]), rest);
      }
    }
  }

  lemma FirstByte(s: string)
    ensures s == [] <==> Encode(s) == []
    ensures s != [] ==> (Encode(s)[0] == LF <==> s[0] == '\n')
  {
    if s != [] {
      assert Encode(s)[0] == Utf8(s[0])[0];
    }
  }

  /** Splitting is undone by joining: nothing between the pieces but CRLFs. */
  lemma {:induction false} JoinUndoesSplit(b: seq<byte>, line: seq<byte>)
    ensures JoinCrlf(Split(b, line)) == line + b
    decreases |b|
  {
    if b == [] {
    } else if |b| >= 2 && b[0] == CR && b[1] == LF {
      JoinUndoesSplit(b[2..], []);
      var rest := Split(b[2..], []);
      assert ([line] + rest)[1..] == rest;
      assert b == [CR, LF] + b[2..];
    } else {
      JoinUndoesSplit(b[1..], line + [b[0]]);
      assert b == [b[0]] + b[1..];
    }
  }

  /** A CRLF always cuts, whatever surrounds it: the byte before it cannot take its CR away. */
  lemma {:induction false} CrlfCuts(t: seq<byte>, line: seq<byte>, rest: seq<byte>)
    ensures Split(t + [CR, LF] + rest, line) == Split(t, line) + Split(rest, [])
    decreases |t|
  {
    var b := t + [CR, LF] + rest;
    if t == [] {
      assert b[2..] == rest;
    } else if |t| >= 2 && t[0] == CR && t[1] == LF {
      assert b[2..] == t[2..] + [CR, LF] + rest;
      CrlfCuts(t[2..], [], rest);
    } else {
      assert b[0] == t[0] && b[1] == if |t| >= 2 then t[1] else CR;
      assert b[1..] == t[1..] + [CR, LF] + rest;
      CrlfCuts(t[1..], line + [t[0]], rest);
    }
  }

  lemma {:induction false} OnePiece(t: seq<byte>, line: seq<byte>)
    ensures |Split(t, line)| == 1 <==> !HasPair(t, CR, LF)
    ensures !HasPair(t, CR, LF) ==> Split(t, line) == [line + t]
    decreases |t|
  {
    if t == [] {
      assert line + t == line;
    } else {
      HasPairCons(t, CR, LF);
      if !(|t| >= 2 && t[0] == CR && t[1] == LF) {
        OnePiece(t[1..], line + [t[0]]);
        assert line + [t[0]] + t[1..] == line + t;
      }
    }
  }

  // ---------------------------------------------------------------- the size of a frame

  /** A line that brings no ending of its own. */
  predicate IsTrimmed(line: string) {
    line == [] || (line[|line| - 1] != '\r' && line[|line| - 1] != '\n')
  }

  /** All endings are trimmed, in any mix, and nothing else. */
  lemma {:induction false} EndingsAreTrimmed(line: string, endings: string)
    requires IsTrimmed(line) && forall i | 0 <= i < |endings| :: endings[i] == '\r' || endings[i] == '\n'
    ensures TrimLineEndings(line + endings) == line
  {
    if endings == [] {
      assert line + endings == line;
    } else {
      assert (line + endings)[..|line + endings| - 1] == line + endings[..|endings| - 1];
      EndingsAreTrimmed(line, endings[..|endings| - 1]);
    }
  }

  lemma {:induction false} TrimShortens(line: string)
    ensures |TrimLineEndings(line)| <= |line| && TrimLineEndings(line) == line[..|TrimLineEndings(line)|]
    ensures ByteLen(TrimLineEndings(line)) <= ByteLen(line)
    ensures ByteLen(TrimLineEndings(line)) == ByteLen(line) <==> TrimLineEndings(line) == line
    ensures TrimLineEndings(TrimLineEndings(line)) == TrimLineEndings(line)
    ensures TrimLineEndings(line) == line <==> IsTrimmed(line)
  {
    if line != [] && (line[|line| - 1] == '\r' || line[|line| - 1] == '\n') {
      var front, last := line[..|line| - 1], [line[|line| - 1]];
      TrimShortens(front);
      assert line == front + last;
      ByteLenConcat(front, last);
      assert ByteLen(last) == CharLen(last[0]) + ByteLen(last[1..]);
    }
  }

  /** A frame never outgrows its estimate, and fills it exactly when no line brings an ending of its own. */
  lemma {:induction false} FrameFitsTheEstimate(lines: seq<string>)
    ensures |Framed(lines)| <= Estimate(lines)
    ensures |Framed(lines)| == Estimate(lines) <==> forall i | 0 <= i < |lines| :: IsTrimmed(lines[i])
  {
    if lines != [] {
      TrimShortens(lines[0]);
      FrameFitsTheEstimate(lines[1..]);
      assert forall i | 1 <= i < |lines| :: lines[i] == lines[1..][i - 1];
      assert forall i | 0 <= i < |lines| - 1 :: lines[1..][i] == lines[i + 1];
    }
  }

  // ---------------------------------------------------------------- framing round trips

  predicate IsPlain(line: string) {
    IsTrimmed(line) && !HasCrlf(line)
  }

  /** The pieces of a frame are the pieces of its lines, and one empty piece. */
  function LinePieces(lines: seq<string>): seq<seq<byte>> {
    if lines == [] then [[]] else Split(Encode(TrimLineEndings(lines[0])), []) + LinePieces(lines[1..])
  }

  lemma {:induction false} FramePieces(lines: seq<string>)
    ensures Split(Framed(lines), []) == LinePieces(lines)
  {
    if lines != [] {
      CrlfCuts(Encode(TrimLineEndings(lines[0])), [], Framed(lines[1..]));
      FramePieces(lines[1..]);
    }
  }

  predicate NoneHasCrlf(lines: seq<string>) {
    lines == [] || (!HasCrlf(TrimLineEndings(lines[0])) && NoneHasCrlf(lines[1..]))
  }

  lemma {:induction false} PiecesOfLine(line: string)
    ensures |Split(Encode(TrimLineEndings(line)), [])| == 1 <==> !HasCrlf(TrimLineEndings(line))
    ensures !HasCrlf(TrimLineEndings(line)) ==>
            Split(Encode(TrimLineEndings(line)), []) == [Encode(TrimLineEndings(line))]
  {
    var t := Encode(TrimLineEndings(line));
    OnePiece(t, []);
    EncodingKeepsCrlf(TrimLineEndings(line));
    assert [] + t == t;
  }

  /** How many pieces a frame has: one more than its lines, and more still for each CRLF inside one. */
  lemma {:induction false} CountPieces(lines: seq<string>)
    ensures |LinePieces(lines)| >= |lines| + 1
    ensures |LinePieces(lines)| == |lines| + 1 <==> NoneHasCrlf(lines)
  {
    if lines != [] {
      CountPieces(lines[1..]);
      PiecesOfLine(lines[0]);
    }
  }

  lemma {:induction false} WholePieces(lines: seq<string>)
    requires NoneHasCrlf(lines)
    ensures LinePieces(lines) == Encoded(AllTrimmed(lines)) + [[]]
  {
    if lines != [] {
      var first, rest := TrimLineEndings(lines[0]), AllTrimmed(lines[1..]);
      WholePieces(lines[1..]);
      PiecesOfLine(lines[0]);
      assert AllTrimmed(lines) == [first] + rest;
      assert Encoded([first] + rest) == [Encode(first)] + Encoded(rest);
    }
  }

  lemma {:induction false} NoneHasCrlfMeans(lines: seq<string>)
    ensures NoneHasCrlf(lines) <==> forall i | 0 <= i < |lines| :: !HasCrlf(TrimLineEndings(lines[i]))
  {
    if lines != [] {
      NoneHasCrlfMeans(lines[1..]);
      assert forall i | 1 <= i < |lines| :: lines[i] == lines[1..][i - 1];
      assert forall i | 0 <= i < |lines| - 1 :: lines[1..][i] == lines[i + 1];
    }
  }

  function AllTrimmed(lines: seq<string>): seq<string> {
    seq(|lines|, i requires 0 <= i < |lines| => TrimLineEndings(lines[i]))
  }

  /** Splitting a frame at CRLF returns exactly its lines when, and only when, no line contains a CRLF or ends in
      a CR or LF. */
  lemma {:induction false} FramingRoundTrips(lines: seq<string>)
    ensures Split(Framed(lines), []) == Encoded(lines) + [[]] <==> forall i | 0 <= i < |lines| :: IsPlain(lines[i])
  {
    FramePieces(lines);
    CountPieces(lines);
    NoneHasCrlfMeans(lines);
    if NoneHasCrlf(lines) {
      WholePieces(lines);
    }
    var pieces := Split(Framed(lines), []);
    if forall i | 0 <= i < |lines| :: IsPlain(lines[i]) {
      assert AllTrimmed(lines) == lines;
    }
    if pieces == Encoded(lines) + [[]] {
      forall i | 0 <= i < |lines| ensures IsPlain(lines[i]) {
        assert pieces[i] == Encode(lines[i]) == Encode(AllTrimmed(lines)[i]);
        TrimShortens(lines[i]);
      }
    }
  }

  /** Whatever the lines, the frame is its pieces with CRLF between them, and it ends in CRLF. */
  lemma {:induction false} FramesEndInCrlf(lines: seq<string>)
    ensures JoinCrlf(Split(Framed(lines), [])) == Framed(lines)
    ensures Split(Framed(lines), [])[|Split(Framed(lines), [])| - 1] == []
  {
    JoinUndoesSplit(Framed(lines), []);
    assert [] + Framed(lines) == Framed(lines);
    FramePieces(lines);
    LastPiece(lines);
  }

  lemma {:induction false} LastPiece(lines: seq<string>)
    ensures LinePieces(lines) != [] && LinePieces(lines)[|LinePieces(lines)| - 1] == []
  {
    if lines != [] {
      LastPiece(lines[1..]);
    }
  }
}
