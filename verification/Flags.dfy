/** Compiler flag lists, normalised so that `-C value` and `-Cvalue` compare equal
    (tests/build_standard_support/config.rs), and their independent reference (exhaustive.rs). */
module Flags {
  import opened Wrappers

  datatype Pin = Nightly | Stable

  const THREADS_FLAG: string := "-Zthreads=8"
  const LINKER_FLAG: string := "-Clink-arg=-fuse-ld=mold"

  predicate TakesThreads(pin: Pin) {
    pin.Nightly?
  }

  // ---------------------------------------------------------------- normalisation

  /** The list ends in a `-C` that still waits for its value. */
  predicate Pending(flags: seq<string>) {
    flags != [] && flags[|flags| - 1] == "-C"
  }

  function Push(flags: seq<string>, word: string): seq<string> {
    if Pending(flags) then flags[..|flags| - 1] + ["-C" + word] else flags + [word]
  }

  function PushAll(flags: seq<string>, words: seq<string>): seq<string>
    decreases words
  {
    if words == [] then flags else PushAll(Push(flags, words[0]), words[1..])
  }

  function Joined(words: seq<string>): seq<string> {
    PushAll([], words)
  }

  method FromWords(words: seq<string>) returns (joined: seq<string>)
    ensures joined == Joined(words)
  {
    joined := [];
    for i := 0 to |words|
      invariant PushAll(joined, words[i..]) == Joined(words)
    {
      assert words[i..][1..] == words[i + 1..];
      if joined != [] && joined[|joined| - 1] == "-C" {
        joined := joined[|joined| - 1 := "-C" + words[i]];
        assert joined == joined[..|joined| - 1] + ["-C" + words[i]];
      } else {
        joined := joined + [words[i]];
      }
    }
  }

  /** No `-C` waits for a value except perhaps the last. */
  predicate Settled(flags: seq<string>) {
    forall i | 0 <= i < |flags| - 1 :: flags[i] != "-C"
  }

  lemma {:induction false} PushAllSettles(flags: seq<string>, words: seq<string>)
    requires Settled(flags)
    ensures Settled(PushAll(flags, words))
    decreases words
  {
    if words != [] {
      PushAllSettles(Push(flags, words[0]), words[1..]);
    }
  }

  lemma {:induction false} PushAllSettled(flags: seq<string>, words: seq<string>)
    requires !Pending(flags) && Settled(words)
    ensures PushAll(flags, words) == flags + words
    decreases words
  {
    if words != [] {
      assert Push(flags, words[0]) == flags + [words[0]];
      if |words| == 1 {
        assert words[1..] == [];
      } else {
        PushAllSettled(flags + [words[0]], words[1..]);
      }
      assert flags + [words[0]] + words[1..] == flags + words;
    }
  }

  /** Normalising is idempotent, on every list of words. */
  lemma JoinedIsIdempotent(words: seq<string>)
    ensures Joined(Joined(words)) == Joined(words)
  {
    PushAllSettles([], words);
    PushAllSettled([], Joined(words));
  }

  lemma {:induction false} PushAllConcat(flags: seq<string>, a: seq<string>, b: seq<string>)
    ensures PushAll(flags, a + b) == PushAll(PushAll(flags, a), b)
    decreases a
  {
    if a == [] {
      assert a + b == b;
    } else {
      assert (a + b)[1..] == a[1..] + b;
      PushAllConcat(Push(flags, a[0]), a[1..], b);
    }
  }

  lemma {:induction false} PushAllOnSettled(flags: seq<string>, words: seq<string>, tail: seq<string>)
    requires !Pending(flags)
    ensures PushAll(flags + tail, words) == flags + PushAll(tail, words)
    decreases words
  {
    if words != [] {
      if tail == [] {
        assert flags + tail == flags && Push(flags, words[0]) == flags + Push(tail, words[0]);
      } else {
        assert (flags + tail)[..|flags + tail| - 1] == flags + tail[..|tail| - 1];
        assert Push(flags + tail, words[0]) == flags + Push(tail, words[0]);
      }
      PushAllOnSettled(flags, words[1..], Push(tail, words[0]));
    }
  }

  /** Normalising distributes over concatenation exactly when the left part does not end in a pending `-C`,
      or nothing follows it. */
  lemma JoinedDistributes(a: seq<string>, b: seq<string>)
    ensures Joined(a + b) == Joined(a) + Joined(b) <==> b == [] || !Pending(Joined(a))
  {
    PushAllConcat([], a, b);
    if b == [] {
      assert Joined(a) + [] == Joined(a);
    } else if Pending(Joined(a)) {
      PushAllSettles([], a + b);
      JoinedIsEmptyOnlyOfNothing(b);
      var sum := Joined(a) + Joined(b);
      assert sum[|Joined(a)| - 1] == "-C" && |Joined(a)| - 1 < |sum| - 1;
    } else {
      PushAllOnSettled(Joined(a), b, []);
      assert Joined(a) + [] == Joined(a);
    }
  }

  lemma {:induction false} PushAllNeverShrinks(flags: seq<string>, words: seq<string>)
    ensures |PushAll(flags, words)| >= |flags|
    decreases words
  {
    if words != [] {
      PushAllNeverShrinks(Push(flags, words[0]), words[1..]);
    }
  }

  lemma JoinedIsEmptyOnlyOfNothing(words: seq<string>)
    ensures Joined(words) == [] <==> words == []
  {
    if words != [] {
      PushAllNeverShrinks(Push([], words[0]), words[1..]);
    }
  }

  /** Writing a pair `-C v` as one word changes nothing, wherever the `-C` is not itself a value. */
  lemma FusingPairsChangesNothing(a: seq<string>, v: string, b: seq<string>)
    requires !Pending(Joined(a))
    ensures Joined(a + ["-C", v] + b) == Joined(a + ["-C" + v] + b)
  {
    PushAllConcat([], a + ["-C", v], b);
    PushAllConcat([], a + ["-C" + v], b);
    PushAllConcat([], a, ["-C", v]);
    PushAllConcat([], a, ["-C" + v]);
    var j := Joined(a);
    var pair := Push(Push(j, "-C"), v);
    assert Push(j, "-C")[..|j|] == j;
    assert PushAll(j, ["-C", v]) == PushAll(Push(j, "-C"), [v]) == pair by {
      assert ["-C", v][1..] == [v] && [v][1..] == [];
    }
    assert PushAll(j, ["-C" + v]) == Push(j, "-C" + v) by {
      assert ["-C" + v][1..] == [];
    }
  }

  // ---------------------------------------------------------------- the reference

  /** Whether the word after `words` is the value of a `-C`, counting words alone. */
  predicate AfterC(words: seq<string>) {
    words != [] && words[|words| - 1] == "-C" && !AfterC(words[..|words| - 1])
  }

  /** The reference: append each value to the `-C` before it. */
  function ReferencePairs(words: seq<string>): seq<string> {
    if words == [] then []
    else
      var before := words[..|words| - 1];
      var word := words[|words| - 1];
      var out := ReferencePairs(before);
      if out != [] && AfterC(before) then out[..|out| - 1] + [out[|out| - 1] + word] else out + [word]
  }

  /** An empty word is the value of a `-C`, and more words follow it. */
  predicate HasEmptyValue(words: seq<string>) {
    exists i :: 0 <= i < |words| - 1 && words[i] == "" && AfterC(words[..i])
  }

  lemma {:induction false} ReferenceIsOpenAfterC(words: seq<string>)
    requires AfterC(words)
    ensures ReferencePairs(words) == ReferencePairs(words[..|words| - 1]) + ["-C"]
  {
  }

  lemma EmptyValueExtends(words: seq<string>)
    requires words != []
    ensures
      var before := words[..|words| - 1];
      && (HasEmptyValue(before) ==> HasEmptyValue(words))
      && (before != [] && before[|before| - 1] == "" && AfterC(before[..|before| - 1]) ==> HasEmptyValue(words))
  {
    var before := words[..|words| - 1];
    if HasEmptyValue(before) {
      var i :| 0 <= i < |before| - 1 && before[i] == "" && AfterC(before[..i]);
      assert words[i] == "" && words[..i] == before[..i];
    }
    if before != [] && before[|before| - 1] == "" && AfterC(before[..|before| - 1]) {
      assert words[|before| - 1] == "" && words[..|before| - 1] == before[..|before| - 1];
    }
  }

  lemma {:induction false} ReferenceAgreesUnlessEmpty(words: seq<string>)
    requires !HasEmptyValue(words)
    ensures ReferencePairs(words) == Joined(words)
    ensures AfterC(words) ==> Pending(Joined(words))
    ensures Pending(Joined(words)) ==>
              AfterC(words) || (words != [] && words[|words| - 1] == "" && AfterC(words[..|words| - 1]))
  {
    if words != [] {
      var before, word := words[..|words| - 1], words[|words| - 1];
      EmptyValueExtends(words);
      ReferenceAgreesUnlessEmpty(before);
      PushAllConcat([], before, [word]);
      assert before + [word] == words;
      assert PushAll(Joined(before), [word]) == Push(Joined(before), word) by { assert [word][1..] == []; }
      JoinedIsEmptyOnlyOfNothing(before);
    }
  }

  lemma {:induction false} EmptyValueStays(words: seq<string>, i: nat)
    requires i < |words| - 1 && words[i] == "" && AfterC(words[..i])
    ensures 0 < |ReferencePairs(words[..i])| < |ReferencePairs(words)|
    ensures ReferencePairs(words)[|ReferencePairs(words[..i])| - 1] == "-C"
  {
    var before := words[..|words| - 1];
    assert before[..i] == words[..i];
    if i == |before| - 1 {
      ReferenceIsOpenAfterC(words[..i]);
      assert "-C" + "" == "-C";
      assert ReferencePairs(before) == ReferencePairs(words[..i]);
      assert !AfterC(before);
    } else {
      EmptyValueStays(before, i);
    }
  }

  /** The normaliser agrees with the reference exactly on the lists in which no `-C` takes an empty value
      that more words follow; in particular on all lists of non-empty words. */
  lemma {:induction false} JoinedMeetsTheReference(words: seq<string>)
    ensures Joined(words) == ReferencePairs(words) <==> !HasEmptyValue(words)
    ensures (forall i | 0 <= i < |words| :: words[i] != "") ==> Joined(words) == ReferencePairs(words)
  {
    if HasEmptyValue(words) {
      var i :| 0 <= i < |words| - 1 && words[i] == "" && AfterC(words[..i]);
      EmptyValueStays(words, i);
      PushAllSettles([], words);
    } else {
      ReferenceAgreesUnlessEmpty(words);
    }
  }

  /** The disagreement, at its smallest: an empty value leaves the normaliser waiting for another. */
  lemma {:induction false} EmptyValueDisagrees(x: string)
    ensures Joined(["-C", "", x]) == ["-C" + x] && ReferencePairs(["-C", "", x]) == ["-C", x]
  {
    EmptyValueJoined(x);
    EmptyValueReferred(x);
  }

  lemma {:induction false} EmptyValueJoined(x: string)
    ensures Joined(["-C", "", x]) == ["-C" + x]
  {
    assert ["-C", "", x][1..] == ["", x] && ["", x][1..] == [x] && [x][1..] == [];
    assert "-C" + "" == "-C";
    assert Push([], "-C") == ["-C"] && Push(["-C"], "") == ["-C"] && Push(["-C"], x) == ["-C" + x];
    assert PushAll(["-C"], [x]) == ["-C" + x];
    assert PushAll(["-C"], ["", x]) == ["-C" + x];
  }

  lemma {:induction false} EmptyValueReferred(x: string)
    ensures ReferencePairs(["-C", "", x]) == ["-C", x]
  {
    assert "-C" + "" == "-C";
    assert ["-C", "", x][..2] == ["-C", ""] && ["-C", ""][..1] == ["-C"] && ["-C"][..0] == [];
    assert !AfterC([]) && AfterC(["-C"]) && !AfterC(["-C", ""]);
    assert ReferencePairs(["-C"]) == ["-C"] && ReferencePairs(["-C", ""]) == ["-C"];
  }

  // ---------------------------------------------------------------- what a list must name

  predicate Names(flags: seq<string>, flag: string) {
    flag in flags
  }

  /** In either spelling. */
  predicate DeniesWarnings(flags: seq<string>) {
    "-Dwarnings" in flags || exists i :: 0 <= i < |flags| - 1 && flags[i] == "-D" && flags[i + 1] == "warnings"
  }

  function WithoutLinker(flags: seq<string>): seq<string> {
    if flags == [] then []
    else (if flags[0] == LINKER_FLAG then [] else [flags[0]]) + WithoutLinker(flags[1..])
  }

  /** Either spelling, anywhere in the list. */
  lemma DeniesWarningsIs(flags: seq<string>)
    ensures DeniesWarnings(flags) <==>
            || (exists a, b :: flags == a + ["-Dwarnings"] + b)
            || (exists a, b :: flags == a + ["-D", "warnings"] + b)
  {
    if "-Dwarnings" in flags {
      var i :| 0 <= i < |flags| && flags[i] == "-Dwarnings";
      assert flags == flags[..i] + ["-Dwarnings"] + flags[i + 1..];
    }
    if i :| 0 <= i < |flags| - 1 && flags[i] == "-D" && flags[i + 1] == "warnings" {
      assert flags == flags[..i] + ["-D", "warnings"] + flags[i + 2..];
    }
    if a, b :| flags == a + ["-Dwarnings"] + b {
      assert flags[|a|] == "-Dwarnings";
    }
    if a, b :| flags == a + ["-D", "warnings"] + b {
      assert flags[|a|] == "-D" && flags[|a| + 1] == "warnings";
    }
  }

  /** Two lists are the same once the linker flag is skipped on either side. */
  predicate SameButLinker(a: seq<string>, b: seq<string>)
    decreases |a| + |b|
  {
    if a != [] && a[0] == "-Clink-arg=-fuse-ld=mold" then SameButLinker(a[1..], b)
    else if b != [] && b[0] == "-Clink-arg=-fuse-ld=mold" then SameButLinker(a, b[1..])
    else if a == [] || b == [] then a == b
    else a[0] == b[0] && SameButLinker(a[1..], b[1..])
  }

  lemma {:induction false} SameButLinkerIs(a: seq<string>, b: seq<string>)
    ensures SameButLinker(a, b) <==> WithoutLinker(a) == WithoutLinker(b)
    decreases |a| + |b|
  {
    if a != [] && a[0] == LINKER_FLAG {
      SameButLinkerIs(a[1..], b);
    } else if b != [] && b[0] == LINKER_FLAG {
      SameButLinkerIs(a, b[1..]);
    } else if a != [] && b != [] {
      SameButLinkerIs(a[1..], b[1..]);
      assert WithoutLinker(a)[1..] == WithoutLinker(a[1..]) && WithoutLinker(b)[1..] == WithoutLinker(b[1..]);
    }
  }

  /** Stripping leaves the one list without the linker flag that is otherwise the same. */
  lemma {:induction false} WithoutLinkerOf(flags: seq<string>)
    ensures "-Clink-arg=-fuse-ld=mold" !in WithoutLinker(flags)
    ensures "-Clink-arg=-fuse-ld=mold" !in flags ==> WithoutLinker(flags) == flags
    ensures SameButLinker(flags, WithoutLinker(flags))
  {
    if flags != [] {
      WithoutLinkerOf(flags[1..]);
      var rest := WithoutLinker(flags[1..]);
      assert flags[0] != LINKER_FLAG ==> ([flags[0]] + rest)[1..] == rest;
      assert flags == [flags[0]] + flags[1..];
      SkipsOnTheLeft(flags, rest);
    }
  }

  lemma SkipsOnTheLeft(flags: seq<string>, rest: seq<string>)
    requires flags != [] && SameButLinker(flags[1..], rest) && "-Clink-arg=-fuse-ld=mold" !in rest
    ensures SameButLinker(flags, (if flags[0] == "-Clink-arg=-fuse-ld=mold" then [] else [flags[0]]) + rest)
  {
    if flags[0] == "-Clink-arg=-fuse-ld=mold" {
      assert [] + rest == rest;
    } else {
      assert ([flags[0]] + rest)[1..] == rest;
    }
  }

  /** The linker flag makes no difference, wherever it is added. */
  lemma {:induction false} LinkersAreInvisible(a: seq<string>, b: seq<string>)
    ensures SameButLinker(a + b, a + ["-Clink-arg=-fuse-ld=mold"] + b)
  {
    SameButLinkerIs(a + b, a + [LINKER_FLAG] + b);
    WithoutLinkerConcat(a, b);
    WithoutLinkerConcat(a + [LINKER_FLAG], b);
    WithoutLinkerConcat(a, [LINKER_FLAG]);
    assert [LINKER_FLAG][1..] == [] && WithoutLinker([LINKER_FLAG]) == [];
  }

  lemma {:induction false} WithoutLinkerConcat(a: seq<string>, b: seq<string>)
    ensures WithoutLinker(a + b) == WithoutLinker(a) + WithoutLinker(b)
  {
    if a == [] {
      assert a + b == b;
    } else {
      assert (a + b)[1..] == a[1..] + b;
      WithoutLinkerConcat(a[1..], b);
    }
  }

  /** The lists of a compliant configuration are the same but for the linker; one more flag is a difference. */
  lemma {:induction false} LinkerAlone()
    ensures SameButLinker(["-Zthreads=8"], ["-Zthreads=8", "-Clink-arg=-fuse-ld=mold"])
    ensures !SameButLinker(["-Zthreads=8"], ["-Zthreads=8", "-Copt-level=1"])
  {
    LinkersAreInvisible(["-Zthreads=8"], []);
    assert ["-Zthreads=8"] + [] == ["-Zthreads=8"];
    assert ["-Zthreads=8"] + ["-Clink-arg=-fuse-ld=mold"] + [] == ["-Zthreads=8", "-Clink-arg=-fuse-ld=mold"];
    assert ["-Zthreads=8", "-Copt-level=1"][1..] == ["-Copt-level=1"] && ["-Zthreads=8"][1..] == [];
  }

  datatype FlagProblem = ThreadsWrong | LinkerWrong

  function Meets(flags: seq<string>, pin: Pin, takesLinker: bool): Option<FlagProblem> {
    if Names(flags, THREADS_FLAG) != TakesThreads(pin) then Some(ThreadsWrong)
    else if Names(flags, LINKER_FLAG) != takesLinker then Some(LinkerWrong)
    else None
  }

  /** The frontend flag belongs to a nightly pin alone and is looked at first; then the linker to where it is taken. */
  lemma MeetsIs(flags: seq<string>, pin: Pin, takesLinker: bool)
    ensures Meets(flags, pin, takesLinker) ==
            if !("-Zthreads=8" in flags <==> pin == Nightly) then Some(ThreadsWrong)
            else if !("-Clink-arg=-fuse-ld=mold" in flags <==> takesLinker) then Some(LinkerWrong)
            else None
  {
  }
}
