/** The spelling dictionaries of scripts/typos_rollout.py: merging two, and expanding one into corrections. */
module Spelling {
  import opened Wrappers

  // ---------------------------------------------------------------- the order of strings

  predicate Less(a: string, b: string) {
    b != [] && (a == [] || a[0] < b[0] || (a[0] == b[0] && Less(a[1..], b[1..])))
  }

  /** Where two texts first differ decides, and a text comes after its own beginnings. */
  lemma {:induction false} LessIs(a: string, b: string)
    ensures Less(a, b) <==>
            a < b || exists k :: 0 <= k < |a| && k < |b| && a[..k] == b[..k] && a[k] < b[k]
  {
    if a != [] && b != [] && a[0] == b[0] {
      LessIs(a[1..], b[1..]);
      assert a == [a[0]] + a[1..] && b == [b[0]] + b[1..];
      if k :| 0 <= k < |a| && k < |b| && a[..k] == b[..k] && a[k] < b[k] {
        assert a[1..][..k - 1] == a[..k][1..] && b[1..][..k - 1] == b[..k][1..];
      }
      if k :| 0 <= k < |a[1..]| && k < |b[1..]| && a[1..][..k] == b[1..][..k] && a[1..][k] < b[1..][k] {
        assert a[..k + 1] == [a[0]] + a[1..][..k] && b[..k + 1] == [b[0]] + b[1..][..k];
      }
    } else if a != [] && b != [] {
      assert a[..0] == b[..0];
      assert forall k | 0 < k < |a| && k < |b| :: a[..k][0] == a[0] && b[..k][0] == b[0];
    }
  }

  lemma {:induction false} LessIsTotal(a: string, b: string)
    ensures Less(a, b) || a == b || Less(b, a)
    ensures !(Less(a, b) && Less(b, a)) && !(Less(a, b) && a == b)
  {
    if a != [] && b != [] && a[0] == b[0] {
      LessIsTotal(a[1..], b[1..]);
      assert a == [a[0]] + a[1..] && b == [b[0]] + b[1..];
    }
  }

  lemma {:induction false} LessIsTransitive(a: string, b: string, c: string)
    requires Less(a, b) && Less(b, c)
    ensures Less(a, c)
  {
    if a != [] && a[0] == b[0] && b[0] == c[0] {
      LessIsTransitive(a[1..], b[1..], c[1..]);
    }
  }

  predicate IsLeast(m: string, xs: set<string>) {
    m in xs && forall x | x in xs :: x == m || Less(m, x)
  }

  lemma {:induction false} LeastExists(xs: set<string>) returns (m: string)
    requires xs != {}
    ensures IsLeast(m, xs)
  {
    m :| m in xs;
    if xs != {m} {
      var n := LeastExists(xs - {m});
      LessIsTotal(m, n);
      if Less(n, m) {
        m := n;
      } else {
        forall x | x in xs ensures x == m || Less(m, x) {
          if x != m && x != n {
            LessIsTransitive(m, n, x);
          }
        }
      }
    }
  }

  lemma LeastIsUnique(xs: set<string>)
    ensures forall m, n | IsLeast(m, xs) && IsLeast(n, xs) :: m == n
  {
    forall m, n | IsLeast(m, xs) && IsLeast(n, xs) ensures m == n {
      LessIsTotal(m, n);
    }
  }

  function Elements<T>(s: seq<T>): set<T> {
    set x | x in s
  }

  lemma ElementsOfSum<T>(s: seq<T>, t: seq<T>)
    ensures Elements(s + t) == Elements(s) + Elements(t)
  {
  }

  lemma EmptyElements<T>(s: seq<T>)
    ensures Elements(s) == {} <==> s == []
  {
    if s != [] {
      assert s[0] in Elements(s);
    }
  }

  /** `sorted(set(..))`. */
  function Sorted(xs: set<string>): (s: seq<string>)
    ensures Elements(s) == xs && IsSorted(s)
  {
    if xs == {} then []
    else
      assert exists m :: IsLeast(m, xs) by { var m := LeastExists(xs); }
      LeastIsUnique(xs);
      var m :| IsLeast(m, xs);
      var rest := Sorted(xs - {m});
      assert forall i | 0 <= i < |rest| :: rest[i] in Elements(rest);
      ElementsOfSum([m], rest);
      [m] + rest
  }

  /** Strictly ascending, so free of duplicates. */
  predicate IsSorted(s: seq<string>) {
    forall i, j | 0 <= i < j < |s| :: Less(s[i], s[j])
  }

  /** A sorted list is determined by its elements. */
  lemma {:induction false} SortedIsUnique(s: seq<string>, t: seq<string>)
    requires IsSorted(s) && IsSorted(t) && Elements(s) == Elements(t)
    ensures s == t
  {
    EmptyElements(s);
    EmptyElements(t);
    if s != [] && t != [] {
      assert s[0] in Elements(t) && t[0] in Elements(s);
      FirstIsLeast(s);
      FirstIsLeast(t);
      LeastIsUnique(Elements(s));
      assert s[0] == t[0];
      TailElements(s);
      TailElements(t);
      SortedIsUnique(s[1..], t[1..]);
      assert s == [s[0]] + s[1..] && t == [t[0]] + t[1..];
    }
  }

  lemma FirstIsLeast(s: seq<string>)
    requires s != [] && IsSorted(s)
    ensures IsLeast(s[0], Elements(s))
  {
  }

  lemma TailElements(s: seq<string>)
    requires s != [] && IsSorted(s)
    ensures Elements(s[1..]) == Elements(s) - {s[0]}
  {
    forall x | x in Elements(s) - {s[0]} ensures x in s[1..] {
      var i :| 0 <= i < |s| && s[i] == x;
      assert s[1..][i - 1] == x;
    }
    forall x | x in s[1..] ensures x != s[0] {
      LessIsTotal(s[0], x);
    }
  }

  // ---------------------------------------------------------------- dictionaries

  datatype Dictionary = Dictionary(
    stems: seq<string>,
    accepted: seq<string>,
    corrections: seq<(string, string)>,
    ignorePatterns: seq<string>,
    excludedFiles: seq<string>)

  /** A word with two corrections. */
  datatype Conflict = Conflict(word: string, existing: string, correction: string)

  type Mapping = map<string, string>

  /** `dict(pairs)`: the last pair of a word wins. */
  function DictOf(pairs: seq<(string, string)>): Mapping {
    if pairs == [] then map[]
    else DictOf(pairs[..|pairs| - 1])[pairs[|pairs| - 1].0 := pairs[|pairs| - 1].1]
  }

  /** `sorted(m.items())`. */
  function SortedItems(m: Mapping): seq<(string, string)> {
    var keys := Sorted(m.Keys);
    seq(|keys|, i requires 0 <= i < |keys| => assert keys[i] in Elements(keys); (keys[i], m[keys[i]]))
  }

  function Union(a: seq<string>, b: seq<string>): seq<string> {
    Sorted(Elements(a) + Elements(b))
  }

  /** Add pairs one by one, refusing a different correction for a known word. */
  function Overlay(m: Mapping, pairs: seq<(string, string)>): Result<Mapping, Conflict>
    decreases pairs
  {
    if pairs == [] then Ok(m)
    else
      var (word, correction) := pairs[0];
      if word in m && m[word] != correction then Err(Conflict(word, m[word], correction))
      else Overlay(m[word := correction], pairs[1..])
  }

  function Merged(base: Dictionary, local: Dictionary): Result<Dictionary, Conflict> {
    match Overlay(DictOf(base.corrections), local.corrections)
    case Err(c) => Err(c)
    case Ok(m) =>
      Ok(Dictionary(
           Union(base.stems, local.stems), Union(base.accepted, local.accepted), SortedItems(m),
           Union(base.ignorePatterns, local.ignorePatterns), Union(base.excludedFiles, local.excludedFiles)))
  }

  method MergeDictionaries(base: Dictionary, local: Dictionary) returns (r: Result<Dictionary, Conflict>)
    ensures r == Merged(base, local)
  {
    var corrections := DictOf(base.corrections);
    for i := 0 to |local.corrections|
      invariant Overlay(corrections, local.corrections[i..]) == Overlay(DictOf(base.corrections), local.corrections)
    {
      var (word, correction) := local.corrections[i];
      assert local.corrections[i..][1..] == local.corrections[i + 1..];
      if word in corrections && corrections[word] != correction {
        return Err(Conflict(word, corrections[word], correction));
      }
      corrections := corrections[word := correction];
    }
    return Ok(Dictionary(
                Union(base.stems, local.stems), Union(base.accepted, local.accepted), SortedItems(corrections),
                Union(base.ignorePatterns, local.ignorePatterns), Union(base.excludedFiles, local.excludedFiles)));
  }

  // ---------------------------------------------------------------- the algebra of merging

  function Keys(pairs: seq<(string, string)>): seq<string> {
    seq(|pairs|, i requires 0 <= i < |pairs| => pairs[i].0)
  }

  /** As loaded: every list sorted and free of duplicates, corrections by word. */
  predicate IsCanonical(d: Dictionary) {
    && IsSorted(d.stems) && IsSorted(d.accepted) && IsSorted(d.ignorePatterns) && IsSorted(d.excludedFiles)
    && IsSorted(Keys(d.corrections))
  }

  /** What a dictionary says, order apart. */
  datatype View = View(
    stems: set<string>, accepted: set<string>, corrections: Mapping,
    ignorePatterns: set<string>, excludedFiles: set<string>)

  function ViewOf(d: Dictionary): View {
    View(Elements(d.stems), Elements(d.accepted), DictOf(d.corrections),
         Elements(d.ignorePatterns), Elements(d.excludedFiles))
  }

  predicate Agree(a: Mapping, b: Mapping) {
    forall w | w in a && w in b :: a[w] == b[w]
  }

  function UnionView(a: View, b: View): View {
    View(a.stems + b.stems, a.accepted + b.accepted, a.corrections + b.corrections,
         a.ignorePatterns + b.ignorePatterns, a.excludedFiles + b.excludedFiles)
  }

  /** The last word of a sorted list of pairs is new. */
  lemma LastKeyIsNew(pairs: seq<(string, string)>)
    requires pairs != [] && IsSorted(Keys(pairs))
    ensures IsSorted(Keys(pairs[..|pairs| - 1]))
    ensures pairs[|pairs| - 1].0 !in Elements(Keys(pairs[..|pairs| - 1]))
    ensures Elements(Keys(pairs)) == Elements(Keys(pairs[..|pairs| - 1])) + {pairs[|pairs| - 1].0}
  {
    var n := |pairs| - 1;
    var before := pairs[..n];
    assert Keys(pairs) == Keys(before) + [pairs[n].0];
    assert Keys(before) == Keys(pairs)[..n];
    ElementsOfSum(Keys(before), [pairs[n].0]);
    forall i | 0 <= i < n ensures Keys(before)[i] != pairs[n].0 {
      assert Less(Keys(pairs)[i], Keys(pairs)[n]);
      LessIsTotal(Keys(pairs)[i], Keys(pairs)[n]);
    }
  }

  lemma {:induction false} DictOfSorted(pairs: seq<(string, string)>)
    requires IsSorted(Keys(pairs))
    ensures DictOf(pairs).Keys == Elements(Keys(pairs))
    ensures forall i | 0 <= i < |pairs| :: pairs[i].0 in DictOf(pairs) && DictOf(pairs)[pairs[i].0] == pairs[i].1
  {
    if pairs != [] {
      var n := |pairs| - 1;
      LastKeyIsNew(pairs);
      DictOfSorted(pairs[..n]);
      forall i | 0 <= i < n ensures pairs[i].0 in DictOf(pairs) && DictOf(pairs)[pairs[i].0] == pairs[i].1 {
        assert pairs[..n][i] == pairs[i];
        assert pairs[i].0 in Elements(Keys(pairs[..n]));
      }
    }
  }

  /** A canonical dictionary is determined by what it says. */
  lemma ViewDetermines(a: Dictionary, b: Dictionary)
    requires IsCanonical(a) && IsCanonical(b) && ViewOf(a) == ViewOf(b)
    ensures a == b
  {
    SortedIsUnique(a.stems, b.stems);
    SortedIsUnique(a.accepted, b.accepted);
    SortedIsUnique(a.ignorePatterns, b.ignorePatterns);
    SortedIsUnique(a.excludedFiles, b.excludedFiles);
    DictOfSorted(a.corrections);
    DictOfSorted(b.corrections);
    SortedIsUnique(Keys(a.corrections), Keys(b.corrections));
    forall i | 0 <= i < |a.corrections| ensures a.corrections[i] == b.corrections[i] {
      assert Keys(a.corrections)[i] == Keys(b.corrections)[i];
    }
    assert |Keys(a.corrections)| == |Keys(b.corrections)|;
  }

  lemma SortedItemsSay(m: Mapping)
    ensures IsSorted(Keys(SortedItems(m))) && DictOf(SortedItems(m)) == m
  {
    assert Keys(SortedItems(m)) == Sorted(m.Keys);
    DictOfSorted(SortedItems(m));
    forall w | w in m ensures DictOf(SortedItems(m))[w] == m[w] {
      assert w in Sorted(m.Keys) by { assert w in Elements(Sorted(m.Keys)); }
      var i :| 0 <= i < |Sorted(m.Keys)| && Sorted(m.Keys)[i] == w;
      assert SortedItems(m)[i] == (w, m[w]);
    }
  }

  /** The first word of a sorted list of pairs is not among the rest. */
  lemma FirstKeyIsNew(pairs: seq<(string, string)>)
    requires pairs != [] && IsSorted(Keys(pairs))
    ensures IsSorted(Keys(pairs[1..])) && Elements(Keys(pairs)) == {pairs[0].0} + Elements(Keys(pairs[1..]))
    ensures forall i | 0 < i < |pairs| :: pairs[i].0 != pairs[0].0
  {
    assert Keys(pairs[1..]) == Keys(pairs)[1..];
    assert Keys(pairs) == [pairs[0].0] + Keys(pairs[1..]);
    ElementsOfSum([pairs[0].0], Keys(pairs[1..]));
    forall i | 0 < i < |pairs| ensures pairs[i].0 != pairs[0].0 {
      assert Less(Keys(pairs)[0], Keys(pairs)[i]);
      LessIsTotal(pairs[0].0, pairs[i].0);
    }
  }

  /** Every pair already known says the same. */
  predicate Fits(m: Mapping, pairs: seq<(string, string)>) {
    forall i | 0 <= i < |pairs| && pairs[i].0 in m :: m[pairs[i].0] == pairs[i].1
  }

  lemma {:induction false} OverlayIsUnion(m: Mapping, pairs: seq<(string, string)>)
    requires IsSorted(Keys(pairs))
    ensures Overlay(m, pairs).Ok? <==> Fits(m, pairs)
    ensures Overlay(m, pairs).Ok? ==>
              && Overlay(m, pairs).value.Keys == m.Keys + Elements(Keys(pairs))
              && (forall w | w in m :: Overlay(m, pairs).value[w] == m[w])
              && (forall i | 0 <= i < |pairs| ::
                  pairs[i].0 in Overlay(m, pairs).value && Overlay(m, pairs).value[pairs[i].0] == pairs[i].1)
    decreases pairs
  {
    if pairs != [] {
      var (word, correction) := pairs[0];
      FirstKeyIsNew(pairs);
      FitsFront(m, pairs);
      OverlayIsUnion(m[word := correction], pairs[1..]);
      assert forall i | 0 < i < |pairs| :: pairs[i] == pairs[1..][i - 1];
    }
  }

  lemma FitsFront(m: Mapping, pairs: seq<(string, string)>)
    requires pairs != [] && forall i | 0 < i < |pairs| :: pairs[i].0 != pairs[0].0
    ensures Fits(m, pairs) <==>
            (pairs[0].0 in m ==> m[pairs[0].0] == pairs[0].1) && Fits(m[pairs[0].0 := pairs[0].1], pairs[1..])
  {
    assert forall i | 0 < i < |pairs| :: pairs[i] == pairs[1..][i - 1];
    assert forall i | 0 <= i < |pairs| - 1 :: pairs[1..][i] == pairs[i + 1];
  }

  lemma {:induction false} PairOf(pairs: seq<(string, string)>, w: string) returns (i: nat)
    requires IsSorted(Keys(pairs)) && w in DictOf(pairs)
    ensures i < |pairs| && pairs[i] == (w, DictOf(pairs)[w])
  {
    DictOfSorted(pairs);
    assert w in Elements(Keys(pairs));
    i :| 0 <= i < |pairs| && Keys(pairs)[i] == w;
  }

  lemma OverlayIsMapUnion(m: Mapping, pairs: seq<(string, string)>)
    requires IsSorted(Keys(pairs))
    ensures Overlay(m, pairs).Ok? <==> Agree(m, DictOf(pairs))
    ensures Overlay(m, pairs).Ok? ==> Overlay(m, pairs).value == m + DictOf(pairs)
  {
    var n, r := DictOf(pairs), Overlay(m, pairs);
    DictOfSorted(pairs);
    OverlayIsUnion(m, pairs);
    if r.Ok? {
      forall w | w in n ensures r.value[w] == n[w] {
        var i := PairOf(pairs, w);
      }
      assert r.value.Keys == (m + n).Keys;
    }
  }

  /** Merging succeeds exactly when the two dictionaries agree on every correction they share, and says exactly
      what either says. */
  lemma MergeIsUnion(a: Dictionary, b: Dictionary)
    requires IsCanonical(a) && IsCanonical(b)
    ensures Merged(a, b).Ok? <==> Agree(DictOf(a.corrections), DictOf(b.corrections))
    ensures Merged(a, b).Ok? ==>
              IsCanonical(Merged(a, b).value) && ViewOf(Merged(a, b).value) == UnionView(ViewOf(a), ViewOf(b))
  {
    OverlayIsMapUnion(DictOf(a.corrections), b.corrections);
    var r := Overlay(DictOf(a.corrections), b.corrections);
    if r.Ok? {
      SortedItemsSay(r.value);
    }
  }

  /** Merging fails for the first local correction that differs from the shared one, and names both. */
  lemma MergeConflictIsFirst(a: Dictionary, b: Dictionary, c: Conflict)
    requires IsCanonical(a) && IsCanonical(b)
    ensures Merged(a, b) == Err(c) <==>
            exists i ::
              && 0 <= i < |b.corrections| && b.corrections[i] == (c.word, c.correction)
              && (c.word, c.existing) in a.corrections && c.existing != c.correction
              && Agree(DictOf(a.corrections), DictOf(b.corrections[..i]))
  {
    var m := DictOf(a.corrections);
    ConflictIsFirst(m, b.corrections, c);
    forall i | 0 <= i < |b.corrections|
      ensures IsConflictAt(m, b.corrections, i, c) <==>
              && b.corrections[i] == (c.word, c.correction)
              && (c.word, c.existing) in a.corrections && c.existing != c.correction
              && Agree(m, DictOf(b.corrections[..i]))
    {
      ConflictAt(a, b, i, c);
    }
  }

  /** The words before a correction say nothing of its word. */
  lemma WordIsNew(pairs: seq<(string, string)>, i: nat)
    requires IsSorted(Keys(pairs)) && i < |pairs|
    ensures IsSorted(Keys(pairs[..i])) && pairs[i].0 !in Elements(Keys(pairs[..i]))
  {
    assert Keys(pairs[..i]) == Keys(pairs)[..i];
    forall j | 0 <= j < i ensures Keys(pairs[..i])[j] != pairs[i].0 {
      assert Less(Keys(pairs)[j], Keys(pairs)[i]);
      LessIsTotal(Keys(pairs)[j], Keys(pairs)[i]);
    }
  }

  lemma PairsOfDict(pairs: seq<(string, string)>, w: string, c: string)
    requires IsSorted(Keys(pairs))
    ensures (w, c) in pairs <==> w in DictOf(pairs) && DictOf(pairs)[w] == c
  {
    DictOfSorted(pairs);
    if (w, c) in pairs {
      var k :| 0 <= k < |pairs| && pairs[k] == (w, c);
    }
    if w in DictOf(pairs) {
      var k := PairOf(pairs, w);
    }
  }

  lemma ConflictAt(a: Dictionary, b: Dictionary, i: nat, c: Conflict)
    requires IsCanonical(a) && IsCanonical(b) && i < |b.corrections|
    ensures IsConflictAt(DictOf(a.corrections), b.corrections, i, c) <==>
            && b.corrections[i] == (c.word, c.correction)
            && (c.word, c.existing) in a.corrections && c.existing != c.correction
            && Agree(DictOf(a.corrections), DictOf(b.corrections[..i]))
  {
    var m, before := DictOf(a.corrections), b.corrections[..i];
    WordIsNew(b.corrections, i);
    OverlayIsMapUnion(m, before);
    DictOfSorted(before);
    PairsOfDict(a.corrections, c.word, c.existing);
  }

  predicate SameOutcome(x: Result<Dictionary, Conflict>, y: Result<Dictionary, Conflict>) {
    if x.Ok? then x == y else y.Err?
  }

  function MergedThen(x: Result<Dictionary, Conflict>, c: Dictionary): Result<Dictionary, Conflict> {
    match x case Err(e) => Err(e) case Ok(d) => Merged(d, c)
  }

  function MergedOnto(a: Dictionary, x: Result<Dictionary, Conflict>): Result<Dictionary, Conflict> {
    match x case Err(e) => Err(e) case Ok(d) => Merged(a, d)
  }

  lemma UnionViewCommutes(u: View, v: View)
    requires Agree(u.corrections, v.corrections)
    ensures UnionView(u, v) == UnionView(v, u)
  {
    assert u.corrections + v.corrections == v.corrections + u.corrections;
  }

  lemma UnionViewAssociates(u: View, v: View, w: View)
    ensures UnionView(UnionView(u, v), w) == UnionView(u, UnionView(v, w))
  {
    assert u.corrections + v.corrections + w.corrections == u.corrections + (v.corrections + w.corrections);
  }

  /** Merging, by what dictionaries say. */
  lemma MergeSays(a: Dictionary, b: Dictionary, u: View, v: View)
    requires IsCanonical(a) && IsCanonical(b) && u == ViewOf(a) && v == ViewOf(b)
    ensures Merged(a, b).Ok? <==> Agree(u.corrections, v.corrections)
    ensures Merged(a, b).Ok? ==> IsCanonical(Merged(a, b).value) && ViewOf(Merged(a, b).value) == UnionView(u, v)
  {
    MergeIsUnion(a, b);
  }

  /** Merging is commutative, raising included. */
  lemma MergeIsCommutative(a: Dictionary, b: Dictionary)
    requires IsCanonical(a) && IsCanonical(b)
    ensures SameOutcome(Merged(a, b), Merged(b, a))
  {
    var u, v := ViewOf(a), ViewOf(b);
    MergeSays(a, b, u, v);
    MergeSays(b, a, v, u);
    if Merged(a, b).Ok? {
      UnionViewCommutes(u, v);
      ViewDetermines(Merged(a, b).value, Merged(b, a).value);
    }
  }

  /** Merging is associative, raising included. */
  lemma MergeIsAssociative(a: Dictionary, b: Dictionary, c: Dictionary)
    requires IsCanonical(a) && IsCanonical(b) && IsCanonical(c)
    ensures SameOutcome(MergedThen(Merged(a, b), c), MergedOnto(a, Merged(b, c)))
  {
    var u, v, w := ViewOf(a), ViewOf(b), ViewOf(c);
    MergeSays(a, b, u, v);
    MergeSays(b, c, v, w);
    if Merged(a, b).Ok? {
      MergeSays(Merged(a, b).value, c, UnionView(u, v), w);
    }
    if Merged(b, c).Ok? {
      MergeSays(a, Merged(b, c).value, u, UnionView(v, w));
    }
    AgreementAssociates(u.corrections, v.corrections, w.corrections);
    if MergedThen(Merged(a, b), c).Ok? {
      UnionViewAssociates(u, v, w);
      ViewDetermines(MergedThen(Merged(a, b), c).value, MergedOnto(a, Merged(b, c)).value);
    }
  }

  lemma AgreementAssociates(a: Mapping, b: Mapping, c: Mapping)
    ensures Agree(a, b) && Agree(a + b, c) <==> Agree(b, c) && Agree(a, b + c)
  {
    if Agree(a, b) && Agree(a + b, c) {
      assert forall w | w in b && w in c :: (a + b)[w] == c[w];
      assert forall w | w in a && w in c :: (a + b)[w] == c[w];
    }
    if Agree(b, c) && Agree(a, b + c) {
      assert forall w | w in a && w in b :: a[w] == (b + c)[w];
      assert forall w | w in a && w in c :: a[w] == (b + c)[w];
    }
  }

  /** Merging a dictionary with itself changes nothing. */
  lemma MergeIsIdempotent(a: Dictionary)
    requires IsCanonical(a)
    ensures Merged(a, a) == Ok(a)
  {
    var u := ViewOf(a);
    MergeSays(a, a, u, u);
    UnionViewOfOne(u);
    ViewDetermines(Merged(a, a).value, a);
  }

  lemma UnionViewOfOne(u: View)
    ensures UnionView(u, u) == u
  {
    assert u.corrections + u.corrections == u.corrections;
  }

  // ---------------------------------------------------------------- generation

  const SUFFIX_PAIRS: seq<(string, string)> := [
    ("ise", "ize"), ("ises", "izes"), ("ised", "ized"), ("ising", "izing"), ("iser", "izer"),
    ("isers", "izers"), ("isable", "izable"), ("isation", "ization"), ("isations", "izations")]

  /** The words one stem demands for one suffix pair. */
  function PairDemands(stem: string, p: (string, string)): set<(string, string)> {
    {(stem + p.0, stem + p.1), (stem + p.1, stem + p.1)}
  }

  /** The words some stems demand for some suffix pairs. */
  ghost function StemDemands(stems: seq<string>, pairs: seq<(string, string)>): set<(string, string)> {
    set stem, p, e | stem in stems && p in pairs && e in PairDemands(stem, p) :: e
  }

  ghost function AcceptedDemands(words: seq<string>): set<(string, string)> {
    set w | w in words :: (w, w)
  }

  ghost function Items(m: Mapping): set<(string, string)> {
    set w | w in m :: (w, m[w])
  }

  /** Every word a dictionary speaks of, with the correction it demands. */
  ghost function Demands(d: Dictionary): set<(string, string)> {
    AcceptedDemands(d.accepted) + Elements(d.corrections) + StemDemands(d.stems, SUFFIX_PAIRS)
  }

  ghost predicate IsFunctional(demands: set<(string, string)>) {
    forall p, q | p in demands && q in demands && p.0 == q.0 :: p.1 == q.1
  }

  /** Generation, as what it must achieve: one correction for each word, or a conflict. */
  ghost function Generated(d: Dictionary): (m: Option<Mapping>)
    ensures m.Some? <==> IsFunctional(Demands(d))
    ensures m.Some? ==> Items(m.value) == Demands(d)
  {
    if IsFunctional(Demands(d)) then Some(MappingOf(Demands(d))) else None
  }

  ghost function MappingOf(demands: set<(string, string)>): (m: Mapping)
    requires IsFunctional(demands)
    ensures Items(m) == demands
  {
    var m := map p | p in demands :: p.0 := p.1;
    assert forall p | p in demands :: p.0 in m && m[p.0] == p.1;
    m
  }

  lemma ItemsOfUpdate(m: Mapping, word: string, correction: string)
    requires word in m ==> m[word] == correction
    ensures Items(m[word := correction]) == Items(m) + {(word, correction)}
  {
    var n, all := m[word := correction], Items(m) + {(word, correction)};
    forall p | p in all ensures p in Items(n) {
      assert p.0 in n && n[p.0] == p.1;
    }
    forall p | p in Items(n) ensures p in all {
      assert p.0 in n && n[p.0] == p.1;
    }
  }

  /** A conflict is real: both corrections are demanded. */
  ghost predicate IsRealConflict(c: Conflict, demands: set<(string, string)>) {
    (c.word, c.existing) in demands && (c.word, c.correction) in demands && c.existing != c.correction
  }

  lemma ItemsAreFunctional(m: Mapping)
    ensures IsFunctional(Items(m))
  {
  }

  lemma ItemsDetermine(m: Mapping, n: Mapping)
    requires Items(m) == Items(n)
    ensures m == n
  {
    forall w | w in m ensures w in n && n[w] == m[w] {
      assert (w, m[w]) in Items(n);
    }
    forall w | w in n ensures w in m {
      assert (w, n[w]) in Items(m);
    }
  }

  /** Adding pairs in turn adds what they say, or meets a real conflict. */
  lemma {:induction false} OverlayAddsItems(m: Mapping, pairs: seq<(string, string)>)
    ensures Overlay(m, pairs).Ok? ==> Items(Overlay(m, pairs).value) == Items(m) + Elements(pairs)
    ensures Overlay(m, pairs).Err? ==> IsRealConflict(Overlay(m, pairs).error, Items(m) + Elements(pairs))
    decreases pairs
  {
    if pairs != [] {
      var (word, correction) := pairs[0];
      assert pairs == [pairs[0]] + pairs[1..];
      ElementsOfSum([pairs[0]], pairs[1..]);
      if word in m && m[word] != correction {
        assert (word, m[word]) in Items(m) && pairs[0] in Elements(pairs);
      } else {
        ItemsOfUpdate(m, word, correction);
        OverlayAddsItems(m[word := correction], pairs[1..]);
      }
    }
  }

  /** The words of one stem in the order they are added: for each suffix pair the British form, then the Oxford one. */
  function StemEntries(stem: string, pairs: seq<(string, string)>): seq<(string, string)> {
    if pairs == [] then []
    else
      [(stem + pairs[0].0, stem + pairs[0].1), (stem + pairs[0].1, stem + pairs[0].1)]
      + StemEntries(stem, pairs[1..])
  }

  function AllEntries(stems: seq<string>, pairs: seq<(string, string)>): seq<(string, string)> {
    if stems == [] then [] else StemEntries(stems[0], pairs) + AllEntries(stems[1..], pairs)
  }

  lemma StemDemandsGrow(stems: seq<string>, more: seq<string>, pairs: seq<(string, string)>)
    requires forall s | s in stems :: s in more
    ensures StemDemands(stems, pairs) <= StemDemands(more, pairs)
  {
  }

  lemma {:induction false} EntriesOfStem(stem: string, pairs: seq<(string, string)>)
    ensures Elements(StemEntries(stem, pairs)) == StemDemands([stem], pairs)
  {
    if pairs != [] {
      var p := pairs[0];
      EntriesOfStem(stem, pairs[1..]);
      ElementsOfSum([(stem + p.0, stem + p.1), (stem + p.1, stem + p.1)], StemEntries(stem, pairs[1..]));
      assert pairs == [p] + pairs[1..] && stem in [stem];
      forall e
        ensures e in StemDemands([stem], pairs)
                <==> e in PairDemands(stem, p) || e in StemDemands([stem], pairs[1..])
      {
        if e in PairDemands(stem, p) {
          assert p in pairs;
        }
      }
    }
  }

  lemma {:induction false} EntriesAreDemands(stems: seq<string>, pairs: seq<(string, string)>)
    ensures Elements(AllEntries(stems, pairs)) == StemDemands(stems, pairs)
  {
    if stems != [] {
      EntriesOfStem(stems[0], pairs);
      EntriesAreDemands(stems[1..], pairs);
      ElementsOfSum(StemEntries(stems[0], pairs), AllEntries(stems[1..], pairs));
      assert stems == [stems[0]] + stems[1..];
    }
  }

  lemma {:induction false} OverlayConcat(m: Mapping, a: seq<(string, string)>, b: seq<(string, string)>)
    ensures Overlay(m, a + b) == if Overlay(m, a).Err? then Overlay(m, a) else Overlay(Overlay(m, a).value, b)
    decreases a
  {
    if a == [] {
      assert a + b == b;
    } else {
      assert (a + b)[1..] == a[1..] + b;
      var (word, correction) := a[0];
      if !(word in m && m[word] != correction) {
        OverlayConcat(m[word := correction], a[1..], b);
      }
    }
  }

  /** A conflict is the first: everything before it is added, and it names what was known and what was to come. */
  lemma {:induction false} ConflictIsFirst(m: Mapping, pairs: seq<(string, string)>, c: Conflict)
    ensures Overlay(m, pairs) == Err(c) <==>
            exists i :: 0 <= i < |pairs| && IsConflictAt(m, pairs, i, c)
    decreases pairs
  {
    if Overlay(m, pairs) == Err(c) {
      var (word, correction) := pairs[0];
      if word in m && m[word] != correction {
        assert pairs[..0] == [];
        assert IsConflictAt(m, pairs, 0, c);
      } else {
        ConflictIsFirst(m[word := correction], pairs[1..], c);
        var i :| 0 <= i < |pairs[1..]| && IsConflictAt(m[word := correction], pairs[1..], i, c);
        assert pairs[..i + 1][0] == pairs[0] && pairs[..i + 1][1..] == pairs[1..][..i];
        assert IsConflictAt(m, pairs, i + 1, c);
      }
    }
    if i :| 0 <= i < |pairs| && IsConflictAt(m, pairs, i, c) {
      assert pairs == pairs[..i] + pairs[i..];
      OverlayConcat(m, pairs[..i], pairs[i..]);
    }
  }

  predicate IsConflictAt(m: Mapping, pairs: seq<(string, string)>, i: nat, c: Conflict)
    requires i < |pairs|
  {
    var known := Overlay(m, pairs[..i]);
    && known.Ok? && pairs[i] == (c.word, c.correction)
    && c.word in known.value && known.value[c.word] == c.existing != c.correction
  }

  method Add(mappings: Mapping, word: string, correction: string) returns (r: Result<Mapping, Conflict>)
    ensures r == Overlay(mappings, [(word, correction)])
  {
    assert [(word, correction)][1..] == [];
    if word in mappings && mappings[word] != correction {
      return Err(Conflict(word, mappings[word], correction));
    }
    return Ok(mappings[word := correction]);
  }

  method AddPair(mappings: Mapping, stem: string, p: (string, string)) returns (r: Result<Mapping, Conflict>)
    ensures r == Overlay(mappings, [(stem + p.0, stem + p.1), (stem + p.1, stem + p.1)])
  {
    var (british, oxford) := p;
    OverlayConcat(mappings, [(stem + british, stem + oxford)], [(stem + oxford, stem + oxford)]);
    assert [(stem + british, stem + oxford)] + [(stem + oxford, stem + oxford)]
           == [(stem + p.0, stem + p.1), (stem + p.1, stem + p.1)];
    r := Add(mappings, stem + british, stem + oxford);
    if r.Ok? {
      r := Add(r.value, stem + oxford, stem + oxford);
    }
  }

  method AddPairs(mappings: Mapping, stem: string, pairs: seq<(string, string)>) returns (r: Result<Mapping, Conflict>)
    ensures r == Overlay(mappings, StemEntries(stem, pairs))
  {
    var current := mappings;
    for i := 0 to |pairs|
      invariant Overlay(mappings, StemEntries(stem, pairs)) == Overlay(current, StemEntries(stem, pairs[i..]))
    {
      ghost var p := pairs[i];
      assert pairs[i..][1..] == pairs[i + 1..];
      OverlayConcat(current, [(stem + p.0, stem + p.1), (stem + p.1, stem + p.1)], StemEntries(stem, pairs[i + 1..]));
      r := AddPair(current, stem, pairs[i]);
      if r.Err? {
        return;
      }
      current := r.value;
    }
    return Ok(current);
  }

  method AddCorrections(mappings: Mapping, pairs: seq<(string, string)>) returns (r: Result<Mapping, Conflict>)
    ensures r == Overlay(mappings, pairs)
  {
    var current := mappings;
    for i := 0 to |pairs|
      invariant Overlay(mappings, pairs) == Overlay(current, pairs[i..])
    {
      var (word, correction) := pairs[i];
      assert pairs[i..] == [(word, correction)] + pairs[i + 1..];
      OverlayConcat(current, [(word, correction)], pairs[i + 1..]);
      r := Add(current, word, correction);
      if r.Err? {
        return;
      }
      current := r.value;
    }
    return Ok(current);
  }

  method AddStems(mappings: Mapping, stems: seq<string>, pairs: seq<(string, string)>)
    returns (r: Result<Mapping, Conflict>)
    ensures r == Overlay(mappings, AllEntries(stems, pairs))
  {
    var current := mappings;
    for i := 0 to |stems|
      invariant Overlay(mappings, AllEntries(stems, pairs)) == Overlay(current, AllEntries(stems[i..], pairs))
    {
      assert stems[i..][1..] == stems[i + 1..];
      OverlayConcat(current, StemEntries(stems[i], pairs), AllEntries(stems[i + 1..], pairs));
      r := AddPairs(current, stems[i], pairs);
      if r.Err? {
        return;
      }
      current := r.value;
    }
    return Ok(current);
  }

  method GenerateWordMappings(d: Dictionary) returns (r: Result<Mapping, Conflict>)
    ensures r == Overlay(OfAccepted(d.accepted), d.corrections + AllEntries(d.stems, SUFFIX_PAIRS))
    ensures r.Ok? <==> Generated(d).Some?
    ensures r.Ok? ==> Some(r.value) == Generated(d)
    ensures r.Err? ==> IsRealConflict(r.error, Demands(d))
  {
    GenerationAdds(d);
    OverlayConcat(OfAccepted(d.accepted), d.corrections, AllEntries(d.stems, SUFFIX_PAIRS));
    var accepted := OfAccepted(d.accepted);
    r := AddCorrections(accepted, d.corrections);
    if r.Err? {
      return;
    }
    r := AddStems(r.value, d.stems, SUFFIX_PAIRS);
  }

  /** Adding everything in turn is the generation. */
  lemma GenerationAdds(d: Dictionary)
    ensures var r := Overlay(OfAccepted(d.accepted), d.corrections + AllEntries(d.stems, SUFFIX_PAIRS));
            && (r.Ok? <==> Generated(d).Some?)
            && (r.Ok? ==> Some(r.value) == Generated(d))
            && (r.Err? ==> IsRealConflict(r.error, Demands(d)))
  {
    var entries := d.corrections + AllEntries(d.stems, SUFFIX_PAIRS);
    var r := Overlay(OfAccepted(d.accepted), entries);
    OverlayAddsItems(OfAccepted(d.accepted), entries);
    ElementsOfSum(d.corrections, AllEntries(d.stems, SUFFIX_PAIRS));
    EntriesAreDemands(d.stems, SUFFIX_PAIRS);
    assert Items(OfAccepted(d.accepted)) + Elements(entries) == Demands(d);
    if r.Ok? {
      ItemsAreFunctional(r.value);
      ItemsDetermine(r.value, MappingOf(Demands(d)));
    } else {
      assert (r.error.word, r.error.existing).0 == (r.error.word, r.error.correction).0;
    }
  }

  function OfAccepted(words: seq<string>): (m: Mapping)
    ensures Items(m) == AcceptedDemands(words)
  {
    var m := map w | w in words :: w;
    assert forall w | w in words :: w in m && (w, m[w]) == (w, w);
    m
  }

  // ---------------------------------------------------------------- merging, then generating

  lemma ItemsOfDict(pairs: seq<(string, string)>)
    requires IsSorted(Keys(pairs))
    ensures Items(DictOf(pairs)) == Elements(pairs)
  {
    DictOfSorted(pairs);
    forall p | p in Items(DictOf(pairs)) ensures p in Elements(pairs) {
      var i := PairOf(pairs, p.0);
    }
    forall p | p in Elements(pairs) ensures p in Items(DictOf(pairs)) {
      var i :| 0 <= i < |pairs| && pairs[i] == p;
    }
  }

  lemma ItemsOfUnion(m: Mapping, n: Mapping)
    requires Agree(m, n)
    ensures Items(m + n) == Items(m) + Items(n)
  {
    forall p | p in Items(m) + Items(n) ensures p in Items(m + n) {
      assert p.0 in m + n && (m + n)[p.0] == p.1;
    }
    forall p | p in Items(m + n) ensures p in Items(m) + Items(n) {
      assert p.0 in m || p.0 in n;
    }
  }

  lemma StemDemandsOfUnion(a: seq<string>, b: seq<string>, c: seq<string>, pairs: seq<(string, string)>)
    requires Elements(c) == Elements(a) + Elements(b)
    ensures StemDemands(c, pairs) == StemDemands(a, pairs) + StemDemands(b, pairs)
  {
    assert forall s :: s in c <==> s in Elements(c);
    assert forall s :: s in a + b <==> s in Elements(a) + Elements(b);
    StemDemandsGrow(a, c, pairs);
    StemDemandsGrow(b, c, pairs);
    forall e | e in StemDemands(c, pairs) ensures e in StemDemands(a, pairs) + StemDemands(b, pairs) {
      var stem, p :| stem in c && p in pairs && e in PairDemands(stem, p);
      assert stem in a || stem in b;
    }
  }

  lemma AcceptedDemandsOfUnion(a: seq<string>, b: seq<string>, c: seq<string>)
    requires Elements(c) == Elements(a) + Elements(b)
    ensures AcceptedDemands(c) == AcceptedDemands(a) + AcceptedDemands(b)
  {
    assert forall w :: w in c <==> w in Elements(c);
    assert forall w :: w in a <==> w in Elements(a);
    assert forall w :: w in b <==> w in Elements(b);
  }

  /** A merged dictionary demands what the two demand. */
  lemma MergedDemands(a: Dictionary, b: Dictionary)
    requires IsCanonical(a) && IsCanonical(b) && Merged(a, b).Ok?
    ensures Demands(Merged(a, b).value) == Demands(a) + Demands(b)
  {
    var u, v, d := ViewOf(a), ViewOf(b), Merged(a, b).value;
    MergeSays(a, b, u, v);
    AcceptedDemandsOfUnion(a.accepted, b.accepted, d.accepted);
    StemDemandsOfUnion(a.stems, b.stems, d.stems, SUFFIX_PAIRS);
    ItemsOfDict(a.corrections);
    ItemsOfDict(b.corrections);
    ItemsOfDict(d.corrections);
    ItemsOfUnion(u.corrections, v.corrections);
  }

  lemma UnionOfFunctionals(s: set<(string, string)>, t: set<(string, string)>)
    ensures IsFunctional(s + t) <==> IsFunctional(s) && IsFunctional(t) && Agree(MappingOf(s), MappingOf(t))
    ensures IsFunctional(s + t) ==> MappingOf(s + t) == MappingOf(s) + MappingOf(t)
  {
    if IsFunctional(s) && IsFunctional(t) {
      var m, n := MappingOf(s), MappingOf(t);
      assert Items(m) == s && Items(n) == t;
      if IsFunctional(s + t) {
        forall w | w in m && w in n ensures m[w] == n[w] {
          assert (w, m[w]) in s + t && (w, n[w]) in s + t;
        }
        ItemsOfUnion(m, n);
        ItemsDetermine(MappingOf(s + t), m + n);
      } else if Agree(m, n) {
        ItemsOfUnion(m, n);
        ItemsAreFunctional(m + n);
      }
    }
  }

  lemma SharedCorrectionsAreDemanded(d: Dictionary, w: string)
    requires IsCanonical(d) && w in DictOf(d.corrections)
    ensures (w, DictOf(d.corrections)[w]) in Demands(d)
  {
    ItemsOfDict(d.corrections);
    assert (w, DictOf(d.corrections)[w]) in Items(DictOf(d.corrections));
  }

  ghost function GeneratedFrom(x: Result<Dictionary, Conflict>): Option<Mapping> {
    match x case Err(e) => None case Ok(d) => Generated(d)
  }

  /** Merging and then generating succeeds exactly when each dictionary generates alone and the two mappings agree,
      and then yields exactly their union. */
  lemma MergedGenerationIsUnion(a: Dictionary, b: Dictionary)
    requires IsCanonical(a) && IsCanonical(b)
    ensures GeneratedFrom(Merged(a, b)).Some? <==>
            Generated(a).Some? && Generated(b).Some? && Agree(Generated(a).value, Generated(b).value)
    ensures GeneratedFrom(Merged(a, b)).Some? ==>
              GeneratedFrom(Merged(a, b)).value == Generated(a).value + Generated(b).value
  {
    UnionOfFunctionals(Demands(a), Demands(b));
    if Merged(a, b).Ok? {
      MergedDemands(a, b);
    } else {
      MergeIsUnion(a, b);
      var w :| w in DictOf(a.corrections) && w in DictOf(b.corrections)
               && DictOf(a.corrections)[w] != DictOf(b.corrections)[w];
      SharedCorrectionsAreDemanded(a, w);
      SharedCorrectionsAreDemanded(b, w);
      assert (w, DictOf(a.corrections)[w]) in Demands(a) + Demands(b);
      assert (w, DictOf(b.corrections)[w]) in Demands(a) + Demands(b);
      assert !IsFunctional(Demands(a) + Demands(b));
    }
  }

  // ---------------------------------------------------------------- the suffix code

  /** The shape shared by the eighteen suffixes: `is` or `iz` at the front and nowhere else. */
  predicate IsSuffix(f: string) {
    |f| >= 3 && Starts(f, 0) && forall k | 1 <= k < |f| - 1 :: !Starts(f, k)
  }

  predicate Starts(f: string, k: nat)
    requires k < |f| - 1
  {
    f[k] == 'i' && (f[k + 1] == 's' || f[k + 1] == 'z')
  }

  /** Every pair is one suffix spelled both ways. */
  lemma SuffixShape(p: (string, string))
    requires p in SUFFIX_PAIRS
    ensures IsSuffix(p.0) && IsSuffix(p.1) && p.1 == p.0[1 := 'z']
  {
  }

  /** What follows `is` or `iz` in the nine suffixes. */
  const ENDINGS: seq<string> := ["e", "es", "ed", "ing", "er", "ers", "able", "ation", "ations"]

  lemma SuffixPairsAre(i: nat)
    ensures |SUFFIX_PAIRS| == |ENDINGS|
    ensures i < |ENDINGS| ==> SUFFIX_PAIRS[i] == ("is" + ENDINGS[i], "iz" + ENDINGS[i])
  {
    assert "is" + "e" == "ise" && "is" + "es" == "ises" && "is" + "ed" == "ised";
    assert "is" + "ing" == "ising" && "is" + "er" == "iser" && "is" + "ers" == "isers";
    assert "is" + "able" == "isable" && "is" + "ation" == "isation" && "is" + "ations" == "isations";
    assert "iz" + "e" == "ize" && "iz" + "es" == "izes" && "iz" + "ed" == "ized";
    assert "iz" + "ing" == "izing" && "iz" + "er" == "izer" && "iz" + "ers" == "izers";
    assert "iz" + "able" == "izable" && "iz" + "ation" == "ization" && "iz" + "ations" == "izations";
  }

  /** A stem gives each of its nine British forms its Oxford form, keeps each Oxford form, and gives nothing else. */
  lemma StemsDemandNinePairs(stems: seq<string>, e: (string, string))
    ensures e in StemDemands(stems, SUFFIX_PAIRS) <==>
            exists stem, ending ::
              && stem in stems && ending in ENDINGS && e.1 == stem + ("iz" + ending)
              && (e.0 == stem + ("is" + ending) || e.0 == stem + ("iz" + ending))
  {
    if e in StemDemands(stems, SUFFIX_PAIRS) {
      var stem, p :| stem in stems && p in SUFFIX_PAIRS && e in PairDemands(stem, p);
      var i :| 0 <= i < |SUFFIX_PAIRS| && SUFFIX_PAIRS[i] == p;
      SuffixPairsAre(i);
      assert ENDINGS[i] in ENDINGS;
    }
    if stem, ending :|
      && stem in stems && ending in ENDINGS && e.1 == stem + ("iz" + ending)
      && (e.0 == stem + ("is" + ending) || e.0 == stem + ("iz" + ending)) {
      var i :| 0 <= i < |ENDINGS| && ENDINGS[i] == ending;
      SuffixPairsAre(i);
      assert SUFFIX_PAIRS[i] in SUFFIX_PAIRS && e in PairDemands(stem, SUFFIX_PAIRS[i]);
    }
  }

  /** A shorter suffix at the end of a longer text starts inside it. */
  lemma ShorterSuffixStartsInside(s: string, f: string, t: string, g: string)
    requires IsSuffix(f) && s + f == t + g
    ensures |f| < |g| ==> Starts(g, |g| - |f|)
  {
    if |f| < |g| {
      var k := |g| - |f|;
      assert |s| == |t| + k;
      assert g[k] == (t + g)[|t| + k] == (s + f)[|s|] == f[0];
      assert g[k + 1] == (t + g)[|t| + k + 1] == (s + f)[|s| + 1] == f[1];
    }
  }

  /** No suffix is a proper suffix of another, so a word splits into a stem and a suffix in at most one way. */
  lemma UniqueSplit(s: string, f: string, t: string, g: string)
    requires IsSuffix(f) && IsSuffix(g) && s + f == t + g
    ensures s == t && f == g
  {
    ShorterSuffixStartsInside(s, f, t, g);
    ShorterSuffixStartsInside(t, g, s, f);
    assert |f| == |g| && |s| == |t|;
    assert s == (s + f)[..|s|] && t == (t + g)[..|t|];
    assert f == (s + f)[|s|..] && g == (t + g)[|t|..];
  }

  /** What a stem demands of a word: the same stem and suffix, spelled with z. */
  ghost predicate IsOxford(stem: string, f: string, e: (string, string)) {
    IsSuffix(f) && e == (stem + f, stem + f[1 := 'z'])
  }

  lemma DemandShape(stems: seq<string>, e: (string, string)) returns (stem: string, f: string)
    requires e in StemDemands(stems, SUFFIX_PAIRS)
    ensures stem in stems && IsOxford(stem, f, e)
    ensures (e.1, e.1) in StemDemands(stems, SUFFIX_PAIRS)
  {
    var p;
    stem, p :| stem in stems && p in SUFFIX_PAIRS && e in PairDemands(stem, p);
    SuffixShape(p);
    f := if e == (stem + p.0, stem + p.1) then p.0 else p.1;
    assert p.1[1 := 'z'] == p.1;
    assert (stem + p.1, stem + p.1) in PairDemands(stem, p);
  }

  /** Stems alone never conflict, whatever they are. */
  lemma StemsNeverConflict(d: Dictionary)
    requires d.accepted == [] && d.corrections == []
    ensures Generated(d).Some?
  {
    forall x, y | x in Demands(d) && y in Demands(d) && x.0 == y.0 ensures x.1 == y.1 {
      var s, f := DemandShape(d.stems, x);
      var t, g := DemandShape(d.stems, y);
      UniqueSplit(s, f, t, g);
    }
  }

  /** The order and repetition of what a dictionary lists never matter to what it generates. */
  lemma OrderNeverMatters(d: Dictionary, e: Dictionary)
    requires Elements(d.stems) == Elements(e.stems) && Elements(d.accepted) == Elements(e.accepted)
    requires Elements(d.corrections) == Elements(e.corrections)
    ensures Generated(d) == Generated(e)
  {
    StemDemandsOfUnion(d.stems, d.stems, e.stems, SUFFIX_PAIRS);
    AcceptedDemandsOfUnion(d.accepted, d.accepted, e.accepted);
    assert Demands(d) == Demands(e);
  }

  function Apply(m: Mapping, w: string): string {
    if w in m then m[w] else w
  }

  /** The correction of a word is explicit, or is a word that stays as it is. */
  lemma DemandsSettle(d: Dictionary, m: Mapping, w: string)
    requires Items(m) == Demands(d) && w in m
    ensures (w, m[w]) in d.corrections || Apply(m, m[w]) == m[w]
  {
    var e := (w, m[w]);
    assert e in Items(m);
    if e in StemDemands(d.stems, SUFFIX_PAIRS) {
      var stem, f := DemandShape(d.stems, e);
      assert (e.1, e.1) in Items(m);
    } else if e in AcceptedDemands(d.accepted) {
      assert e == (w, w);
    }
  }

  predicate CorrectsOnce(m: Mapping, w: string) {
    Apply(m, Apply(m, w)) == Apply(m, w)
  }

  /** Correcting twice is correcting once, exactly when no explicit correction leads to a word that is itself
      corrected: accepted words and stems never chain. */
  lemma OnlyExplicitCorrectionsChain(d: Dictionary)
    ensures Generated(d).Some? ==>
              ((forall w :: CorrectsOnce(Generated(d).value, w))
               <==> forall p | p in d.corrections :: Apply(Generated(d).value, p.1) == p.1)
  {
    if Generated(d).Some? {
      var m := Generated(d).value;
      assert forall e | e in Demands(d) :: e in Items(m) && e.0 in m && m[e.0] == e.1;
      if forall p | p in d.corrections :: Apply(m, p.1) == p.1 {
        forall w ensures CorrectsOnce(m, w) {
          if w in m {
            DemandsSettle(d, m, w);
          }
        }
      }
      if forall w :: CorrectsOnce(m, w) {
        forall p | p in d.corrections ensures Apply(m, p.1) == p.1 {
          assert p in Demands(d);
          assert CorrectsOnce(m, p.0);
        }
      }
    }
  }

  /** For stems alone, correcting twice is correcting once. */
  lemma StemsCorrectOnce(d: Dictionary, w: string)
    requires d.accepted == [] && d.corrections == []
    ensures Generated(d).Some?
    ensures CorrectsOnce(Generated(d).value, w)
  {
    StemsNeverConflict(d);
    OnlyExplicitCorrectionsChain(d);
  }

  /** Each British form of a stem is corrected to its Oxford form, which stays, whatever else the dictionary holds. */
  lemma StemsAreCorrected(d: Dictionary, stem: string, ending: string)
    requires Generated(d).Some? && stem in d.stems && ending in ENDINGS
    ensures Apply(Generated(d).value, stem + ("is" + ending)) == stem + ("iz" + ending)
    ensures Apply(Generated(d).value, stem + ("iz" + ending)) == stem + ("iz" + ending)
  {
    var m := Generated(d).value;
    var british, oxford := stem + ("is" + ending), stem + ("iz" + ending);
    StemsDemandNinePairs(d.stems, (british, oxford));
    StemsDemandNinePairs(d.stems, (oxford, oxford));
    assert (british, oxford) in Items(m) && (oxford, oxford) in Items(m);
  }
}
