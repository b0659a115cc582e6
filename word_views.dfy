/** The derived views of the game session, as pure functions of the session's
    fields: the playable word list (`anagramWords`), the score of a guess log
    (`score`), its per-length breakdown (`scoreInfo`), the hints on offer
    (`hintCount`), and the pieces the session's transitions are built from. */
module WordViews {
  import opened Chars

  // ---------------------------------------------------------------------------
  // anagramWords: the adaptive length filter

  /** The shortest playable length: 4 when the word source returned more than 50
      anagrams, 3 otherwise. */
  function MinLength(anagramCount: nat): nat {
    if anagramCount > 50 then 4 else 3
  }

  /** `words.filterNot { it.length < min }`. */
  function KeepAtLeast(words: seq<string>, min: nat): seq<string> {
    if words == [] then []
    else (if |words[0]| < min then [] else [words[0]]) + KeepAtLeast(words[1..], min)
  }

  /** `anagramWords`. */
  function PlayableWords(anagrams: seq<string>): seq<string> {
    KeepAtLeast(anagrams, MinLength(|anagrams|))
  }

  /** The filter keeps exactly the words of at least the given length, and no more words. */
  lemma {:induction false} KeepAtLeastSpec(words: seq<string>, min: nat)
    ensures forall w :: w in KeepAtLeast(words, min) <==> w in words && |w| >= min
    ensures |KeepAtLeast(words, min)| <= |words|
  {
    if words != [] {
      KeepAtLeastSpec(words[1..], min);
      assert words == [words[0]] + words[1..];
    }
  }

  /** The playable words are exactly the anagrams of at least the adaptive length. */
  lemma PlayableWordsSpec(anagrams: seq<string>)
    ensures forall w :: w in PlayableWords(anagrams) <==> w in anagrams && |w| >= MinLength(|anagrams|)
    ensures |PlayableWords(anagrams)| <= |anagrams|
  {
    KeepAtLeastSpec(anagrams, MinLength(|anagrams|));
  }

  /** The filter keeps the original order: filtering a concatenation filters each part. */
  lemma {:induction false} KeepAtLeastConcat(a: seq<string>, b: seq<string>, min: nat)
    ensures KeepAtLeast(a + b, min) == KeepAtLeast(a, min) + KeepAtLeast(b, min)
  {
    if a != [] {
      assert (a + b)[1..] == a[1..] + b;
      KeepAtLeastConcat(a[1..], b, min);
    } else {
      assert a + b == b;
    }
  }

  /** The filter keeps every long enough copy of a word and drops every short one. */
  lemma {:induction false} KeepAtLeastMultiplicity(words: seq<string>, min: nat, w: string)
    ensures multiset(KeepAtLeast(words, min))[w] == if |w| >= min then multiset(words)[w] else 0
  {
    if words != [] {
      KeepAtLeastMultiplicity(words[1..], min, w);
      assert words == [words[0]] + words[1..];
    }
  }

  // ---------------------------------------------------------------------------
  // score: the length-grouped formula

  /** The points of one length group: `length * (count + length)`. */
  function LengthPoints(length: nat, count: nat): nat {
    length * (count + length)
  }

  /** The number of guesses of the given length (the size of its `groupBy` group). */
  function CountOfLength(guesses: seq<string>, length: nat): nat {
    if guesses == [] then 0
    else CountOfLength(guesses[..|guesses| - 1], length)
         + (if |guesses[|guesses| - 1]| == length then 1 else 0)
  }

  /** The keys of `guesses.groupBy { it.length }`, in order of first occurrence. */
  function DistinctLengths(guesses: seq<string>): seq<nat> {
    if guesses == [] then []
    else
      var lengths := DistinctLengths(guesses[..|guesses| - 1]);
      var length := |guesses[|guesses| - 1]|;
      if length in lengths then lengths else lengths + [length]
  }

  /** The points of the given length groups of `guesses`, added up. */
  function SumPoints(lengths: seq<nat>, guesses: seq<string>): nat {
    if lengths == [] then 0
    else
      var length := lengths[|lengths| - 1];
      SumPoints(lengths[..|lengths| - 1], guesses) + LengthPoints(length, CountOfLength(guesses, length))
  }

  /** `score` of an unfinished game: the points of every length group of the guess
      log; the empty log (`ifEmpty { listOf(0) }`) scores 0. */
  function GuessScore(guesses: seq<string>): nat {
    SumPoints(DistinctLengths(guesses), guesses)
  }

  predicate NoDuplicates(lengths: seq<nat>) {
    forall i, j :: 0 <= i < j < |lengths| ==> lengths[i] != lengths[j]
  }

  ghost predicate SameMembers(a: seq<nat>, b: seq<nat>) {
    forall length :: length in a <==> length in b
  }

  lemma {:induction false} CountOfLengthConcat(a: seq<string>, b: seq<string>, length: nat)
    ensures CountOfLength(a + b, length) == CountOfLength(a, length) + CountOfLength(b, length)
    decreases |b|
  {
    if b == [] {
      assert a + b == a;
    } else {
      assert (a + b)[..|a + b| - 1] == a + b[..|b| - 1];
      CountOfLengthConcat(a, b[..|b| - 1], length);
    }
  }

  lemma {:induction false} CountOfLengthPositive(guesses: seq<string>, length: nat)
    ensures CountOfLength(guesses, length) > 0 <==> exists i :: 0 <= i < |guesses| && |guesses[i]| == length
  {
    if guesses != [] {
      var init := guesses[..|guesses| - 1];
      CountOfLengthPositive(init, length);
      if exists i :: 0 <= i < |init| && |init[i]| == length {
        var i :| 0 <= i < |init| && |init[i]| == length;
        assert guesses[i] == init[i];
      }
      if exists i :: 0 <= i < |guesses| && |guesses[i]| == length {
        var i :| 0 <= i < |guesses| && |guesses[i]| == length;
        if i < |init| { assert init[i] == guesses[i]; }
      }
    }
  }

  /** Taking one guess out of the log takes it out of its length's count. */
  lemma CountOfLengthRemove(t: seq<string>, j: nat, length: nat)
    requires j < |t|
    ensures CountOfLength(t, length) ==
            CountOfLength(t[..j] + t[j + 1..], length) + (if |t[j]| == length then 1 else 0)
  {
    assert t == t[..j] + [t[j]] + t[j + 1..];
    CountOfLengthConcat(t[..j], [t[j]], length);
    CountOfLengthConcat(t[..j] + [t[j]], t[j + 1..], length);
    CountOfLengthConcat(t[..j], t[j + 1..], length);
    assert CountOfLength([t[j]], length) == (if |t[j]| == length then 1 else 0) by {
      assert [t[j]][..0] == [];
    }
  }

  /** Taking the element at `j` out of a sequence takes one copy of it out of its multiset. */
  lemma MultisetSplitAt<T>(t: seq<T>, j: nat)
    requires j < |t|
    ensures multiset(t) == multiset(t[..j] + t[j + 1..]) + multiset{t[j]}
  {
    assert t == t[..j] + [t[j]] + t[j + 1..];
  }

  lemma MultisetRemove<T>(s: seq<T>, t: seq<T>, j: nat)
    requires multiset(s) == multiset(t) && s != [] && j < |t| && t[j] == s[|s| - 1]
    ensures multiset(s[..|s| - 1]) == multiset(t[..j] + t[j + 1..])
  {
    var x := s[|s| - 1];
    var s', t' := s[..|s| - 1], t[..j] + t[j + 1..];
    MultisetSplitAt(s, |s| - 1);
    assert s[..|s| - 1] + s[|s|..] == s';
    MultisetSplitAt(t, j);
    forall y ensures multiset(s')[y] == multiset(t')[y] {
      assert (multiset(s') + multiset{x})[y] == (multiset(t') + multiset{x})[y];
    }
  }

  /** The number of guesses of a length does not depend on the order of the log. */
  lemma {:induction false} CountOfLengthPermutation(s: seq<string>, t: seq<string>, length: nat)
    requires multiset(s) == multiset(t)
    ensures CountOfLength(s, length) == CountOfLength(t, length)
    decreases |s|
  {
    if s == [] {
      assert |t| == |multiset(t)| == 0;
    } else {
      var x := s[|s| - 1];
      assert x in multiset(t);
      var j :| 0 <= j < |t| && t[j] == x;
      MultisetRemove(s, t, j);
      CountOfLengthPermutation(s[..|s| - 1], t[..j] + t[j + 1..], length);
      CountOfLengthRemove(t, j, length);
    }
  }

  /** The group keys are duplicate-free and are exactly the lengths of the guesses. */
  lemma {:induction false} DistinctLengthsSpec(guesses: seq<string>)
    ensures NoDuplicates(DistinctLengths(guesses))
    ensures forall length :: length in DistinctLengths(guesses) <==> CountOfLength(guesses, length) > 0
  {
    if guesses != [] {
      DistinctLengthsSpec(guesses[..|guesses| - 1]);
    }
  }

  /** One more guess adds its length's worth of points to its group, if the group is listed. */
  lemma {:induction false} SumPointsAppend(lengths: seq<nat>, guesses: seq<string>, w: string)
    requires NoDuplicates(lengths)
    ensures SumPoints(lengths, guesses + [w]) == SumPoints(lengths, guesses) + (if |w| in lengths then |w| else 0)
  {
    if lengths != [] {
      var init := lengths[..|lengths| - 1];
      var length := lengths[|lengths| - 1];
      SumPointsAppend(init, guesses, w);
      assert (guesses + [w])[..|guesses + [w]| - 1] == guesses;
      var n := CountOfLength(guesses, length);
      if |w| == length {
        assert LengthPoints(length, n + 1) == LengthPoints(length, n) + length;
        assert |w| !in init;
      }
      assert |w| in lengths <==> |w| in init || |w| == length;
    }
  }

  /** What accepting `w` after `guesses` is worth: its length L, plus L * L when it is
      the first guess of that length. */
  function GuessPoints(guesses: seq<string>, w: string): nat {
    |w| + (if CountOfLength(guesses, |w|) == 0 then |w| * |w| else 0)
  }

  /** Accepting a guess raises the score by exactly what the guess is worth. */
  lemma ScoreAppend(guesses: seq<string>, w: string)
    ensures GuessScore(guesses + [w]) == GuessScore(guesses) + GuessPoints(guesses, w)
  {
    var lengths := DistinctLengths(guesses);
    DistinctLengthsSpec(guesses);
    assert (guesses + [w])[..|guesses + [w]| - 1] == guesses;
    SumPointsAppend(lengths, guesses, w);
    if |w| !in lengths {
      var lengths' := lengths + [|w|];
      assert lengths'[..|lengths'| - 1] == lengths;
      assert CountOfLength(guesses + [w], |w|) == 1;
      assert LengthPoints(|w|, 1) == |w| + |w| * |w|;
    }
  }

  /** A worked example of the scoring formula: "cat", "dog", "frog" score 3 * (2 + 3) + 4 * (1 + 4). */
  lemma ScoreExample()
    ensures GuessScore(["cat", "dog", "frog"]) == 35
  {
    var one: seq<string> := ["cat"];
    var two: seq<string> := ["cat", "dog"];
    ScoreAppend([], "cat");
    assert [] + ["cat"] == one;
    assert GuessScore(one) == 12;
    ScoreAppend(one, "dog");
    assert one + ["dog"] == two;
    assert CountOfLength(one, 3) == 1 by { assert one[..0] == []; }
    assert GuessScore(two) == 15;
    ScoreAppend(two, "frog");
    assert two + ["frog"] == ["cat", "dog", "frog"];
    assert CountOfLength(two, 4) == 0 by { assert two[..1] == one; assert one[..0] == []; }
  }

  lemma {:induction false} SumPointsConcat(a: seq<nat>, b: seq<nat>, guesses: seq<string>)
    ensures SumPoints(a + b, guesses) == SumPoints(a, guesses) + SumPoints(b, guesses)
    decreases |b|
  {
    if b == [] {
      assert a + b == a;
    } else {
      assert (a + b)[..|a + b| - 1] == a + b[..|b| - 1];
      SumPointsConcat(a, b[..|b| - 1], guesses);
    }
  }

  /** Taking one length out of a key list takes its points out of the sum. */
  lemma SumPointsRemove(b: seq<nat>, j: nat, guesses: seq<string>)
    requires j < |b|
    ensures SumPoints(b, guesses) ==
            SumPoints(b[..j] + b[j + 1..], guesses) + LengthPoints(b[j], CountOfLength(guesses, b[j]))
  {
    assert b == b[..j] + [b[j]] + b[j + 1..];
    SumPointsConcat(b[..j], [b[j]], guesses);
    SumPointsConcat(b[..j] + [b[j]], b[j + 1..], guesses);
    SumPointsConcat(b[..j], b[j + 1..], guesses);
    assert SumPoints([b[j]], guesses) == LengthPoints(b[j], CountOfLength(guesses, b[j])) by {
      assert [b[j]][..0] == [];
    }
  }

  /** Removing the same key from two duplicate-free key lists with the same members
      leaves two duplicate-free lists with the same members. */
  lemma RemoveSameKey(a: seq<nat>, b: seq<nat>, j: nat)
    requires NoDuplicates(a) && NoDuplicates(b) && a != []
    requires SameMembers(a, b)
    requires j < |b| && b[j] == a[|a| - 1]
    ensures NoDuplicates(a[..|a| - 1]) && NoDuplicates(b[..j] + b[j + 1..])
    ensures SameMembers(a[..|a| - 1], b[..j] + b[j + 1..])
  {
    var x := a[|a| - 1];
    var a' := a[..|a| - 1];
    var b' := b[..j] + b[j + 1..];
    assert a == a' + [x];
    assert b == b[..j] + [x] + b[j + 1..];
    assert x !in a' by {
      assert forall i :: 0 <= i < |a'| ==> a'[i] == a[i] && a[i] != a[|a| - 1];
    }
    assert x !in b' by {
      assert forall i :: 0 <= i < |b'| ==> b'[i] == b[if i < j then i else i + 1];
    }
    forall p, q | 0 <= p < q < |b'| ensures b'[p] != b'[q] {
      var p' := if p < j then p else p + 1;
      var q' := if q < j then q else q + 1;
      assert b'[p] == b[p'] && b'[q] == b[q'];
    }
    forall length ensures length in a' <==> length in b' {
      if length in a' {
        assert length in a && length != x;
        var i :| 0 <= i < |b| && b[i] == length;
        if i < j { assert b'[i] == length; } else { assert b'[i - 1] == length; }
      }
      if length in b' {
        assert length in b && length != x;
        assert length in a' + [x];
      }
    }
  }

  /** Adding up the groups in another order gives the same total. */
  lemma {:induction false} SumPointsSameLengths(a: seq<nat>, b: seq<nat>, guesses: seq<string>)
    requires NoDuplicates(a) && NoDuplicates(b)
    requires SameMembers(a, b)
    ensures SumPoints(a, guesses) == SumPoints(b, guesses)
    decreases |a|
  {
    if a == [] {
      assert forall i :: 0 <= i < |b| ==> b[i] in a;
    } else {
      var x := a[|a| - 1];
      assert x in b;
      var j :| 0 <= j < |b| && b[j] == x;
      RemoveSameKey(a, b, j);
      SumPointsSameLengths(a[..|a| - 1], b[..j] + b[j + 1..], guesses);
      SumPointsRemove(b, j, guesses);
    }
  }

  lemma {:induction false} SumPointsSameCounts(lengths: seq<nat>, s: seq<string>, t: seq<string>)
    requires forall length :: CountOfLength(s, length) == CountOfLength(t, length)
    ensures SumPoints(lengths, s) == SumPoints(lengths, t)
  {
    if lengths != [] {
      SumPointsSameCounts(lengths[..|lengths| - 1], s, t);
    }
  }

  /** The score depends only on which guesses were made, not on their order. */
  lemma ScorePermutation(s: seq<string>, t: seq<string>)
    requires multiset(s) == multiset(t)
    ensures GuessScore(s) == GuessScore(t)
  {
    forall length ensures CountOfLength(s, length) == CountOfLength(t, length) {
      CountOfLengthPermutation(s, t, length);
    }
    DistinctLengthsSpec(s);
    DistinctLengthsSpec(t);
    SumPointsSameLengths(DistinctLengths(s), DistinctLengths(t), s);
    SumPointsSameCounts(DistinctLengths(t), s, t);
  }

  // ---------------------------------------------------------------------------
  // scoreInfo: the per-length breakdown

  /** Places `w` after every word at least as long (a step of a stable sort by
      descending length). */
  function InsertByLength(sorted: seq<string>, w: string): seq<string> {
    if sorted == [] then [w]
    else if |sorted[0]| < |w| then [w] + sorted
    else [sorted[0]] + InsertByLength(sorted[1..], w)
  }

  /** `sortedByDescending { it.length }`. */
  function SortByLength(words: seq<string>): seq<string> {
    if words == [] then []
    else InsertByLength(SortByLength(words[..|words| - 1]), words[|words| - 1])
  }

  predicate LongestFirst(words: seq<string>) {
    forall i, j :: 0 <= i < j < |words| ==> |words[i]| >= |words[j]|
  }

  /** Inserting a word no longer than a bound into words no longer than it keeps them all
      within the bound. */
  lemma {:induction false} InsertByLengthBound(sorted: seq<string>, w: string, bound: nat)
    requires forall i :: 0 <= i < |sorted| ==> |sorted[i]| <= bound
    requires |w| <= bound
    ensures forall i :: 0 <= i < |InsertByLength(sorted, w)| ==> |InsertByLength(sorted, w)[i]| <= bound
  {
    if sorted != [] && |sorted[0]| >= |w| {
      InsertByLengthBound(sorted[1..], w, bound);
    }
  }

  /** Inserting adds exactly one copy of `w`. */
  lemma {:induction false} InsertByLengthPermutation(sorted: seq<string>, w: string)
    ensures multiset(InsertByLength(sorted, w)) == multiset(sorted) + multiset{w}
  {
    if sorted != [] && |sorted[0]| >= |w| {
      InsertByLengthPermutation(sorted[1..], w);
      assert sorted == [sorted[0]] + sorted[1..];
    }
  }

  /** Inserting into a longest-first list keeps it longest first. */
  lemma {:induction false} InsertByLengthSpec(sorted: seq<string>, w: string)
    requires LongestFirst(sorted)
    ensures LongestFirst(InsertByLength(sorted, w))
  {
    var r := InsertByLength(sorted, w);
    if sorted == [] {
    } else if |sorted[0]| < |w| {
      forall i, j | 0 <= i < j < |r| ensures |r[i]| >= |r[j]| {
        assert r[j] == sorted[j - 1];
        if i > 0 { assert r[i] == sorted[i - 1]; } else { assert |sorted[0]| >= |sorted[j - 1]|; }
      }
    } else {
      var rest := InsertByLength(sorted[1..], w);
      InsertByLengthSpec(sorted[1..], w);
      InsertByLengthBound(sorted[1..], w, |sorted[0]|);
      assert r == [sorted[0]] + rest;
      forall i, j | 0 <= i < j < |r| ensures |r[i]| >= |r[j]| {
        assert r[j] == rest[j - 1];
        if i > 0 { assert r[i] == rest[i - 1]; }
      }
    }
  }

  lemma {:induction false} SortByLengthSpec(words: seq<string>)
    ensures LongestFirst(SortByLength(words))
    ensures multiset(SortByLength(words)) == multiset(words)
  {
    if words != [] {
      var init := words[..|words| - 1];
      SortByLengthSpec(init);
      InsertByLengthSpec(SortByLength(init), words[|words| - 1]);
      InsertByLengthPermutation(SortByLength(init), words[|words| - 1]);
      assert words == init + [words[|words| - 1]];
    }
  }

  /** In a longest-first list the group keys come out strictly decreasing. */
  lemma {:induction false} DistinctLengthsDecreasing(sorted: seq<string>)
    requires LongestFirst(sorted)
    ensures forall i, j :: 0 <= i < j < |DistinctLengths(sorted)| ==>
              DistinctLengths(sorted)[i] > DistinctLengths(sorted)[j]
  {
    if sorted != [] {
      var init := sorted[..|sorted| - 1];
      var last := sorted[|sorted| - 1];
      DistinctLengthsDecreasing(init);
      DistinctLengthsSpec(init);
      forall length | length in DistinctLengths(init) ensures length >= |last| {
        CountOfLengthPositive(init, length);
        var i :| 0 <= i < |init| && |init[i]| == length;
        assert sorted[i] == init[i];
      }
      var d := DistinctLengths(init);
      if |last| !in d {
        var d' := d + [|last|];
        assert DistinctLengths(sorted) == d';
        forall i, j | 0 <= i < j < |d'| ensures d'[i] > d'[j] {
          if j == |d| { assert d'[i] == d[i] && d[i] in d; }
        }
      }
    }
  }

  /** One `(length, points)` entry per given length, in the given order. */
  function LengthEntries(lengths: seq<nat>, guesses: seq<string>): seq<(nat, nat)> {
    seq(|lengths|, i requires 0 <= i < |lengths| => (lengths[i], LengthPoints(lengths[i], CountOfLength(guesses, lengths[i]))))
  }

  /** `scoreInfo`: sort the log longest first, group it by length and give each group its
      points; the resulting map iterates in the sorted order. */
  function ScoreBreakdown(guesses: seq<string>): seq<(nat, nat)> {
    var sorted := SortByLength(guesses);
    LengthEntries(DistinctLengths(sorted), sorted)
  }

  function TotalPoints(entries: seq<(nat, nat)>): nat {
    if entries == [] then 0 else TotalPoints(entries[..|entries| - 1]) + entries[|entries| - 1].1
  }

  lemma {:induction false} TotalPointsOfEntries(lengths: seq<nat>, guesses: seq<string>)
    ensures TotalPoints(LengthEntries(lengths, guesses)) == SumPoints(lengths, guesses)
  {
    if lengths != [] {
      var init := lengths[..|lengths| - 1];
      TotalPointsOfEntries(init, guesses);
      assert LengthEntries(lengths, guesses)[..|lengths| - 1] == LengthEntries(init, guesses);
    }
  }

  /** The breakdown lists each length the log contains exactly once, longest first, with
      that length's points; its points add up to the score. */
  lemma ScoreBreakdownSpec(guesses: seq<string>)
    ensures var info := ScoreBreakdown(guesses);
      && (forall i, j :: 0 <= i < j < |info| ==> info[i].0 > info[j].0)
      && (forall i :: 0 <= i < |info| ==> info[i].1 == LengthPoints(info[i].0, CountOfLength(guesses, info[i].0)))
      && (forall length :: CountOfLength(guesses, length) > 0 <==> exists i :: 0 <= i < |info| && info[i].0 == length)
      && TotalPoints(info) == GuessScore(guesses)
  {
    var sorted := SortByLength(guesses);
    var lengths := DistinctLengths(sorted);
    var info := ScoreBreakdown(guesses);
    SortByLengthSpec(guesses);
    DistinctLengthsSpec(sorted);
    DistinctLengthsDecreasing(sorted);
    forall length ensures CountOfLength(guesses, length) == CountOfLength(sorted, length) {
      CountOfLengthPermutation(guesses, sorted, length);
    }
    forall length ensures CountOfLength(guesses, length) > 0 <==> exists i :: 0 <= i < |info| && info[i].0 == length {
      if length in lengths {
        var i :| 0 <= i < |lengths| && lengths[i] == length;
        assert info[i].0 == length;
      }
    }
    TotalPointsOfEntries(lengths, sorted);
    ScorePermutation(sorted, guesses);
  }

  // ---------------------------------------------------------------------------
  // Hints

  /** `hintCount`: the accrued hints, plus the free one while it is unused. */
  function HintCount(hints: int, usedHint: bool): int {
    hints + if usedHint then 0 else 1
  }

  /** The counter part of `useHint` as written: nothing happens unless `hints > 0`; the
      free hint is spent first, later calls take an accrued one. */
  function SpendHint(hints: int, usedHint: bool): (int, bool) {
    if hints > 0 then (if usedHint then hints - 1 else hints, true) else (hints, usedHint)
  }

  /** With `hints > 0` a call takes exactly one hint off `hintCount`, and `hints` never
      goes negative. */
  lemma SpendHintSpec(hints: int, usedHint: bool)
    requires hints >= 0
    ensures SpendHint(hints, usedHint).0 >= 0
    ensures hints > 0 ==>
              (SpendHint(hints, usedHint).1 &&
               HintCount(SpendHint(hints, usedHint).0, SpendHint(hints, usedHint).1) == HintCount(hints, usedHint) - 1)
    ensures hints <= 0 ==> SpendHint(hints, usedHint) == (hints, usedHint)
  {
  }

  /** The free hint is offered but cannot be spent: with no accrued hints and the free
      hint unused, `hintCount` is 1, yet `useHint` changes nothing. */
  lemma FreeHintNotSpendable()
    ensures HintCount(0, false) == 1
    ensures SpendHint(0, false) == (0, false)
  {
  }

  /** `useHint` gated, as the hint button is, on `hintCount > 0`. */
  function SpendHintGated(hints: int, usedHint: bool): (int, bool) {
    if HintCount(hints, usedHint) > 0 then (if usedHint then hints - 1 else hints, true)
    else (hints, usedHint)
  }

  /** Gated on `hintCount`, every hint on offer can be spent, each call takes exactly one,
      and `hints` never goes negative. */
  lemma SpendHintGatedSpec(hints: int, usedHint: bool)
    requires hints >= 0
    ensures SpendHintGated(hints, usedHint).0 >= 0
    ensures HintCount(hints, usedHint) > 0 ==>
              HintCount(SpendHintGated(hints, usedHint).0, SpendHintGated(hints, usedHint).1) == HintCount(hints, usedHint) - 1
    ensures HintCount(hints, usedHint) <= 0 ==> SpendHintGated(hints, usedHint) == (hints, usedHint)
  {
  }

  /** `mainLetters.uppercase().filterNot { hintList.contains(it.toString()) }`: the
      upper-cased letters not yet revealed, the pool `randomOrNull` draws from. */
  function Unrevealed(upper: string, revealed: set<string>): (pool: string)
    ensures forall i :: 0 <= i < |pool| ==> pool[i] in upper && [pool[i]] !in revealed
    ensures forall i :: 0 <= i < |upper| && [upper[i]] !in revealed ==> upper[i] in pool
  {
    if upper == [] then []
    else (if [upper[0]] in revealed then [] else [upper[0]]) + Unrevealed(upper[1..], revealed)
  }

  /** The hint pool of `letters`: upper-cased letters of the root that are not yet revealed. */
  function HintCandidates(letters: string, revealed: set<string>): (pool: string)
    ensures forall i :: 0 <= i < |pool| ==>
              [pool[i]] !in revealed && Upper(pool[i]) == pool[i] &&
              exists j :: 0 <= j < |letters| && pool[i] == Upper(letters[j])
    ensures forall j :: 0 <= j < |letters| && [Upper(letters[j])] !in revealed ==> Upper(letters[j]) in pool
  {
    var upper := UpperString(letters);
    var pool := Unrevealed(upper, revealed);
    assert forall i :: 0 <= i < |pool| ==> exists j :: 0 <= j < |letters| && pool[i] == Upper(letters[j]) by {
      forall i | 0 <= i < |pool| ensures exists j :: 0 <= j < |letters| && pool[i] == Upper(letters[j]) {
        var j :| 0 <= j < |upper| && upper[j] == pool[i];
      }
    }
    assert forall j :: 0 <= j < |letters| && [Upper(letters[j])] !in revealed ==> Upper(letters[j]) in pool by {
      forall j | 0 <= j < |letters| && [Upper(letters[j])] !in revealed ensures Upper(letters[j]) in pool {
        assert upper[j] == Upper(letters[j]);
      }
    }
    pool
  }

  // ---------------------------------------------------------------------------
  // The hint carry-over bar and guess lookup

  /** The bar a session must reach to earn a hint for the next one: at least half of the
      playable words (integer division) guessed, or any seven-letter guess. */
  predicate MetHintBar(guesses: seq<string>, words: seq<string>) {
    |guesses| >= |words| / 2 || exists i :: 0 <= i < |guesses| && |guesses[i]| == 7
  }

  /** A log holding every playable word, as the finish autofill leaves it, meets the bar,
      and so does an empty log when there are no playable words (the first load, or a
      load after a failed fetch). */
  lemma HintBarCases(words: seq<string>)
    ensures MetHintBar(words, words)
    ensures MetHintBar([], [])
  {
  }

  /** `words.any { it.equals(w, ignoreCase = true) }`, scanning from the front. */
  predicate InWordList(w: string, words: seq<string>) {
    words != [] && (EqualsIgnoreCase(words[0], w) || InWordList(w, words[1..]))
  }

  /** The scan finds `w` exactly when some word equals it up to case. */
  lemma {:induction false} InWordListSpec(w: string, words: seq<string>)
    ensures InWordList(w, words) <==> exists j :: 0 <= j < |words| && EqualsIgnoreCase(words[j], w)
  {
    if words != [] {
      InWordListSpec(w, words[1..]);
      if exists j :: 0 <= j < |words[1..]| && EqualsIgnoreCase(words[1..][j], w) {
        var j :| 0 <= j < |words[1..]| && EqualsIgnoreCase(words[1..][j], w);
        assert words[j + 1] == words[1..][j];
      }
      if exists j :: 0 <= j < |words| && EqualsIgnoreCase(words[j], w) {
        var j :| 0 <= j < |words| && EqualsIgnoreCase(words[j], w);
        if j > 0 { assert words[1..][j - 1] == words[j]; }
      }
    }
  }

  /** Every guess of the log matches a playable word, ignoring case. */
  predicate AllInWordList(guesses: seq<string>, words: seq<string>) {
    guesses == [] ||
    (AllInWordList(guesses[..|guesses| - 1], words) && InWordList(guesses[|guesses| - 1], words))
  }

  /** Every revealed hint is the upper-case form of a letter of the root. */
  ghost predicate RevealedFrom(revealed: set<string>, letters: string) {
    forall h :: h in revealed ==> exists j :: 0 <= j < |letters| && h == [Upper(letters[j])]
  }

  /** Logging a word that matches a playable word keeps every logged guess playable. */
  lemma AllInWordListAppend(guesses: seq<string>, words: seq<string>, w: string)
    requires AllInWordList(guesses, words) && InWordList(w, words)
    ensures AllInWordList(guesses + [w], words)
  {
    assert (guesses + [w])[..|guesses|] == guesses;
  }

  /** Revealing one more letter of the root keeps every revealed hint a letter of the root. */
  lemma RevealedFromAdd(revealed: set<string>, letters: string, j: nat)
    requires RevealedFrom(revealed, letters) && j < |letters|
    ensures RevealedFrom(revealed + {[Upper(letters[j])]}, letters)
  {
  }

  /** The letter drawn from the hint pool is upper case, not yet revealed and a letter of the
      root, so revealing it keeps every revealed hint a letter of the root. */
  lemma RevealPick(letters: string, revealed: set<string>, pick: nat)
    requires RevealedFrom(revealed, letters) && pick < |HintCandidates(letters, revealed)|
    ensures var c := HintCandidates(letters, revealed)[pick];
            && Upper(c) == c && [c] !in revealed
            && (exists j :: 0 <= j < |letters| && c == Upper(letters[j]))
            && RevealedFrom(revealed + {[c]}, letters)
  {
    var c := HintCandidates(letters, revealed)[pick];
    var j :| 0 <= j < |letters| && c == Upper(letters[j]);
    RevealedFromAdd(revealed, letters, j);
  }

  /** A list of words, taken as a log, matches itself: the state the finish autofill leaves. */
  lemma WordListContainsItself(words: seq<string>)
    ensures AllInWordList(words, words)
  {
    PrefixInWordList(words, |words|);
    assert words[..|words|] == words;
  }

  lemma {:induction false} PrefixInWordList(words: seq<string>, n: nat)
    requires n <= |words|
    ensures AllInWordList(words[..n], words)
  {
    if n > 0 {
      PrefixInWordList(words, n - 1);
      assert words[..n][..n - 1] == words[..n - 1];
      InWordListSpec(words[n - 1], words);
      assert EqualsIgnoreCase(words[n - 1], words[n - 1]);
    }
  }

  /** No word occurs twice in the log (exact, case-sensitive comparison). */
  predicate DistinctGuesses(guesses: seq<string>) {
    forall i, j :: 0 <= i < j < |guesses| ==> guesses[i] != guesses[j]
  }

  /** Logging a word only when it is not already logged keeps the log free of repeats. */
  lemma DistinctGuessesAppend(guesses: seq<string>, w: string)
    requires DistinctGuesses(guesses) && w !in guesses
    ensures DistinctGuesses(guesses + [w])
  {
    var g := guesses + [w];
    forall i, j | 0 <= i < j < |g| ensures g[i] != g[j] {
      assert g[i] == guesses[i];
      if j == |guesses| { assert g[j] == w; } else { assert g[j] == guesses[j]; }
    }
  }

  /** `indexOf`: the first position of `w`. */
  function IndexOf(guesses: seq<string>, w: string): (i: nat)
    requires w in guesses
    ensures i < |guesses| && guesses[i] == w
    ensures forall j :: 0 <= j < i ==> guesses[j] != w
  {
    if guesses[0] == w then 0 else 1 + IndexOf(guesses[1..], w)
  }
}
