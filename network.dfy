/** The pure part of the word source: the case-insensitive anagram-containment
    test (`isAnagram`, `isAnagramOf`) and the derivation, inside `getLetters`,
    of a round (a seven-letter root and its anagram list) from the text of the
    downloaded word list. The HTTP request itself is a parameter: the response
    body, or `None` when the request failed. */
module Network {
  import opened Chars

  datatype Option<T> = None | Some(value: T)

  /** `Word`: the root of a round and the anagrams the word source found for it. */
  datatype Word = Word(word: string, anagrams: seq<string>)

  /** `Definition`: a word and its definition, as the definition service returns it. */
  datatype Definition = Definition(word: string, definition: string)

  /** `s.groupBy { it.lowercaseChar() }.mapValues { it.value.size }`: each lower-case
      form that occurs in `s`, mapped to the number of its occurrences. */
  function Tally(s: string): (m: map<char, nat>)
    ensures forall k :: k in m <==> LowerCount(s, k) > 0
    ensures forall k :: k in m ==> m[k] == LowerCount(s, k)
  {
    if s == [] then map[]
    else
      var m := Tally(s[..|s| - 1]);
      var k := Lower(s[|s| - 1]);
      m[k := (if k in m then m[k] else 0) + 1]
  }

  /** `isAnagram(word, anagram)`: every key of the tally of `anagram` is a key of
      the tally of `word` with at least as large a count. Its meaning: case-insensitive
      multiset containment of `anagram` in `word`. */
  function IsAnagram(word: string, anagram: string): (r: bool)
    ensures r ==> forall k :: LowerCount(anagram, k) <= LowerCount(word, k)
    ensures (forall k :: LowerCount(anagram, k) <= LowerCount(word, k)) ==> r
  {
    var c := Tally(word);
    var a := Tally(anagram);
    var r := forall k | k in a :: k in c && a[k] <= c[k];
    assert r ==> forall k :: LowerCount(anagram, k) <= LowerCount(word, k) by {
      if r {
        forall k ensures LowerCount(anagram, k) <= LowerCount(word, k) {
          if k in a { assert k in c && a[k] <= c[k]; }
        }
      }
    }
    assert (forall k :: LowerCount(anagram, k) <= LowerCount(word, k)) ==> r by {
      if forall k :: LowerCount(anagram, k) <= LowerCount(word, k) {
        forall k | k in a ensures k in c && a[k] <= c[k] {
          assert LowerCount(anagram, k) <= LowerCount(word, k);
        }
      }
    }
    r
  }

  /** `s isAnagramOf word`, which is `isAnagram(word, s)`: the root comes first. */
  function IsAnagramOf(s: string, word: string): (r: bool)
    ensures r ==> forall k :: LowerCount(s, k) <= LowerCount(word, k)
    ensures (forall k :: LowerCount(s, k) <= LowerCount(word, k)) ==> r
  {
    IsAnagram(word, s)
  }

  /** The test is multiset containment of the lower-cased strings. */
  lemma IsAnagramIsSubMultiset(word: string, anagram: string)
    ensures IsAnagram(word, anagram) <==> multiset(LowerString(anagram)) <= multiset(LowerString(word))
  {
    forall k ensures LowerCount(word, k) == multiset(LowerString(word))[k]
                 && LowerCount(anagram, k) == multiset(LowerString(anagram))[k] {
      LowerCountIsMultiplicity(word, k);
      LowerCountIsMultiplicity(anagram, k);
    }
  }

  /** A character of `anagram` that `word` lacks in either case makes the test fail. */
  lemma IsAnagramMissingLetter(word: string, anagram: string, i: nat)
    requires i < |anagram|
    requires forall j :: 0 <= j < |word| ==> Lower(word[j]) != Lower(anagram[i])
    ensures !IsAnagram(word, anagram)
  {
    LowerCountPositive(anagram, Lower(anagram[i]));
    LowerCountPositive(word, Lower(anagram[i]));
  }

  /** Reordering either argument does not change the result. */
  lemma IsAnagramPermutation(word: string, word': string, anagram: string, anagram': string)
    requires multiset(word) == multiset(word')
    requires multiset(anagram) == multiset(anagram')
    ensures IsAnagram(word, anagram) == IsAnagram(word', anagram')
  {
    forall k ensures LowerCount(word, k) == LowerCount(word', k)
                 && LowerCount(anagram, k) == LowerCount(anagram', k) {
      LowerCountPermutation(word, word', k);
      LowerCountPermutation(anagram, anagram', k);
    }
  }

  /** Changing the case of either argument does not change the result. */
  lemma IsAnagramIgnoresCase(word: string, word': string, anagram: string, anagram': string)
    requires EqualsIgnoreCase(word, word')
    requires EqualsIgnoreCase(anagram, anagram')
    ensures IsAnagram(word, anagram) == IsAnagram(word', anagram')
  {
    forall k ensures LowerCount(word, k) == LowerCount(word', k)
                 && LowerCount(anagram, k) == LowerCount(anagram', k) {
      LowerCountIgnoresCase(word, word', k);
      LowerCountIgnoresCase(anagram, anagram', k);
    }
  }

  /** Every word contains itself, and the empty string is contained in every word. */
  lemma IsAnagramReflexiveAndEmpty(word: string)
    ensures IsAnagram(word, word)
    ensures IsAnagram(word, "")
  {
  }

  /** Containment is transitive. */
  lemma IsAnagramTransitive(a: string, b: string, c: string)
    requires IsAnagram(a, b) && IsAnagram(b, c)
    ensures IsAnagram(a, c)
  {
  }

  /** `text.split("\n")`: the pieces between line feeds, at least one of them. */
  function Split(text: string): (lines: seq<string>)
    ensures |lines| >= 1
    ensures forall i :: 0 <= i < |lines| ==> '\n' !in lines[i]
  {
    if text == [] then [""]
    else if text[0] == '\n' then [""] + Split(text[1..])
    else
      var rest := Split(text[1..]);
      [[text[0]] + rest[0]] + rest[1..]
  }

  /** `lines.joinToString("\n")`. */
  function Join(lines: seq<string>): string
    requires |lines| >= 1
  {
    if |lines| == 1 then lines[0] else lines[0] + "\n" + Join(lines[1..])
  }

  /** Splitting loses nothing: joining the pieces gives the text back. */
  lemma {:induction false} JoinSplit(text: string)
    ensures Join(Split(text)) == text
  {
    if text != [] {
      var rest := Split(text[1..]);
      JoinSplit(text[1..]);
      if text[0] == '\n' {
        assert ([""] + rest)[1..] == rest;
      } else if |rest| > 1 {
        var lines := [[text[0]] + rest[0]] + rest[1..];
        assert lines[1..] == rest[1..];
      }
    }
  }

  /** `.filter { it.all(Char::isLetter) }`. */
  function LetterTokens(lines: seq<string>): (tokens: seq<string>)
    ensures forall t :: t in tokens <==> t in lines && IsAllLetters(t)
  {
    if lines == [] then []
    else (if IsAllLetters(lines[0]) then [lines[0]] else []) + LetterTokens(lines[1..])
  }

  /** `.filter { it.length == 7 }`: the candidates for the root. */
  function SevenLetterWords(tokens: seq<string>): (roots: seq<string>)
    ensures forall t :: t in roots <==> t in tokens && |t| == 7
  {
    if tokens == [] then []
    else (if |tokens[0]| == 7 then [tokens[0]] else []) + SevenLetterWords(tokens[1..])
  }

  /** `.filter { it.length >= 3 && it isAnagramOf word }`. */
  function AnagramsOf(tokens: seq<string>, root: string): (found: seq<string>)
    ensures forall t :: t in found <==> t in tokens && |t| >= 3 && IsAnagramOf(t, root)
  {
    if tokens == [] then []
    else
      (if |tokens[0]| >= 3 && IsAnagramOf(tokens[0], root) then [tokens[0]] else [])
      + AnagramsOf(tokens[1..], root)
  }

  /** `.map { it.uppercase() }`. */
  function UpperAll(words: seq<string>): seq<string> {
    seq(|words|, i requires 0 <= i < |words| => UpperString(words[i]))
  }

  /** What a round derived from `text` looks like: a seven-letter all-letter root taken
      from the text, and as anagrams exactly the upper-cased all-letter lines of at
      least three characters that the root contains. */
  ghost predicate IsRoundOf(text: string, round: Word) {
    && |round.word| == 7 && IsAllLetters(round.word) && round.word in Split(text)
    && (forall a :: a in round.anagrams ==>
          && |a| >= 3 && IsUpperString(a) && IsAnagramOf(a, round.word)
          && exists t :: t in Split(text) && IsAllLetters(t) && a == UpperString(t))
    && (forall t :: t in Split(text) && IsAllLetters(t) && |t| >= 3 && IsAnagramOf(t, round.word)
          ==> UpperString(t) in round.anagrams)
  }

  /** The pure part of `getLetters`. `response` is the body of the word-list download,
      or `None` when the request failed; `pick` is the choice `random()` makes among the
      seven-letter words. `random()` on an empty list throws, which `runCatching` turns
      into a failure. */
  function GetLetters(response: Option<string>, pick: nat): (r: Option<Word>)
    requires response.Some? && SevenLetterWords(LetterTokens(Split(response.value))) != []
             ==> pick < |SevenLetterWords(LetterTokens(Split(response.value)))|
    ensures r.None? <==>
              response.None? ||
              forall t :: t in Split(response.value) && IsAllLetters(t) ==> |t| != 7
    ensures r.Some? ==> response.Some? && IsRoundOf(response.value, r.value)
  {
    match response
    case None => None
    case Some(text) =>
      var info := LetterTokens(Split(text));
      var roots := SevenLetterWords(info);
      if roots == [] then
        assert forall t :: t in Split(text) && IsAllLetters(t) ==> |t| != 7 by {
          forall t | t in Split(text) && IsAllLetters(t) ensures |t| != 7 {
            assert t in info;
          }
        }
        None
      else
        var word := roots[pick];
        var found := AnagramsOf(info, word);
        UpperAllSound(found, word);
        UpperAllComplete(found);
        Some(Word(word, UpperAll(found)))
  }

  lemma UpperAllSound(found: seq<string>, root: string)
    requires forall t :: t in found ==> |t| >= 3 && IsAnagramOf(t, root)
    ensures forall a :: a in UpperAll(found) ==>
              |a| >= 3 && IsUpperString(a) && IsAnagramOf(a, root)
              && exists t :: t in found && a == UpperString(t)
  {
    forall a | a in UpperAll(found)
      ensures |a| >= 3 && IsUpperString(a) && IsAnagramOf(a, root)
      ensures exists t :: t in found && a == UpperString(t)
    {
      var i :| 0 <= i < |found| && UpperAll(found)[i] == a;
      var t := found[i];
      assert t in found;
      UpperStringSpec(t);
      IsAnagramIgnoresCase(root, root, a, t);
    }
  }

  lemma UpperAllComplete(found: seq<string>)
    ensures forall t :: t in found ==> UpperString(t) in UpperAll(found)
  {
    forall t | t in found ensures UpperString(t) in UpperAll(found) {
      var i :| 0 <= i < |found| && found[i] == t;
      assert UpperAll(found)[i] == UpperString(t);
    }
  }
}
