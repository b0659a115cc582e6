/** Character helpers shared by the anagram test and the game session: the case
    mappings Kotlin applies to letters (`lowercaseChar`, `uppercase`),
    `Char.isLetter`, case-insensitive equality and case-insensitive counting.
    All of them are modelled on the ASCII range. */
module Chars {

  /** `Char.lowercaseChar()`. */
  function Lower(c: char): char {
    if 'A' <= c <= 'Z' then (c as int + 32) as char else c
  }

  /** `Char.uppercaseChar()` (and `Char.uppercase()`, which yields a one-character string). */
  function Upper(c: char): char {
    if 'a' <= c <= 'z' then (c as int - 32) as char else c
  }

  /** `Char.isLetter()`. */
  predicate IsLetter(c: char) {
    'a' <= c <= 'z' || 'A' <= c <= 'Z'
  }

  /** `s.all(Char::isLetter)`; true of the empty string. */
  predicate IsAllLetters(s: string) {
    forall i :: 0 <= i < |s| ==> IsLetter(s[i])
  }

  /** `String.uppercase()`. */
  function UpperString(s: string): string {
    seq(|s|, i requires 0 <= i < |s| => Upper(s[i]))
  }

  predicate IsUpperString(s: string) {
    forall i :: 0 <= i < |s| ==> Upper(s[i]) == s[i]
  }

  /** `a.equals(b, ignoreCase = true)`: same length, same characters up to case. */
  predicate EqualsIgnoreCase(a: string, b: string) {
    |a| == |b| && forall i :: 0 <= i < |a| ==> Lower(a[i]) == Lower(b[i])
  }

  /** The number of characters of `s` whose lower-case form is `k`. */
  function LowerCount(s: string, k: char): nat {
    if s == [] then 0
    else LowerCount(s[..|s| - 1], k) + (if Lower(s[|s| - 1]) == k then 1 else 0)
  }

  /** `String.lowercase()`. */
  function LowerString(s: string): string {
    seq(|s|, i requires 0 <= i < |s| => Lower(s[i]))
  }

  lemma UpperStringSpec(s: string)
    ensures EqualsIgnoreCase(UpperString(s), s)
    ensures IsUpperString(UpperString(s))
  {
  }

  lemma {:induction false} LowerCountConcat(a: string, b: string, k: char)
    ensures LowerCount(a + b, k) == LowerCount(a, k) + LowerCount(b, k)
    decreases |b|
  {
    if b == [] {
      assert a + b == a;
    } else {
      assert (a + b)[..|a + b| - 1] == a + b[..|b| - 1];
      LowerCountConcat(a, b[..|b| - 1], k);
    }
  }

  /** A character is counted exactly when some character of `s` lowers to it. */
  lemma {:induction false} LowerCountPositive(s: string, k: char)
    ensures LowerCount(s, k) > 0 <==> exists i :: 0 <= i < |s| && Lower(s[i]) == k
  {
    if s != [] {
      var s' := s[..|s| - 1];
      LowerCountPositive(s', k);
      if exists i :: 0 <= i < |s'| && Lower(s'[i]) == k {
        var i :| 0 <= i < |s'| && Lower(s'[i]) == k;
        assert s[i] == s'[i];
      }
      if exists i :: 0 <= i < |s| && Lower(s[i]) == k {
        var i :| 0 <= i < |s| && Lower(s[i]) == k;
        if i < |s'| { assert s'[i] == s[i]; }
      }
    }
  }

  /** Counting is blind to the order of the characters. */
  lemma {:induction false} LowerCountPermutation(s: string, t: string, k: char)
    requires multiset(s) == multiset(t)
    ensures LowerCount(s, k) == LowerCount(t, k)
    decreases |s|
  {
    if s == [] {
      assert |t| == |multiset(t)| == 0;
    } else {
      var x := s[|s| - 1];
      var s' := s[..|s| - 1];
      assert s == s' + [x];
      assert x in multiset(t);
      var j :| 0 <= j < |t| && t[j] == x;
      var t' := t[..j] + t[j + 1..];
      assert t == t[..j] + [x] + t[j + 1..];
      assert multiset(s') == multiset(t') by {
        assert multiset(s) == multiset(s') + multiset{x};
        assert multiset(t) == multiset(t[..j]) + multiset{x} + multiset(t[j + 1..]);
        assert multiset(t') == multiset(t[..j]) + multiset(t[j + 1..]);
        assert multiset(s') == multiset(s) - multiset{x};
        assert multiset(t') == multiset(t) - multiset{x};
      }
      LowerCountPermutation(s', t', k);
      LowerCountConcat(t[..j], [x], k);
      LowerCountConcat(t[..j] + [x], t[j + 1..], k);
      LowerCountConcat(t[..j], t[j + 1..], k);
      assert LowerCount([x], k) == (if Lower(x) == k then 1 else 0) by {
        assert [x][..0] == [];
      }
    }
  }

  /** Counting is blind to the case of the characters. */
  lemma {:induction false} LowerCountIgnoresCase(s: string, t: string, k: char)
    requires EqualsIgnoreCase(s, t)
    ensures LowerCount(s, k) == LowerCount(t, k)
    decreases |s|
  {
    if s != [] {
      LowerCountIgnoresCase(s[..|s| - 1], t[..|t| - 1], k);
    }
  }

  /** Case-insensitive counting is counting in the lower-cased string. */
  lemma {:induction false} LowerCountIsMultiplicity(s: string, k: char)
    ensures LowerCount(s, k) == multiset(LowerString(s))[k]
    decreases |s|
  {
    if s != [] {
      var s' := s[..|s| - 1];
      LowerCountIsMultiplicity(s', k);
      assert LowerString(s) == LowerString(s') + [Lower(s[|s| - 1])];
    }
  }
}
