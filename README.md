# SuperAnagramer game session, in Dafny

A model of the game-session engine of SuperAnagramer, a single-player anagram game.
A round starts from a seven-letter root word. The player looks for the words of three or
more letters that can be spelled from the root's letters, ignoring case and respecting how
often each letter occurs. The engine has two parts:

- the pure word source in `Network.kt`: the case-insensitive containment test `isAnagram` /
  `isAnagramOf`, and the derivation of a round (`Word`: root plus anagram list) from the
  downloaded word list in `getLetters`;
- the session object `WordViewModel`: loading a round, the adaptive playable-word filter, guess
  validation, the length-grouped score and its breakdown, the hint stock with its carry-over
  bar, finishing a round, and shuffling and typing.

Files:

- `chars.dfy` (module `Chars`): the character functions Kotlin applies: `lowercaseChar`,
  `uppercase`, `isLetter`, `equals(ignoreCase = true)`. It also holds case-insensitive letter
  counting and its lemmas.
- `network.dfy` (module `Network`): `Word`, `Definition`, the tally `groupBy`/`mapValues`,
  `IsAnagram`, `IsAnagramOf`, and the `getLetters` pipeline as the function `GetLetters`. The
  HTTP response is its parameter.
- `word_views.dfy` (module `WordViews`): the session's derived views as pure functions of its
  fields: `anagramWords`, `score`, `scoreInfo`, `hintCount`, the hint pool, the carry-over bar
  and `indexOf`. The lemmas about them are here too.
- `word_view_model.dfy` (module `ViewModel`): the class `WordViewModel`. Its methods update its
  fields in place. Every method that models a function of the source keeps the invariant
  `Valid()`:
  - no negative hint stock;
  - only letters of the root are revealed;
  - only playable words are logged;
  - while the round is open, no word is logged twice (exact comparison);
  - the finish bookkeeping.

  The four phase methods of `GetWord` (below) are steps of it. They do not keep `Valid()`
  one at a time; only their sequence in `GetWord` does.

Randomness is a parameter wherever the source draws something. The root that `random()` picks
is an index `pick`. The letter `randomOrNull()` reveals is an index into the hint pool. The
orders `shuffled()` produces are strings that must be permutations of the root.

The coroutine `getWord` is one sequential method. It takes the outcome of the word-list request
as a parameter: the round, or `None` for a failure. Its phases are separate methods because the
code has separate phases:

1. `BeginLoad` clears the finished state.
2. `CarryOverHint` awards the carried-over hint.
3. `ClearRound` resets the round.
4. `FinishLoad` installs the result.

## Model

| member | source | states |
|---|---|---|
| Network.Tally | common/src/commonMain/kotlin/com/programmersbox/common/Network.kt:55-56 | each key of the tally is a lower-cased character that occurs in the string, and its value is the number of characters that lower-case to it |
| Network.IsAnagram | common/src/commonMain/kotlin/com/programmersbox/common/Network.kt:54-63 | true exactly when, for every character, `anagram` has no more case-insensitive occurrences than `word` (both directions) |
| Network.IsAnagramOf | common/src/commonMain/kotlin/com/programmersbox/common/Network.kt:52 | `s isAnagramOf word` is containment of `s` in `word`, with the root as the first argument of `isAnagram` |
| Network.IsAnagramIsSubMultiset | common/src/commonMain/kotlin/com/programmersbox/common/Network.kt:54-63 | the test is multiset containment of the lower-cased strings |
| Network.IsAnagramMissingLetter | common/src/commonMain/kotlin/com/programmersbox/common/Network.kt:58-60 | a character of the candidate that the word lacks in either case makes the test fail (the `?: return false` branch) |
| Network.IsAnagramPermutation | common/src/commonMain/kotlin/com/programmersbox/common/Network.kt:54-63 | reordering the letters of either argument does not change the answer |
| Network.IsAnagramIgnoresCase | common/src/commonMain/kotlin/com/programmersbox/common/Network.kt:55-56 | changing the case of either argument does not change the answer |
| Network.IsAnagramReflexiveAndEmpty | common/src/commonMain/kotlin/com/programmersbox/common/Network.kt:54-63 | every word contains itself and the empty string |
| Network.IsAnagramTransitive | common/src/commonMain/kotlin/com/programmersbox/common/Network.kt:54-63 | containment is transitive |
| Network.Split | common/src/commonMain/kotlin/com/programmersbox/common/Network.kt:40 | `split("\n")` yields at least one piece and no piece contains a line feed |
| Network.JoinSplit | common/src/commonMain/kotlin/com/programmersbox/common/Network.kt:40 | joining the pieces with line feeds gives the text back, so splitting loses nothing |
| Network.LetterTokens | common/src/commonMain/kotlin/com/programmersbox/common/Network.kt:41 | keeps exactly the pieces made only of letters |
| Network.SevenLetterWords | common/src/commonMain/kotlin/com/programmersbox/common/Network.kt:43 | keeps exactly the tokens of length 7, the candidates for the root |
| Network.AnagramsOf | common/src/commonMain/kotlin/com/programmersbox/common/Network.kt:47 | keeps exactly the tokens of length at least 3 that the root contains |
| Network.UpperAllSound | common/src/commonMain/kotlin/com/programmersbox/common/Network.kt:47-48 | every upper-cased anagram is upper case, at least 3 long, still contained in the root, and comes from a found token |
| Network.UpperAllComplete | common/src/commonMain/kotlin/com/programmersbox/common/Network.kt:48 | every found token appears upper-cased in the anagram list |
| Network.GetLetters | common/src/commonMain/kotlin/com/programmersbox/common/Network.kt:30-50 | fails exactly when the request failed or the list has no seven-letter all-letter line (`random()` on an empty list). Otherwise it yields a seven-letter all-letter root from the list, together with exactly the upper-cased all-letter lines of 3 or more letters that the root contains |
| WordViews.KeepAtLeastSpec | common/src/commonMain/kotlin/com/programmersbox/common/WordViewModel.kt:23 | `filterNot { it.length < size }` keeps exactly the words of at least that length and never grows the list |
| WordViews.PlayableWordsSpec | common/src/commonMain/kotlin/com/programmersbox/common/WordViewModel.kt:21-24 | `anagramWords` is exactly the anagrams of length at least 4 when there are more than 50 anagrams, and of length at least 3 otherwise |
| WordViews.KeepAtLeastConcat | common/src/commonMain/kotlin/com/programmersbox/common/WordViewModel.kt:23 | the filter keeps the original order: filtering a concatenation filters each part |
| WordViews.KeepAtLeastMultiplicity | common/src/commonMain/kotlin/com/programmersbox/common/WordViewModel.kt:23 | the filter keeps every copy of a long enough word and drops every copy of a short one |
| WordViews.DistinctLengthsSpec | common/src/commonMain/kotlin/com/programmersbox/common/WordViewModel.kt:50 | the `groupBy { it.length }` keys have no duplicates and are exactly the lengths present in the log |
| WordViews.ScoreAppend | common/src/commonMain/kotlin/com/programmersbox/common/WordViewModel.kt:49-53 | accepting a guess of length L adds L points, plus L * L more when it is the first guess of that length |
| WordViews.ScoreExample | common/src/commonMain/kotlin/com/programmersbox/common/WordViewModel.kt:49-53 | "cat", "dog", "frog" score 3 * (2 + 3) + 4 * (1 + 4) = 35 |
| WordViews.ScorePermutation | common/src/commonMain/kotlin/com/programmersbox/common/WordViewModel.kt:49-53 | the score depends only on which guesses were made, not on their order |
| WordViews.SortByLengthSpec | common/src/commonMain/kotlin/com/programmersbox/common/WordViewModel.kt:59 | `sortedByDescending { it.length }` orders the log longest first and is a permutation of it |
| WordViews.DistinctLengthsDecreasing | common/src/commonMain/kotlin/com/programmersbox/common/WordViewModel.kt:59-60 | grouping a longest-first list gives strictly decreasing keys |
| WordViews.ScoreBreakdownSpec | common/src/commonMain/kotlin/com/programmersbox/common/WordViewModel.kt:57-62 | `scoreInfo` lists each length in the log exactly once, longest first, with `(count + length) * length` points. Its points add up to the score |
| WordViews.SpendHintSpec | common/src/commonMain/kotlin/com/programmersbox/common/WordViewModel.kt:141-146 | with `hints > 0`, one call takes exactly one hint off `hintCount`: the free hint first, then an accrued one. Without, nothing changes. `hints` never goes negative |
| WordViews.FreeHintNotSpendable | common/src/commonMain/kotlin/com/programmersbox/common/MainUi.kt:397-398 | with no accrued hints and the free hint unused, `hintCount` is 1 (the button is enabled), yet the hint counters do not change |
| WordViews.SpendHintGatedSpec | common/src/commonMain/kotlin/com/programmersbox/common/WordViewModel.kt:41 | gated on `hintCount > 0`, as the button is, every hint on offer can be spent, one per call, and `hints` never goes negative |
| WordViews.Unrevealed | common/src/commonMain/kotlin/com/programmersbox/common/WordViewModel.kt:149 | the pool holds exactly the characters of the upper-cased root whose one-character string is not yet revealed |
| WordViews.HintCandidates | common/src/commonMain/kotlin/com/programmersbox/common/WordViewModel.kt:147-149 | every pool character is upper case, unrevealed and the upper case of a root letter; every unrevealed upper-cased root letter is in the pool |
| WordViews.HintBarCases | common/src/commonMain/kotlin/com/programmersbox/common/WordViewModel.kt:77 | a log holding every playable word meets the carry-over bar, and so does an empty log with no playable words |
| WordViews.InWordListSpec | common/src/commonMain/kotlin/com/programmersbox/common/WordViewModel.kt:171 | `any { it.equals(wordGuess, ignoreCase = true) }` holds exactly when some playable word equals the guess up to case |
| WordViews.AllInWordListAppend | common/src/commonMain/kotlin/com/programmersbox/common/WordViewModel.kt:171-172 | logging a guess that matches a playable word keeps every logged guess playable |
| WordViews.WordListContainsItself | common/src/commonMain/kotlin/com/programmersbox/common/WordViewModel.kt:114-115 | the log that the finish autofill leaves (the playable words themselves) consists of playable words |
| WordViews.RevealPick | common/src/commonMain/kotlin/com/programmersbox/common/WordViewModel.kt:147-155 | the letter drawn from the pool is upper case, not yet revealed and a letter of the root, and revealing it keeps every revealed hint a letter of the root |
| WordViews.DistinctGuessesAppend | common/src/commonMain/kotlin/com/programmersbox/common/WordViewModel.kt:166-172 | appending a word only when `contains` says it is not logged keeps the log free of exact repeats |
| WordViews.InsertByLengthPermutation | common/src/commonMain/kotlin/com/programmersbox/common/WordViewModel.kt:59 | one step of the sort adds exactly one copy of the word |
| WordViews.RevealedFromAdd | common/src/commonMain/kotlin/com/programmersbox/common/WordViewModel.kt:152-155 | revealing the upper case of a root letter keeps every revealed hint a letter of the root |
| WordViews.IndexOf | common/src/commonMain/kotlin/com/programmersbox/common/WordViewModel.kt:167 | `indexOf` gives the first position holding the word |
| ViewModel.WordViewModel.constructor | common/src/commonMain/kotlin/com/programmersbox/common/WordViewModel.kt:64-66 | `init` loads the first round. The empty log meets the bar, so the session starts with one accrued hint plus the free one (`hintCount` 2), an empty log and a score of 0 |
| ViewModel.WordViewModel.GetWord | common/src/commonMain/kotlin/com/programmersbox/common/WordViewModel.kt:68-109 | keeps `Valid`. Earns a hint exactly when the outgoing log met the bar and the round was not finished below it. Clears the round, the cache, the finished state and the frozen score. On success it installs the shuffled root and its anagrams. On failure it sets "Something went Wrong", clears the anagrams and keeps the old letters. The score becomes 0 |
| ViewModel.WordViewModel.BeginLoad | common/src/commonMain/kotlin/com/programmersbox/common/WordViewModel.kt:72-75 | the round is no longer finished, loading is on, the frozen score is 0 and the definition cache is empty |
| ViewModel.WordViewModel.CarryOverHint | common/src/commonMain/kotlin/com/programmersbox/common/WordViewModel.kt:76-81 | one hint is added, and `gotNewHint` set, exactly when the outgoing log met the bar and `usedFinishGame` is clear |
| ViewModel.WordViewModel.ClearRound | common/src/commonMain/kotlin/com/programmersbox/common/WordViewModel.kt:82-87 | anagrams, log, revealed letters and input are empty; the free hint and the finish flag are reset |
| ViewModel.WordViewModel.FinishLoad | common/src/commonMain/kotlin/com/programmersbox/common/WordViewModel.kt:88-107 | success clears the error and installs the shuffled root and the anagrams. Failure records the error and leaves the letters as they were. Loading ends either way |
| ViewModel.WordViewModel.EndGame | common/src/commonMain/kotlin/com/programmersbox/common/WordViewModel.kt:111-119 | keeps `Valid`. Freezes the current score, so the score does not change. Sets `usedFinishGame` exactly when the pre-autofill log missed the bar. Replaces the log with the playable words, so the bar is then met |
| ViewModel.WordViewModel.Shuffle | common/src/commonMain/kotlin/com/programmersbox/common/WordViewModel.kt:130-132 | keeps `Valid`: the new order has the same letters, so revealed hints stay letters of the root |
| ViewModel.WordViewModel.UpdateGuess | common/src/commonMain/kotlin/com/programmersbox/common/WordViewModel.kt:134-139 | the input becomes `word` exactly when every character of `word` occurs in the root's letters, and is unchanged otherwise |
| ViewModel.WordViewModel.UseHint | common/src/commonMain/kotlin/com/programmersbox/common/WordViewModel.kt:141-158 | keeps `Valid`. The counters change as `SpendHint` says, and `hintCount` drops by one when `hints > 0`. With `hints > 0` and a non-empty pool, exactly the chosen unrevealed upper-cased root letter is added; otherwise the revealed set is unchanged |
| ViewModel.WordViewModel.BringBackWord | common/src/commonMain/kotlin/com/programmersbox/common/WordViewModel.kt:160-162 | the input becomes the last accepted guess |
| ViewModel.WordViewModel.Guess | common/src/commonMain/kotlin/com/programmersbox/common/WordViewModel.kt:164-180 | keeps `Valid`. An exact repeat answers "Already Guessed" with the first position of the earlier copy and changes nothing. A case-insensitive match is appended as typed, becomes the previous guess, clears the input, answers "Got it!" and, while the round is not finished, adds the guess's points to the score (after `endGame` the score stays frozen). Anything else answers "Not in List" and changes nothing. The score never drops |
| ViewModel.GuessTwice | common/src/commonMain/kotlin/com/programmersbox/common/WordViewModel.kt:164-175 | typing and guessing a new playable word twice answers "Got it!" then "Already Guessed", and the log holds one copy of it |

## Left out

- The HTTP request and JSON set-up of `getLetters` (Network.kt:31-39), `getWordDefinition`, `getHighScores`, `postHighScore`, `getApi` and `postApi` are outside the model. The response body is a parameter of `GetLetters`, and the outcome of the request is a parameter of `GetWord`.
- `getDefinition` and `sendHighScore` talk to a remote service. Only the definition cache and its clearing on a new round are modelled.
- Coroutine dispatch (`viewModelScope.launch`, `withContext`) is not modelled. `getWord` runs as one step, so two overlapping loads cannot interleave. The code does not cancel an earlier pending load either.
- UI-only flags and fields are not modelled: `showHighScores`, `showSubmitScore`, `name`, `shouldStartNewGame`, `finishGame`, `useLetters`, `showScoreInfo` and `definition`. The snackbar code in `MainUi.kt` that clears `error` and `gotNewHint` is not modelled either.
- `MainUi.kt`, `LettersWidget.kt` and the platform entry points are not part of this model.
- The random choices are parameters: `random()`, `randomOrNull()` and `shuffled()`.
- Case mapping and `isLetter` cover ASCII only. Kotlin's Unicode mappings for other alphabets are not modelled.
- Kotlin's 32-bit `Int` is modelled as an unbounded integer. `hints++` and the score cannot realistically overflow.
- `scoreInfo` is modelled as the list of its map's entries in iteration order, since Kotlin's `LinkedHashMap` keeps the sorted order.
- A log free of repeats is promised only in the form the code keeps. The duplicate check in `guess` is exact and case-sensitive, so "cat" and "CAT" can both be logged. The `endGame` autofill copies the playable words as they are, so a finished round's log repeats any anagram the word source returned twice.
- The following behaviours of the code are modelled as written:
  - `guess` has no guard once the round is finished;
  - `endGame` replaces the log with the playable words rather than appending the missing ones;
  - a second `endGame` re-evaluates `usedFinishGame` on the autofilled log, which meets the bar, so the flag is cleared;
  - a failed load keeps the previous round's letters;
  - a pending load is not discarded when a newer one starts.

## Findings

| source | as written | input that shows it | evidently intended | confidence | as-written member | corrected member |
|---|---|---|---|---|---|---|
| common/src/commonMain/kotlin/com/programmersbox/common/WordViewModel.kt:142 | `useHint` does nothing unless `hints > 0`, but the hint button is enabled whenever `hintCount > 0` (MainUi.kt:397-398), and `hintCount` counts the unused free hint | `hints == 0`, `usedHint == false`: the button shows "?1" and is enabled, and pressing it changes nothing | the offered free hint can be spent, i.e. `useHint` gated on `hintCount > 0` | not executed | WordViews.FreeHintNotSpendable | WordViews.SpendHintGatedSpec |

The class `WordViewModel` keeps the gate as written, since it models the code. The corrected
counters are `WordViews.SpendHintGated`.
