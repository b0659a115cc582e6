/** The game session: `WordViewModel`, whose methods update its fields in place.
    Loading a round (`getWord`) runs here as one sequential step: the outcome of the
    word-source request and the shuffled root are parameters, and so is every random
    choice (the letter `useHint` reveals, the order `shuffle` produces). */
module ViewModel {
  import opened Chars
  import opened Network
  import opened WordViews

  const AlreadyGuessed := "Already Guessed"
  const GotIt := "Got it!"
  const NotInList := "Not in List"
  const FetchFailed := "Something went Wrong"

  class WordViewModel {
    var finishedGame: bool
    /** Set when the player finished a round below the hint bar; it blocks the next hint. */
    var usedFinishGame: bool
    var isLoading: bool
    /** The root's letters, in their shuffled display order. */
    var mainLetters: string
    /** The anagram list of the current round, as the word source returned it. */
    var anagrams: seq<string>
    /** The guess log. */
    var wordGuesses: seq<string>
    /** The guess being typed. */
    var wordGuess: string
    var prevGuess: string
    /** The definition cache (`definitionMap`); lookups themselves are not modelled. */
    var definitionCache: map<string, Definition>
    var error: Option<string>
    var usedHint: bool
    var hints: int
    /** The revealed letters, each a one-character upper-case string. */
    var hintList: set<string>
    var gotNewHint: bool
    /** The score frozen by `endGame`. */
    var internalScore: int

    /** The invariant every transition keeps: no negative hint stock, only letters of the
        root revealed, only playable words in the log, no word logged twice while the round
        is open, and the finish bookkeeping. */
    ghost predicate Valid()
      reads this
    {
      && hints >= 0
      && HintsFromRoot()
      && GuessesPlayable()
      && GuessesDistinct()
      && (usedFinishGame ==> finishedGame)
      && (!finishedGame ==> internalScore == 0)
    }

    /** Only letters of the root are revealed. */
    ghost predicate HintsFromRoot()
      reads this`hintList, this`mainLetters
    {
      RevealedFrom(hintList, mainLetters)
    }

    /** Only playable words are in the guess log. */
    predicate GuessesPlayable()
      reads this`wordGuesses, this`anagrams
    {
      AllInWordList(wordGuesses, PlayableWords(anagrams))
    }

    /** While the round is open the log holds no exact repeat. The finish autofill may
        bring in repeats when the word source returned the same anagram twice. */
    predicate GuessesDistinct()
      reads this`finishedGame, this`wordGuesses
    {
      !finishedGame ==> DistinctGuesses(wordGuesses)
    }

    /** `anagramWords`. */
    function AnagramWords(): seq<string>
      reads this`anagrams
    {
      PlayableWords(anagrams)
    }

    /** `hintCount`. */
    function HintCount(): int
      reads this`hints, this`usedHint
    {
      WordViews.HintCount(hints, usedHint)
    }

    /** `score`: the frozen score once the round is finished, the guess log's otherwise. */
    function Score(): int
      reads this`finishedGame, this`internalScore, this`wordGuesses
    {
      if finishedGame then internalScore else GuessScore(wordGuesses)
    }

    /** `scoreInfo`. */
    function ScoreInfo(): seq<(nat, nat)>
      reads this`wordGuesses
    {
      ScoreBreakdown(wordGuesses)
    }

    /** Whether the current log has earned a hint for the next round. */
    function HintBarMet(): bool
      reads this`wordGuesses, this`anagrams
    {
      MetHintBar(wordGuesses, AnagramWords())
    }

    /** The view model as created: its `init` loads the first round. */
    constructor (fetched: Option<Word>, shuffled: string)
      requires fetched.Some? ==> multiset(shuffled) == multiset(fetched.value.word)
      ensures Valid()
      ensures hints == 1 && gotNewHint && !usedHint && HintCount() == 2
      ensures wordGuesses == [] && hintList == {} && wordGuess == "" && prevGuess == ""
      ensures !finishedGame && !usedFinishGame && !isLoading && Score() == 0
      ensures fetched.Some? ==> error == None && mainLetters == shuffled && anagrams == fetched.value.anagrams
      ensures fetched.None? ==> error == Some(FetchFailed) && mainLetters == "" && anagrams == []
    {
      finishedGame := false;
      usedFinishGame := false;
      isLoading := false;
      mainLetters := "";
      anagrams := [];
      wordGuesses := [];
      wordGuess := "";
      prevGuess := "";
      definitionCache := map[];
      error := None;
      usedHint := false;
      hints := 0;
      hintList := {};
      gotNewHint := false;
      internalScore := 0;
      new;
      GetWord(fetched, shuffled);
    }

    /** `getWord`: decide the hint carry-over on the outgoing round, reset the round,
        then install the fetched round, or record the failure. `fetched` is the outcome
        of the word-source request; `shuffled` is the root in the order `shuffled()` chose. */
    method GetWord(fetched: Option<Word>, shuffled: string)
      requires Valid()
      requires fetched.Some? ==> multiset(shuffled) == multiset(fetched.value.word)
      modifies this
      ensures Valid()
      ensures var earned := old(HintBarMet()) && !old(usedFinishGame);
              && hints == old(hints) + (if earned then 1 else 0)
              && gotNewHint == (old(gotNewHint) || earned)
      ensures !usedHint && wordGuesses == [] && hintList == {} && !usedFinishGame && wordGuess == ""
      ensures !finishedGame && internalScore == 0 && definitionCache == map[] && !isLoading
      ensures prevGuess == old(prevGuess)
      ensures fetched.Some? ==> error == None && mainLetters == shuffled && anagrams == fetched.value.anagrams
      ensures fetched.None? ==> error == Some(FetchFailed) && mainLetters == old(mainLetters) && anagrams == []
      ensures Score() == 0 && HintCount() == hints + 1
    {
      BeginLoad();
      CarryOverHint();
      ClearRound();
      FinishLoad(fetched, shuffled);
    }

    /** The start of `getWord`: the round is no longer finished, loading begins, the
        frozen score and the definition cache are cleared. */
    method BeginLoad()
      modifies this`finishedGame, this`isLoading, this`internalScore, this`definitionCache
      ensures !finishedGame && isLoading && internalScore == 0 && definitionCache == map[]
    {
      finishedGame := false;
      isLoading := true;
      internalScore := 0;
      definitionCache := map[];
    }

    /** The reset of `getWord` after the carry-over: the round's words, guesses, hints
        and input are cleared. */
    method ClearRound()
      modifies this`anagrams, this`usedHint, this`wordGuesses, this`hintList, this`usedFinishGame, this`wordGuess
      ensures anagrams == [] && !usedHint && wordGuesses == [] && hintList == {} && !usedFinishGame && wordGuess == ""
    {
      anagrams := [];
      usedHint := false;
      wordGuesses := [];
      hintList := {};
      usedFinishGame := false;
      wordGuess := "";
    }

    /** The hint carry-over: a round that reached the hint bar, and was not finished
        below it, earns a hint for the next one. */
    method CarryOverHint()
      modifies this`gotNewHint, this`hints
      ensures var earned := old(HintBarMet()) && !usedFinishGame;
              && hints == old(hints) + (if earned then 1 else 0)
              && gotNewHint == (old(gotNewHint) || earned)
    {
      if MetHintBar(wordGuesses, PlayableWords(anagrams)) && !usedFinishGame {
        gotNewHint := true;
        hints := hints + 1;
      }
    }

    /** The part of `getWord` after the request: install the fetched round (its anagrams
        appended to the cleared list), or record the failure; then stop loading. */
    method FinishLoad(fetched: Option<Word>, shuffled: string)
      requires anagrams == []
      modifies this`error, this`mainLetters, this`anagrams, this`isLoading
      ensures fetched.Some? ==> error == None && mainLetters == shuffled && anagrams == fetched.value.anagrams
      ensures fetched.None? ==> error == Some(FetchFailed) && mainLetters == old(mainLetters) && anagrams == []
      ensures !isLoading
    {
      match fetched {
        case Some(round) =>
          error := None;
          mainLetters := shuffled;
          anagrams := anagrams + round.anagrams;
        case None =>
          error := Some(FetchFailed);
      }
      isLoading := false;
    }

    /** `endGame`: freeze the score earned so far, record whether the round ended below
        the hint bar, then fill the log with every playable word for the summary. */
    method EndGame()
      requires Valid()
      modifies this`internalScore, this`usedFinishGame, this`wordGuesses, this`finishedGame
      ensures Valid()
      ensures internalScore == old(Score()) && Score() == old(Score())
      ensures !old(finishedGame) ==> internalScore == GuessScore(old(wordGuesses))
      ensures usedFinishGame == !old(HintBarMet())
      ensures wordGuesses == AnagramWords() && finishedGame
      ensures HintBarMet()
    {
      internalScore := Score();
      usedFinishGame := !MetHintBar(wordGuesses, PlayableWords(anagrams));
      wordGuesses := PlayableWords(anagrams);
      finishedGame := true;
      WordListContainsItself(wordGuesses);
    }

    /** `shuffle`: `shuffled` is the new order `shuffled()` chose for the root's letters. */
    method Shuffle(shuffled: string)
      requires Valid()
      requires multiset(shuffled) == multiset(mainLetters)
      modifies this`mainLetters
      ensures Valid()
      ensures mainLetters == shuffled && multiset(mainLetters) == old(multiset(mainLetters))
    {
      ghost var before := mainLetters;
      mainLetters := shuffled;
      assert RevealedFrom(hintList, mainLetters) by {
      forall h | h in hintList ensures exists j :: 0 <= j < |mainLetters| && h == [Upper(mainLetters[j])] {
        var i :| 0 <= i < |before| && h == [Upper(before[i])];
        assert before[i] in multiset(mainLetters);
        var j :| 0 <= j < |mainLetters| && mainLetters[j] == before[i];
      }
      }
    }

    /** `updateGuess`: take the new text only when each of its characters is one of the
        root's letters (presence only; a letter may be used more often than the root has it). */
    method UpdateGuess(word: string)
      requires Valid()
      modifies this`wordGuess
      ensures Valid()
      ensures (forall i :: 0 <= i < |word| ==> word[i] in mainLetters) ==> wordGuess == word
      ensures !(forall i :: 0 <= i < |word| ==> word[i] in mainLetters) ==> wordGuess == old(wordGuess)
    {
      if forall i :: 0 <= i < |word| ==> word[i] in mainLetters {
        wordGuess := word;
      }
    }

    /** `useHint`: spend a hint (gated on `hints > 0`) and reveal one upper-cased letter of
        the root that is not yet revealed, if any is left. `pick` is the position in that
        pool that `randomOrNull()` chose. */
    method UseHint(pick: nat)
      requires Valid()
      requires |HintCandidates(mainLetters, hintList)| > 0 ==> pick < |HintCandidates(mainLetters, hintList)|
      modifies this`hints, this`usedHint, this`hintList
      ensures Valid()
      ensures (hints, usedHint) == SpendHint(old(hints), old(usedHint))
      ensures old(hints) > 0 ==> HintCount() == old(HintCount()) - 1
      ensures old(hintList) <= hintList
      ensures old(hints) <= 0 || HintCandidates(mainLetters, old(hintList)) == [] ==> hintList == old(hintList)
      ensures old(hints) > 0 && HintCandidates(mainLetters, old(hintList)) != [] ==>
                var c := HintCandidates(mainLetters, old(hintList))[pick];
                && hintList == old(hintList) + {[c]}
                && [c] !in old(hintList)
                && exists j :: 0 <= j < |mainLetters| && c == Upper(mainLetters[j])
    {
      if hints > 0 {
        if usedHint {
          hints := hints - 1;
        }
        usedHint := true;
        var candidates := HintCandidates(mainLetters, hintList);
        if candidates != [] {
          var c := candidates[pick];
          RevealPick(mainLetters, hintList, pick);
          hintList := hintList + {[Upper(c)]};
        }
      }
    }

    /** `bringBackWord`: restore the last accepted guess into the input. */
    method BringBackWord()
      requires Valid()
      modifies this`wordGuess
      ensures Valid()
      ensures wordGuess == prevGuess
    {
      wordGuess := prevGuess;
    }

    /** `guess`: an exact repeat of a logged guess is reported with the position of its first
        occurrence (what `onAlreadyGuessed` receives); otherwise a case-insensitive match in
        the playable words is logged; otherwise nothing changes. */
    method Guess() returns (message: string, priorIndex: Option<nat>)
      requires Valid()
      modifies this`wordGuesses, this`prevGuess, this`wordGuess
      ensures Valid()
      ensures old(wordGuess) in old(wordGuesses) ==>
                && message == AlreadyGuessed
                && priorIndex.Some? && priorIndex.value < |wordGuesses|
                && wordGuesses[priorIndex.value] == wordGuess
                && (forall j :: 0 <= j < priorIndex.value ==> wordGuesses[j] != wordGuess)
                && wordGuesses == old(wordGuesses) && wordGuess == old(wordGuess) && prevGuess == old(prevGuess)
      ensures old(wordGuess) !in old(wordGuesses) && InWordList(old(wordGuess), AnagramWords()) ==>
                && message == GotIt && priorIndex == None
                && wordGuesses == old(wordGuesses) + [old(wordGuess)]
                && prevGuess == old(wordGuess) && wordGuess == ""
      ensures old(wordGuess) !in old(wordGuesses) && !InWordList(old(wordGuess), AnagramWords()) ==>
                && message == NotInList && priorIndex == None
                && wordGuesses == old(wordGuesses) && wordGuess == old(wordGuess) && prevGuess == old(prevGuess)
      ensures message == GotIt && !finishedGame ==> Score() == old(Score()) + GuessPoints(old(wordGuesses), old(wordGuess))
      ensures Score() >= old(Score())
    {
      if wordGuess in wordGuesses {
        var i := IndexOf(wordGuesses, wordGuess);
        message, priorIndex := AlreadyGuessed, Some(i);
      } else if InWordList(wordGuess, PlayableWords(anagrams)) {
        ScoreAppend(wordGuesses, wordGuess);
        AllInWordListAppend(wordGuesses, PlayableWords(anagrams), wordGuess);
        if !finishedGame {
          DistinctGuessesAppend(wordGuesses, wordGuess);
        }
        wordGuesses := wordGuesses + [wordGuess];
        prevGuess := wordGuess;
        wordGuess := "";
        message, priorIndex := GotIt, None;
      } else {
        message, priorIndex := NotInList, None;
      }
    }
  }

  /** Guessing the same playable word twice: the first guess is logged, the second is
      reported as already guessed and leaves the log with one copy. */
  method GuessTwice(vm: WordViewModel, w: string) returns (first: string, second: string)
    requires vm.Valid()
    requires w !in vm.wordGuesses && InWordList(w, vm.AnagramWords())
    requires forall i :: 0 <= i < |w| ==> w[i] in vm.mainLetters
    modifies vm
    ensures vm.Valid()
    ensures first == GotIt && second == AlreadyGuessed
    ensures vm.wordGuesses == old(vm.wordGuesses) + [w]
    ensures multiset(vm.wordGuesses)[w] == 1
  {
    var index: Option<nat>;
    vm.UpdateGuess(w);
    first, index := vm.Guess();
    vm.UpdateGuess(w);
    second, index := vm.Guess();
  }
}
