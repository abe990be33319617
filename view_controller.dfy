/**
 * The word game's screen controller, reduced to its round state: the
 * shuffled pool of start words, the cursor into it, the current start word
 * (shown as the screen's title) and the accepted answers, newest first.
 */
module WordScramble {
  import opened Text
  import opened Rules

  /**
   * loadDefaultWords: the built-in pool used when start.txt cannot be read,
   * three distinct eight-letter words that lowering leaves alone.
   */
  function DefaultWords(): (words: seq<string>)
    ensures |words| == 3
    ensures forall k :: 0 <= k < |words| ==> |words[k]| == 8 && IsLowercase(words[k])
    ensures forall j, k :: 0 <= j < k < |words| ==> words[j] != words[k]
  {
    var w: seq<string> := ["silkworm", "agencies", "dirtgrub"];
    assert w[0][0] != w[1][0] && w[0][0] != w[2][0] && w[1][0] != w[2][0];
    w
  }

  /**
   * The pool before shuffling: the lines of start.txt when it could be read,
   * the built-in words otherwise. Either way it is never empty.
   */
  function StartWords(startFile: Option<string>): (pool: seq<string>)
    ensures |pool| >= 1
    ensures startFile.Some? ==> Join(pool, '\n') == startFile.value
    ensures startFile.Some? ==> forall k :: 0 <= k < |pool| ==> '\n' !in pool[k]
  {
    match startFile
    case None => DefaultWords()
    case Some(text) =>
      JoinComponents(text, '\n');
      Components(text, '\n')
  }

  class ViewController {
    /** The shuffled pool of start words. */
    var allWords: seq<string>
    /** The answers accepted this round, as typed, newest first. */
    var usedWords: seq<string>
    /** The pool index of the next round's start word. */
    var wordIdx: int
    /** The screen's title: this round's start word, as it appears in the pool. */
    var rootWord: string
    /** The spell checker isReal consults, as a fixed judgement per word. */
    const isReal: string -> bool

    /** The pool is loaded and the cursor has not run past its end. */
    ghost predicate Ready()
      reads this
    {
      |allWords| >= 1 && 0 <= wordIdx <= |allWords|
    }

    /**
     * Every accepted answer, lowered, passed all five rules against the
     * title and the answers accepted before it.
     */
    ghost predicate History()
      reads this
    {
      forall i :: 0 <= i < |usedWords| ==>
        Verdict(Lowercased(usedWords[i]), rootWord, usedWords[i + 1..], isReal).None?
    }

    /** startGame has run: the title is the pool word just behind the cursor. */
    ghost predicate InRound()
      reads this
    {
      Ready() && 1 <= wordIdx && rootWord == allWords[wordIdx - 1] && History()
    }

    /**
     * What every answer accepted this round has in common: lowered, it is
     * not the title, has at least three UTF-16 code units, is spelled from
     * the title's letters, was not among the answers before it and was
     * judged a real word.
     */
    lemma AcceptedAnswers()
      requires InRound()
      ensures forall i :: 0 <= i < |usedWords| ==>
        var w := Lowercased(usedWords[i]);
        && w != Lowercased(rootWord)
        && !IsTooShort(w)
        && Spellable(w, Lowercased(rootWord))
        && w !in usedWords[i + 1..]
        && isReal(w)
    {
      forall i | 0 <= i < |usedWords|
        ensures var w := Lowercased(usedWords[i]);
          && w != Lowercased(rootWord)
          && !IsTooShort(w)
          && Spellable(w, Lowercased(rootWord))
          && w !in usedWords[i + 1..]
          && isReal(w)
      {
        AcceptedIffAllRulesPass(Lowercased(usedWords[i]), rootWord, usedWords[i + 1..], isReal);
      }
    }

    /**
     * viewDidLoad without its user interface: choose the pool, take the
     * shuffled order the random source produced, and start the first round.
     */
    constructor (startFile: Option<string>, shuffled: seq<string>, spellChecker: string -> bool)
      requires multiset(shuffled) == multiset(StartWords(startFile))
      ensures InRound()
      ensures allWords == shuffled && isReal == spellChecker
      ensures wordIdx == 1 && rootWord == shuffled[0] && usedWords == []
    {
      allWords := shuffled;
      usedWords := [];
      wordIdx := 0;
      rootWord := "";
      isReal := spellChecker;
      new;
      assert |shuffled| == |multiset(StartWords(startFile))| >= 1;
      StartGame();
    }

    /**
     * startGame: wrap the cursor to the start once it has run off the end,
     * take the word under it as the title, clear the answers and advance.
     */
    method StartGame()
      requires Ready()
      modifies this`wordIdx, this`rootWord, this`usedWords
      ensures InRound()
      ensures allWords == old(allWords) && usedWords == []
      ensures old(wordIdx) < |allWords| ==> rootWord == allWords[old(wordIdx)] && wordIdx == old(wordIdx) + 1
      ensures old(wordIdx) >= |allWords| ==> rootWord == allWords[0] && wordIdx == 1
    {
      if wordIdx >= |allWords| {
        wordIdx := 0;
      }
      rootWord := allWords[wordIdx];
      usedWords := [];
      wordIdx := wordIdx + 1;
    }

    /**
     * submit: lower the answer and, if it passes every rule, put the answer
     * as typed at the front of the accepted words. The alert the first
     * failing rule raises is returned.
     */
    method Submit(answer: string) returns (alert: Option<Rejection>)
      requires InRound()
      modifies this`usedWords
      ensures InRound()
      ensures allWords == old(allWords) && wordIdx == old(wordIdx) && rootWord == old(rootWord)
      ensures alert == Verdict(Lowercased(answer), rootWord, old(usedWords), isReal)
      ensures usedWords == if alert.None? then [answer] + old(usedWords) else old(usedWords)
    {
      var lowerAnswer := Lowercased(answer);
      var isValid;
      isValid, alert := IsValidWord(lowerAnswer);
      if isValid {
        ghost var before := usedWords;
        usedWords := [answer] + usedWords;
        forall i | 1 <= i < |usedWords|
          ensures Verdict(Lowercased(usedWords[i]), rootWord, usedWords[i + 1..], isReal).None?
        {
          assert usedWords[i] == before[i - 1] && usedWords[i + 1..] == before[i..];
        }
        assert usedWords[1..] == before;
      }
    }

    /**
     * isValidWord: try the rules in order, stop at the first that fails and
     * raise its alert; the flag stays true only when none fails.
     */
    method IsValidWord(word: string) returns (isValid: bool, alert: Option<Rejection>)
      requires InRound()
      ensures alert == Verdict(word, rootWord, usedWords, isReal)
      ensures isValid <==> alert.None?
    {
      isValid := true;
      alert := None;
      if IsStartWord(word, rootWord) {
        alert := Some(WordIsDefault);
        isValid := false;
      } else if IsTooShort(word) {
        alert := Some(WordTooShort);
        isValid := false;
      } else {
        var possible := IsPossible(word);
        if !possible {
          alert := Some(WordNotPossible);
          isValid := false;
        } else if !IsOriginal(word, usedWords) {
          alert := Some(WordUsedAlready);
          isValid := false;
        } else if !isReal(word) {
          alert := Some(WordNotRecognized);
          isValid := false;
        }
      }
      VerdictChain(word, rootWord, usedWords, isReal);
    }

    /**
     * isPossible: take a copy of the lowered title and, letter by letter,
     * strike the first occurrence of each letter of `word` from it; fail as
     * soon as a letter has none left.
     */
    method IsPossible(word: string) returns (possible: bool)
      requires InRound()
      ensures possible <==> Spellable(word, Lowercased(rootWord))
    {
      var letters := Lowercased(rootWord);
      var tempWord := letters;
      for i := 0 to |word|
        invariant multiset(word[..i]) + multiset(tempWord) == multiset(letters)
      {
        var letter := word[i];
        assert word[..i + 1] == word[..i] + [letter];
        var pos := IndexOf(tempWord, letter);
        if pos.None? {
          assert word == word[..i + 1] + word[i + 1..];
          assert multiset(word)[letter] > multiset(letters)[letter];
          return false;
        }
        tempWord := RemoveAt(tempWord, pos.value);
      }
      assert word[..|word|] == word;
      assert multiset(word) <= multiset(word) + multiset(tempWord);
      return true;
    }
  }
}
