/**
 * The five rules `isValidWord` applies to a lowered candidate, each a pure
 * function of the candidate, the round's title, the accepted words and the
 * spell checker, and the order in which they are tried.
 */
module Rules {
  import opened Text

  /** The alert `isValidWord` shows, one per rule, named after its title. */
  datatype Rejection =
    | WordIsDefault
    | WordTooShort
    | WordNotPossible
    | WordUsedAlready
    | WordNotRecognized

  /** The title of the alert `showError` raises for each rejection. */
  function AlertTitle(r: Rejection): string {
    match r
    case WordIsDefault => "Word is default"
    case WordTooShort => "Word is too short"
    case WordNotPossible => "Word not possible"
    case WordUsedAlready => "Word used already"
    case WordNotRecognized => "Word not recognized"
  }

  /** Each rejection has its own alert title, so the alert shown names the rule that failed. */
  lemma AlertTitlesDistinct(a: Rejection, b: Rejection)
    ensures AlertTitle(a) == AlertTitle(b) <==> a == b
  {
    if a != b {
      var ta, tb := AlertTitle(a), AlertTitle(b);
      assert |ta| != |tb| || ta[5] != tb[5] || ta[9] != tb[9];
    }
  }

  /** The order in which `isValidWord` tries the rules. */
  const RuleOrder: seq<Rejection> :=
    [WordIsDefault, WordTooShort, WordNotPossible, WordUsedAlready, WordNotRecognized]

  /** isStartWord: the candidate is the round's title, lowered. */
  function IsStartWord(word: string, title: string): (r: bool)
    ensures r ==> |word| == |title| && IsLowercase(word)
    ensures IsLowercase(title) ==> (r <==> word == title)
  {
    LowercaseFixed(title);
    word == Lowercased(title)
  }

  /** isTooShort: fewer than three UTF-16 code units, which for plain text means fewer than three letters. */
  function IsTooShort(word: string): (r: bool)
    ensures |word| >= 3 ==> !r
    ensures |word| <= 1 ==> r
    ensures (forall i :: 0 <= i < |word| ==> (word[i] as int) < 0x1_0000) ==> (r <==> |word| < 3)
  {
    Utf16Length(word) < 3
  }

  /** What isPossible decides: `word` can be spelled using each of `letters` at most once. */
  predicate Spellable(word: string, letters: string) {
    multiset(word) <= multiset(letters)
  }

  /** isOriginal: the candidate is not, as written, among the accepted words. */
  function IsOriginal(word: string, used: seq<string>): (r: bool)
    ensures used == [] ==> r
    ensures r <==> forall i :: 0 <= i < |used| ==> used[i] != word
  {
    word !in used
  }

  /** Whether `word` fails `rule` in a round titled `title` whose accepted words are `used`. */
  predicate Breaks(rule: Rejection, word: string, title: string, used: seq<string>, isReal: string -> bool) {
    match rule
    case WordIsDefault => IsStartWord(word, title)
    case WordTooShort => IsTooShort(word)
    case WordNotPossible => !Spellable(word, Lowercased(title))
    case WordUsedAlready => !IsOriginal(word, used)
    case WordNotRecognized => !isReal(word)
  }

  /** The first of `rules` that `word` breaks, if any. */
  function FirstBroken(rules: seq<Rejection>, word: string, title: string, used: seq<string>, isReal: string -> bool)
    : (r: Option<Rejection>)
    ensures r.None? <==> forall k :: 0 <= k < |rules| ==> !Breaks(rules[k], word, title, used, isReal)
    ensures r.Some? ==>
      exists k :: 0 <= k < |rules| && rules[k] == r.value && Breaks(rules[k], word, title, used, isReal)
        && forall j :: 0 <= j < k ==> !Breaks(rules[j], word, title, used, isReal)
  {
    if rules == [] then None
    else if Breaks(rules[0], word, title, used, isReal) then Some(rules[0])
    else
      var r := FirstBroken(rules[1..], word, title, used, isReal);
      assert forall k :: 0 < k < |rules| ==> rules[1..][k - 1] == rules[k];
      if r.Some? then
        var k :| 0 <= k < |rules[1..]| && rules[1..][k] == r.value && Breaks(rules[1..][k], word, title, used, isReal)
          && forall j :: 0 <= j < k ==> !Breaks(rules[1..][j], word, title, used, isReal);
        assert rules[k + 1] == r.value && forall j :: 0 <= j < k + 1 ==> !Breaks(rules[j], word, title, used, isReal);
        r
      else r
  }

  /** The alert a lowered candidate draws, or None when it is accepted. */
  function Verdict(word: string, title: string, used: seq<string>, isReal: string -> bool): (r: Option<Rejection>)
    ensures r.Some? ==> Breaks(r.value, word, title, used, isReal)
    ensures r == Some(WordIsDefault) <==> IsStartWord(word, title)
  {
    FirstBroken(RuleOrder, word, title, used, isReal)
  }

  /** The rules are tried in a fixed order and the first failing one decides the alert. */
  lemma VerdictChain(word: string, title: string, used: seq<string>, isReal: string -> bool)
    ensures Verdict(word, title, used, isReal) ==
      if IsStartWord(word, title) then Some(WordIsDefault)
      else if IsTooShort(word) then Some(WordTooShort)
      else if !Spellable(word, Lowercased(title)) then Some(WordNotPossible)
      else if !IsOriginal(word, used) then Some(WordUsedAlready)
      else if !isReal(word) then Some(WordNotRecognized)
      else None
  {
    var r4: seq<Rejection> := [WordNotRecognized];
    var r3 := [WordUsedAlready] + r4;
    var r2 := [WordNotPossible] + r3;
    var r1 := [WordTooShort] + r2;
    assert RuleOrder == [WordIsDefault] + r1;
    FirstBrokenStep(WordIsDefault, r1, word, title, used, isReal);
    FirstBrokenStep(WordTooShort, r2, word, title, used, isReal);
    FirstBrokenStep(WordNotPossible, r3, word, title, used, isReal);
    FirstBrokenStep(WordUsedAlready, r4, word, title, used, isReal);
    FirstBrokenStep(WordNotRecognized, [], word, title, used, isReal);
  }

  lemma FirstBrokenStep(rule: Rejection, rules: seq<Rejection>, word: string, title: string, used: seq<string>, isReal: string -> bool)
    ensures FirstBroken([rule] + rules, word, title, used, isReal) ==
      if Breaks(rule, word, title, used, isReal) then Some(rule) else FirstBroken(rules, word, title, used, isReal)
  {
    assert ([rule] + rules)[1..] == rules;
  }

  /** A candidate is accepted exactly when it passes all five rules. */
  lemma AcceptedIffAllRulesPass(word: string, title: string, used: seq<string>, isReal: string -> bool)
    ensures Verdict(word, title, used, isReal).None? <==>
      && !IsStartWord(word, title)
      && !IsTooShort(word)
      && Spellable(word, Lowercased(title))
      && IsOriginal(word, used)
      && isReal(word)
  {
    VerdictChain(word, title, used, isReal);
  }

  /** Occurrences of `c` in `s`, counted one scalar at a time. */
  function Occurrences(s: string, c: char): nat {
    if s == [] then 0 else (if s[0] == c then 1 else 0) + Occurrences(s[1..], c)
  }

  lemma {:induction false} OccurrencesIsMultiplicity(s: string, c: char)
    ensures Occurrences(s, c) == multiset(s)[c]
  {
    if s != [] {
      assert s == [s[0]] + s[1..];
      OccurrencesIsMultiplicity(s[1..], c);
    }
  }

  /** A word can be spelled from the letters iff no letter occurs in it more often than among the letters. */
  lemma SpellableByCounts(word: string, letters: string)
    ensures Spellable(word, letters) <==> forall c :: Occurrences(word, c) <= Occurrences(letters, c)
  {
    if forall c :: Occurrences(word, c) <= Occurrences(letters, c) {
      var extra := multiset(letters) - multiset(word);
      forall c ensures multiset(letters)[c] == (multiset(word) + extra)[c] {
        OccurrencesIsMultiplicity(word, c);
        OccurrencesIsMultiplicity(letters, c);
        assert Occurrences(word, c) <= Occurrences(letters, c);
      }
      assert multiset(letters) == multiset(word) + extra;
    } else {
      var c :| Occurrences(word, c) > Occurrences(letters, c);
      OccurrencesIsMultiplicity(word, c);
      OccurrencesIsMultiplicity(letters, c);
      assert multiset(word)[c] > multiset(letters)[c];
    }
  }

  lemma {:induction false} AtMostOnce(w: string, c: char)
    requires forall i, j :: 0 <= i < j < |w| ==> w[i] != w[j]
    ensures multiset(w)[c] <= 1
  {
    if w != [] {
      assert w == [w[0]] + w[1..];
      AtMostOnce(w[1..], c);
      if w[0] == c {
        assert c !in w[1..] by {
          forall i | 0 <= i < |w[1..]| ensures w[1..][i] != c {
            assert w[1..][i] == w[i + 1];
          }
        }
      }
    }
  }

  /** A word with no repeated letter can be spelled exactly when each of its letters occurs among the letters. */
  lemma DistinctLettersSpellable(word: string, letters: string)
    requires forall i, j :: 0 <= i < j < |word| ==> word[i] != word[j]
    ensures Spellable(word, letters) <==> forall i :: 0 <= i < |word| ==> word[i] in letters
  {
    if forall i :: 0 <= i < |word| ==> word[i] in letters {
      forall c ensures Occurrences(word, c) <= Occurrences(letters, c) {
        AtMostOnce(word, c);
        OccurrencesIsMultiplicity(word, c);
        OccurrencesIsMultiplicity(letters, c);
      }
      SpellableByCounts(word, letters);
    } else {
      var i :| 0 <= i < |word| && word[i] !in letters;
      assert multiset(word)[word[i]] > 0 == multiset(letters)[word[i]];
    }
  }

  /** A spellable word is never longer than the letters it is spelled from. */
  lemma SpellableNotLonger(word: string, letters: string)
    requires Spellable(word, letters)
    ensures |word| <= |letters|
  {
    var rest := multiset(letters) - multiset(word);
    assert forall c :: multiset(letters)[c] == (multiset(word) + rest)[c];
    assert multiset(letters) == multiset(word) + rest;
  }

  /** An accepted candidate has at least two letters and is no longer than the title. */
  lemma AcceptedLength(word: string, title: string, used: seq<string>, isReal: string -> bool)
    requires Verdict(word, title, used, isReal).None?
    ensures 2 <= |word| <= |title|
    ensures word != Lowercased(title)
  {
    AcceptedIffAllRulesPass(word, title, used, isReal);
    SpellableNotLonger(word, Lowercased(title));
  }

  /** Lowering both sides makes the start-word rule blind to case. */
  lemma StartWordIgnoresCase(answer: string, title: string)
    ensures IsStartWord(Lowercased(answer), title) <==>
      |answer| == |title| && forall i :: 0 <= i < |answer| ==> LowerChar(answer[i]) == LowerChar(title[i])
  {
    var la, lt := Lowercased(answer), Lowercased(title);
    assert |la| == |answer| && |lt| == |title|;
    assert forall i :: 0 <= i < |answer| ==> la[i] == LowerChar(answer[i]);
    assert forall i :: 0 <= i < |title| ==> lt[i] == LowerChar(title[i]);
  }

  /**
   * Once a candidate written in small letters is accepted, submitting it
   * again is refused as a repeat.
   */
  lemma ResubmitRejected(answer: string, title: string, used: seq<string>, isReal: string -> bool)
    requires IsLowercase(answer)
    requires Verdict(Lowercased(answer), title, used, isReal).None?
    ensures Verdict(Lowercased(answer), title, [answer] + used, isReal) == Some(WordUsedAlready)
  {
    LowercaseFixed(answer);
    VerdictChain(Lowercased(answer), title, used, isReal);
    VerdictChain(Lowercased(answer), title, [answer] + used, isReal);
  }

  /**
   * Accepted words are stored as typed but compared after lowering, so an
   * accepted answer holding a capital does not block its lowered form.
   */
  lemma OtherCaseNotBlocked(answer: string, title: string, used: seq<string>, isReal: string -> bool)
    requires !IsLowercase(answer)
    requires Verdict(Lowercased(answer), title, used, isReal).None?
    ensures Verdict(Lowercased(answer), title, [answer] + used, isReal).None?
  {
    LowercaseFixed(answer);
    AcceptedIffAllRulesPass(Lowercased(answer), title, used, isReal);
    AcceptedIffAllRulesPass(Lowercased(answer), title, [answer] + used, isReal);
  }

  /** Worked examples for the built-in start word "agencies": the start word itself and a two-letter word. */
  lemma AgenciesEarlyRules(isReal: string -> bool)
    ensures Verdict("agencies", "agencies", [], isReal) == Some(WordIsDefault)
    ensures Verdict("an", "agencies", [], isReal) == Some(WordTooShort)
  {
    AgenciesIsLowercase();
    VerdictChain("agencies", "agencies", [], isReal);
    VerdictChain("an", "agencies", [], isReal);
  }

  /** Letters are consumed once each: "cage" and "case" fit in "agencies", "cases" and "aagce" do not. */
  lemma AgenciesSpelling()
    ensures Spellable("cage", Lowercased("agencies"))
    ensures Spellable("case", Lowercased("agencies"))
    ensures !Spellable("cases", Lowercased("agencies"))
    ensures !Spellable("aagce", Lowercased("agencies"))
  {
    AgenciesIsLowercase();
    CageFits();
    CaseFits();
    CasesOverflows();
    AagceOverflows();
  }

  lemma AgenciesIsLowercase()
    ensures Lowercased("agencies") == "agencies"
  {
    LowercaseFixed("agencies");
  }

  lemma CageFits()
    ensures Spellable("cage", "agencies")
  {
    var root: string := "agencies";
    assert root[4] == 'c' && root[0] == 'a' && root[1] == 'g' && root[2] == 'e';
    var word: string := "cage";
    assert forall i :: 0 <= i < |word| ==> word[i] in root;
    DistinctLettersSpellable(word, root);
  }

  lemma CaseFits()
    ensures Spellable("case", "agencies")
  {
    var root: string := "agencies";
    assert root[4] == 'c' && root[0] == 'a' && root[7] == 's' && root[2] == 'e';
    var word: string := "case";
    assert forall i :: 0 <= i < |word| ==> word[i] in root;
    DistinctLettersSpellable(word, root);
  }

  lemma CasesOverflows()
    ensures !Spellable("cases", "agencies")
  {
    assert multiset("cases")['s'] > multiset("agencies")['s'];
  }

  lemma AagceOverflows()
    ensures !Spellable("aagce", "agencies")
  {
    assert multiset("aagce")['a'] > multiset("agencies")['a'];
  }

  /** Repeats are judged on the stored spelling: "cage" blocks "cage", "Cage" does not. */
  lemma AgenciesRepeats(isReal: string -> bool)
    requires isReal("cage")
    ensures Verdict("cage", "agencies", [], isReal) == None
    ensures Verdict("cage", "agencies", ["cage"], isReal) == Some(WordUsedAlready)
    ensures Verdict("cage", "agencies", ["Cage"], isReal) == None
  {
    AgenciesIsLowercase();
    assert "cage" != "Cage";
    AgenciesSpelling();
    VerdictChain("cage", "agencies", [], isReal);
    VerdictChain("cage", "agencies", ["cage"], isReal);
    VerdictChain("cage", "agencies", ["Cage"], isReal);
  }

  /**
   * Length is counted in UTF-16 code units: two letters are too short, but a
   * letter followed by a scalar outside the Basic Multilingual Plane is not.
   */
  lemma LengthInCodeUnits()
    ensures IsTooShort("ab")
    ensures !IsTooShort("a\U{1F600}")
  {
    assert "a\U{1F600}"[1..][1..] == [];
  }
}
