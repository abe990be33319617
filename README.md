# WordScramble: round state and word validation

WordScramble is a one-screen iPhone word game. The screen shows a start word
(the screen's title) taken from a shuffled pool. The player types answers.
An answer counts when its lowered form passes five rules, tried in this order:

1. it is not the start word;
2. it has at least three UTF-16 code units;
3. it can be spelled from the start word's letters, each letter used at most once;
4. it is not already in the list of accepted answers;
5. the system spell checker knows it.

The first rule that fails raises an alert and the answer is dropped.
An accepted answer goes to the front of the list as typed, not lowered.
"New Word" moves a cursor to the next pool word, wrapping to the first one at
the end, and clears the list.

The Dafny project models that engine in three modules:

- `Text` (text.dfy): the Swift `String` operations the engine uses. These are
  `lowercased()`, `utf16.count`, `range(of:)`, `remove(at:)` and
  `components(separatedBy:)`. Strings are sequences of Unicode scalars.
- `Rules` (rules.dfy): the five rules as pure functions. `Rejection` has one
  value per alert. `Verdict` gives the alert a lowered answer draws; it is
  defined as the first rule of the ordered list `RuleOrder` that the answer
  breaks. The lemmas here cover the rule order, the multiset reading of
  "possible", the case-sensitive repeat check, and worked examples for the
  built-in start word "agencies".
- `WordScramble` (view_controller.dfy): the controller's state as the class
  `ViewController`. Its fields are `allWords`, `usedWords`, `wordIdx`,
  `rootWord` (the title) and the spell checker `isReal`. The constructor
  models what `viewDidLoad` does to that state. The methods `StartGame`,
  `Submit`, `IsValidWord` and `IsPossible` model the source's methods. The
  predicate `InRound` is kept by every method. It says the cursor is in
  bounds, the title is the pool word just behind the cursor, and every
  accepted answer passed all five rules when it was accepted.

The repeat check is case-sensitive (WordScramble/ViewController.swift:66,
:69 and :121). The lowered answer is compared with the answers as they were
typed. So an accepted "Cage" does not block "cage", while an accepted "cage"
does (`Rules.OtherCaseNotBlocked`, `Rules.ResubmitRejected`,
`Rules.AgenciesRepeats`).

## Model

| member | source | states |
|---|---|---|
| `Text.LowerChar` | WordScramble/ViewController.swift:66 | the lowered scalar is never an ASCII capital, and lowering changes a scalar exactly when it is one |
| `Text.LowercasedIsLowercase` | WordScramble/ViewController.swift:66 | a lowered string holds no capital, and lowering it again changes nothing |
| `Text.LowercaseFixed` | WordScramble/ViewController.swift:66 | lowering leaves a string unchanged exactly when it holds no capital |
| `Text.Utf16Length` | WordScramble/ViewController.swift:103 | the UTF-16 length lies between the scalar count and twice that; it equals the scalar count exactly when no scalar lies beyond the Basic Multilingual Plane |
| `Text.IndexOf` | WordScramble/ViewController.swift:110 | the result is None exactly when the letter does not occur; otherwise it is the index of the letter's first occurrence |
| `Text.RemoveAt` | WordScramble/ViewController.swift:111 | removing one scalar shortens the string by one and takes exactly that scalar out of its multiset, keeping the order of the rest |
| `Text.Components` | WordScramble/ViewController.swift:25 | splitting gives at least one piece, and no piece holds the separator |
| `Text.JoinComponents` | WordScramble/ViewController.swift:25 | joining the pieces with the separator gives back the original text |
| `Text.ComponentsJoin` | WordScramble/ViewController.swift:25 | splitting a join of separator-free pieces gives back those pieces |
| `WordScramble.StartWords` | WordScramble/ViewController.swift:23-40 | the pool is never empty; when start.txt was read, the pool is its lines, which join back to the file's text |
| `WordScramble.DefaultWords` | WordScramble/ViewController.swift:38-40 | the built-in pool holds three distinct eight-letter words with no capitals |
| `Text.Lowercased` | WordScramble/ViewController.swift:66 | lowering keeps the length, leaves no ASCII capital, and changes a scalar exactly when it is a capital |
| `Rules.IsStartWord` | WordScramble/ViewController.swift:98-100 | a start-word match has the title's length and no capitals; for a title without capitals it is plain equality with the title |
| `Rules.IsOriginal` | WordScramble/ViewController.swift:120-122 | an answer is original exactly when no accepted answer equals it as written; with no accepted answers every answer is original |
| `Rules.Verdict` | WordScramble/ViewController.swift:76-96 | any alert names a rule the answer breaks, and the start-word alert is raised exactly when the answer is the lowered title |
| `Rules.AlertTitlesDistinct` | WordScramble/ViewController.swift:79-91 | two rejections share an alert title only when they are the same rejection |
| `Rules.IsTooShort` | WordScramble/ViewController.swift:102-104 | three or more scalars are never too short and one or none always are; for text inside the Basic Multilingual Plane, too short means fewer than three letters |
| `Rules.LengthInCodeUnits` | WordScramble/ViewController.swift:102-104 | length is counted in UTF-16 units: "ab" is too short, while "a" plus an emoji is not |
| `Rules.FirstBroken` | WordScramble/ViewController.swift:76-96 | None exactly when no rule in the list is broken; otherwise a broken rule such that every earlier rule in the list holds |
| `Rules.VerdictChain` | WordScramble/ViewController.swift:76-96 | the verdict is the start-word alert if that rule fails, else too-short, else not-possible, else used-already, else not-recognized, else acceptance |
| `Rules.AcceptedIffAllRulesPass` | WordScramble/ViewController.swift:76-96 | an answer is accepted exactly when all five rules pass |
| `Rules.SpellableByCounts` | WordScramble/ViewController.swift:106-118 | an answer is possible exactly when no letter occurs in it more often than in the lowered title |
| `Rules.DistinctLettersSpellable` | WordScramble/ViewController.swift:106-118 | an answer with no repeated letter is possible exactly when each of its letters occurs in the lowered title |
| `Rules.SpellableNotLonger` | WordScramble/ViewController.swift:106-118 | a possible answer is never longer than the title |
| `Rules.AcceptedLength` | WordScramble/ViewController.swift:76-96 | an accepted answer has at least two scalars, is no longer than the title, and differs from the lowered title |
| `Rules.StartWordIgnoresCase` | WordScramble/ViewController.swift:98-100 | a lowered answer equals the lowered title exactly when answer and title agree letter by letter ignoring ASCII case |
| `Rules.ResubmitRejected` | WordScramble/ViewController.swift:120-122 | once an answer with no capitals has been accepted, submitting it again draws the used-already alert |
| `Rules.OtherCaseNotBlocked` | WordScramble/ViewController.swift:120-122 | an accepted answer that holds a capital does not stop its lowered form from being accepted |
| `Rules.AgenciesEarlyRules` | WordScramble/ViewController.swift:76-104 | with title "agencies", "agencies" draws the start-word alert and "an" the too-short alert, whatever the spell checker says |
| `Rules.AgenciesSpelling` | WordScramble/ViewController.swift:106-118 | "cage" and "case" can be spelled from "agencies"; "cases" (two s) and "aagce" (two a) cannot |
| `Rules.AgenciesRepeats` | WordScramble/ViewController.swift:120-122 | with title "agencies", "cage" is accepted once, refused after "cage" was accepted, and still accepted after "Cage" was accepted |
| `WordScramble.ViewController.constructor` | WordScramble/ViewController.swift:18-36 | starting from start.txt's text or the built-in words, shuffled, the first round is running on the first shuffled word with an empty list and the cursor at 1 |
| `WordScramble.ViewController.StartGame` | WordScramble/ViewController.swift:42-50 | the title becomes the pool word under the cursor, or the first pool word once the cursor has run off the end; the cursor moves one past it; the list is emptied; the pool is unchanged; the round invariant holds |
| `WordScramble.ViewController.Submit` | WordScramble/ViewController.swift:65-74 | the alert is the verdict on the lowered answer; on acceptance the list becomes the typed answer followed by the old list, otherwise it is unchanged; title, pool and cursor are unchanged; the round invariant holds |
| `WordScramble.ViewController.IsValidWord` | WordScramble/ViewController.swift:76-96 | the if-else chain raises exactly the alert of the first failing rule in the order start word, too short, possible, original, real, and returns true exactly when none fails |
| `WordScramble.ViewController.IsPossible` | WordScramble/ViewController.swift:106-118 | striking the first occurrence of each letter from a copy of the lowered title succeeds exactly when the answer's letters form a sub-multiset of the title's letters |
| `WordScramble.ViewController.AcceptedAnswers` | WordScramble/ViewController.swift:65-122 | every answer in the list, lowered, is not the title, is not too short, is spelled from the title, was not in the list before it, and was judged real |

## Left out

- User interface: the bar buttons set up in `viewDidLoad`, the answer prompt
  (`promptForAnswer`), the alert presentation in `showError` (the model returns
  which alert is shown, by its title, without the message text), the table
  view's data source, `reloadData`/`insertRows`, and `didReceiveMemoryWarning`.
- File input: reading start.txt from the app bundle. The constructor takes the
  file's text, or None when the file is missing or unreadable.
- Shuffling: GameplayKit's random shuffle is not modelled. The constructor takes
  its result and requires it to be a permutation of the pool.
- Spell checking: `UITextChecker`, the "en" language and the misspelled-range
  search are not modelled. The checker is a fixed yes/no function of the word,
  given to the constructor.
- Text: `lowercased()` is modelled as ASCII lowering only. Swift's full Unicode
  case mapping can change a string's length; that is left out.
- Text: a Swift `Character` is modelled as one Unicode scalar. So `isPossible`
  walks scalars, not grapheme clusters, and `range(of:)` compares scalars
  exactly. Foundation's canonical-equivalence matching is left out.
- Rules.IsStartWord, Rules.IsOriginal: compare scalar sequences exactly.
  Swift's `String ==` (WordScramble/ViewController.swift:99) and
  `Array.contains` (:121) compare by canonical equivalence, so a title "café"
  with a precomposed é matches the answer "cafe" plus a combining accent in
  the app but not in the model.
- `title!` crashing when no round has started: this cannot happen in the model,
  because the constructor starts the first round as `viewDidLoad` does.
  `StartGame` requires only `Ready()`; `Submit`, `IsValidWord`, `IsPossible`
  and `AcceptedAnswers` require `InRound()`.
- Integer width: `wordIdx` is an unbounded integer. It never exceeds the pool
  size, so Swift's overflow check cannot fire.
