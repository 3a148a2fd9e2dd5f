# LexiCrack game rules in Dafny

LexiCrack is a Wordle-style word guesser. This project models its rules:

- **Codes.** A `Code` is a fixed-length row of letter pegs.
  - A peg is a one-letter string. The empty string is the unfilled sentinel (`MissingPeg`).
  - Every code has a role: a master (hidden or revealed), the guess being typed, a scored attempt carrying its per-letter results, or unknown.
  - Module `Codes` covers code creation, the `word` property (read and write), `isHidden`, `matches` and `reset`.
- **Scoring.** `match(against:)` scores a guess against the master in two passes over a pool of the master's pegs.
  - Pass 1 walks backwards. It marks exact hits and removes each one from the pool by index.
  - Pass 2 walks forwards. Each position that is not exact takes the first equal peg left in the pool and scores inexact.
  - Module `Matching` models both passes in two forms: recursive functions, and loop-based methods shaped like the Swift code's in-place loops. It proves the two forms agree.
- **The game session.** Module `Session` models the game state: the master code, the guess and the attempt history. It has one pure transition per player action: `init`, `attemptGuess`, `setGuessPeg` and `restart`. It also models the derived `isOver` and `wordLength`.
  - The keyboard's Enter handling in `LexiCrackView.swift` is modelled too, with the dictionary's answer as a parameter. It submits after a win, which reopens a won game (see "## Findings").

## What is proved

**Exact marks.** A scored position is exact exactly when the guess and the master hold the same peg there. Positions past the end of the master are never exact.
- This rests on one observation: removing pool entry `i` only shifts the entries above `i`.

**Counting.** The multiset of pegs at scored positions (exact or inexact) is exactly the multiset intersection of the guess and the master.
- Consequence: no letter scores more often than it occurs in the master.
- Consequence: a word scored against itself is all exact.
- Consequence: a guess sharing no letter with the master is all misses.

**Leftmost priority.** Among equal letters that are not exact, inexact marks go left to right. A miss at one position forbids an inexact mark at any later position holding the same letter.

**Worked examples.** Two examples follow from the general theorems rather than by evaluation:
- CRANE/TRACE gives [miss, exact, exact, inexact, exact].
- ALLOW/LOLLY gives [inexact, inexact, exact, miss, miss].

**The game session.** The properties proved are:
- its shape invariant (`Valid`) holds at the start and after every action;
- each recorded attempt's results are its score against the master;
- winning reveals the master, and the reveal cannot be undone short of a restart;
- with an Enter key that ignores a won game, a win is final whatever keys follow; without that guard, as the view is written, it is not;
- `restart` is exactly a new game.

## Model

| member | source | states |
|---|---|---|
| Codes.NewCode | LexiCrack/Code.swift:36-39 | A new code has the requested role and length, and every slot holds the missing-peg sentinel. |
| Codes.Word | LexiCrack/Code.swift:45 | Reading the word of a code whose slots each hold one letter gives one character per peg, character i being peg i's letter. `WordRoundTrip` and `WordWriteBack` show it inverts writing the word. |
| Codes.WithWord | LexiCrack/Code.swift:44-47 | Setting the word keeps the role, gives one single-letter peg per character, and joining the pegs gives the word back. |
| Codes.WordRoundTrip | LexiCrack/Code.swift:44-47 | After `word = w`, the code has one peg per character of w, peg i is the one-letter string of w[i], and reading `word` returns w. |
| Codes.WordWriteBack | LexiCrack/Code.swift:44-47 | Writing back the word read from a code whose pegs all hold one letter leaves the code unchanged. |
| Codes.IsHidden | LexiCrack/Code.swift:51-56 | Hidden exactly when the role is a master marked hidden. |
| Codes.Matches | LexiCrack/Code.swift:59-64 | Results are present exactly for an attempt, and are then the attempt's own results. |
| Codes.Reset | LexiCrack/Code.swift:67-69 | Reset keeps the role and the peg count and empties every slot. |
| Codes.ResetIdempotent | LexiCrack/Code.swift:67-69 | Resetting twice equals resetting once, and a reset code equals a new code of the same role and length. |
| Matching.RemoveAt | LexiCrack/Code.swift:83 | Removing pool entry k shortens the pool by one, keeps every entry below k in place, moves every entry above k down one place, and removes exactly one copy of the entry. |
| Matching.FirstIndexOf | LexiCrack/Code.swift:94 | Absent exactly when the peg is not in the pool; otherwise the index holds the peg and no earlier index does. |
| Matching.ExactPass | LexiCrack/Code.swift:80-89 | Pass 1 yields one mark per visited position. |
| Matching.ExactPassMarks | LexiCrack/Code.swift:80-89 | Pass 1 never marks inexact, and marks position i exact exactly when the master has the guessed peg at i. |
| Matching.ExactPassPool | LexiCrack/Code.swift:80-89 | The pool left by pass 1, together with the pegs marked exact, is the whole master as a multiset. |
| Matching.InexactStep | LexiCrack/Code.swift:93-99 | A non-exact position whose peg is in the pool scores inexact; otherwise the mark and the pool are unchanged. |
| Matching.InexactStepConsumes | LexiCrack/Code.swift:93-96 | An inexact step takes exactly one copy of its peg out of the pool and leaves the rest of the pool's contents alone. |
| Matching.InexactPass | LexiCrack/Code.swift:92-100 | Pass 2 yields one mark per remaining position. |
| Matching.InexactPassMarks | LexiCrack/Code.swift:92-100 | Each pass-2 mark is the pass-1 mark of its position, or is inexact where pass 1 was not exact. |
| Matching.Score | LexiCrack/Code.swift:77-101 | The result has one entry per guess peg, for masters of any length. An entry is exact iff the master has the same peg at that position. |
| Matching.MatchAgainst | LexiCrack/Code.swift:77-101 | Scoring one code against another: length and exact marks as for `Score`, and the scored pegs are the common multiset of the two codes. |
| Matching.ExactPassInPlace | LexiCrack/Code.swift:78-89 | The backward loop with in-place removal computes the marks and pool of pass 1. |
| Matching.InexactPassInPlace | LexiCrack/Code.swift:92-100 | The forward loop with first-index removal computes the marks of pass 2. |
| Matching.ScoreInPlace | LexiCrack/Code.swift:77-101 | The two loops together compute the score. |
| Matching.InexactPassCount | LexiCrack/Code.swift:92-100 | Pass 2 keeps the exact marks, and the pegs it marks inexact are the pass-1 misses intersected with the pool. |
| Matching.ScoredIsCommon | LexiCrack/Code.swift:77-101 | The multiset of pegs at exact or inexact positions equals the intersection of the guess's and the master's multisets. |
| Matching.NoDuplication | LexiCrack/Code.swift:78-95 | No letter scores exact or inexact more often than it occurs in the master. |
| Matching.ScoredLetterInMaster | LexiCrack/Code.swift:92-99 | A position that is not a miss holds a letter of the master. |
| Matching.SharedLetterScored | LexiCrack/Code.swift:92-99 | A letter in both words scores exact or inexact at some guess position holding it. |
| Matching.SelfMatchAllExact | LexiCrack/Code.swift:80-89 | A word scored against itself is exact everywhere. |
| Matching.DisjointAllNoMatch | LexiCrack/Code.swift:77-101 | A guess sharing no peg with the master is a miss everywhere. |
| Matching.MissingPegNeverScores | LexiCrack/Code.swift:26 | An unfilled slot of the guess is a miss against a master whose pegs each hold one letter. |
| Matching.AbsentStaysAbsent | LexiCrack/Code.swift:92-100 | Once a peg is missing from the pool, pass 2 scores no later position guessing that peg inexact, because the pool only shrinks. |
| Matching.InexactPassLeftmost | LexiCrack/Code.swift:92-100 | In pass 2, if position a scores a miss and a later position b guesses the same peg, b does not score inexact. |
| Matching.NoMatchBlocksAt | LexiCrack/Code.swift:77-101 | In the final score, a miss at position a and the same letter at a later position b mean that b is not inexact. |
| Matching.NoMatchBlocksLaterInexact | LexiCrack/Code.swift:92-100 | In the final score, a miss at position a forbids an inexact mark at any later position b with the same letter. |
| Matching.ScoredCount | LexiCrack/Code.swift:77-101 | The scored multiset counts a letter once per scored position holding it. |
| Matching.CraneTraceMarks | LexiCrack/Code.swift:77-101 | Master CRANE against guess TRACE, position by position: T misses, R, A and E are exact, and C is inexact. |
| Matching.CraneTrace | LexiCrack/Code.swift:77-101 | Master CRANE against guess TRACE scores miss, exact, exact, inexact, exact. |
| Matching.AllowLollySingles | LexiCrack/Code.swift:77-101 | Master ALLOW against guess LOLLY: the O is inexact, the middle L is exact, the Y misses, and the first and last L's are not exact. |
| Matching.AllowLolly | LexiCrack/Code.swift:77-101 | Master ALLOW against guess LOLLY scores inexact, inexact, exact, miss, miss: only two of the three L's score, and the leftmost non-exact L wins. |
| Session.Init | LexiCrack/LexiCrack.swift:29-33 | A new game has a hidden master spelling the word, an all-missing guess of the word's length, and no attempts. It satisfies the game invariant. |
| Session.LastAttempt | LexiCrack/LexiCrack.swift:39 | The last attempt is absent exactly when there are none, and is otherwise the final entry of the history. |
| Session.IsOver | LexiCrack/LexiCrack.swift:38-40 | Over iff there is an attempt and the last one's pegs equal the master's pegs. |
| Session.AttemptGuess | LexiCrack/LexiCrack.swift:47-55 | Submitting does all of the following. It appends one attempt holding the guess's pegs and their score, leaving earlier attempts and the master's pegs alone. It empties the guess at the same length and keeps its role. It makes the game over iff the guess spelled the master, and then reveals the master; otherwise the master is untouched. |
| Session.SetGuessPeg | LexiCrack/LexiCrack.swift:58-61 | An in-range index changes only that slot of the guess. An out-of-range index changes nothing at all. |
| Session.Restart | LexiCrack/LexiCrack.swift:66-71 | Restarting gives a valid game with no attempts that is not over. Its word length is that of the new word, its master is hidden and spells the word, and its guess is all-missing. |
| Session.InitNotOver | LexiCrack/LexiCrack.swift:22-40 | A new game is not over, and its word length and guess length both equal the word's length. |
| Session.RestartIsInit | LexiCrack/LexiCrack.swift:66-71 | Restart ignores the old state: it is the new game for that word. |
| Session.AttemptGuessValid | LexiCrack/LexiCrack.swift:47-55 | Submitting preserves the game invariant and the word length. |
| Session.SetGuessPegValid | LexiCrack/LexiCrack.swift:58-61 | Placing a peg preserves the game invariant and the word length. |
| Session.WinningAttempt | LexiCrack/LexiCrack.swift:47-55 | Submitting the master's spelling ends the game, reveals the master and records all-exact results. |
| Session.RevealIsOneWay | LexiCrack/LexiCrack.swift:52-54 | A revealed master stays revealed through submissions and peg placement. |
| Session.HiddenMeansNotWon | LexiCrack/LexiCrack.swift:52-54 | A master still hidden after a submission was not spelled by it and is untouched. |
| Session.OverLapsesOnResubmit | LexiCrack/LexiCrack.swift:38-55 | After a win, submitting any spelling other than the master's makes the game no longer over, while the master stays revealed. |
| Session.SubmitAsWritten | LexiCrack/LexiCrackView.swift:94-101 | Enter submits the guess exactly when it spells a word of the game's length with no unfilled slot and the dictionary accepts it; otherwise nothing changes. It does not look at whether the game is over. |
| Session.ReopenAfterWin | LexiCrack/LexiCrackView.swift:94-101 | With Enter as written, a player who wins a two-letter game and then submits the reversed word reopens the game: it is no longer over, while the master stays revealed. |
| Session.Submit | LexiCrack/LexiCrackView.swift:94-101 | Enter with a game-over guard: a won game is left exactly as it is, and otherwise Enter behaves as written. |
| Session.WinIsFinal | LexiCrack/LexiCrack.swift:37-40 | With the guarded Enter, a won game stays won, with the same master and history, after any sequence of key presses. |
| Session.PlayValid | LexiCrack/LexiCrack.swift:47-61 | Any sequence of letter and Enter key presses keeps the game invariant and the word length. |

## Left out

- The SwiftUI views are not part of this model, apart from what Enter and a letter key do to the game. Layout, colours and the views in WordView.swift, LetterView.swift and QwertyKeyboard.swift are left out.
- The selection cursor of LexiCrackView.swift is not modelled. A letter key press carries its slot index directly, and Delete is not modelled; it only clears a slot through `setGuessPeg`.
- The dictionary lookup with `UITextChecker` is a foreign call. `SubmitAllowed` takes its answer as the parameter `isWord`. The lower-casing before the lookup is not modelled.
- `AttemptGuess` itself scores whatever the guess holds, as the Swift code does. The view's guard keeps the unfilled sentinel out of the history, and `MissingPegNeverScores` says how the sentinel would score.
- Random word selection through the `Words` environment is not modelled. The model takes the word as a parameter.
- Swift's `String`/`Character` semantics are simplified. A word is a `seq<char>`, each character stands for one grapheme cluster, and there is no case folding.
- `pegChoices`, the constant alphabet list, is not modelled. It has no behaviour.
- Codes.NewCode: the Swift default length of 5 is not modelled, and the length is a `nat`. A negative Swift length traps at run time and is not modelled.
- Session.WordLength: it carries no contract of its own, because it is the master's peg count by definition. Its preservation is stated by `AttemptGuessValid`, `SetGuessPegValid`, `InitNotOver` and `Restart`.
- Matching.CraneTrace: it is stated for letters in the roles of C, R, A, N, E and T, with only the distinctness the scoring depends on. Matching.AllowLolly is stated the same way. Neither is stated for the literal strings.
- Scoring is total for unequal lengths. Pegs of the guess beyond the master's end are never exact, and they can still score inexact. This follows the code.
- `isOver` looks only at the last attempt. After a win, another submission makes it false again while the master stays revealed (`OverLapsesOnResubmit`). The view keeps the keyboard's Enter live after a win, so a player can reach this state; see "## Findings".

## Findings

| source | as written | input that shows it | evidently intended | confidence | as-written member | corrected member |
|---|---|---|---|---|---|---|
| LexiCrack/LexiCrackView.swift:94-101 | Enter submits any complete dictionary word, even after the game is won. `isOver` then turns false again because it looks only at the last attempt, while the master stays revealed. | Master AB. Type A, B and press Enter: the game is won. Type B, A (a word the dictionary accepts) and press Enter: the game is no longer over. | A won game ignores further submissions, so it stays won until a new game starts. | high; not executed | Session.SubmitAsWritten, Session.ReopenAfterWin | Session.Submit, Session.WinIsFinal |
