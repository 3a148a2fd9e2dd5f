/**
 A game of LexiCrack: the secret master code, the guess the player is
 building, and the history of scored attempts. Every player action is a pure
 transition from one game state to the next.
 */
module Session {
  import opened Codes
  import opened Matching

  datatype LexiCrack = LexiCrack(masterCode: Code, guess: Code, attempts: seq<Code>)

  /**
   The shape every game keeps: the master is a master code, the guess is a
   guess code of the master's length, and every attempt is a scored code of
   that length whose results are the score of its pegs against the master.
   */
  predicate Valid(g: LexiCrack) {
    && g.masterCode.kind.Master?
    && g.guess.kind == Guess
    && |g.guess.pegs| == |g.masterCode.pegs|
    && forall i :: 0 <= i < |g.attempts| ==>
         && g.attempts[i].kind.Attempt?
         && |g.attempts[i].pegs| == |g.masterCode.pegs|
         && g.attempts[i].kind.results == Score(g.attempts[i].pegs, g.masterCode.pegs)
  }

  /** A new game for `word`: hidden master spelling the word, an empty guess, no attempts. */
  function Init(word: string): (g: LexiCrack)
    ensures Valid(g)
    ensures Word(g.masterCode) == word
    ensures |g.masterCode.pegs| == |word|
    ensures forall i :: 0 <= i < |word| ==> g.masterCode.pegs[i] == [word[i]]
    ensures IsHidden(g.masterCode)
    ensures g.guess.kind == Guess && |g.guess.pegs| == |word| && AllMissing(g.guess.pegs)
    ensures g.attempts == []
  {
    var master := WithWord(NewCode(Master(true), |word|), word);
    WordRoundTrip(NewCode(Master(true), |word|), word);
    LexiCrack(master, NewCode(Guess, |word|), [])
  }

  /** Number of letters of the word being guessed. */
  function WordLength(g: LexiCrack): nat {
    |g.masterCode.pegs|
  }

  /** The most recent attempt, if any. */
  function LastAttempt(g: LexiCrack): (last: Option<Code>)
    ensures last.None? <==> g.attempts == []
    ensures last.Some? ==> last.value == g.attempts[|g.attempts| - 1]
  {
    if g.attempts == [] then None else Some(g.attempts[|g.attempts| - 1])
  }

  /** The game is over when there is a last attempt and it spells the master. */
  function IsOver(g: LexiCrack): (over: bool)
    ensures over <==> |g.attempts| > 0 && g.attempts[|g.attempts| - 1].pegs == g.masterCode.pegs
  {
    match LastAttempt(g)
    case None => false
    case Some(last) => last.pegs == g.masterCode.pegs
  }

  /**
   Submit the current guess: score it against the master, append it to the
   history, clear the guess, and reveal the master if the attempt just made
   spells it. Incomplete guesses are scored as they stand.
   */
  function AttemptGuess(g: LexiCrack): (g': LexiCrack)
    ensures |g'.attempts| == |g.attempts| + 1
    ensures g'.attempts[..|g.attempts|] == g.attempts
    ensures g'.attempts[|g.attempts|].pegs == g.guess.pegs
    ensures g'.attempts[|g.attempts|].kind == Attempt(MatchAgainst(g.guess, g.masterCode))
    ensures |g'.attempts[|g.attempts|].kind.results| == |g.guess.pegs|
    ensures g'.masterCode.pegs == g.masterCode.pegs
    ensures g'.guess.kind == g.guess.kind
    ensures |g'.guess.pegs| == |g.guess.pegs| && AllMissing(g'.guess.pegs)
    ensures IsOver(g') <==> g.guess.pegs == g.masterCode.pegs
    ensures IsOver(g') ==> g'.masterCode.kind == Master(false)
    ensures !IsOver(g') ==> g'.masterCode == g.masterCode
  {
    var attempt := g.guess.(kind := Attempt(MatchAgainst(g.guess, g.masterCode)));
    var next := g.(attempts := g.attempts + [attempt], guess := Reset(g.guess));
    if IsOver(next) then next.(masterCode := next.masterCode.(kind := Master(false)))
    else next
  }

  /** Put `peg` at `index` of the guess; an index outside the guess changes nothing. */
  function SetGuessPeg(g: LexiCrack, peg: Peg, index: int): (g': LexiCrack)
    ensures 0 <= index < |g.guess.pegs| ==>
              && g'.masterCode == g.masterCode
              && g'.attempts == g.attempts
              && g'.guess.kind == g.guess.kind
              && |g'.guess.pegs| == |g.guess.pegs|
              && g'.guess.pegs[index] == peg
              && forall j :: 0 <= j < |g.guess.pegs| && j != index ==> g'.guess.pegs[j] == g.guess.pegs[j]
    ensures !(0 <= index < |g.guess.pegs|) ==> g' == g
  {
    if 0 <= index < |g.guess.pegs| then g.(guess := g.guess.(pegs := g.guess.pegs[index := peg]))
    else g
  }

  /** Start over with a new word, of the same length or not. */
  function Restart(g: LexiCrack, word: string): (g': LexiCrack)
    ensures Valid(g')
    ensures g'.attempts == [] && !IsOver(g')
    ensures WordLength(g') == |word|
    ensures Word(g'.masterCode) == word && IsHidden(g'.masterCode)
    ensures g'.guess.kind == Guess && |g'.guess.pegs| == |word| && AllMissing(g'.guess.pegs)
  {
    Init(word)
  }

  // ---------------------------------------------------------------------------
  // Properties of the game as a whole
  // ---------------------------------------------------------------------------

  /** A fresh game is not over and has a guess as long as its word. */
  lemma InitNotOver(word: string)
    ensures !IsOver(Init(word))
    ensures WordLength(Init(word)) == |word| == |Init(word).guess.pegs|
  {
  }

  /** Restarting forgets everything about the old game: it is the new game for that word. */
  lemma RestartIsInit(g: LexiCrack, h: LexiCrack, word: string)
    ensures Restart(g, word) == Restart(h, word) == Init(word)
  {
  }

  /** Submitting a guess keeps the game's shape and the word length. */
  lemma AttemptGuessValid(g: LexiCrack)
    requires Valid(g)
    ensures Valid(AttemptGuess(g))
    ensures WordLength(AttemptGuess(g)) == WordLength(g)
  {
    var g' := AttemptGuess(g);
    forall i | 0 <= i < |g'.attempts|
      ensures g'.attempts[i].kind.Attempt?
      ensures |g'.attempts[i].pegs| == |g'.masterCode.pegs|
      ensures g'.attempts[i].kind.results == Score(g'.attempts[i].pegs, g'.masterCode.pegs)
    {
      if i < |g.attempts| {
        assert g'.attempts[i] == g.attempts[i];
      }
    }
  }

  /** Placing a peg keeps the game's shape and the word length. */
  lemma SetGuessPegValid(g: LexiCrack, peg: Peg, index: int)
    requires Valid(g)
    ensures Valid(SetGuessPeg(g, peg, index))
    ensures WordLength(SetGuessPeg(g, peg, index)) == WordLength(g)
  {
  }

  /**
   Submitting the master's own spelling wins: the game is over, the master is
   revealed, and every position of the new attempt is exact.
   */
  lemma WinningAttempt(g: LexiCrack)
    requires g.guess.pegs == g.masterCode.pegs
    ensures IsOver(AttemptGuess(g))
    ensures !IsHidden(AttemptGuess(g).masterCode)
    ensures forall i :: 0 <= i < |g.guess.pegs| ==>
              AttemptGuess(g).attempts[|g.attempts|].kind.results[i] == Exact
  {
    SelfMatchAllExact(g.masterCode.pegs);
  }

  /**
   Once revealed, the master stays revealed: neither submitting a guess nor
   placing a peg hides it again; only a restart does.
   */
  lemma RevealIsOneWay(g: LexiCrack, peg: Peg, index: int)
    requires Valid(g) && !IsHidden(g.masterCode)
    ensures !IsHidden(AttemptGuess(g).masterCode)
    ensures !IsHidden(SetGuessPeg(g, peg, index).masterCode)
  {
  }

  /** A master that is still hidden after a submission was not spelled by that submission. */
  lemma HiddenMeansNotWon(g: LexiCrack)
    requires IsHidden(AttemptGuess(g).masterCode)
    ensures g.guess.pegs != g.masterCode.pegs
    ensures AttemptGuess(g).masterCode == g.masterCode
  {
  }

  /**
   Being over is a property of the last attempt only. After a win, submitting
   any other spelling makes the game no longer over, while the master stays
   revealed.
   */
  lemma OverLapsesOnResubmit(g: LexiCrack)
    requires IsOver(g) && !IsHidden(g.masterCode)
    requires g.guess.pegs != g.masterCode.pegs
    ensures !IsOver(AttemptGuess(g))
    ensures !IsHidden(AttemptGuess(g).masterCode)
  {
  }

  // ---------------------------------------------------------------------------
  // The keyboard: what the view does with a key press
  // ---------------------------------------------------------------------------

  /** A key press: a letter placed at a slot of the guess, or Enter with the dictionary's verdict. */
  datatype Key = Letter(peg: Peg, index: int) | Enter(isWord: bool)

  /**
   The view's check before submitting: the guess spells a word of the game's
   length, no slot is unfilled, and the dictionary accepts the word. The
   dictionary is foreign, so its answer `isWord` is a parameter.
   */
  predicate SubmitAllowed(g: LexiCrack, isWord: bool) {
    |Word(g.guess)| == WordLength(g) && MissingPeg !in g.guess.pegs && isWord
  }

  /** Enter as the view handles it: a checked guess is submitted whether or not the game is over. */
  function SubmitAsWritten(g: LexiCrack, isWord: bool): (g': LexiCrack)
    ensures SubmitAllowed(g, isWord) ==> g' == AttemptGuess(g)
    ensures !SubmitAllowed(g, isWord) ==> g' == g
  {
    if SubmitAllowed(g, isWord) then AttemptGuess(g) else g
  }

  /**
   Enter with the game-over guard the rest of the design assumes: a won game
   ignores further submissions; otherwise a checked guess is submitted.
   */
  function Submit(g: LexiCrack, isWord: bool): (g': LexiCrack)
    ensures IsOver(g) ==> g' == g
    ensures !IsOver(g) ==> g' == SubmitAsWritten(g, isWord)
  {
    if !IsOver(g) && SubmitAllowed(g, isWord) then AttemptGuess(g) else g
  }

  /** One key press with the guarded Enter. */
  function Press(g: LexiCrack, k: Key): LexiCrack {
    match k
    case Letter(peg, index) => SetGuessPeg(g, peg, index)
    case Enter(isWord) => Submit(g, isWord)
  }

  /** A run of key presses, in order. */
  function Play(g: LexiCrack, keys: seq<Key>): LexiCrack
    decreases |keys|
  {
    if keys == [] then g else Play(Press(g, keys[0]), keys[1..])
  }

  /**
   With the view's Enter as written, a won game can be reopened. In a game on
   a two-letter word whose letters differ, the player types the word and wins,
   then types its reverse, which the dictionary accepts, and presses Enter:
   the game is no longer over, although the master stays revealed.
   */
  lemma ReopenAfterWin(x: char, y: char)
    requires x != y
    ensures var won := SubmitAsWritten(SetGuessPeg(SetGuessPeg(Init([x, y]), [x], 0), [y], 1), true);
      && IsOver(won) && !IsHidden(won.masterCode)
      && var again := SubmitAsWritten(SetGuessPeg(SetGuessPeg(won, [y], 0), [x], 1), true);
         !IsOver(again) && !IsHidden(again.masterCode)
  {
    var won := SubmitAsWritten(SetGuessPeg(SetGuessPeg(Init([x, y]), [x], 0), [y], 1), true);
    WinTwoLetters(x, y);
    var again := SetGuessPeg(SetGuessPeg(won, [y], 0), [x], 1);
    TypeTwoLetters(won, [y], [x]);
    assert again.guess.pegs[0] != again.masterCode.pegs[0];
    OverLapsesOnResubmit(again);
  }

  /** Typing the word of a new two-letter game and pressing Enter wins it. */
  lemma WinTwoLetters(x: char, y: char)
    ensures var won := SubmitAsWritten(SetGuessPeg(SetGuessPeg(Init([x, y]), [x], 0), [y], 1), true);
      && IsOver(won) && !IsHidden(won.masterCode)
      && won.masterCode.pegs == [[x], [y]] && |won.guess.pegs| == 2
  {
    var g0 := Init([x, y]);
    assert g0.masterCode.pegs == [[x], [y]];
    var typed := SetGuessPeg(SetGuessPeg(g0, [x], 0), [y], 1);
    TypeTwoLetters(g0, [x], [y]);
    WinningAttempt(typed);
  }

  /** Typing two one-letter pegs into a two-letter game fills the guess, and the view lets it through. */
  lemma TypeTwoLetters(g: LexiCrack, p: Peg, q: Peg)
    requires |g.guess.pegs| == 2 && |g.masterCode.pegs| == 2 && |p| == 1 && |q| == 1
    ensures var typed := SetGuessPeg(SetGuessPeg(g, p, 0), q, 1);
      && typed.guess.pegs == [p, q]
      && typed.masterCode == g.masterCode && typed.attempts == g.attempts
      && SubmitAllowed(typed, true)
  {
    var typed := SetGuessPeg(SetGuessPeg(g, p, 0), q, 1);
    assert typed.guess.pegs == [p, q];
    assert AllLetters(typed.guess.pegs);
  }

  /** With the guarded Enter, a won game stays won, with the same master and history, whatever keys follow. */
  lemma {:induction false} WinIsFinal(g: LexiCrack, keys: seq<Key>)
    requires IsOver(g)
    ensures IsOver(Play(g, keys))
    ensures Play(g, keys).masterCode == g.masterCode
    ensures Play(g, keys).attempts == g.attempts
    decreases |keys|
  {
    if keys != [] {
      WinIsFinal(Press(g, keys[0]), keys[1..]);
    }
  }

  /** Every run of key presses keeps the game's shape and its word length. */
  lemma {:induction false} PlayValid(g: LexiCrack, keys: seq<Key>)
    requires Valid(g)
    ensures Valid(Play(g, keys))
    ensures WordLength(Play(g, keys)) == WordLength(g)
    decreases |keys|
  {
    if keys != [] {
      match keys[0] {
        case Letter(peg, index) => SetGuessPegValid(g, peg, index);
        case Enter(isWord) => AttemptGuessValid(g);
      }
      PlayValid(Press(g, keys[0]), keys[1..]);
    }
  }
}
