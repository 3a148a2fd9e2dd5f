/**
 A `Code` is a fixed-length row of letter pegs tagged with the role it plays in a
 game of LexiCrack: the secret master word, the guess being typed, a scored
 attempt, or an unknown placeholder. A peg is a short string holding one letter;
 the empty string marks a slot that has not been filled yet.
 */
module Codes {

  /** A Swift optional: a value that may be absent. */
  datatype Option<+T> = None | Some(value: T)

  /** A peg holds one letter; the empty string is the unfilled sentinel. */
  type Peg = string

  const MissingPeg: Peg := ""

  /** Per-letter score of a submitted guess. */
  datatype Match = Exact | Inexact | NoMatch

  /** The role of a code, with the data each role carries. */
  datatype Kind =
    | Master(isHidden: bool)
    | Guess
    | Attempt(results: seq<Match>)
    | Unknown

  datatype Code = Code(kind: Kind, pegs: seq<Peg>)

  /** Every slot of `pegs` is unfilled. */
  predicate AllMissing(pegs: seq<Peg>) {
    forall i :: 0 <= i < |pegs| ==> pegs[i] == MissingPeg
  }

  /** Every slot of `pegs` holds exactly one character. */
  predicate AllLetters(pegs: seq<Peg>) {
    forall i :: 0 <= i < |pegs| ==> |pegs[i]| == 1
  }

  /** A fresh code of the given role with `length` unfilled slots. */
  function NewCode(kind: Kind, length: nat): (c: Code)
    ensures c.kind == kind
    ensures |c.pegs| == length
    ensures AllMissing(c.pegs)
  {
    Code(kind, seq(length, _ => MissingPeg))
  }

  // ---------------------------------------------------------------------------
  // The `word` property: pegs read and written as one string
  // ---------------------------------------------------------------------------

  /** Concatenation of the pegs, in order. */
  function Join(pegs: seq<Peg>): (w: string)
    ensures AllLetters(pegs) ==> |w| == |pegs|
    ensures AllLetters(pegs) ==> forall i :: 0 <= i < |pegs| ==> pegs[i] == [w[i]]
  {
    if |pegs| == 0 then "" else pegs[0] + Join(pegs[1..])
  }

  /** One single-letter peg per character of `w`. */
  function Letters(w: string): (pegs: seq<Peg>)
    ensures |pegs| == |w|
    ensures forall i :: 0 <= i < |w| ==> pegs[i] == [w[i]]
  {
    seq(|w|, i requires 0 <= i < |w| => [w[i]])
  }

  /** Reading the `word` of a code: when every slot holds one letter, character i is the letter of peg i. */
  function Word(c: Code): (w: string)
    ensures AllLetters(c.pegs) ==> |w| == |c.pegs|
    ensures AllLetters(c.pegs) ==> forall i :: 0 <= i < |c.pegs| ==> c.pegs[i] == [w[i]]
  {
    Join(c.pegs)
  }

  /** Assigning the `word` of a code: the role is kept and the pegs are replaced. */
  function WithWord(c: Code, w: string): (r: Code)
    ensures r.kind == c.kind
    ensures AllLetters(r.pegs)
    ensures Join(r.pegs) == w
  {
    LettersJoin(w);
    Code(c.kind, Letters(w))
  }

  /** Joining the single-letter pegs of a word gives the word back. */
  lemma {:induction false} LettersJoin(w: string)
    ensures Join(Letters(w)) == w
  {
    if |w| > 0 {
      assert Letters(w)[1..] == Letters(w[1..]);
      LettersJoin(w[1..]);
      assert [w[0]] + w[1..] == w;
    }
  }

  /** Reading back a word that was just written returns it unchanged. */
  lemma WordRoundTrip(c: Code, w: string)
    ensures Word(WithWord(c, w)) == w
    ensures |WithWord(c, w).pegs| == |w|
    ensures forall i :: 0 <= i < |w| ==> WithWord(c, w).pegs[i] == [w[i]]
  {
  }

  /** Splitting the joined pegs into letters gives the pegs back, provided each holds one letter. */
  lemma {:induction false} JoinLetters(pegs: seq<Peg>)
    requires AllLetters(pegs)
    ensures Letters(Join(pegs)) == pegs
  {
    if |pegs| > 0 {
      assert AllLetters(pegs[1..]);
      JoinLetters(pegs[1..]);
      var w := Join(pegs);
      assert w == pegs[0] + Join(pegs[1..]);
      assert pegs[0] == [w[0]];
      assert w[1..] == Join(pegs[1..]);
      assert Letters(w)[1..] == Letters(w[1..]);
    }
  }

  /** Writing back the word of a code whose slots are all filled changes nothing. */
  lemma WordWriteBack(c: Code)
    requires AllLetters(c.pegs)
    ensures WithWord(c, Word(c)) == c
  {
    JoinLetters(c.pegs);
  }

  // ---------------------------------------------------------------------------
  // State helpers
  // ---------------------------------------------------------------------------

  /** Only a master code still marked hidden is hidden. */
  function IsHidden(c: Code): (hidden: bool)
    ensures hidden <==> c.kind == Master(true)
  {
    match c.kind
    case Master(isHidden) => isHidden
    case _ => false
  }

  /** The match results of a code, present exactly when it is a scored attempt. */
  function Matches(c: Code): (r: Option<seq<Match>>)
    ensures r.Some? <==> c.kind.Attempt?
    ensures r.Some? ==> r.value == c.kind.results
  {
    match c.kind
    case Attempt(results) => Some(results)
    case _ => None
  }

  /** Clear every slot, keeping the role and the word length. */
  function Reset(c: Code): (r: Code)
    ensures r.kind == c.kind
    ensures |r.pegs| == |c.pegs|
    ensures AllMissing(r.pegs)
  {
    c.(pegs := seq(|c.pegs|, _ => MissingPeg))
  }

  /** Clearing twice is clearing once, and a cleared code is a fresh one of the same shape. */
  lemma ResetIdempotent(c: Code)
    ensures Reset(Reset(c)) == Reset(c)
    ensures Reset(c) == NewCode(c.kind, |c.pegs|)
  {
  }
}
