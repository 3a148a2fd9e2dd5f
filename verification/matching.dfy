/**
 The two-pass scoring of a guess against the master word.

 The scorer keeps a pool holding the master's pegs. The first pass walks the
 positions from last to first. At each position whose pool entry equals the
 guessed peg, it marks the position exact and removes that entry from the pool.
 Removing at the current index only shifts entries above it, so the entries at
 lower indices, which are still to be visited, stay where the master put them.
 The second pass walks forward. Each position that is not exact takes the first
 pool entry equal to its peg, if any, and scores inexact; every pool entry
 satisfies at most one position.
 */
module Matching {
  import opened Codes

  // ---------------------------------------------------------------------------
  // Pool operations
  // ---------------------------------------------------------------------------

  /** The pool with its entry at index `k` removed. */
  function RemoveAt<T>(s: seq<T>, k: nat): (r: seq<T>)
    requires k < |s|
    ensures |r| == |s| - 1
    ensures forall j :: 0 <= j < k ==> r[j] == s[j]
    ensures forall j :: k <= j < |r| ==> r[j] == s[j + 1]
    ensures multiset(r) + multiset{s[k]} == multiset(s)
  {
    assert s == s[..k] + [s[k]] + s[k + 1..];
    s[..k] + s[k + 1..]
  }

  /** Index of the first entry of `s` equal to `x`, if there is one. */
  function FirstIndexOf<T(==)>(s: seq<T>, x: T): (r: Option<nat>)
    ensures r.None? <==> x !in s
    ensures r.Some? ==> r.value < |s| && s[r.value] == x
    ensures r.Some? ==> forall j :: 0 <= j < r.value ==> s[j] != x
  {
    if |s| == 0 then None
    else if s[0] == x then Some(0)
    else
      match FirstIndexOf(s[1..], x)
      case None => None
      case Some(k) => Some(k + 1)
  }

  // ---------------------------------------------------------------------------
  // Letters by score
  // ---------------------------------------------------------------------------

  /** The peg of one position as a one-element multiset when its score is `t`, and empty otherwise. */
  function PegIf<T>(p: T, x: Match, t: Match): multiset<T> {
    if x == t then multiset{p} else multiset{}
  }

  /** The multiset of guessed pegs at the positions, among the first |r|, scored `t`. */
  function Tagged<T>(g: seq<T>, r: seq<Match>, t: Match): multiset<T>
    requires |r| <= |g|
  {
    if |r| == 0 then multiset{}
    else PegIf(g[0], r[0], t) + Tagged(g[1..], r[1..], t)
  }

  /** The multiset of guessed pegs that scored anything other than no-match. */
  function Scored<T>(g: seq<T>, r: seq<Match>): multiset<T>
    requires |g| == |r|
  {
    Tagged(g, r, Exact) + Tagged(g, r, Inexact)
  }

  /** Scoring one more position adds its peg when it is scored `t`. */
  lemma {:induction false} TaggedSnoc<T>(g: seq<T>, r: seq<Match>, x: Match, t: Match)
    requires |r| < |g|
    ensures Tagged(g, r + [x], t) == Tagged(g, r, t) + PegIf(g[|r|], x, t)
    decreases |r|
  {
    if |r| > 0 {
      var r' := r + [x];
      assert r'[1..] == r[1..] + [x];
      assert r'[0] == r[0];
      TaggedSnoc(g[1..], r[1..], x, t);
      assert g[1..][|r[1..]|] == g[|r|];
    } else {
      assert r + [x] == [x];
    }
  }

  /** A position scored `t` contributes its peg to the letters scored `t`. */
  lemma {:induction false} TaggedHas<T>(g: seq<T>, r: seq<Match>, t: Match, i: nat)
    requires |g| == |r| && i < |g| && r[i] == t
    ensures g[i] in Tagged(g, r, t)
    decreases i
  {
    if i > 0 {
      TaggedHas(g[1..], r[1..], t, i - 1);
    }
  }

  /** Every guessed peg is counted under exactly one score. */
  lemma {:induction false} TaggedPartition<T>(g: seq<T>, r: seq<Match>)
    requires |g| == |r|
    ensures Tagged(g, r, Exact) + Tagged(g, r, Inexact) + Tagged(g, r, NoMatch) == multiset(g)
    decreases |g|
  {
    if |g| > 0 {
      TaggedPartition(g[1..], r[1..]);
      assert multiset(g) == multiset{g[0]} + multiset(g[1..]) by {
        assert g == [g[0]] + g[1..];
      }
      var e, i, n := PegIf(g[0], r[0], Exact), PegIf(g[0], r[0], Inexact), PegIf(g[0], r[0], NoMatch);
      assert e + i + n == multiset{g[0]};
      Regroup(e, Tagged(g[1..], r[1..], Exact), i, Tagged(g[1..], r[1..], Inexact),
              n, Tagged(g[1..], r[1..], NoMatch));
    }
  }

  /** Sums of three pairs of multisets may be regrouped freely. */
  lemma Regroup<T>(a1: multiset<T>, a2: multiset<T>, b1: multiset<T>, b2: multiset<T>, c1: multiset<T>, c2: multiset<T>)
    ensures (a1 + a2) + (b1 + b2) + (c1 + c2) == (a1 + b1 + c1) + (a2 + b2 + c2)
  {
  }

  // ---------------------------------------------------------------------------
  // The two passes
  // ---------------------------------------------------------------------------

  /**
   Pass 1 over positions n-1 down to 0. Returns the marks of positions 0..n-1,
   each exact or no-match, and the pool left after removing the exact hits.
   */
  function ExactPass<T(==)>(guess: seq<T>, pool: seq<T>, n: nat): (out: (seq<Match>, seq<T>))
    requires n <= |guess|
    ensures |out.0| == n
    decreases n
  {
    if n == 0 then ([], pool)
    else
      var i := n - 1;
      if |pool| > i && pool[i] == guess[i] then
        var out' := ExactPass(guess, RemoveAt(pool, i), i);
        (out'.0 + [Exact], out'.1)
      else
        var out' := ExactPass(guess, pool, i);
        (out'.0 + [NoMatch], out'.1)
  }

  /**
   Pass 1 marks a position exact exactly when the master holds the guessed peg
   there, and never marks inexact. Removing at index i leaves every lower index
   of the pool where it was, which is why the pass runs backwards.
   */
  lemma {:induction false} ExactPassMarks<T>(guess: seq<T>, pool: seq<T>, n: nat)
    requires n <= |guess|
    ensures forall i :: 0 <= i < n ==> ExactPass(guess, pool, n).0[i] != Inexact
    ensures forall i :: 0 <= i < n ==>
              (ExactPass(guess, pool, n).0[i] == Exact <==> i < |pool| && pool[i] == guess[i])
    decreases n
  {
    if n > 0 {
      var i := n - 1;
      if |pool| > i && pool[i] == guess[i] {
        ExactPassMarks(guess, RemoveAt(pool, i), i);
      } else {
        ExactPassMarks(guess, pool, i);
      }
    }
  }

  /** Pass 1 removes from the pool exactly the pegs of the positions it marks exact. */
  lemma {:induction false} ExactPassPool<T>(guess: seq<T>, pool: seq<T>, n: nat)
    requires n <= |guess|
    ensures multiset(pool) == multiset(ExactPass(guess, pool, n).1) + Tagged(guess, ExactPass(guess, pool, n).0, Exact)
    decreases n, 1
  {
    if n > 0 {
      if |pool| > n - 1 && pool[n - 1] == guess[n - 1] {
        ExactPassPoolHit(guess, pool, n);
      } else {
        ExactPassPoolMiss(guess, pool, n);
      }
    }
  }

  /** The step of `ExactPassPool` at a position that is an exact hit. */
  lemma ExactPassPoolHit<T>(guess: seq<T>, pool: seq<T>, n: nat)
    requires 0 < n <= |guess|
    requires |pool| > n - 1 && pool[n - 1] == guess[n - 1]
    ensures multiset(pool) == multiset(ExactPass(guess, pool, n).1) + Tagged(guess, ExactPass(guess, pool, n).0, Exact)
    decreases n, 0
  {
    var i := n - 1;
    var pool' := RemoveAt(pool, i);
    var out' := ExactPass(guess, pool', i);
    assert multiset(pool) == multiset(out'.1) + Tagged(guess, out'.0 + [Exact], Exact) by {
      ExactPassPool(guess, pool', i);
      TaggedSnoc(guess, out'.0, Exact, Exact);
    }
    assert ExactPass(guess, pool, n) == (out'.0 + [Exact], out'.1);
  }

  /** The step of `ExactPassPool` at a position that is not an exact hit. */
  lemma ExactPassPoolMiss<T>(guess: seq<T>, pool: seq<T>, n: nat)
    requires 0 < n <= |guess|
    requires !(|pool| > n - 1 && pool[n - 1] == guess[n - 1])
    ensures multiset(pool) == multiset(ExactPass(guess, pool, n).1) + Tagged(guess, ExactPass(guess, pool, n).0, Exact)
    decreases n, 0
  {
    var i := n - 1;
    var out' := ExactPass(guess, pool, i);
    assert multiset(pool) == multiset(out'.1) + Tagged(guess, out'.0 + [NoMatch], Exact) by {
      ExactPassPool(guess, pool, i);
      TaggedSnoc(guess, out'.0, NoMatch, Exact);
    }
    assert ExactPass(guess, pool, n) == (out'.0 + [NoMatch], out'.1);
  }

  /**
   One step of pass 2 at a position guessing `peg` with pass-1 mark `mark`: a
   position not marked exact whose peg is still in the pool scores inexact and
   consumes the first such pool entry; any other position keeps its mark and
   leaves the pool alone.
   */
  function InexactStep<T(==)>(peg: T, mark: Match, pool: seq<T>): (out: (Match, seq<T>))
    ensures mark != Exact && peg in pool ==> out.0 == Inexact
    ensures !(mark != Exact && peg in pool) ==> out == (mark, pool)
  {
    var found := FirstIndexOf(pool, peg);
    if mark != Exact && found.Some? then (Inexact, RemoveAt(pool, found.value))
    else (mark, pool)
  }

  /** A step of pass 2 that scores inexact takes exactly one copy of its peg out of the pool. */
  lemma InexactStepConsumes<T>(peg: T, mark: Match, pool: seq<T>)
    requires mark != Exact && peg in pool
    ensures multiset(InexactStep(peg, mark, pool).1) + multiset{peg} == multiset(pool)
  {
  }

  /** Pass 2 over positions i..|guess|-1, threading the pool from step to step. */
  function InexactPass<T(==)>(guess: seq<T>, marks: seq<Match>, pool: seq<T>, i: nat): (r: seq<Match>)
    requires |marks| == |guess| && i <= |guess|
    ensures |r| == |guess| - i
    decreases |guess| - i
  {
    if i == |guess| then []
    else
      var step := InexactStep(guess[i], marks[i], pool);
      [step.0] + InexactPass(guess, marks, step.1, i + 1)
  }

  /** Pass 2 keeps each pass-1 mark, except that it may turn a non-exact one into inexact. */
  lemma {:induction false} InexactPassMarks<T>(guess: seq<T>, marks: seq<Match>, pool: seq<T>, i: nat)
    requires |marks| == |guess| && i <= |guess|
    ensures forall k :: 0 <= k < |guess| - i ==>
              var r := InexactPass(guess, marks, pool, i);
              r[k] == marks[i + k] || (r[k] == Inexact && marks[i + k] != Exact)
    decreases |guess| - i
  {
    if i < |guess| {
      var step := InexactStep(guess[i], marks[i], pool);
      var r := InexactPass(guess, marks, pool, i);
      var r' := InexactPass(guess, marks, step.1, i + 1);
      assert r == [step.0] + r';
      InexactPassMarks(guess, marks, step.1, i + 1);
      forall k | 0 < k < |guess| - i
        ensures r[k] == marks[i + k] || (r[k] == Inexact && marks[i + k] != Exact)
      {
        assert r[k] == r'[k - 1] && (i + 1) + (k - 1) == i + k;
      }
    }
  }

  /**
   The whole two-pass score of `guess` against `master`: one mark per guessed
   position. Positions beyond the end of the master can never be exact.
   */
  function Score<T(==)>(guess: seq<T>, master: seq<T>): (r: seq<Match>)
    ensures |r| == |guess|
    ensures forall i :: 0 <= i < |r| ==> (r[i] == Exact <==> i < |master| && guess[i] == master[i])
  {
    var pass1 := ExactPass(guess, master, |guess|);
    ExactPassMarks(guess, master, |guess|);
    InexactPassMarks(guess, pass1.0, pass1.1, 0);
    InexactPass(guess, pass1.0, pass1.1, 0)
  }

  /** `code.match(against: other)`: the score of the pegs of `code` against those of `other`. */
  function MatchAgainst(code: Code, other: Code): (r: seq<Match>)
    ensures |r| == |code.pegs|
    ensures forall i :: 0 <= i < |r| ==>
              (r[i] == Exact <==> i < |other.pegs| && code.pegs[i] == other.pegs[i])
    ensures Scored(code.pegs, r) == multiset(code.pegs) * multiset(other.pegs)
  {
    ScoredIsCommon(code.pegs, other.pegs);
    Score(code.pegs, other.pegs)
  }

  /** Concatenation is associative; stated once so that loop proofs need not rediscover it. */
  lemma AppendAssoc<T>(a: seq<T>, b: seq<T>, c: seq<T>)
    ensures (a + b) + c == a + (b + c)
  {
  }

  /**
   Pass 1 as `match(against:)` writes it: a backward loop over the positions that
   removes each exact hit from a mutable pool by index. The marks are
   prepended, which is the backward map followed by a reversal.
   */
  method ExactPassInPlace<T(==)>(guess: seq<T>, master: seq<T>) returns (exact: seq<Match>, pool: seq<T>)
    ensures (exact, pool) == ExactPass(guess, master, |guess|)
  {
    pool := master;
    exact := [];
    var i := |guess|;
    assert ExactPass(guess, pool, i).0 + exact == ExactPass(guess, pool, i).0;
    while i > 0
      invariant 0 <= i <= |guess|
      invariant ExactPass(guess, master, |guess|)
                == (ExactPass(guess, pool, i).0 + exact, ExactPass(guess, pool, i).1)
      decreases i
    {
      ghost var prev := ExactPass(guess, pool, i);
      var pool', mark := pool, NoMatch;
      if |pool| > i - 1 && pool[i - 1] == guess[i - 1] {
        pool', mark := RemoveAt(pool, i - 1), Exact;
      }
      ghost var next := ExactPass(guess, pool', i - 1);
      assert prev == (next.0 + [mark], next.1);
      AppendAssoc(next.0, [mark], exact);
      i, pool, exact := i - 1, pool', [mark] + exact;
    }
    assert ExactPass(guess, pool, 0).0 + exact == exact;
  }

  /**
   Pass 2 as `match(against:)` writes it: a forward loop that, for each position not
   marked exact, removes the first pool entry equal to the guessed peg.
   */
  method InexactPassInPlace<T(==)>(guess: seq<T>, exact: seq<Match>, pool0: seq<T>) returns (r: seq<Match>)
    requires |exact| == |guess|
    ensures r == InexactPass(guess, exact, pool0, 0)
  {
    var pool := pool0;
    r := [];
    var j := 0;
    while j < |guess|
      invariant 0 <= j <= |guess|
      invariant r + InexactPass(guess, exact, pool, j) == InexactPass(guess, exact, pool0, 0)
      decreases |guess| - j
    {
      ghost var step := InexactStep(guess[j], exact[j], pool);
      ghost var rest := InexactPass(guess, exact, pool, j);
      InexactPassUnfold(guess, exact, pool, j);
      var found := FirstIndexOf(pool, guess[j]);
      var pool', mark := pool, exact[j];
      if exact[j] != Exact && found.Some? {
        pool', mark := RemoveAt(pool, found.value), Inexact;
      }
      assert (mark, pool') == step;
      AppendAssoc(r, [mark], InexactPass(guess, exact, pool', j + 1));
      r, pool, j := r + [mark], pool', j + 1;
    }
  }

  /** `match(against:)` with both passes run in place. */
  method ScoreInPlace<T(==)>(guess: seq<T>, master: seq<T>) returns (r: seq<Match>)
    ensures r == Score(guess, master)
  {
    var exact, pool := ExactPassInPlace(guess, master);
    r := InexactPassInPlace(guess, exact, pool);
  }

  // ---------------------------------------------------------------------------
  // Counting: each master peg satisfies at most one guessed position
  // ---------------------------------------------------------------------------

  /** Adding one copy of x to both sides adds one copy of x to their common part. */
  lemma CommonAddBoth<T>(x: T, a: multiset<T>, b: multiset<T>)
    ensures (multiset{x} + a) * (multiset{x} + b) == multiset{x} + a * b
  {
    var lhs, rhs := (multiset{x} + a) * (multiset{x} + b), multiset{x} + a * b;
    forall c ensures lhs[c] == rhs[c] {
    }
  }

  /** Adding x to one side leaves the common part alone when the other side lacks x. */
  lemma CommonAddAbsent<T>(x: T, a: multiset<T>, b: multiset<T>)
    requires x !in b
    ensures (multiset{x} + a) * b == a * b
  {
    var lhs, rhs := (multiset{x} + a) * b, a * b;
    forall c ensures lhs[c] == rhs[c] {
    }
  }

  /** One step of pass 2 preserves the counting relation of `InexactPassCount`. */
  lemma InexactStepCount<T>(x: T, mark: Match, pool: seq<T>, nm': multiset<T>)
    requires mark != Inexact
    ensures PegIf(x, InexactStep(x, mark, pool).0, Inexact) + nm' * multiset(InexactStep(x, mark, pool).1)
            == (PegIf(x, mark, NoMatch) + nm') * multiset(pool)
  {
    var step := InexactStep(x, mark, pool);
    if mark == Exact {
    } else if x in pool {
      InexactStepConsumes(x, mark, pool);
      CommonAddBoth(x, nm', multiset(step.1));
    } else {
      CommonAddAbsent(x, nm', multiset(pool));
    }
  }

  /**
   Pass 2 keeps the exact positions and scores inexact exactly the common part
   of the unmatched guessed pegs and the pool.
   */
  lemma {:induction false} InexactPassCount<T>(guess: seq<T>, marks: seq<Match>, pool: seq<T>, i: nat)
    requires |marks| == |guess| && i <= |guess|
    requires forall k :: i <= k < |guess| ==> marks[k] != Inexact
    ensures Tagged(guess[i..], InexactPass(guess, marks, pool, i), Exact)
            == Tagged(guess[i..], marks[i..], Exact)
    ensures Tagged(guess[i..], InexactPass(guess, marks, pool, i), Inexact)
            == Tagged(guess[i..], marks[i..], NoMatch) * multiset(pool)
    decreases |guess| - i
  {
    if i < |guess| {
      var x := guess[i];
      var step := InexactStep(x, marks[i], pool);
      var r := InexactPass(guess, marks, pool, i);
      var r' := InexactPass(guess, marks, step.1, i + 1);
      InexactPassCount(guess, marks, step.1, i + 1);
      assert r[0] == step.0 && r[1..] == r';
      assert guess[i..][0] == x && guess[i..][1..] == guess[i + 1..];
      assert marks[i..][0] == marks[i] && marks[i..][1..] == marks[i + 1..];
      var nm' := Tagged(guess[i + 1..], marks[i + 1..], NoMatch);
      assert Tagged(guess[i..], marks[i..], NoMatch) == PegIf(x, marks[i], NoMatch) + nm';
      assert Tagged(guess[i..], r, Inexact) == PegIf(x, step.0, Inexact) + nm' * multiset(step.1);
      InexactStepCount(x, marks[i], pool, nm');
      assert PegIf(x, step.0, Exact) == PegIf(x, marks[i], Exact);
    }
  }

  /** Marks that never say inexact contribute no inexact letters. */
  lemma {:induction false} NoInexactMarks<T>(g: seq<T>, marks: seq<Match>)
    requires |marks| <= |g|
    requires forall k :: 0 <= k < |marks| ==> marks[k] != Inexact
    ensures Tagged(g, marks, Inexact) == multiset{}
    decreases |marks|
  {
    if |marks| > 0 {
      NoInexactMarks(g[1..], marks[1..]);
    }
  }

  /**
   The pegs that score anything other than no-match are exactly the common part
   of the guess and the master: for each letter, the number of scoring positions
   holding it is the smaller of its counts in the guess and in the master.
   */
  lemma ScoredIsCommon<T>(guess: seq<T>, master: seq<T>)
    ensures Scored(guess, Score(guess, master)) == multiset(guess) * multiset(master)
  {
    var pass1 := ExactPass(guess, master, |guess|);
    var marks, pool := pass1.0, pass1.1;
    var r := Score(guess, master);
    assert r == InexactPass(guess, marks, pool, 0);
    assert guess[0..] == guess && marks[0..] == marks;
    ExactPassPool(guess, master, |guess|);
    ExactPassMarks(guess, master, |guess|);
    InexactPassCount(guess, marks, pool, 0);
    TaggedPartition(guess, marks);
    NoInexactMarks(guess, marks);
    var e := Tagged(guess, marks, Exact);
    var nm := Tagged(guess, marks, NoMatch);
    assert Scored(guess, r) == e + nm * multiset(pool);
    CommonAddShared(e, nm, multiset(pool));
    assert multiset(guess) == e + nm;
    assert multiset(master) == e + multiset(pool);
  }

  /** Adding the same multiset to both sides adds it to their common part. */
  lemma CommonAddShared<T>(e: multiset<T>, a: multiset<T>, b: multiset<T>)
    ensures (e + a) * (e + b) == e + a * b
  {
    var lhs, rhs := (e + a) * (e + b), e + a * b;
    forall c ensures lhs[c] == rhs[c] {
    }
  }

  /**
   No letter scores more often than the master holds it: for every peg value c,
   the positions guessing c that score exact or inexact are at most as many as
   the master's copies of c.
   */
  lemma NoDuplication<T>(guess: seq<T>, master: seq<T>)
    ensures Scored(guess, Score(guess, master)) <= multiset(master)
    ensures forall c :: Scored(guess, Score(guess, master))[c] <= multiset(master)[c]
  {
    ScoredIsCommon(guess, master);
  }

  /** A position that scores at all guesses a peg the master holds. */
  lemma ScoredLetterInMaster<T>(guess: seq<T>, master: seq<T>, i: nat)
    requires i < |guess| && Score(guess, master)[i] != NoMatch
    ensures guess[i] in master
  {
    var r := Score(guess, master);
    TaggedHas(guess, r, r[i], i);
    assert guess[i] in Scored(guess, r);
    ScoredIsCommon(guess, master);
    assert (multiset(guess) * multiset(master))[guess[i]] > 0;
  }

  /** Guessing the master itself scores exact everywhere. */
  lemma SelfMatchAllExact<T>(master: seq<T>)
    ensures forall i :: 0 <= i < |master| ==> Score(master, master)[i] == Exact
  {
  }

  /** A guess sharing no peg with the master scores no-match everywhere. */
  lemma DisjointAllNoMatch<T>(guess: seq<T>, master: seq<T>)
    requires forall i, j :: 0 <= i < |guess| && 0 <= j < |master| ==> guess[i] != master[j]
    ensures forall i :: 0 <= i < |guess| ==> Score(guess, master)[i] == NoMatch
  {
    forall i | 0 <= i < |guess|
      ensures Score(guess, master)[i] == NoMatch
    {
      if Score(guess, master)[i] != NoMatch {
        ScoredLetterInMaster(guess, master, i);
        assert false;
      }
    }
  }

  /** An unfilled slot never scores against a master whose slots are all filled. */
  lemma MissingPegNeverScores(guess: seq<Peg>, master: seq<Peg>, i: nat)
    requires i < |guess| && guess[i] == MissingPeg
    requires AllLetters(master)
    ensures Score(guess, master)[i] == NoMatch
  {
    if Score(guess, master)[i] != NoMatch {
      ScoredLetterInMaster(guess, master, i);
      assert false;
    }
  }

  // ---------------------------------------------------------------------------
  // Ordering: inexact credit goes to the leftmost unmatched positions
  // ---------------------------------------------------------------------------

  /** The first mark of pass 2 from position i is the mark of its first step. */
  lemma InexactPassHead<T>(guess: seq<T>, marks: seq<Match>, pool: seq<T>, i: nat)
    requires |marks| == |guess| && i < |guess|
    ensures InexactPass(guess, marks, pool, i)[0] == InexactStep(guess[i], marks[i], pool).0
  {
  }

  /** Later marks of pass 2 from position i are those of pass 2 from i + 1 on the pool the first step leaves. */
  lemma InexactPassTail<T>(guess: seq<T>, marks: seq<Match>, pool: seq<T>, i: nat, k: nat)
    requires |marks| == |guess| && i < k < |guess|
    ensures InexactPass(guess, marks, pool, i)[k - i]
         == InexactPass(guess, marks, InexactStep(guess[i], marks[i], pool).1, i + 1)[k - (i + 1)]
  {
    InexactPassUnfold(guess, marks, pool, i);
  }

  /** Pass 2 from position i is its first step followed by pass 2 from i + 1. */
  lemma InexactPassUnfold<T>(guess: seq<T>, marks: seq<Match>, pool: seq<T>, i: nat)
    requires |marks| == |guess| && i < |guess|
    ensures var step := InexactStep(guess[i], marks[i], pool);
      InexactPass(guess, marks, pool, i) == [step.0] + InexactPass(guess, marks, step.1, i + 1)
  {
  }

  /** Once a peg is missing from the pool, pass 2 never scores it inexact again. */
  lemma {:induction false} AbsentStaysAbsent<T>(guess: seq<T>, marks: seq<Match>, pool: seq<T>, i: nat, k: nat)
    requires |marks| == |guess| && i <= k < |guess|
    requires forall j :: i <= j < |guess| ==> marks[j] != Inexact
    requires guess[k] !in pool
    ensures InexactPass(guess, marks, pool, i)[k - i] != Inexact
    decreases |guess| - i, 1
  {
    if k > i {
      AbsentStaysAbsentLater(guess, marks, pool, i, k);
    } else {
      InexactPassHead(guess, marks, pool, i);
    }
  }

  /** `AbsentStaysAbsent` for a position after the first one visited. */
  lemma AbsentStaysAbsentLater<T>(guess: seq<T>, marks: seq<Match>, pool: seq<T>, i: nat, k: nat)
    requires |marks| == |guess| && i < k < |guess|
    requires forall j :: i <= j < |guess| ==> marks[j] != Inexact
    requires guess[k] !in pool
    ensures InexactPass(guess, marks, pool, i)[k - i] != Inexact
    decreases |guess| - i, 0
  {
    var pool' := InexactStep(guess[i], marks[i], pool).1;
    InexactStepKeepsAbsent(guess[i], marks[i], pool, guess[k]);
    AbsentStaysAbsent(guess, marks, pool', i + 1, k);
    InexactPassTail(guess, marks, pool, i, k);
  }

  /**
   A no-match at the first position visited by pass 2 found no copy of its peg
   in the pool and left the pool alone.
   */
  lemma InexactPassFirstNoMatch<T>(guess: seq<T>, marks: seq<Match>, pool: seq<T>, i: nat)
    requires |marks| == |guess| && i < |guess|
    requires InexactPass(guess, marks, pool, i)[0] == NoMatch
    ensures guess[i] !in pool
  {
    InexactPassHead(guess, marks, pool, i);
  }

  /** One step of pass 2 never brings a missing peg into the pool. */
  lemma InexactStepKeepsAbsent<T>(peg: T, mark: Match, pool: seq<T>, x: T)
    requires x !in pool
    ensures x !in InexactStep(peg, mark, pool).1
  {
    if mark != Exact && peg in pool {
      InexactStepConsumes(peg, mark, pool);
    }
  }

  /**
   In pass 2, a no-match at position `a` means no later position `b` guessing
   the same peg scores inexact: the pool held no copy of the peg when `a` was
   visited, and the pool only shrinks.
   */
  lemma {:induction false} InexactPassLeftmost<T>(guess: seq<T>, marks: seq<Match>, pool: seq<T>, i: nat, a: nat, b: nat)
    requires |marks| == |guess| && i <= a < b < |guess|
    requires forall j :: i <= j < |guess| ==> marks[j] != Inexact
    requires InexactPass(guess, marks, pool, i)[a - i] == NoMatch
    requires guess[a] == guess[b]
    ensures InexactPass(guess, marks, pool, i)[b - i] != Inexact
    decreases |guess| - i, 1
  {
    if a == i {
      InexactPassLeftmostFirst(guess, marks, pool, i, b);
    } else {
      InexactPassLeftmostLater(guess, marks, pool, i, a, b);
    }
  }

  /** `InexactPassLeftmost` when the no-match is the first position visited. */
  lemma InexactPassLeftmostFirst<T>(guess: seq<T>, marks: seq<Match>, pool: seq<T>, i: nat, b: nat)
    requires |marks| == |guess| && i < b < |guess|
    requires forall j :: i <= j < |guess| ==> marks[j] != Inexact
    requires InexactPass(guess, marks, pool, i)[0] == NoMatch
    requires guess[i] == guess[b]
    ensures InexactPass(guess, marks, pool, i)[b - i] != Inexact
  {
    InexactPassFirstNoMatch(guess, marks, pool, i);
    AbsentStaysAbsent(guess, marks, pool, i, b);
  }

  /** `InexactPassLeftmost` when the no-match comes after the first position visited. */
  lemma InexactPassLeftmostLater<T>(guess: seq<T>, marks: seq<Match>, pool: seq<T>, i: nat, a: nat, b: nat)
    requires |marks| == |guess| && i < a < b < |guess|
    requires forall j :: i <= j < |guess| ==> marks[j] != Inexact
    requires InexactPass(guess, marks, pool, i)[a - i] == NoMatch
    requires guess[a] == guess[b]
    ensures InexactPass(guess, marks, pool, i)[b - i] != Inexact
    decreases |guess| - i, 0
  {
    var pool' := InexactStep(guess[i], marks[i], pool).1;
    InexactPassTail(guess, marks, pool, i, a);
    InexactPassLeftmost(guess, marks, pool', i + 1, a, b);
    InexactPassTail(guess, marks, pool, i, b);
  }

  /**
   A position scored no-match blocks every later position guessing the same peg
   from scoring inexact: inexact credit for a letter goes to the leftmost
   non-exact positions first.
   */
  lemma NoMatchBlocksLaterInexact<T>(guess: seq<T>, master: seq<T>)
    ensures forall a, b :: 0 <= a < b < |guess|
              && Score(guess, master)[a] == NoMatch
              && guess[a] == guess[b]
              ==> Score(guess, master)[b] != Inexact
  {
    forall a, b | 0 <= a < b < |guess| && Score(guess, master)[a] == NoMatch && guess[a] == guess[b]
      ensures Score(guess, master)[b] != Inexact
    {
      NoMatchBlocksAt(guess, master, a, b);
    }
  }

  /** `NoMatchBlocksLaterInexact` for one pair of positions. */
  lemma NoMatchBlocksAt<T>(guess: seq<T>, master: seq<T>, a: nat, b: nat)
    requires a < b < |guess| && guess[a] == guess[b]
    requires Score(guess, master)[a] == NoMatch
    ensures Score(guess, master)[b] != Inexact
  {
    var pass1 := ExactPass(guess, master, |guess|);
    ScoreUnfold(guess, master);
    InexactPassLeftmost(guess, pass1.0, pass1.1, 0, a, b);
  }

  /** The score is pass 2 run on the marks and pool of pass 1, and pass 1 marks nothing inexact. */
  lemma ScoreUnfold<T>(guess: seq<T>, master: seq<T>)
    ensures var pass1 := ExactPass(guess, master, |guess|);
      && Score(guess, master) == InexactPass(guess, pass1.0, pass1.1, 0)
      && forall k :: 0 <= k < |guess| ==> pass1.0[k] != Inexact
  {
    ExactPassMarks(guess, master, |guess|);
  }

  // ---------------------------------------------------------------------------
  // Where the scored letters sit
  // ---------------------------------------------------------------------------

  /** A letter present among the positions tagged `t` sits at some such position. */
  lemma {:induction false} TaggedWitness<T>(g: seq<T>, r: seq<Match>, t: Match, x: T)
    requires |r| <= |g|
    requires x in Tagged(g, r, t)
    ensures exists i :: 0 <= i < |r| && g[i] == x && r[i] == t
  {
    if x in PegIf(g[0], r[0], t) {
      assert g[0] == x && r[0] == t;
    } else {
      TaggedWitness(g[1..], r[1..], t, x);
      var i :| 0 <= i < |r[1..]| && g[1..][i] == x && r[1..][i] == t;
      assert g[i + 1] == x && r[i + 1] == t;
    }
  }

  /** A letter both words share is scored at some position of the guess holding it. */
  lemma SharedLetterScored<T>(guess: seq<T>, master: seq<T>, x: T)
    requires x in guess && x in master
    ensures exists i :: 0 <= i < |guess| && guess[i] == x && Score(guess, master)[i] != NoMatch
  {
    var r := Score(guess, master);
    assert x in Tagged(guess, r, Exact) + Tagged(guess, r, Inexact) by {
      ScoredIsCommon(guess, master);
      assert x in multiset(guess) * multiset(master);
    }
    var t := if x in Tagged(guess, r, Exact) then Exact else Inexact;
    TaggedWitness(guess, r, t, x);
    var i :| 0 <= i < |r| && guess[i] == x && r[i] == t;
    assert r[i] != NoMatch;
  }

  /** Number of positions of `g` holding `x` whose mark is not a miss. */
  ghost function ScoredPositions<T>(g: seq<T>, r: seq<Match>, x: T): nat
    requires |r| <= |g|
  {
    if |r| == 0 then 0
    else (if g[0] == x && r[0] != NoMatch then 1 else 0) + ScoredPositions(g[1..], r[1..], x)
  }

  /** The multiset of scored pegs counts each letter once per scored position holding it. */
  lemma {:induction false} ScoredCount<T>(g: seq<T>, r: seq<Match>, x: T)
    requires |g| == |r|
    ensures Scored(g, r)[x] == ScoredPositions(g, r, x)
  {
    if |r| > 0 {
      ScoredCount(g[1..], r[1..], x);
    }
  }

  // ---------------------------------------------------------------------------
  // Worked examples
  // ---------------------------------------------------------------------------

  /** A sequence of length five is the display of its five elements. */
  lemma SeqOfFive<T>(s: seq<T>, x0: T, x1: T, x2: T, x3: T, x4: T)
    requires |s| == 5
    requires s[0] == x0 && s[1] == x1 && s[2] == x2 && s[3] == x3 && s[4] == x4
    ensures s == [x0, x1, x2, x3, x4]
  {
  }

  /** TRACE against CRANE, position by position. */
  lemma CraneTraceMarks<T>(c: T, r: T, a: T, n: T, e: T, t: T)
    requires t != c && t != r && t != a && t != n && t != e
    requires c != r && c != a && c != e && c != n
    ensures var m := Score([t, r, a, c, e], [c, r, a, n, e]);
      m[0] == NoMatch && m[1] == Exact && m[2] == Exact && m[3] == Inexact && m[4] == Exact
  {
    var guess, master := [t, r, a, c, e], [c, r, a, n, e];
    var m := Score(guess, master);
    // Positions 1, 2 and 4 agree; positions 0 and 3 do not.
    assert m[1] == Exact && m[2] == Exact && m[4] == Exact;
    assert m[0] != Exact && m[3] != Exact;
    // T is absent from the master, so it scores nothing.
    assert m[0] == NoMatch by {
      if m[0] != NoMatch {
        ScoredLetterInMaster(guess, master, 0);
      }
    }
    // C is shared, and position 3 is the only C of the guess.
    assert m[3] != NoMatch by {
      SharedLetterScored(guess, master, c);
      var i :| 0 <= i < |guess| && guess[i] == c && m[i] != NoMatch;
      assert i == 3;
    }
  }

  /**
   Master CRANE, guess TRACE, stated for any letters in the roles of C, R, A, N,
   E and T such that T is not in the master and C occurs once in the guess and
   differs from N.
   */
  lemma CraneTrace<T>(c: T, r: T, a: T, n: T, e: T, t: T)
    requires t != c && t != r && t != a && t != n && t != e
    requires c != r && c != a && c != e && c != n
    ensures Score([t, r, a, c, e], [c, r, a, n, e]) == [NoMatch, Exact, Exact, Inexact, Exact]
  {
    CraneTraceMarks(c, r, a, n, e, t);
    SeqOfFive(Score([t, r, a, c, e], [c, r, a, n, e]), NoMatch, Exact, Exact, Inexact, Exact);
  }

  /** The scored L's of LOLLY, counted position by position. */
  lemma LollyScoredLs<T>(l: T, o: T, y: T, m: seq<Match>)
    requires l != o && l != y && |m| == 5
    ensures ScoredPositions([l, o, l, l, y], m, l)
         == (if m[0] != NoMatch then 1 else 0) + (if m[2] != NoMatch then 1 else 0)
          + (if m[3] != NoMatch then 1 else 0)
  {
    var g := [l, o, l, l, y];
    assert ScoredPositions(g[4..], m[4..], l) == 0 by {
      assert g[4..][1..] == [] && m[4..][1..] == [];
    }
    assert g[3..][1..] == g[4..] && m[3..][1..] == m[4..];
    assert ScoredPositions(g[3..], m[3..], l) == (if m[3] != NoMatch then 1 else 0);
    assert g[2..][1..] == g[3..] && m[2..][1..] == m[3..];
    assert ScoredPositions(g[2..], m[2..], l)
        == (if m[2] != NoMatch then 1 else 0) + (if m[3] != NoMatch then 1 else 0);
    assert g[1..][1..] == g[2..] && m[1..][1..] == m[2..];
    assert ScoredPositions(g[1..], m[1..], l) == ScoredPositions(g[2..], m[2..], l);
  }

  /** LOLLY holds three L's and ALLOW two. */
  lemma LollyLetterCounts<T>(a: T, l: T, o: T, w: T, y: T)
    requires l != a && l != o && l != w && l != y
    ensures multiset([l, o, l, l, y])[l] == 3
    ensures multiset([a, l, l, o, w])[l] == 2
  {
    assert multiset([l, o, l, l, y]) == multiset{l, o, l, l, y};
    assert multiset([a, l, l, o, w]) == multiset{a, l, l, o, w};
  }

  /** LOLLY against ALLOW, the positions the general theorems settle one by one. */
  lemma AllowLollySingles<T>(a: T, l: T, o: T, w: T, y: T)
    requires l != a && l != o && l != w && l != y
    requires o != a && o != w && o != y
    requires y != a && y != w
    ensures Score([l, o, l, l, y], [a, l, l, o, w])[1] == Inexact
    ensures Score([l, o, l, l, y], [a, l, l, o, w])[2] == Exact
    ensures Score([l, o, l, l, y], [a, l, l, o, w])[4] == NoMatch
    ensures Score([l, o, l, l, y], [a, l, l, o, w])[0] != Exact
    ensures Score([l, o, l, l, y], [a, l, l, o, w])[3] != Exact
  {
    var guess, master := [l, o, l, l, y], [a, l, l, o, w];
    var m := Score(guess, master);
    assert m[4] == NoMatch by {
      if m[4] != NoMatch {
        ScoredLetterInMaster(guess, master, 4);
      }
    }
    SharedLetterScored(guess, master, o);
  }

  /**
   Master ALLOW, guess LOLLY, stated for any letters in the roles of A, L, O, W
   and Y such that only the L's and the O coincide. The master has two L's, so
   of the guess's three L's exactly two score: the exact one in the middle and
   the leftmost other one.
   */
  lemma AllowLolly<T>(a: T, l: T, o: T, w: T, y: T)
    requires l != a && l != o && l != w && l != y
    requires o != a && o != w && o != y
    requires y != a && y != w
    ensures Score([l, o, l, l, y], [a, l, l, o, w]) == [Inexact, Inexact, Exact, NoMatch, NoMatch]
  {
    var guess, master := [l, o, l, l, y], [a, l, l, o, w];
    var m := Score(guess, master);
    AllowLollySingles(a, l, o, w, y);
    // Exactly one of the two other L's scores, and a miss at the first would block the second.
    assert m[0] == Inexact && m[3] == NoMatch by {
      // The scored L's are as many as the L's the two words share, which is two.
      assert Scored(guess, m)[l] == 2 by {
        ScoredIsCommon(guess, master);
        LollyLetterCounts(a, l, o, w, y);
      }
      ScoredCount(guess, m, l);
      LollyScoredLs(l, o, y, m);
      if m[0] == NoMatch {
        NoMatchBlocksAt(guess, master, 0, 3);
      }
    }
    SeqOfFive(m, Inexact, Inexact, Exact, NoMatch, NoMatch);
  }
}
