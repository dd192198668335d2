/**
 * The advisor's state: the candidate answers still consistent with every
 * feedback row seen (`options`) and the universe of allowed guesses
 * (`valid`); the suggestion policy (`suggest`) and pruning by one feedback
 * row (`prune`).
 */
module WordleBrain {
  import opened Words
  import opened WordleFeedback
  import opened FeedbackProperties
  import opened WordleSolver

  /** The fixed first guess. */
  const OPENER: Word := "tares"

  /** `Result<Word, &str>` of `suggest`. */
  datatype Suggestion = Ok(word: Word) | Err(message: string)

  // ---------------------------------------------------------------------
  // What one feedback row demands of a candidate.
  // ---------------------------------------------------------------------

  /**
   * The four rules of pruning, read off the feedback row directly:
   * Correct letters stay in place, every other mark forbids its letter at
   * its own position, a Wrong letter that is credited nowhere in the row is
   * banned from every non-Correct position, and each letter occurs at least
   * as often as the row credits it.
   */
  ghost predicate Admits(fb: Feedback, x: Word)
  {
    (forall i | 0 <= i < 5 :: fb.items[i].Correct? ==> x[i] == fb.items[i].letter)
    && (forall i | 0 <= i < 5 :: !fb.items[i].Correct? ==> x[i] != fb.items[i].letter)
    && (forall i, j | 0 <= i < 5 && 0 <= j < 5 ::
          fb.items[i].Wrong? && Required(fb.items, fb.items[i].letter) == 0 && !fb.items[j].Correct?
          ==> x[j] != fb.items[i].letter)
    && (forall c :: Required(fb.items, c) <= CountChar(x, c))
  }

  /** The lists and the count map `prune` builds from a row before filtering. */
  datatype Constraints = Constraints(
    correctChars: seq<(char, nat)>,
    excludedChars: seq<(char, nat)>,
    excludedInferred: seq<char>,
    excludeMask: seq<nat>,
    counts: map<char, nat>)

  /** `k` holds exactly the constraints of row `fb`. */
  ghost predicate Describes(fb: Feedback, k: Constraints)
  {
    (forall p :: p in k.correctChars <==> p.1 < 5 && fb.items[p.1] == Correct(p.0))
    && (forall p :: p in k.excludedChars <==> p.1 < 5 && !fb.items[p.1].Correct? && fb.items[p.1].letter == p.0)
    && (forall c :: c in k.excludedInferred <==> exists i | 0 <= i < 5 :: fb.items[i] == Wrong(c))
    && (forall i: nat :: i in k.excludeMask <==> i < 5 && !fb.items[i].Correct?)
    && (forall c :: CountOf(k.counts, c) == Required(fb.items, c))
  }

  /** Every position the lists mention is a position of a word. */
  predicate WellFormed(k: Constraints)
  {
    (forall m | 0 <= m < |k.correctChars| :: k.correctChars[m].1 < 5)
    && (forall m | 0 <= m < |k.excludedChars| :: k.excludedChars[m].1 < 5)
    && (forall m | 0 <= m < |k.excludeMask| :: k.excludeMask[m] < 5)
  }

  /** The filter closure of `prune`, read over the constraint lists. */
  ghost predicate Satisfies(k: Constraints, x: Word)
    requires WellFormed(k)
  {
    (forall p | p in k.correctChars :: x[p.1] == p.0)
    && (forall p | p in k.excludedChars :: x[p.1] != p.0)
    && (forall c, i | c in k.excludedInferred && i in k.excludeMask :: CountOf(k.counts, c) == 0 ==> x[i] != c)
    && (forall c | c in k.counts :: k.counts[c] <= CountChar(x, c))
  }

  /** The constraint-building loop of `prune`. */
  method Collect(fb: Feedback) returns (k: Constraints)
    ensures Describes(fb, k)
  {
    var correctChars: seq<(char, nat)> := [];
    var excludedChars: seq<(char, nat)> := [];
    var excludedInferred: seq<char> := [];
    var excludeMask: seq<nat> := [];
    var counts: map<char, nat> := map[];
    for i := 0 to 5
      invariant forall p :: p in correctChars <==> p.1 < i && fb.items[p.1] == Correct(p.0)
      invariant forall p :: p in excludedChars <==> p.1 < i && !fb.items[p.1].Correct? && fb.items[p.1].letter == p.0
      invariant forall c :: c in excludedInferred <==> exists j | 0 <= j < i :: fb.items[j] == Wrong(c)
      invariant forall j: nat :: j in excludeMask <==> j < i && !fb.items[j].Correct?
      invariant forall c :: CountOf(counts, c) == Required(fb.items[..i], c)
    {
      assert fb.items[..i + 1][..i] == fb.items[..i];
      match fb.items[i]
      case Correct(c) =>
        correctChars := correctChars + [(c, i)];
        var charCount := CountOf(counts, c);
        counts := counts[c := charCount + 1];
      case WrongPosition(c) =>
        excludedChars := excludedChars + [(c, i)];
        excludeMask := excludeMask + [i];
        var charCount := CountOf(counts, c);
        counts := counts[c := charCount + 1];
      case Wrong(c) =>
        excludedChars := excludedChars + [(c, i)];
        excludedInferred := excludedInferred + [c];
        excludeMask := excludeMask + [i];
    }
    assert fb.items[..5] == fb.items;
    k := Constraints(correctChars, excludedChars, excludedInferred, excludeMask, counts);
  }

  /** The filter closure of `prune`: four loops, each returning false at the first violated constraint. */
  method Keep(k: Constraints, x: Word) returns (keep: bool)
    requires WellFormed(k)
    ensures keep == Satisfies(k, x)
  {
    for n := 0 to |k.correctChars|
      invariant forall m | 0 <= m < n :: x[k.correctChars[m].1] == k.correctChars[m].0
    {
      var (c, i) := k.correctChars[n];
      if c != x[i] {
        assert k.correctChars[n] in k.correctChars;
        return false;
      }
    }
    for n := 0 to |k.excludedChars|
      invariant forall m | 0 <= m < n :: x[k.excludedChars[m].1] != k.excludedChars[m].0
    {
      var (c, i) := k.excludedChars[n];
      if c == x[i] {
        assert k.excludedChars[n] in k.excludedChars;
        return false;
      }
    }
    for n := 0 to |k.excludedInferred|
      invariant forall m, i | 0 <= m < n && i in k.excludeMask ::
        CountOf(k.counts, k.excludedInferred[m]) == 0 ==> x[i] != k.excludedInferred[m]
    {
      var c := k.excludedInferred[n];
      if CountOf(k.counts, c) == 0 {
        for t := 0 to |k.excludeMask|
          invariant forall u | 0 <= u < t :: x[k.excludeMask[u]] != c
        {
          var i := k.excludeMask[t];
          if c == x[i] {
            assert c in k.excludedInferred && i in k.excludeMask;
            return false;
          }
        }
      }
    }
    var rest := k.counts.Keys;
    while rest != {}
      invariant rest <= k.counts.Keys
      invariant forall c | c in k.counts && c !in rest :: k.counts[c] <= CountChar(x, c)
      decreases rest
    {
      var c :| c in rest;
      var xCount := CountChar(x, c);
      if xCount < k.counts[c] {
        return false;
      }
      rest := rest - {c};
    }
    return true;
  }

  /** Constraints built from a row only mention positions 0 to 4. */
  lemma DescribedWellFormed(fb: Feedback, k: Constraints)
    requires Describes(fb, k)
    ensures WellFormed(k)
  {
    forall m | 0 <= m < |k.correctChars| ensures k.correctChars[m].1 < 5 {
      assert k.correctChars[m] in k.correctChars;
    }
    forall m | 0 <= m < |k.excludedChars| ensures k.excludedChars[m].1 < 5 {
      assert k.excludedChars[m] in k.excludedChars;
    }
    forall m | 0 <= m < |k.excludeMask| ensures k.excludeMask[m] < 5 {
      assert k.excludeMask[m] in k.excludeMask;
    }
  }

  /** The closure over the constraint lists accepts exactly the words the row admits. */
  lemma ConstraintsAgree(fb: Feedback, k: Constraints, x: Word)
    requires Describes(fb, k)
    ensures WellFormed(k)
    ensures Satisfies(k, x) <==> Admits(fb, x)
  {
    DescribedWellFormed(fb, k);
    if Satisfies(k, x) {
      forall i | 0 <= i < 5 && fb.items[i].Correct? ensures x[i] == fb.items[i].letter {
        assert (fb.items[i].letter, i) in k.correctChars;
      }
      forall i | 0 <= i < 5 && !fb.items[i].Correct? ensures x[i] != fb.items[i].letter {
        assert (fb.items[i].letter, i) in k.excludedChars;
      }
      forall i, j | 0 <= i < 5 && 0 <= j < 5 &&
          fb.items[i].Wrong? && Required(fb.items, fb.items[i].letter) == 0 && !fb.items[j].Correct?
        ensures x[j] != fb.items[i].letter
      {
        assert fb.items[i].letter in k.excludedInferred;
        assert j in k.excludeMask;
      }
      forall c ensures Required(fb.items, c) <= CountChar(x, c) {
        assert CountOf(k.counts, c) == Required(fb.items, c);
      }
    }
    if Admits(fb, x) {
      forall p | p in k.correctChars ensures x[p.1] == p.0 {
        assert fb.items[p.1] == Correct(p.0);
      }
      forall c, i | c in k.excludedInferred && i in k.excludeMask && CountOf(k.counts, c) == 0
        ensures x[i] != c
      {
        var j :| 0 <= j < 5 && fb.items[j] == Wrong(c);
        assert Required(fb.items, fb.items[j].letter) == 0;
      }
      forall c | c in k.counts ensures k.counts[c] <= CountChar(x, c) {
        assert CountOf(k.counts, c) == Required(fb.items, c);
      }
    }
  }

  // ---------------------------------------------------------------------
  // The candidate filter and what it keeps.
  // ---------------------------------------------------------------------

  /** The candidates of `ws` that row `fb` admits, in their order. */
  ghost function Filter(ws: seq<Word>, fb: Feedback): (r: seq<Word>)
    ensures |r| <= |ws|
    ensures forall w :: w in r <==> w in ws && Admits(fb, w)
  {
    if |ws| == 0 then []
    else
      assert ws == ws[..|ws| - 1] + [ws[|ws| - 1]];
      Filter(ws[..|ws| - 1], fb) + (if Admits(fb, ws[|ws| - 1]) then [ws[|ws| - 1]] else [])
  }

  /** Filtering one more candidate appends it exactly when the row admits it. */
  lemma FilterSnoc(ws: seq<Word>, x: Word, fb: Feedback)
    ensures Filter(ws + [x], fb) == Filter(ws, fb) + (if Admits(fb, x) then [x] else [])
  {
    assert (ws + [x])[..|ws|] == ws;
  }

  /** Pruning never adds a word: what was within `vs` stays within it. */
  lemma FilterWithin(ws: seq<Word>, vs: seq<Word>, fb: Feedback)
    ensures (forall w | w in ws :: w in vs) ==> forall w | w in Filter(ws, fb) :: w in vs
  {
  }

  /** Filtering distributes over concatenation, so it keeps the candidates' order. */
  lemma {:induction false} FilterAppend(a: seq<Word>, b: seq<Word>, fb: Feedback)
    ensures Filter(a + b, fb) == Filter(a, fb) + Filter(b, fb)
  {
    if |b| == 0 {
      assert a + b == a;
    } else {
      var init, last := b[..|b| - 1], b[|b| - 1];
      FilterAppend(a, init, fb);
      var tail := if Admits(fb, last) then [last] else [];
      assert (a + b)[..|a + b| - 1] == a + init;
      assert (a + b)[|a + b| - 1] == last;
      assert Filter(a + b, fb) == Filter(a + init, fb) + tail;
      assert Filter(b, fb) == Filter(init, fb) + tail;
    }
  }

  /** Pruning twice with the same row changes nothing the second time. */
  lemma {:induction false} FilterIdempotent(ws: seq<Word>, fb: Feedback)
    ensures Filter(Filter(ws, fb), fb) == Filter(ws, fb)
  {
    if |ws| > 0 {
      var init, last := ws[..|ws| - 1], ws[|ws| - 1];
      FilterIdempotent(init, fb);
      var tail := if Admits(fb, last) then [last] else [];
      FilterAppend(Filter(init, fb), tail, fb);
      if Admits(fb, last) {
        assert tail[..0] == [];
      }
    }
  }

  /** Rows may be applied in either order. */
  lemma {:induction false} FilterCommutes(ws: seq<Word>, a: Feedback, b: Feedback)
    ensures Filter(Filter(ws, a), b) == Filter(Filter(ws, b), a)
  {
    if |ws| > 0 {
      var init, last := ws[..|ws| - 1], ws[|ws| - 1];
      FilterCommutes(init, a, b);
      var ta := if Admits(a, last) then [last] else [];
      var tb := if Admits(b, last) then [last] else [];
      FilterAppend(Filter(init, a), ta, b);
      FilterAppend(Filter(init, b), tb, a);
      if Admits(a, last) { assert ta[..0] == []; }
      if Admits(b, last) { assert tb[..0] == []; }
    }
  }

  /** The solution always satisfies the row it produces for any guess. */
  lemma AdmitsSolution(guess: Word, solution: Word)
    ensures Admits(FeedbackOf(guess, solution), solution)
  {
    var fb := FeedbackOf(guess, solution);
    forall i | 0 <= i < 5 ensures fb.items[i].letter == guess[i] && (fb.items[i].Correct? <==> guess[i] == solution[i]) {
      FeedbackPositions(guess, solution, i);
    }
    forall c ensures Required(fb.items, c) <= CountChar(solution, c) {
      Conservation(guess, solution, c);
    }
    forall i, j | 0 <= i < 5 && 0 <= j < 5 &&
        fb.items[i].Wrong? && Required(fb.items, fb.items[i].letter) == 0 && !fb.items[j].Correct?
      ensures solution[j] != fb.items[i].letter
    {
      var c := guess[i];
      Conservation(guess, solution, c);
      assert c in guess;
      assert CountChar(solution, c) == 0;
    }
  }

  /** Pruning with the row a guess earns against the solution never drops the solution. */
  lemma PruneKeepsSolution(ws: seq<Word>, guess: Word, solution: Word)
    requires solution in ws
    ensures solution in Filter(ws, FeedbackOf(guess, solution))
  {
    AdmitsSolution(guess, solution);
  }

  /** A wrong guess is itself dropped by the row it earns. */
  lemma PruneDropsWrongGuess(ws: seq<Word>, guess: Word, solution: Word)
    requires guess != solution
    ensures guess !in Filter(ws, FeedbackOf(guess, solution))
  {
    SolvedIffEqual(guess, solution);
    var fb := FeedbackOf(guess, solution);
    var i :| 0 <= i < 5 && !fb.items[i].Correct?;
    FeedbackPositions(guess, solution, i);
  }

  /** The all-Correct row of the solution leaves only the solution. */
  lemma SolvedRowLeavesSolution(ws: seq<Word>, solution: Word)
    ensures forall x :: x in Filter(ws, FeedbackOf(solution, solution)) <==> x in ws && x == solution
  {
    SolvedIffEqual(solution, solution);
    AdmitsSolution(solution, solution);
    var fb := FeedbackOf(solution, solution);
    forall x | Admits(fb, x) ensures x == solution {
      forall i | 0 <= i < 5 ensures x[i] == solution[i] {
        FeedbackPositions(solution, solution, i);
      }
    }
  }

  /** A Wrong letter credited nowhere in the row is absent from every admitted word. */
  lemma UncreditedWrongLetterAbsent(fb: Feedback, x: Word, i: nat)
    requires i < 5 && Admits(fb, x)
    requires fb.items[i].Wrong? && Required(fb.items, fb.items[i].letter) == 0
    ensures fb.items[i].letter !in x
  {
    var c := fb.items[i].letter;
    RequiredZero(fb.items, c);
    forall j | 0 <= j < 5 ensures x[j] != c {
      if fb.items[j].Correct? {
        assert Credited(fb.items[j], fb.items[j].letter);
      }
    }
  }

  /** The body of `prune`: build the constraints of the row once, then run the closure over each candidate. */
  method PruneCandidates(candidates: seq<Word>, fb: Feedback) returns (kept: seq<Word>)
    ensures kept == Filter(candidates, fb)
  {
    var k := Collect(fb);
    DescribedWellFormed(fb, k);
    kept := [];
    for n := 0 to |candidates|
      invariant kept == Filter(candidates[..n], fb)
    {
      var x := candidates[n];
      var keep := Keep(k, x);
      ConstraintsAgree(fb, k, x);
      assert candidates[..n + 1] == candidates[..n] + [x];
      FilterSnoc(candidates[..n], x, fb);
      if keep {
        kept := kept + [x];
      }
    }
    assert candidates[..|candidates|] == candidates;
  }

  // ---------------------------------------------------------------------
  // The advisor.
  // ---------------------------------------------------------------------

  class Brain {
    /** The candidate answers still possible. */
    var options: seq<Word>
    /** Every allowed guess. */
    var valid: seq<Word>

    /** Candidates are allowed guesses; `new` makes the two lists equal and `prune` only shrinks `options`. */
    ghost predicate Valid()
      reads this
    {
      forall w | w in options :: w in valid
    }

    /** `Brain::new`: both lists start as the whole data set. */
    constructor (dataSet: seq<Word>)
      ensures options == dataSet && valid == dataSet
      ensures Valid()
    {
      options := dataSet;
      valid := dataSet;
    }

    /** `done`: exactly one candidate is left. */
    function Done(): (d: bool)
      reads this
      ensures d <==> exists w :: options == [w]
    {
      if |options| == 1 then assert options == [options[0]]; true else false
    }

    /**
     * `suggest`: no candidate is an error; a single candidate, and any
     * candidate in the last round, is returned; otherwise the opener when it
     * is still possible; otherwise the solver's pick over the allowed guesses.
     */
    method Suggest(lastRound: bool, weigh: Weigh) returns (r: Suggestion)
      requires Valid()
      ensures r.Err? <==> |options| == 0
      ensures r.Err? ==> r.message == "No possible anwers?"
      ensures |options| == 1 ==> r == Ok(options[0])
      ensures |options| > 1 && lastRound ==> r.Ok? && r.word in options
      ensures |options| > 1 && !lastRound && OPENER in options ==> r == Ok(OPENER)
      ensures |options| > 1 && !lastRound && OPENER !in options ==> |valid| > 0 && r == Ok(Best(options, valid, weigh))
      ensures r.Ok? ==> r.word in valid
    {
      if |options| == 0 {
        return Err("No possible anwers?");
      }
      if |options| == 1 {
        return Ok(options[0]);
      }
      if lastRound {
        assert options[0] in options;
        var w :| w in options;
        return Ok(w);
      }
      if OPENER in options {
        return Ok(OPENER);
      }
      assert options[0] in valid;
      BestIsLastMax(options, valid, weigh);
      var w := SuggestWord(options, valid, weigh);
      return Ok(w);
    }

    /** `prune`: replace the candidates by those the row admits, in order. */
    method Prune(fb: Feedback)
      modifies this
      ensures options == Filter(old(options), fb)
      ensures valid == old(valid)
      ensures old(Valid()) ==> Valid()
    {
      FilterWithin(options, valid, fb);
      options := PruneCandidates(options, fb);
    }
  }
}
