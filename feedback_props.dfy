/**
 * What the single pass of `from_guess` computes, stated independently of the
 * pass: a count-based reference scoring, the duplicate-letter conservation
 * law, the credit relation behind each WrongPosition mark, and the unit
 * vectors of the source.
 */
module FeedbackProperties {
  import opened Words
  import opened WordleFeedback

  function Min(a: nat, b: nat): nat { if a <= b then a else b }

  /** Guess positions below `n` holding `c` that are not exact matches. */
  function Unmatched(guess: Word, solution: Word, c: char, n: nat): nat
    requires n <= 5
  {
    if n == 0 then 0
    else Unmatched(guess, solution, c, n - 1) + (if guess[n - 1] == c && guess[n - 1] != solution[n - 1] then 1 else 0)
  }

  /** Solution positions below `n` holding `c` that are not exact matches. */
  function Spare(guess: Word, solution: Word, c: char, n: nat): nat
    requires n <= 5
  {
    if n == 0 then 0
    else Spare(guess, solution, c, n - 1) + (if solution[n - 1] == c && guess[n - 1] != solution[n - 1] then 1 else 0)
  }

  /** Positions below `n` where both words hold `c`. */
  function Exact(guess: Word, solution: Word, c: char, n: nat): nat
    requires n <= 5
  {
    if n == 0 then 0
    else Exact(guess, solution, c, n - 1) + (if guess[n - 1] == c && guess[n - 1] == solution[n - 1] then 1 else 0)
  }

  /** Positions below `n` already used for a WrongPosition credit and holding `c` in the solution. */
  function UsedFor(used: seq<bool>, solution: Word, c: char, n: nat): nat
    requires |used| == 5 && n <= 5
  {
    if n == 0 then 0
    else UsedFor(used, solution, c, n - 1) + (if used[n - 1] && solution[n - 1] == c then 1 else 0)
  }

  /**
   * Reference scoring, "Correct first, then misplaced": a position that is
   * not an exact match is WrongPosition exactly when fewer earlier unmatched
   * guess occurrences of its letter exist than unmatched solution occurrences.
   */
  function ReferenceMark(guess: Word, solution: Word, i: nat): FeedbackType
    requires i < 5
  {
    if guess[i] == solution[i] then Correct(guess[i])
    else if Unmatched(guess, solution, guess[i], i) < Spare(guess, solution, guess[i], 5) then WrongPosition(guess[i])
    else Wrong(guess[i])
  }

  // ---------------------------------------------------------------------
  // Invariants of the used-position array.
  // ---------------------------------------------------------------------

  lemma {:induction false} UsedOnlyUnmatched(guess: Word, solution: Word, n: nat)
    requires n <= 5
    ensures forall j | 0 <= j < 5 :: UsedAfter(guess, solution, n)[j] ==> guess[j] != solution[j]
  {
    if n > 0 {
      UsedOnlyUnmatched(guess, solution, n - 1);
    }
  }

  lemma {:induction false} UsedForSet(used: seq<bool>, solution: Word, c: char, j: nat, n: nat)
    requires |used| == 5 && j < 5 && n <= 5 && !used[j]
    ensures UsedFor(used[j := true], solution, c, n)
         == UsedFor(used, solution, c, n) + (if j < n && solution[j] == c then 1 else 0)
  {
    if n > 0 {
      UsedForSet(used, solution, c, j, n - 1);
    }
  }

  /** Used positions for `c` are among the spare ones; equal when all spare are used; fewer when one is free. */
  lemma {:induction false} UsedForVsSpare(guess: Word, solution: Word, used: seq<bool>, c: char, n: nat)
    requires |used| == 5 && n <= 5
    requires forall j | 0 <= j < 5 :: used[j] ==> guess[j] != solution[j]
    ensures UsedFor(used, solution, c, n) <= Spare(guess, solution, c, n)
    ensures (forall j | 0 <= j < n :: solution[j] == c && guess[j] != solution[j] ==> used[j])
            ==> UsedFor(used, solution, c, n) == Spare(guess, solution, c, n)
    ensures (exists j | 0 <= j < n :: solution[j] == c && guess[j] != solution[j] && !used[j])
            ==> UsedFor(used, solution, c, n) < Spare(guess, solution, c, n)
  {
    if n > 0 {
      UsedForVsSpare(guess, solution, used, c, n - 1);
    }
  }

  lemma {:induction false} UsedForNone(used: seq<bool>, solution: Word, c: char, n: nat)
    requires |used| == 5 && n <= 5
    requires forall j | 0 <= j < 5 :: !used[j]
    ensures UsedFor(used, solution, c, n) == 0
  {
    if n > 0 {
      UsedForNone(used, solution, c, n - 1);
    }
  }

  /** After n positions, the credits taken for `c` are min(unmatched guesses of c so far, spare solution c's). */
  lemma {:induction false} UsedCount(guess: Word, solution: Word, c: char, n: nat)
    requires n <= 5
    ensures UsedFor(UsedAfter(guess, solution, n), solution, c, 5)
         == Min(Unmatched(guess, solution, c, n), Spare(guess, solution, c, 5))
    decreases n
  {
    if n > 0 {
      var i := n - 1;
      var used := UsedAfter(guess, solution, i);
      UsedCount(guess, solution, c, i);
      UsedOnlyUnmatched(guess, solution, i);
      if solution[i] != guess[i] {
        var j := FirstCredit(guess, solution, used, i, 0);
        UsedCount(guess, solution, guess[i], i);
        UsedForVsSpare(guess, solution, used, guess[i], 5);
        if j < 5 {
          UsedForSet(used, solution, c, j, 5);
          assert UsedFor(used, solution, guess[i], 5) < Spare(guess, solution, guess[i], 5);
          assert UsedAfter(guess, solution, n) == used[j := true];
          assert solution[j] == guess[i];
          if c == guess[i] {
            assert Unmatched(guess, solution, c, n) == Unmatched(guess, solution, c, i) + 1;
            assert UsedFor(UsedAfter(guess, solution, n), solution, c, 5) == UsedFor(used, solution, c, 5) + 1;
          } else {
            assert Unmatched(guess, solution, c, n) == Unmatched(guess, solution, c, i);
            assert UsedFor(UsedAfter(guess, solution, n), solution, c, 5) == UsedFor(used, solution, c, 5);
          }
        } else {
          assert forall k | 0 <= k < 5 :: !Creditable(guess, solution, used, i, k);
          assert forall k | 0 <= k < 5 :: solution[k] == guess[i] && guess[k] != solution[k] ==> used[k];
          assert UsedFor(used, solution, guess[i], 5) == Spare(guess, solution, guess[i], 5);
          assert UsedAfter(guess, solution, n) == used;
          assert Unmatched(guess, solution, guess[i], i) >= Spare(guess, solution, guess[i], 5);
          assert c == guess[i] ==> Unmatched(guess, solution, c, n) == Unmatched(guess, solution, c, i) + 1;
          assert c != guess[i] ==> Unmatched(guess, solution, c, n) == Unmatched(guess, solution, c, i);
          assert UsedFor(UsedAfter(guess, solution, n), solution, c, 5) == Min(Unmatched(guess, solution, c, n), Spare(guess, solution, c, 5));
        }
      } else {
        assert UsedAfter(guess, solution, n) == used;
        assert Unmatched(guess, solution, c, n) == Unmatched(guess, solution, c, i);
        assert UsedFor(UsedAfter(guess, solution, n), solution, c, 5) == Min(Unmatched(guess, solution, c, n), Spare(guess, solution, c, 5));
      }
    } else {
      UsedForNone(UsedAfter(guess, solution, 0), solution, c, 5);
    }
  }

  /** The pass and the reference scoring agree at every position. */
  lemma MarkMatchesReference(guess: Word, solution: Word, i: nat)
    requires i < 5
    ensures Mark(guess, solution, i) == ReferenceMark(guess, solution, i)
  {
    if guess[i] != solution[i] {
      var used := UsedAfter(guess, solution, i);
      UsedCount(guess, solution, guess[i], i);
      UsedOnlyUnmatched(guess, solution, i);
      UsedForVsSpare(guess, solution, used, guess[i], 5);
      var j := FirstCredit(guess, solution, used, i, 0);
      if j == 5 {
        assert forall k | 0 <= k < 5 :: !Creditable(guess, solution, used, i, k);
      }
    }
  }

  /** `from_guess` equals the two-phase reference scoring. */
  lemma FeedbackOfMatchesReference(guess: Word, solution: Word)
    ensures forall i | 0 <= i < 5 :: FeedbackOf(guess, solution).items[i] == ReferenceMark(guess, solution, i)
  {
    forall i | 0 <= i < 5
      ensures FeedbackOf(guess, solution).items[i] == ReferenceMark(guess, solution, i)
    {
      MarkMatchesReference(guess, solution, i);
    }
  }

  /** Each mark carries the guessed letter, and it is Correct exactly at exact matches. */
  lemma FeedbackPositions(guess: Word, solution: Word, i: nat)
    requires i < 5
    ensures FeedbackOf(guess, solution).items[i].letter == guess[i]
    ensures FeedbackOf(guess, solution).items[i].Correct? <==> guess[i] == solution[i]
  {
  }

  // ---------------------------------------------------------------------
  // Duplicate-letter conservation.
  // ---------------------------------------------------------------------

  lemma {:induction false} RequiredPrefix(guess: Word, solution: Word, c: char, n: nat)
    requires n <= 5
    ensures Required(FeedbackOf(guess, solution).items[..n], c)
         == Exact(guess, solution, c, n) + Min(Unmatched(guess, solution, c, n), Spare(guess, solution, c, 5))
  {
    if n > 0 {
      var items := FeedbackOf(guess, solution).items;
      var t := Mark(guess, solution, n - 1);
      RequiredPrefix(guess, solution, c, n - 1);
      MarkMatchesReference(guess, solution, n - 1);
      assert items[n - 1] == t;
      assert items[..n][..n - 1] == items[..n - 1];
      assert Required(items[..n], c) == Required(items[..n - 1], c) + (if Credited(t, c) then 1 else 0);
    }
  }

  lemma {:induction false} CountSplit(guess: Word, solution: Word, c: char, n: nat)
    requires n <= 5
    ensures CountChar(solution[..n], c) == Exact(guess, solution, c, n) + Spare(guess, solution, c, n)
    ensures CountChar(guess[..n], c) == Exact(guess, solution, c, n) + Unmatched(guess, solution, c, n)
  {
    if n > 0 {
      CountSplit(guess, solution, c, n - 1);
      assert solution[..n][..n - 1] == solution[..n - 1];
      assert guess[..n][..n - 1] == guess[..n - 1];
    }
  }

  /**
   * Duplicate conservation: the Correct and WrongPosition marks for a letter
   * number exactly the smaller of its counts in guess and solution, so never
   * more than either.
   */
  lemma Conservation(guess: Word, solution: Word, c: char)
    ensures Required(FeedbackOf(guess, solution).items, c) == Min(CountChar(guess, c), CountChar(solution, c))
    ensures Required(FeedbackOf(guess, solution).items, c) <= CountChar(solution, c)
    ensures Required(FeedbackOf(guess, solution).items, c) <= CountChar(guess, c)
  {
    var items := FeedbackOf(guess, solution).items;
    RequiredPrefix(guess, solution, c, 5);
    CountSplit(guess, solution, c, 5);
    assert items[..5] == items;
    assert guess[..5] == guess;
    assert solution[..5] == solution;
  }

  // ---------------------------------------------------------------------
  // Credits: each WrongPosition consumes its own solution position.
  // ---------------------------------------------------------------------

  lemma {:induction false} UsedPersists(guess: Word, solution: Word, j: nat, a: nat, b: nat)
    requires j < 5 && a <= b <= 5
    requires UsedAfter(guess, solution, a)[j]
    ensures UsedAfter(guess, solution, b)[j]
  {
    if a < b {
      UsedPersists(guess, solution, j, a, b - 1);
    }
  }

  /**
   * A position is WrongPosition exactly when it is credited, and its credit is
   * a different solution position holding the guessed letter that is not
   * itself an exact match.
   */
  lemma CreditOf(guess: Word, solution: Word, i: nat)
    requires i < 5
    ensures FeedbackOf(guess, solution).items[i].WrongPosition? <==> 0 <= Credit(guess, solution, i)
    ensures FeedbackOf(guess, solution).items[i].WrongPosition? ==>
      var j := Credit(guess, solution, i);
      j < 5 && j != i && solution[j] == guess[i] && guess[j] != solution[j]
  {
    assert FeedbackOf(guess, solution).items[i] == Mark(guess, solution, i);
  }

  /** No solution position is credited to two WrongPosition marks. */
  lemma CreditsDistinct(guess: Word, solution: Word, i: nat, i': nat)
    requires i < 5 && i' < 5 && i != i'
    requires FeedbackOf(guess, solution).items[i].WrongPosition?
    requires FeedbackOf(guess, solution).items[i'].WrongPosition?
    ensures Credit(guess, solution, i) != Credit(guess, solution, i')
  {
    assert Mark(guess, solution, i).WrongPosition? && Mark(guess, solution, i').WrongPosition? by {
      assert FeedbackOf(guess, solution).items[i] == Mark(guess, solution, i);
      assert FeedbackOf(guess, solution).items[i'] == Mark(guess, solution, i');
    }
    var lo, hi := if i < i' then i else i', if i < i' then i' else i;
    UsedPersists(guess, solution, Credit(guess, solution, lo), lo + 1, hi);
  }

  // ---------------------------------------------------------------------
  // Mask and is_correct.
  // ---------------------------------------------------------------------

  /** Masks are equal exactly when the two rows agree on every category; letters do not matter. */
  lemma MaskIgnoresLetters(a: Feedback, b: Feedback)
    ensures MaskOf(a) == MaskOf(b) <==> forall i | 0 <= i < 5 :: SameCategory(a.items[i], b.items[i])
  {
    if forall i | 0 <= i < 5 :: SameCategory(a.items[i], b.items[i]) {
      assert forall i | 0 <= i < 5 :: MaskOf(a)[i] == MaskOf(b)[i];
    }
  }

  /** A scored row is all Correct exactly when the guess is the solution. */
  lemma SolvedIffEqual(guess: Word, solution: Word)
    ensures IsCorrect(FeedbackOf(guess, solution)) <==> guess == solution
  {
    if IsCorrect(FeedbackOf(guess, solution)) {
      forall i | 0 <= i < 5 ensures guess[i] == solution[i] {
        assert FeedbackOf(guess, solution).items[i].Correct?;
      }
    }
  }

  // ---------------------------------------------------------------------
  // The unit vectors of the source.
  // ---------------------------------------------------------------------

  lemma VectorModem()
    ensures FeedbackOf("modem", "manas").items
         == [Correct('m'), Wrong('o'), Wrong('d'), Wrong('e'), Wrong('m')]
  {
  }

  lemma VectorQodem()
    ensures FeedbackOf("qodem", "manas").items
         == [Wrong('q'), Wrong('o'), Wrong('d'), Wrong('e'), WrongPosition('m')]
  {
  }

  /** Only the first unmatched occurrence of a duplicated letter is credited. */
  lemma VectorQodmm()
    ensures FeedbackOf("qodmm", "manas").items
         == [Wrong('q'), Wrong('o'), Wrong('d'), WrongPosition('m'), Wrong('m')]
  {
  }

  lemma VectorAxaxs()
    ensures FeedbackOf("axaxs", "manas").items
         == [WrongPosition('a'), Wrong('x'), WrongPosition('a'), Wrong('x'), Correct('s')]
  {
  }

  lemma VectorMaaxs()
    ensures FeedbackOf("maaxs", "manas").items
         == [Correct('m'), Correct('a'), WrongPosition('a'), Wrong('x'), Correct('s')]
  {
  }

  lemma VectorMansa()
    ensures FeedbackOf("mansa", "manas").items
         == [Correct('m'), Correct('a'), Correct('n'), WrongPosition('s'), WrongPosition('a')]
  {
  }
}
