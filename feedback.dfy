/**
 * Scoring of one guess against one solution (`Feedback::from_guess`), the
 * category-only grouping key (`mask`) and the solved test (`is_correct`).
 */
module WordleFeedback {
  import opened Words

  /** The mark of one position; each carries the GUESSED letter. */
  datatype FeedbackType = Correct(letter: char) | WrongPosition(letter: char) | Wrong(letter: char)

  /** A mark with its letter dropped. */
  datatype FB = C | WP | W

  type Row = r: seq<FeedbackType> | |r| == 5
    witness [Wrong('a'), Wrong('a'), Wrong('a'), Wrong('a'), Wrong('a')]

  /** One feedback row; the datatype constructor plays the part of `Feedback::new`. */
  datatype Feedback = Feedback(items: Row)

  /** The grouping key `[FB; 5]`. */
  type Mask = m: seq<FB> | |m| == 5 witness [W, W, W, W, W]

  /** `From<FeedbackType> for FB`: a mark's category, without its letter. */
  function Category(t: FeedbackType): FB
  {
    match t
    case Correct(_) => C
    case WrongPosition(_) => WP
    case Wrong(_) => W
  }

  /** Two marks have the same category. */
  predicate SameCategory(a: FeedbackType, b: FeedbackType)
  {
    a.Correct? == b.Correct? && a.WrongPosition? == b.WrongPosition? && a.Wrong? == b.Wrong?
  }

  /** `Feedback::mask`: the row's categories, in position order. */
  function MaskOf(fb: Feedback): (m: Mask)
    ensures forall i | 0 <= i < 5 :: m[i] == Category(fb.items[i])
  {
    [Category(fb.items[0]), Category(fb.items[1]), Category(fb.items[2]),
     Category(fb.items[3]), Category(fb.items[4])]
  }

  /** `Feedback::is_correct`: every mark is Correct, so the mask is all C. */
  predicate IsCorrect(fb: Feedback): (b: bool)
    ensures b <==> MaskOf(fb) == [C, C, C, C, C]
  {
    forall i | 0 <= i < 5 :: fb.items[i].Correct?
  }

  /** Marks Correct or WrongPosition, the "credited" marks, for letter `c`. */
  predicate Credited(t: FeedbackType, c: char)
  {
    t == Correct(c) || t == WrongPosition(c)
  }

  /** Number of credited marks for `c` in a row prefix: the `counts` map of `prune`. */
  function Required(items: seq<FeedbackType>, c: char): (n: nat)
    ensures n <= |items|
  {
    if |items| == 0 then 0
    else Required(items[..|items| - 1], c) + (if Credited(items[|items| - 1], c) then 1 else 0)
  }

  /** No credited mark for `c` exactly when the count is zero. */
  lemma {:induction false} RequiredZero(items: seq<FeedbackType>, c: char)
    ensures Required(items, c) == 0 <==> forall i | 0 <= i < |items| :: !Credited(items[i], c)
  {
    if |items| > 0 {
      var init := items[..|items| - 1];
      RequiredZero(init, c);
      assert forall i | 0 <= i < |init| :: init[i] == items[i];
    }
  }

  // ---------------------------------------------------------------------
  // Specification of the single left-to-right pass of `from_guess`.
  // ---------------------------------------------------------------------

  /**
   * Solution position `j` may be credited to guess position `i`: it has not
   * been credited yet, it is not itself an exact match, and it holds the
   * letter guessed at `i`.
   */
  predicate Creditable(guess: Word, solution: Word, used: seq<bool>, i: nat, j: nat)
    requires |used| == 5 && i < 5 && j < 5
  {
    !used[j] && guess[j] != solution[j] && guess[i] == solution[j]
  }

  /** The first creditable solution position at or after `from`, or 5 if there is none. */
  function FirstCredit(guess: Word, solution: Word, used: seq<bool>, i: nat, from: nat): (j: nat)
    requires |used| == 5 && i < 5 && from <= 5
    ensures from <= j <= 5
    ensures j < 5 ==> Creditable(guess, solution, used, i, j)
    ensures forall k | from <= k < j :: !Creditable(guess, solution, used, i, k)
    decreases 5 - from
  {
    if from == 5 then 5
    else if Creditable(guess, solution, used, i, from) then from
    else FirstCredit(guess, solution, used, i, from + 1)
  }

  /** The `used_for_wrong_pos` array after guess positions 0 .. n-1 are scored. */
  function UsedAfter(guess: Word, solution: Word, n: nat): (used: seq<bool>)
    requires n <= 5
    ensures |used| == 5
  {
    if n == 0 then [false, false, false, false, false]
    else
      var used := UsedAfter(guess, solution, n - 1);
      var j := FirstCredit(guess, solution, used, n - 1, 0);
      if solution[n - 1] == guess[n - 1] || j == 5 then used else used[j := true]
  }

  /** The mark the pass gives position `i`. */
  function Mark(guess: Word, solution: Word, i: nat): FeedbackType
    requires i < 5
  {
    if solution[i] == guess[i] then Correct(guess[i])
    else if FirstCredit(guess, solution, UsedAfter(guess, solution, i), i, 0) < 5 then WrongPosition(guess[i])
    else Wrong(guess[i])
  }

  /** The solution position credited to guess position `i`, or -1 when none is. */
  function Credit(guess: Word, solution: Word, i: nat): int
    requires i < 5
  {
    if solution[i] == guess[i] then -1
    else
      var j := FirstCredit(guess, solution, UsedAfter(guess, solution, i), i, 0);
      if j < 5 then j else -1
  }

  /** The feedback `from_guess(guess, solution)` returns. */
  function FeedbackOf(guess: Word, solution: Word): Feedback
  {
    Feedback([Mark(guess, solution, 0), Mark(guess, solution, 1), Mark(guess, solution, 2),
              Mark(guess, solution, 3), Mark(guess, solution, 4)])
  }

  /**
   * `Feedback::from_guess`: one pass over the guess with a mutable answer and
   * a used-position array (fixed-size value arrays, so local sequences here);
   * a misplaced letter takes the first creditable solution position.
   */
  method FromGuess(guess: Word, solution: Word) returns (fb: Feedback)
    ensures fb == FeedbackOf(guess, solution)
  {
    var answer: seq<FeedbackType> := [Wrong('a'), Wrong('a'), Wrong('a'), Wrong('a'), Wrong('a')];
    var used: seq<bool> := [false, false, false, false, false];
    label Outer:
    for i := 0 to 5
      invariant |answer| == 5
      invariant used == UsedAfter(guess, solution, i)
      invariant forall k | 0 <= k < i :: answer[k] == Mark(guess, solution, k)
    {
      if solution[i] == guess[i] {
        answer := answer[i := Correct(guess[i])];
      } else {
        for ii := 0 to 5
          invariant FirstCredit(guess, solution, used, i, ii) == FirstCredit(guess, solution, used, i, 0)
        {
          if !used[ii] && guess[ii] != solution[ii] && guess[i] == solution[ii] {
            answer := answer[i := WrongPosition(guess[i])];
            used := used[ii := true];
            continue Outer;
          }
        }
        answer := answer[i := Wrong(guess[i])];
      }
    }
    fb := Feedback(answer);
  }
}
