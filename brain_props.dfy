/** The pruning scenarios of the advisor's unit tests: each leaves exactly one candidate. */
module BrainScenarios {
  import opened Words
  import opened WordleFeedback
  import opened WordleBrain

  function Credit1(t: FeedbackType, c: char): nat
  {
    if Credited(t, c) then 1 else 0
  }

  /** The credited count of a row, written out position by position. */
  lemma RequiredOfRow(items: Row, c: char)
    ensures Required(items, c)
         == Credit1(items[0], c) + Credit1(items[1], c) + Credit1(items[2], c)
          + Credit1(items[3], c) + Credit1(items[4], c)
  {
    var none: seq<FeedbackType> := [];
    assert Required(items[..1], c) == Credit1(items[0], c) by {
      assert items[..1][..0] == none;
    }
    assert Required(items[..2], c) == Required(items[..1], c) + Credit1(items[1], c) by {
      assert items[..2][..1] == items[..1];
    }
    assert Required(items[..3], c) == Required(items[..2], c) + Credit1(items[2], c) by {
      assert items[..3][..2] == items[..2];
    }
    assert Required(items[..4], c) == Required(items[..3], c) + Credit1(items[3], c) by {
      assert items[..4][..3] == items[..3];
    }
    assert items[..5] == items;
  }

  function Hit(x: char, c: char): nat
  {
    if x == c then 1 else 0
  }

  /** The count of a letter in a word, written out position by position. */
  lemma CountOfWord(w: Word, c: char)
    ensures CountChar(w, c) == Hit(w[0], c) + Hit(w[1], c) + Hit(w[2], c) + Hit(w[3], c) + Hit(w[4], c)
  {
    var none: seq<char> := [];
    assert CountChar(w[..1], c) == Hit(w[0], c) by {
      assert w[..1][..0] == none;
    }
    assert CountChar(w[..2], c) == CountChar(w[..1], c) + Hit(w[1], c) by {
      assert w[..2][..1] == w[..1];
    }
    assert CountChar(w[..3], c) == CountChar(w[..2], c) + Hit(w[2], c) by {
      assert w[..3][..2] == w[..2];
    }
    assert CountChar(w[..4], c) == CountChar(w[..3], c) + Hit(w[3], c) by {
      assert w[..4][..3] == w[..3];
    }
    assert w[..5] == w;
  }

  /** A letter that is not Correct at `i` rejects every word holding it at `i`. */
  lemma MisplacedRejects(fb: Feedback, x: Word, i: nat)
    requires i < 5 && !fb.items[i].Correct? && x[i] == fb.items[i].letter
    ensures !Admits(fb, x)
  {
  }

  /** A Correct letter at `i` rejects every word holding another letter at `i`. */
  lemma MovedRejects(fb: Feedback, x: Word, i: nat)
    requires i < 5 && fb.items[i].Correct? && x[i] != fb.items[i].letter
    ensures !Admits(fb, x)
  {
  }

  /** Filtering a list of two words. */
  lemma FilterPair(ws: seq<Word>, a: Word, b: Word, fb: Feedback)
    requires ws == [a, b]
    ensures Filter(ws, fb) == (if Admits(fb, a) then [a] else []) + (if Admits(fb, b) then [b] else [])
  {
    FilterSnoc([], a, fb);
    FilterSnoc([a], b, fb);
    assert [a] + [b] == ws;
  }

  /** test_remove_non_correct: the Correct 'a' in front drops "baaab". */
  lemma RemoveNonCorrect(ws: seq<Word>, fb: Feedback, a: Word, b: Word)
    requires a == "aaaab" && b == "baaab" && ws == [a, b]
    requires fb.items == [Correct('a'), Wrong('x'), Wrong('x'), Wrong('x'), Wrong('x')]
    ensures Filter(ws, fb) == [a]
  {
    assert Admits(fb, a) by {
      forall c ensures Required(fb.items, c) <= CountChar(a, c) {
        RequiredOfRow(fb.items, c);
        CountOfWord(a, c);
      }
    }
    MovedRejects(fb, b, 0);
    FilterPair(ws, a, b, fb);
  }

  /** test_remove_non_excluded: the Wrong 'x' at position 2 drops "aaxab". */
  lemma RemoveNonExcluded(ws: seq<Word>, fb: Feedback, a: Word, b: Word)
    requires a == "aaxab" && b == "aaaab" && ws == [a, b]
    requires fb.items == [Correct('a'), Wrong('x'), Wrong('x'), Wrong('x'), Wrong('x')]
    ensures Filter(ws, fb) == [b]
  {
    MisplacedRejects(fb, a, 2);
    assert Admits(fb, b) by {
      forall c ensures Required(fb.items, c) <= CountChar(b, c) {
        RequiredOfRow(fb.items, c);
        CountOfWord(b, c);
      }
    }
    FilterPair(ws, a, b, fb);
  }

  /** test_remove_exclude: the WrongPosition 'a' at position 1 drops "aaxab"; "abbab" keeps its two a's. */
  lemma RemoveExclude(ws: seq<Word>, fb: Feedback, a: Word, b: Word)
    requires a == "aaxab" && b == "abbab" && ws == [a, b]
    requires fb.items == [Correct('a'), WrongPosition('a'), Wrong('x'), Wrong('x'), Wrong('x')]
    ensures Filter(ws, fb) == [b]
  {
    MisplacedRejects(fb, a, 1);
    assert Admits(fb, b) by {
      forall c ensures Required(fb.items, c) <= CountChar(b, c) {
        RequiredOfRow(fb.items, c);
        CountOfWord(b, c);
      }
    }
    FilterPair(ws, a, b, fb);
  }

  /** "bnnan" has its one 'a' away from positions 1 and 2. */
  lemma ConflictSurvivor(fb: Feedback, b: Word)
    requires b == "bnnan"
    requires fb.items == [Correct('b'), WrongPosition('a'), Wrong('a'), Wrong('x'), Wrong('x')]
    ensures Admits(fb, b)
  {
    RequiredOfRow(fb.items, 'a');
    RequiredOfRow(fb.items, 'x');
    forall ch ensures Required(fb.items, ch) <= CountChar(b, ch) {
      RequiredOfRow(fb.items, ch);
      CountOfWord(b, ch);
    }
  }

  /**
   * test_wrong_posistion_conflict: 'a' is WrongPosition at 1 and Wrong at 2,
   * so it is credited once; it must appear, but neither at 1 nor at 2.
   */
  lemma WrongPositionConflict(ws: seq<Word>, fb: Feedback, a: Word, b: Word, c: Word, d: Word)
    requires a == "bannn" && b == "bnnan" && c == "bnann" && d == "bnanx" && ws == [a, b, c, d]
    requires fb.items == [Correct('b'), WrongPosition('a'), Wrong('a'), Wrong('x'), Wrong('x')]
    ensures Filter(ws, fb) == [b]
  {
    MisplacedRejects(fb, a, 1);
    ConflictSurvivor(fb, b);
    MisplacedRejects(fb, c, 2);
    MisplacedRejects(fb, d, 2);
    FilterPair([a, b], a, b, fb);
    FilterPair([c, d], c, d, fb);
    assert ws == [a, b] + [c, d];
    FilterAppend([a, b], [c, d], fb);
  }
}
