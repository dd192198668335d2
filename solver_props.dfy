/** Worked rankings: the two sanity checks of the solver's unit tests. */
module SolverProperties {
  import opened Words
  import opened WordleFeedback
  import opened WordleSolver

  /** One pattern makes one group of one. */
  lemma EntropySingle<K>(p: K, n: nat, weigh: Weigh)
    ensures Tally([p]) == map[p := 1]
    ensures Entropy(Tally([p]), n, weigh) == weigh(1, n)
  {
    var none: map<K, nat> := map[];
    assert Tally([p]) == none[p := 1] by {
      assert [p][..0] == [];
    }
    EntropyEmpty(none, n, weigh);
    EntropyBump(none, p, n, weigh);
  }

  /** Adding pattern `m` to a tally of `ps` where `m` is new adds a group of one. */
  lemma EntropyNewGroup<K>(ps: seq<K>, m: K, n: nat, weigh: Weigh)
    requires m !in Tally(ps)
    ensures Tally(ps + [m]) == Tally(ps)[m := 1]
    ensures Entropy(Tally(ps + [m]), n, weigh) == Entropy(Tally(ps), n, weigh) + weigh(1, n)
  {
    assert (ps + [m])[..|ps|] == ps;
    EntropyBump(Tally(ps), m, n, weigh);
  }

  /** Two distinct patterns make two groups of one. */
  lemma EntropyTwoSingles<K>(p: K, q: K, n: nat, weigh: Weigh)
    requires p != q
    ensures Tally([p, q]) == map[p := 1, q := 1]
    ensures Entropy(Tally([p, q]), n, weigh) == weigh(1, n) + weigh(1, n)
  {
    EntropySingle(p, n, weigh);
    assert [p] + [q] == [p, q];
    EntropyNewGroup([p], q, n, weigh);
  }

  /** Three distinct patterns make three groups of one. */
  lemma EntropyThreeSingles<K>(p: K, q: K, r: K, n: nat, weigh: Weigh)
    requires p != q && p != r && q != r
    ensures Entropy(Tally([p, q, r]), n, weigh) == weigh(1, n) + weigh(1, n) + weigh(1, n)
  {
    EntropyTwoSingles(p, q, n, weigh);
    assert [p, q] + [r] == [p, q, r];
    EntropyNewGroup([p, q], r, n, weigh);
  }

  /** Patterns p, p, r with p != r make a group of two and a group of one. */
  lemma EntropyPairAndSingle<K>(p: K, r: K, n: nat, weigh: Weigh)
    requires p != r
    ensures Entropy(Tally([p, p, r]), n, weigh) == weigh(2, n) + weigh(1, n)
  {
    EntropySingle(p, n, weigh);
    var h := Tally([p]);
    assert Tally([p, p]) == h[p := 2] by {
      assert [p, p][..1] == [p];
    }
    EntropyBump(h, p, n, weigh);
    assert [p, p] + [r] == [p, p, r];
    EntropyNewGroup([p, p], r, n, weigh);
  }

  const AllA: Word := "aaaaa"
  const OneB: Word := "aabaa"
  const AllZ: Word := "zzzzz"

  /** Two entries already in order are left as they are. */
  lemma SortPair(s: seq<Entry>, a: Entry, b: Entry)
    requires s == [a, b] && a.1 <= b.1
    ensures StableSort(s) == [a, b]
  {
    assert [a, b][..1] == [a];
    assert [a][..0] == [];
  }

  /** A lower entry after two tied ones moves to the front. */
  lemma SortTriple(s: seq<Entry>, a: Entry, b: Entry, c: Entry)
    requires s == [a, b, c] && a.1 == b.1 && c.1 < a.1
    ensures StableSort(s) == [c, a, b]
  {
    assert s[..2] == [a, b];
    SortPair(s[..2], a, b);
    assert StableSort(s) == Insert([a, b], c);
    assert Insert([a], c) == [c, a] by {
      assert [a][..0] == [];
    }
    assert Insert([a, b], c) == Insert([a], c) + [b] by {
      assert [a, b][..1] == [a];
    }
  }

  /** Two words of equal score are ranked in input order. */
  lemma RankTied(options: seq<Word>, x: Word, y: Word, weigh: Weigh, v: real)
    requires WordScore(x, options, weigh) == v && WordScore(y, options, weigh) == v
    ensures StableSort(Scored(options, [x, y], weigh)) == [(x, v), (y, v)]
  {
    var s := Scored(options, [x, y], weigh);
    assert |s| == 2 && s[0] == (x, v) && s[1] == (y, v);
    assert s == [(x, v), (y, v)];
    SortPair(s, (x, v), (y, v));
  }

  /** Two tied words followed by a lower one: the lower one comes first, the tied keep their order. */
  lemma RankTiedThenLow(options: seq<Word>, valid: seq<Word>, x: Word, y: Word, z: Word, weigh: Weigh, hi: real, lo: real)
    requires valid == [x, y, z]
    requires WordScore(x, options, weigh) == hi && WordScore(y, options, weigh) == hi
    requires WordScore(z, options, weigh) == lo && lo < hi
    ensures StableSort(Scored(options, valid, weigh)) == [(z, lo), (x, hi), (y, hi)]
  {
    var s := Scored(options, valid, weigh);
    assert |s| == 3;
    assert s[0] == (x, hi) && s[1] == (y, hi) && s[2] == (z, lo);
    assert s == [(x, hi), (y, hi), (z, lo)];
    SortTriple(s, (x, hi), (y, hi), (z, lo));
  }

  lemma PatternsOne()
    ensures Patterns(AllA, [AllA, OneB]) == [[C, C, C, C, C], [C, C, W, C, C]]
    ensures Patterns(OneB, [AllA, OneB]) == [[C, C, W, C, C], [C, C, C, C, C]]
  {
  }

  lemma PatternsTwoAllA()
    ensures Patterns(AllA, [AllA, OneB, AllZ]) == [[C, C, C, C, C], [C, C, W, C, C], [W, W, W, W, W]]
  {
  }

  lemma PatternsTwoOneB()
    ensures Patterns(OneB, [AllA, OneB, AllZ]) == [[C, C, W, C, C], [C, C, C, C, C], [W, W, W, W, W]]
  {
  }

  lemma PatternsTwoAllZ()
    ensures Patterns(AllZ, [AllA, OneB, AllZ]) == [[W, W, W, W, W], [W, W, W, W, W], [C, C, C, C, C]]
  {
  }

  /** test_sanity_check_1, scores: each word splits the two candidates into two groups of one. */
  lemma ScoresOne(options: seq<Word>, weigh: Weigh)
    requires options == [AllA, OneB]
    ensures WordScore(AllA, options, weigh) == weigh(1, 2) + weigh(1, 2)
    ensures WordScore(OneB, options, weigh) == weigh(1, 2) + weigh(1, 2)
  {
    PatternsOne();
    EntropyTwoSingles<Mask>([C, C, C, C, C], [C, C, W, C, C], 2, weigh);
    EntropyTwoSingles<Mask>([C, C, W, C, C], [C, C, C, C, C], 2, weigh);
  }

  /**
   * test_sanity_check_1: both words score 2·weigh(1, 2), which is 1.0 with
   * the entropy term (weigh(1, 2) = 1/2), and the ranking keeps input order.
   */
  lemma SanityCheckOne(options: seq<Word>, weigh: Weigh)
    requires options == [AllA, OneB]
    ensures StableSort(Scored(options, options, weigh))
         == [(AllA, weigh(1, 2) + weigh(1, 2)), (OneB, weigh(1, 2) + weigh(1, 2))]
    ensures weigh(1, 2) == 0.5 ==>
      forall e | e in StableSort(Scored(options, options, weigh)) :: e.1 == 1.0
  {
    ScoresOne(options, weigh);
    RankTied(options, AllA, OneB, weigh, weigh(1, 2) + weigh(1, 2));
  }

  /** test_sanity_check_2, scores: "zzzzz" splits the three candidates 2 + 1, the a-words 1 + 1 + 1. */
  lemma ScoresTwo(options: seq<Word>, weigh: Weigh)
    requires options == [AllA, OneB, AllZ]
    ensures WordScore(AllZ, options, weigh) == weigh(2, 3) + weigh(1, 3)
    ensures WordScore(AllA, options, weigh) == weigh(1, 3) + weigh(1, 3) + weigh(1, 3)
    ensures WordScore(OneB, options, weigh) == weigh(1, 3) + weigh(1, 3) + weigh(1, 3)
  {
    PatternsTwoAllA();
    PatternsTwoOneB();
    PatternsTwoAllZ();
    var allC: Mask, oneW: Mask, allW: Mask := [C, C, C, C, C], [C, C, W, C, C], [W, W, W, W, W];
    EntropyThreeSingles<Mask>(allC, oneW, allW, 3, weigh);
    EntropyThreeSingles<Mask>(oneW, allC, allW, 3, weigh);
    EntropyPairAndSingle<Mask>(allW, allC, 3, weigh);
  }

  /**
   * test_sanity_check_2: when a 2 + 1 split scores below a 1 + 1 + 1 split,
   * as it does with the entropy term, the ranking is "zzzzz" first and the
   * two a-words after it, tied, in input order: result[0] < result[1] == result[2].
   */
  lemma SanityCheckTwo(options: seq<Word>, weigh: Weigh)
    requires options == [AllA, OneB, AllZ]
    requires weigh(2, 3) + weigh(1, 3) < weigh(1, 3) + weigh(1, 3) + weigh(1, 3)
    ensures var r := StableSort(Scored(options, options, weigh));
      |r| == 3 && r[0].0 == AllZ && r[1].0 == AllA && r[2].0 == OneB
      && r[0].1 < r[1].1 && r[0].1 < r[2].1 && r[1].1 == r[2].1
  {
    ScoresTwo(options, weigh);
    RankTiedThenLow(options, options, AllA, OneB, AllZ, weigh,
      weigh(1, 3) + weigh(1, 3) + weigh(1, 3), weigh(2, 3) + weigh(1, 3));
  }
}
