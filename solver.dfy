/**
 * Guess selection: the pattern histogram of one guess over the candidates
 * (`find_entropy`), the ranking of the guess universe (`find_entropies`) and
 * the pick of its last entry (`suggest_word`).
 *
 * The floating-point term p·log2(1/p) of a group is the parameter `weigh`:
 * `weigh(k, n)` is what a group of k candidates out of n contributes. A
 * guess's score is the sum of `weigh` over the multiset of group sizes, so
 * it depends on nothing else.
 */
module WordleSolver {
  import opened Words
  import opened WordleFeedback

  /** A guess with its score, `(Word, f64)`. */
  type Entry = (Word, real)

  type Weigh = (nat, nat) -> real

  // ---------------------------------------------------------------------
  // The histogram of find_entropy.
  // ---------------------------------------------------------------------

  /** The grouping key each candidate produces for `word`. */
  function Patterns(word: Word, options: seq<Word>): seq<Mask>
  {
    seq(|options|, i requires 0 <= i < |options| => MaskOf(FeedbackOf(word, options[i])))
  }

  /** The counting map built by inserting the keys `ps` one by one, as the loop of `find_entropy` does. */
  function Tally<K>(ps: seq<K>): map<K, nat>
  {
    if |ps| == 0 then map[]
    else
      var h := Tally(ps[..|ps| - 1]);
      var m := ps[|ps| - 1];
      h[m := CountOf(h, m) + 1]
  }

  /** The map `feedback_count` of `find_entropy(word, options)`. */
  function Histogram(word: Word, options: seq<Word>): map<Mask, nat>
  {
    Tally(Patterns(word, options))
  }

  /** The tally counts the multiset of its keys: one positive count per distinct key. */
  lemma {:induction false} TallyCounts<K>(ps: seq<K>)
    ensures forall m :: CountOf(Tally(ps), m) == multiset(ps)[m]
    ensures forall m :: m in Tally(ps) <==> m in ps
    ensures forall m | m in Tally(ps) :: Tally(ps)[m] > 0
  {
    if |ps| > 0 {
      TallyCounts(ps[..|ps| - 1]);
      assert ps == ps[..|ps| - 1] + [ps[|ps| - 1]];
    }
  }

  /** The histogram: one group per distinct pattern, whose count is how many candidates produce it. */
  lemma HistogramCounts(word: Word, options: seq<Word>)
    ensures forall m :: CountOf(Histogram(word, options), m) == multiset(Patterns(word, options))[m]
    ensures forall m :: m in Histogram(word, options) <==> m in Patterns(word, options)
    ensures forall m | m in Histogram(word, options) :: Histogram(word, options)[m] > 0
  {
    TallyCounts(Patterns(word, options));
  }

  // ---------------------------------------------------------------------
  // Scores depend only on the multiset of group sizes.
  // ---------------------------------------------------------------------

  /** Some element of a non-empty set; which one is left open. */
  ghost function Pick<K>(keys: set<K>): (k: K)
    requires keys != {}
    ensures k in keys
  {
    var k :| k in keys; k
  }

  /** The multiset of the counts `h` holds for `keys`. */
  ghost function SizesOver<K>(h: map<K, nat>, keys: set<K>): multiset<nat>
    requires keys <= h.Keys
    decreases keys
  {
    if keys == {} then multiset{}
    else SizesOver(h, keys - {Pick(keys)}) + multiset{h[Pick(keys)]}
  }

  /** The multiset of the histogram's counts, one per group. */
  ghost function GroupSizes<K>(h: map<K, nat>): multiset<nat>
  {
    SizesOver(h, h.Keys)
  }

  /** Sum of `weigh(k, n)` over the group sizes k. */
  ghost function SumWeights(sizes: multiset<nat>, n: nat, weigh: Weigh): real
    decreases sizes
  {
    if sizes == multiset{} then 0.0
    else var k :| k in sizes; SumWeights(sizes - multiset{k}, n, weigh) + weigh(k, n)
  }

  /** The score of a histogram over n candidates. */
  ghost function Entropy<K>(h: map<K, nat>, n: nat, weigh: Weigh): real
  {
    SumWeights(GroupSizes(h), n, weigh)
  }

  /** The score `find_entropy(word, options)` computes. */
  ghost function WordScore(word: Word, options: seq<Word>, weigh: Weigh): real
  {
    Entropy(Histogram(word, options), |options|, weigh)
  }

  /** SizesOver does not depend on which key it takes first. */
  lemma {:induction false} SizesOverRemove<K>(h: map<K, nat>, keys: set<K>, m: K)
    requires keys <= h.Keys && m in keys
    ensures SizesOver(h, keys) == SizesOver(h, keys - {m}) + multiset{h[m]}
    decreases keys
  {
    var m0 := Pick(keys);
    if m0 != m {
      SizesOverRemove(h, keys - {m0}, m);
      SizesOverRemove(h, keys - {m}, m0);
      assert keys - {m0} - {m} == keys - {m} - {m0};
    }
  }

  /** SizesOver reads `h` only at `keys`. */
  lemma {:induction false} SizesOverAgree<K>(h: map<K, nat>, h': map<K, nat>, keys: set<K>)
    requires keys <= h.Keys && keys <= h'.Keys
    requires forall k | k in keys :: h[k] == h'[k]
    ensures SizesOver(h, keys) == SizesOver(h', keys)
    decreases keys
  {
    if keys != {} {
      SizesOverAgree(h, h', keys - {Pick(keys)});
    }
  }

  /** SumWeights does not depend on which size it takes first. */
  lemma {:induction false} SumWeightsRemove(sizes: multiset<nat>, k: nat, n: nat, weigh: Weigh)
    requires k in sizes
    ensures SumWeights(sizes, n, weigh) == SumWeights(sizes - multiset{k}, n, weigh) + weigh(k, n)
    decreases sizes, 1
  {
    var k0 :| k0 in sizes && SumWeights(sizes, n, weigh) == SumWeights(sizes - multiset{k0}, n, weigh) + weigh(k0, n);
    if k0 != k {
      SumWeightsExchange(sizes, k0, k, n, weigh);
    }
  }

  /** Taking `k0` first and then `k` gives the same sum as taking `k` first. */
  lemma {:induction false} SumWeightsExchange(sizes: multiset<nat>, k0: nat, k: nat, n: nat, weigh: Weigh)
    requires k0 in sizes && k in sizes && k0 != k
    ensures SumWeights(sizes - multiset{k0}, n, weigh) + weigh(k0, n)
         == SumWeights(sizes - multiset{k}, n, weigh) + weigh(k, n)
    decreases sizes, 0
  {
    var withoutK0, withoutK := sizes - multiset{k0}, sizes - multiset{k};
    assert k in withoutK0 && k0 in withoutK;
    SumWeightsRemove(withoutK0, k, n, weigh);
    SumWeightsRemove(withoutK, k0, n, weigh);
    assert withoutK0 - multiset{k} == withoutK - multiset{k0};
  }

  lemma SumWeightsAdd(sizes: multiset<nat>, k: nat, n: nat, weigh: Weigh)
    ensures SumWeights(sizes + multiset{k}, n, weigh) == SumWeights(sizes, n, weigh) + weigh(k, n)
  {
    SumWeightsRemove(sizes + multiset{k}, k, n, weigh);
    assert sizes + multiset{k} - multiset{k} == sizes;
  }

  /** Counting one more candidate into group `m` grows that group by one, or opens it with size 1. */
  lemma GroupSizesBump<K>(h: map<K, nat>, m: K)
    ensures m in h ==> GroupSizes(h[m := h[m] + 1]) + multiset{h[m]} == GroupSizes(h) + multiset{h[m] + 1}
    ensures m !in h ==> GroupSizes(h[m := 1]) == GroupSizes(h) + multiset{1}
  {
    var keys := h.Keys;
    if m in h {
      var h' := h[m := h[m] + 1];
      assert h'.Keys == keys;
      SizesOverRemove(h', keys, m);
      SizesOverRemove(h, keys, m);
      SizesOverAgree(h, h', keys - {m});
    } else {
      var h' := h[m := 1];
      assert h'.Keys == keys + {m};
      SizesOverRemove(h', keys + {m}, m);
      assert keys + {m} - {m} == keys;
      SizesOverAgree(h, h', keys);
    }
  }

  /**
   * The weight of a group is its size, so SumWeights(GroupSizes(h), n,
   * GroupSize) is the plain sum of the counts of `h`.
   */
  function GroupSize(k: nat, n: nat): real
  {
    k as real
  }

  /** Two ways of writing one multiset of sizes give one sum. */
  lemma SumWeightsSwap(a: multiset<nat>, x: nat, b: multiset<nat>, y: nat, n: nat, weigh: Weigh)
    requires a + multiset{x} == b + multiset{y}
    ensures SumWeights(a, n, weigh) + weigh(x, n) == SumWeights(b, n, weigh) + weigh(y, n)
  {
    SumWeightsAdd(a, x, n, weigh);
    SumWeightsAdd(b, y, n, weigh);
  }

  /** The score of the empty histogram is 0. */
  lemma EntropyEmpty<K>(h: map<K, nat>, n: nat, weigh: Weigh)
    requires h == map[]
    ensures Entropy(h, n, weigh) == 0.0
  {
    assert h.Keys == {};
  }

  /**
   * Counting one more candidate into group `m` changes the score only in
   * that group's term: a new group adds `weigh(1, n)`, a grown group trades
   * `weigh(k, n)` for `weigh(k + 1, n)`.
   */
  lemma EntropyBump<K>(h: map<K, nat>, m: K, n: nat, weigh: Weigh)
    ensures m !in h ==> Entropy(h[m := 1], n, weigh) == Entropy(h, n, weigh) + weigh(1, n)
    ensures m in h ==> Entropy(h[m := h[m] + 1], n, weigh) + weigh(h[m], n) == Entropy(h, n, weigh) + weigh(h[m] + 1, n)
  {
    var h' := h[m := CountOf(h, m) + 1];
    var a, b := GroupSizes(h'), GroupSizes(h);
    var x := CountOf(h, m);
    GroupSizesBump(h, m);
    if m in h {
      assert x == h[m] && h' == h[m := h[m] + 1];
      assert a + multiset{x} == b + multiset{x + 1};
      SumWeightsSwap(a, x, b, x + 1, n, weigh);
    } else {
      assert h' == h[m := 1];
      assert a == b + multiset{1};
      SumWeightsAdd(b, 1, n, weigh);
    }
  }

  /** Counting one more key raises the total of the counts by one. */
  lemma BumpTotal<K>(h: map<K, nat>, m: K, n: nat)
    ensures Entropy(h[m := CountOf(h, m) + 1], n, GroupSize) == Entropy(h, n, GroupSize) + 1.0
  {
    EntropyBump(h, m, n, GroupSize);
  }

  /** The counts of a tally add up to the number of keys inserted. */
  lemma {:induction false} TallyTotal<K>(ps: seq<K>, n: nat)
    ensures Entropy(Tally(ps), n, GroupSize) == |ps| as real
  {
    if |ps| == 0 {
      EntropyEmpty(Tally(ps), n, GroupSize);
    } else {
      TallyTotal(ps[..|ps| - 1], n);
      BumpTotal(Tally(ps[..|ps| - 1]), ps[|ps| - 1], n);
    }
  }

  /**
   * The group sizes of a histogram add up to the number of candidates: the
   * sum over GroupSizes with each group weighed by its own size.
   */
  lemma HistogramTotal(word: Word, options: seq<Word>)
    ensures SumWeights(GroupSizes(Histogram(word, options)), |options|, GroupSize) == |options| as real
  {
    TallyTotal(Patterns(word, options), |options|);
  }

  /** Scoring one more candidate appends its mask. */
  lemma PatternsSnoc(word: Word, options: seq<Word>, k: nat)
    requires k < |options|
    ensures Patterns(word, options[..k + 1]) == Patterns(word, options[..k]) + [MaskOf(FeedbackOf(word, options[k]))]
  {
    var next := Patterns(word, options[..k + 1]);
    var prev := Patterns(word, options[..k]);
    assert |next| == |prev| + 1;
    forall i | 0 <= i < |prev| ensures next[i] == prev[i] {
      assert options[..k + 1][i] == options[..k][i];
    }
  }

  /** Tallying one more key bumps its count. */
  lemma TallySnoc<K>(ps: seq<K>, m: K)
    ensures Tally(ps + [m]) == Tally(ps)[m := CountOf(Tally(ps), m) + 1]
  {
    assert (ps + [m])[..|ps|] == ps;
  }

  /** The counting loop of `find_entropy`: one map update per candidate. */
  method CountPatterns(word: Word, options: seq<Word>) returns (feedbackCount: map<Mask, nat>)
    ensures feedbackCount == Histogram(word, options)
  {
    feedbackCount := map[];
    for k := 0 to |options|
      invariant feedbackCount == Tally(Patterns(word, options[..k]))
    {
      var fb := FromGuess(word, options[k]);
      var m := MaskOf(fb);
      var count := CountOf(feedbackCount, m);
      PatternsSnoc(word, options, k);
      TallySnoc(Patterns(word, options[..k]), m);
      feedbackCount := feedbackCount[m := count + 1];
    }
    assert options[..|options|] == options;
  }

  /** `find_entropy`: count patterns into a map, then add up the weight of each group. */
  method FindEntropy(word: Word, options: seq<Word>, weigh: Weigh) returns (e: real)
    ensures e == WordScore(word, options, weigh)
  {
    var feedbackCount := CountPatterns(word, options);
    var size := |options|;
    e := 0.0;
    var rest := feedbackCount.Keys;
    while rest != {}
      invariant rest <= feedbackCount.Keys
      invariant e + SumWeights(SizesOver(feedbackCount, rest), size, weigh) == Entropy(feedbackCount, size, weigh)
      decreases rest
    {
      var m :| m in rest;
      var k := feedbackCount[m];
      SizesOverRemove(feedbackCount, rest, m);
      SumWeightsAdd(SizesOver(feedbackCount, rest - {m}), k, size, weigh);
      e := e + weigh(k, size);
      rest := rest - {m};
    }
  }

  // ---------------------------------------------------------------------
  // Ranking: a stable ascending sort of the scored guess universe.
  // ---------------------------------------------------------------------

  ghost predicate Sorted(s: seq<Entry>)
  {
    forall i, j | 0 <= i < j < |s| :: s[i].1 <= s[j].1
  }

  /** Insert `x` after every entry whose score is at most its own. */
  function Insert(s: seq<Entry>, x: Entry): (r: seq<Entry>)
    ensures |r| == |s| + 1
    ensures multiset(r) == multiset(s) + multiset{x}
  {
    if |s| == 0 || s[|s| - 1].1 <= x.1 then s + [x]
    else
      assert s == s[..|s| - 1] + [s[|s| - 1]];
      Insert(s[..|s| - 1], x) + [s[|s| - 1]]
  }

  /** Stable ascending sort by score, the result of `sort_by` with `partial_cmp`. */
  function StableSort(s: seq<Entry>): (r: seq<Entry>)
    ensures |r| == |s|
    ensures multiset(r) == multiset(s)
  {
    if |s| == 0 then []
    else
      assert s == s[..|s| - 1] + [s[|s| - 1]];
      Insert(StableSort(s[..|s| - 1]), s[|s| - 1])
  }

  /** The entries with score `v`, in order. */
  function WithScore(s: seq<Entry>, v: real): seq<Entry>
  {
    if |s| == 0 then []
    else WithScore(s[..|s| - 1], v) + (if s[|s| - 1].1 == v then [s[|s| - 1]] else [])
  }

  lemma {:induction false} WithScoreAppend(a: seq<Entry>, b: seq<Entry>, v: real)
    ensures WithScore(a + b, v) == WithScore(a, v) + WithScore(b, v)
  {
    if |b| > 0 {
      WithScoreAppend(a, b[..|b| - 1], v);
      assert (a + b)[..|a + b| - 1] == a + b[..|b| - 1];
    } else {
      assert a + b == a;
    }
  }

  /** A sorted list stays sorted when an entry at least as high as all of it is appended. */
  lemma SortedSnoc(r: seq<Entry>, e: Entry)
    requires Sorted(r)
    requires forall d | d in r :: d.1 <= e.1
    ensures Sorted(r + [e])
  {
    var t := r + [e];
    forall i, j | 0 <= i < j < |t| ensures t[i].1 <= t[j].1 {
      if j == |r| {
        assert t[i] == r[i];
      }
    }
  }

  lemma {:induction false} InsertSorted(s: seq<Entry>, x: Entry)
    requires Sorted(s)
    ensures Sorted(Insert(s, x))
  {
    if |s| == 0 || s[|s| - 1].1 <= x.1 {
      forall d | d in s ensures d.1 <= x.1 {
        var i :| 0 <= i < |s| && s[i] == d;
        assert s[i].1 <= s[|s| - 1].1 || i == |s| - 1;
      }
      SortedSnoc(s, x);
    } else {
      var init, last := s[..|s| - 1], s[|s| - 1];
      assert Sorted(init) by {
        forall i, j | 0 <= i < j < |init| ensures init[i].1 <= init[j].1 {
          assert init[i] == s[i] && init[j] == s[j];
        }
      }
      InsertSorted(init, x);
      var r := Insert(init, x);
      forall e | e in r ensures e.1 <= last.1 {
        assert e in multiset(r);
        assert e == x || e in multiset(init);
        if e != x {
          var i :| 0 <= i < |init| && init[i] == e;
          assert s[i] == e;
        }
      }
      SortedSnoc(r, last);
    }
  }

  /** Insertion keeps the order of equal-score entries and puts `x` after them. */
  lemma {:induction false} InsertStable(s: seq<Entry>, x: Entry, v: real)
    ensures WithScore(Insert(s, x), v) == WithScore(s, v) + (if x.1 == v then [x] else [])
  {
    if |s| == 0 || s[|s| - 1].1 <= x.1 {
      WithScoreAppend(s, [x], v);
      assert WithScore([x], v) == WithScore([], v) + (if x.1 == v then [x] else []);
    } else {
      var init, last := s[..|s| - 1], s[|s| - 1];
      InsertStable(init, x, v);
      WithScoreAppend(Insert(init, x), [last], v);
      WithScoreAppend(init, [last], v);
      assert init + [last] == s;
      assert WithScore([last], v) == WithScore([], v) + (if last.1 == v then [last] else []);
    }
  }

  lemma {:induction false} SortSorted(s: seq<Entry>)
    ensures Sorted(StableSort(s))
  {
    if |s| > 0 {
      SortSorted(s[..|s| - 1]);
      InsertSorted(StableSort(s[..|s| - 1]), s[|s| - 1]);
    }
  }

  /** Stability: the entries of each score keep their relative input order. */
  lemma {:induction false} SortStable(s: seq<Entry>, v: real)
    ensures WithScore(StableSort(s), v) == WithScore(s, v)
  {
    if |s| > 0 {
      SortStable(s[..|s| - 1], v);
      InsertStable(StableSort(s[..|s| - 1]), s[|s| - 1], v);
    }
  }

  /** The index of the last entry with the greatest score. */
  function LastArgMax(s: seq<Entry>): (k: nat)
    requires |s| > 0
    ensures k < |s|
    ensures forall j | 0 <= j < |s| :: s[j].1 <= s[k].1
    ensures forall j | k < j < |s| :: s[j].1 < s[k].1
  {
    if |s| == 1 then 0
    else
      var k := LastArgMax(s[..|s| - 1]);
      if s[k].1 <= s[|s| - 1].1 then |s| - 1 else k
  }

  /** The last entry of the stable sort is the last input entry of maximal score. */
  lemma {:induction false} SortLast(s: seq<Entry>)
    requires |s| > 0
    ensures StableSort(s)[|s| - 1] == s[LastArgMax(s)]
  {
    if |s| > 1 {
      var init := s[..|s| - 1];
      SortLast(init);
      SortSorted(init);
      var t := StableSort(init);
      assert t[|t| - 1] == init[LastArgMax(init)];
    }
  }

  // ---------------------------------------------------------------------
  // find_entropies and suggest_word.
  // ---------------------------------------------------------------------

  /** `valid` mapped to (word, score), in the order of `valid`. */
  ghost function Scored(options: seq<Word>, valid: seq<Word>, weigh: Weigh): seq<Entry>
  {
    seq(|valid|, i requires 0 <= i < |valid| => (valid[i], WordScore(valid[i], options, weigh)))
  }

  /** `find_entropies`: score every word of `valid`, then sort stably by ascending score. */
  method FindEntropies(options: seq<Word>, valid: seq<Word>, weigh: Weigh) returns (results: seq<Entry>)
    ensures results == StableSort(Scored(options, valid, weigh))
  {
    var scored: seq<Entry> := [];
    for k := 0 to |valid|
      invariant |scored| == k
      invariant forall j | 0 <= j < k :: scored[j] == (valid[j], WordScore(valid[j], options, weigh))
    {
      var e := FindEntropy(valid[k], options, weigh);
      scored := scored + [(valid[k], e)];
    }
    assert scored == Scored(options, valid, weigh);
    results := StableSort(scored);
  }

  /** The ranking holds one (w, score of w) per word of `valid`, ascending and stable. */
  lemma RankingProperties(options: seq<Word>, valid: seq<Word>, weigh: Weigh)
    ensures |StableSort(Scored(options, valid, weigh))| == |valid|
    ensures multiset(StableSort(Scored(options, valid, weigh))) == multiset(Scored(options, valid, weigh))
    ensures Sorted(StableSort(Scored(options, valid, weigh)))
    ensures forall v :: WithScore(StableSort(Scored(options, valid, weigh)), v) == WithScore(Scored(options, valid, weigh), v)
    ensures forall e | e in StableSort(Scored(options, valid, weigh)) :: e.0 in valid && e.1 == WordScore(e.0, options, weigh)
  {
    var s := Scored(options, valid, weigh);
    SortSorted(s);
    forall v ensures WithScore(StableSort(s), v) == WithScore(s, v) {
      SortStable(s, v);
    }
    forall e | e in StableSort(s) ensures e.0 in valid && e.1 == WordScore(e.0, options, weigh) {
      assert e in multiset(StableSort(s));
      assert e in s;
    }
  }

  /** The word `suggest_word` returns: the last entry of the ranking. */
  ghost function Best(options: seq<Word>, valid: seq<Word>, weigh: Weigh): Word
    requires |valid| > 0
  {
    var r := StableSort(Scored(options, valid, weigh));
    r[|r| - 1].0
  }

  /** `suggest_word`; the source expects a non-empty ranking, so `valid` must not be empty. */
  method SuggestWord(options: seq<Word>, valid: seq<Word>, weigh: Weigh) returns (w: Word)
    requires |valid| > 0
    ensures w == Best(options, valid, weigh)
  {
    var results := FindEntropies(options, valid, weigh);
    w := results[|results| - 1].0;
  }

  /** The suggestion has the greatest score in `valid`, and among ties it is the last in `valid`. */
  lemma BestIsLastMax(options: seq<Word>, valid: seq<Word>, weigh: Weigh)
    requires |valid| > 0
    ensures Best(options, valid, weigh) in valid
    ensures forall w | w in valid :: WordScore(w, options, weigh) <= WordScore(Best(options, valid, weigh), options, weigh)
    ensures exists k | 0 <= k < |valid| ::
      (valid[k] == Best(options, valid, weigh)
       && forall j | k < j < |valid| :: WordScore(valid[j], options, weigh) < WordScore(valid[k], options, weigh))
  {
    var s := Scored(options, valid, weigh);
    SortLast(s);
    var k := LastArgMax(s);
    assert Best(options, valid, weigh) == valid[k];
    forall w | w in valid ensures WordScore(w, options, weigh) <= WordScore(valid[k], options, weigh) {
      var j :| 0 <= j < |valid| && valid[j] == w;
      assert s[j].1 <= s[k].1;
    }
    forall j | k < j < |valid| ensures WordScore(valid[j], options, weigh) < WordScore(valid[k], options, weigh) {
      assert s[j].1 < s[k].1;
    }
  }
}
