# bigbrainwordle advisor core, in Dafny

This project models the advisor behind bigbrainwordle, a Wordle helper. It
covers three parts:

- **Scoring a guess** (`src/entropy/feedback.rs`). Every position of a guess
  is marked `Correct`, `WrongPosition` or `Wrong` against a solution. A
  misplaced letter takes the first solution position that is still unused,
  is not an exact match, and holds that letter. A feedback row reduces to a
  *mask*: the five categories without the letters.
- **Choosing a guess** (`src/entropy/solver.rs`). `find_entropy` counts how
  many candidate answers fall into each mask. It then adds one term per group.
  `find_entropies` scores every allowed guess and sorts the list ascending by
  score. `suggest_word` takes the last entry.
- **The advisor state** (`src/entropy/brain.rs`). A `Brain` holds the
  candidate answers still possible (`options`) and every allowed guess
  (`valid`). `suggest` applies the suggestion policy. `prune` turns a feedback
  row into constraint lists and a letter-count map. It then keeps the
  candidates that pass all four rules.

Files, one Dafny module each:

| file | module | contents |
|---|---|---|
| `words.dfy` | `Words` | 5-letter words, letter counts, the `unwrap_or(&0)` map lookup |
| `feedback.dfy` | `WordleFeedback` | `FeedbackType`, `FB`, `Feedback`, masks, the pass of `from_guess` as a spec and as a method |
| `feedback_props.dfy` | `FeedbackProperties` | the pass checked against a count-based reference, duplicate conservation, credit distinctness, the unit vectors |
| `solver.dfy` | `WordleSolver` | histogram, score, stable ranking, `suggest_word` |
| `solver_props.dfy` | `SolverProperties` | the two sanity rankings |
| `brain.dfy` | `WordleBrain` | the pruning rules, constraint building, the filter closure, the `Brain` class |
| `brain_props.dfy` | `BrainScenarios` | the four pruning tests |

The float term `p·log2(1/p)` of `find_entropy` is the parameter
`weigh: (nat, nat) -> real`. `weigh(k, n)` is what a group of `k` out of `n`
candidates contributes. Every statement about scores holds for any `weigh`.
Statements that need the real entropy values take the needed inequality or
value as a hypothesis.

## Model

| member | source | states |
|---|---|---|
| Words.CountChar | src/entropy/brain.rs:111 | counts a letter in a word: at most the word's length, and zero exactly when the letter is absent |
| WordleFeedback.Category | src/entropy/feedback.rs:26-34 | a mark's category: C for Correct, WP for WrongPosition, W for Wrong, whatever the letter |
| WordleFeedback.MaskOf | src/entropy/feedback.rs:68-76 | position i of the mask is the category of mark i, in position order |
| WordleFeedback.IsCorrect | src/entropy/feedback.rs:78-83 | a row is correct exactly when its mask is all C |
| WordleFeedback.FeedbackOf | src/entropy/feedback.rs:45-66 | the row `from_guess` returns, as a value: mark i is Correct on an exact match, WrongPosition when the first unused, unmatched solution position holding the letter exists, else Wrong |
| WordleFeedback.FromGuess | src/entropy/feedback.rs:45-66 | the two-loop pass with its labelled continue computes exactly the specification row `FeedbackOf(guess, solution)` |
| WordleFeedback.RequiredZero | src/entropy/brain.rs:64-83 | the `counts` entry of a letter is zero exactly when no mark in the row is Correct or WrongPosition for that letter |
| FeedbackProperties.MarkMatchesReference | src/entropy/feedback.rs:45-66 | the mark for position i equals the two-phase reference: Correct on an exact match; otherwise WrongPosition exactly when fewer earlier unmatched guesses of the letter exist than unmatched solution occurrences |
| FeedbackProperties.FeedbackOfMatchesReference | src/entropy/feedback.rs:45-66 | the whole row of `from_guess` equals the reference scoring at every position |
| FeedbackProperties.UsedCount | src/entropy/feedback.rs:47-60 | after n positions, the used solution positions holding c number min(unmatched guess c's so far, unmatched solution c's) |
| FeedbackProperties.FeedbackPositions | src/entropy/feedback.rs:48-63 | each mark carries the guessed letter, and it is Correct exactly where guess and solution agree |
| FeedbackProperties.Conservation | src/entropy/feedback.rs:45-66 | Correct plus WrongPosition marks for a letter equal the smaller of its counts in guess and solution, so they never exceed either |
| FeedbackProperties.CreditOf | src/entropy/feedback.rs:52-59 | a position is WrongPosition exactly when it is credited; its credit is another position, holds the guessed letter, and is not an exact match |
| FeedbackProperties.CreditsDistinct | src/entropy/feedback.rs:52-59 | two WrongPosition marks never take the same solution position |
| FeedbackProperties.MaskIgnoresLetters | src/entropy/feedback.rs:68-76 | two rows have one mask exactly when they agree on the category at every position |
| FeedbackProperties.SolvedIffEqual | src/entropy/feedback.rs:78-83 | `is_correct` holds for the row of a guess exactly when the guess is the solution |
| FeedbackProperties.VectorModem | src/entropy/feedback.rs:90-103 | "modem" against "manas" scores C, W, W, W, W |
| FeedbackProperties.VectorQodem | src/entropy/feedback.rs:105-118 | "qodem" against "manas" scores W, W, W, W, WP |
| FeedbackProperties.VectorQodmm | src/entropy/feedback.rs:120-133 | "qodmm" against "manas": the first m is WP, the second is W |
| FeedbackProperties.VectorAxaxs | src/entropy/feedback.rs:134-147 | "axaxs" against "manas": both a's are WP, s is C |
| FeedbackProperties.VectorMaaxs | src/entropy/feedback.rs:148-161 | "maaxs" against "manas": C, C, WP, W, C |
| FeedbackProperties.VectorMansa | src/entropy/feedback.rs:162-175 | "mansa" against "manas": C, C, C, WP, WP |
| WordleSolver.TallyCounts | src/entropy/solver.rs:29-33 | the counting map gives every key its number of occurrences, holds exactly the keys that occur, and holds no zero count |
| WordleSolver.HistogramCounts | src/entropy/solver.rs:27-33 | `feedback_count` has one positive entry per distinct mask, equal to how many candidates produce that mask |
| WordleSolver.HistogramTotal | src/entropy/solver.rs:27-33 | the group sizes of the histogram add up to the number of candidates |
| WordleSolver.SumWeightsRemove | src/entropy/solver.rs:34-40 | the sum over the group sizes does not depend on the order the sizes are taken in, which is hash-map order in the source |
| WordleSolver.EntropyBump | src/entropy/solver.rs:29-40 | counting one more candidate changes only its group's term: a new group adds weigh(1, n); a grown group swaps weigh(k, n) for weigh(k + 1, n) |
| WordleSolver.CountPatterns | src/entropy/solver.rs:27-33 | the counting loop over the candidates builds exactly the histogram of their masks |
| WordleSolver.FindEntropy | src/entropy/solver.rs:26-41 | the result is the sum of weigh(size, \|options\|) over the histogram's groups |
| WordleSolver.StableSort | src/entropy/solver.rs:22 | the ranking is a permutation of its input |
| WordleSolver.SortSorted | src/entropy/solver.rs:22 | the ranking is ascending by score |
| WordleSolver.SortStable | src/entropy/solver.rs:22 | entries with equal score keep their input order |
| WordleSolver.SortLast | src/entropy/solver.rs:22 | the last ranked entry is the last input entry of greatest score |
| WordleSolver.FindEntropies | src/entropy/solver.rs:15-24 | the result is the stable ascending sort of (w, score of w) for every w in `valid`, in `valid`'s order |
| WordleSolver.RankingProperties | src/entropy/solver.rs:15-24 | the ranking has \|valid\| entries, permutes the scored list, ascends, is stable, and pairs every word of `valid` with its own score |
| WordleSolver.SuggestWord | src/entropy/solver.rs:10-13 | returns the word of the last ranked entry |
| WordleSolver.BestIsLastMax | src/entropy/solver.rs:10-13 | the suggested word is in `valid` and has the greatest score; every later word of `valid` scores strictly less |
| SolverProperties.ScoresOne | src/entropy/solver.rs:47-55 | over {aaaaa, aabaa}, both words split the candidates into two groups of one |
| SolverProperties.SanityCheckOne | src/entropy/solver.rs:47-55 | the ranking is (aaaaa, 2·weigh(1, 2)), (aabaa, 2·weigh(1, 2)); with weigh(1, 2) = 1/2 both scores are 1.0 |
| SolverProperties.ScoresTwo | src/entropy/solver.rs:57-75 | over {aaaaa, aabaa, zzzzz}, zzzzz splits 2 + 1 and each a-word splits 1 + 1 + 1 |
| SolverProperties.SanityCheckTwo | src/entropy/solver.rs:57-75 | when a 2 + 1 split scores below 1 + 1 + 1, the ranking is zzzzz, aaaaa, aabaa with result[0] < result[1], result[0] < result[2] and result[1] = result[2] |
| WordleBrain.Admits | src/entropy/brain.rs:88-117 | the keep rule of `prune` read off the row: Correct letters in place, each other mark's letter not at its position, an uncredited Wrong letter at no non-Correct position, and each letter at least as often as the row credits it |
| WordleBrain.Collect | src/entropy/brain.rs:64-83 | one pass over the row fills the four lists and the count map with exactly the row's constraints: the Correct pairs, the non-Correct pairs, the Wrong letters, the non-Correct positions, and each letter's credited count |
| WordleBrain.Keep | src/entropy/brain.rs:88-117 | the four loops with early return accept a word exactly when it meets every list constraint and every count |
| WordleBrain.ConstraintsAgree | src/entropy/brain.rs:85-117 | for constraints built from a row, the closure accepts exactly the words the row admits under the four pruning rules |
| WordleBrain.Filter | src/entropy/brain.rs:85-119 | a word is kept exactly when it was a candidate and the row admits it; nothing is added |
| WordleBrain.FilterAppend | src/entropy/brain.rs:85-119 | filtering distributes over concatenation, so candidates keep their order |
| WordleBrain.FilterWithin | src/entropy/brain.rs:85-119 | pruning keeps candidates inside any list that held them before |
| WordleBrain.FilterIdempotent | src/entropy/brain.rs:50-120 | pruning twice with one row equals pruning once |
| WordleBrain.FilterCommutes | src/entropy/brain.rs:50-120 | two rows may be applied in either order |
| WordleBrain.AdmitsSolution | src/entropy/brain.rs:50-120 | the solution passes every rule of the row any guess earns against it |
| WordleBrain.PruneKeepsSolution | src/entropy/brain.rs:50-120 | pruning with a genuine row never drops the solution |
| WordleBrain.PruneDropsWrongGuess | src/entropy/brain.rs:50-120 | a wrong guess is removed by the row it earns |
| WordleBrain.SolvedRowLeavesSolution | src/entropy/brain.rs:50-120 | the all-Correct row leaves exactly the solution |
| WordleBrain.UncreditedWrongLetterAbsent | src/entropy/brain.rs:101-109 | a Wrong letter credited nowhere in the row is absent from every kept word |
| WordleBrain.PruneCandidates | src/entropy/brain.rs:50-120 | building the constraints once and running the closure over each candidate yields exactly the filtered candidates, in order |
| WordleBrain.Brain.constructor | src/entropy/brain.rs:20-25 | both lists start as the data set |
| WordleBrain.Brain.Done | src/entropy/brain.rs:46-48 | done exactly when a single candidate is left |
| WordleBrain.Brain.Suggest | src/entropy/brain.rs:27-44 | no candidates gives the error "No possible anwers?"; one candidate is returned; in the last round some candidate is returned; otherwise the opener "tares" if still possible, else the solver's pick over `valid`; a suggestion is always an allowed guess |
| WordleBrain.Brain.Prune | src/entropy/brain.rs:50-120 | `options` becomes the filtered candidates, `valid` is unchanged, and candidates stay within `valid` |
| BrainScenarios.MisplacedRejects | src/entropy/brain.rs:95-99 | a non-Correct mark rejects every word holding its letter at its position |
| BrainScenarios.MovedRejects | src/entropy/brain.rs:89-93 | a Correct mark rejects every word holding another letter at its position |
| BrainScenarios.RemoveNonCorrect | src/entropy/brain.rs:127-138 | [aaaab, baaab] pruned by C(a) W(x) W(x) W(x) W(x) leaves [aaaab] |
| BrainScenarios.RemoveNonExcluded | src/entropy/brain.rs:139-150 | [aaxab, aaaab] pruned by the same row leaves [aaaab] |
| BrainScenarios.RemoveExclude | src/entropy/brain.rs:151-162 | [aaxab, abbab] pruned by C(a) WP(a) W(x) W(x) W(x) leaves [abbab] |
| BrainScenarios.WrongPositionConflict | src/entropy/brain.rs:163-179 | [bannn, bnnan, bnann, bnanx] pruned by C(b) WP(a) W(a) W(x) W(x) leaves [bnnan] |

## Left out

- `FeedbackType::block` (src/entropy/feedback.rs:10-16) is left out: it only picks an emoji for display.
- `Feedback::new` is the `Feedback` datatype constructor.
- FromGuess: the answer and used-position arrays are Rust fixed-size value arrays; the model keeps them as local sequences updated by index, not as heap arrays.
- FindEntropy: the term `p·log2(1/p)` in `f64` is the parameter `weigh`. Float rounding and the order-dependence of float addition are not modelled; the sum is exact and order-free.
- FindEntropies: `par_iter` is modelled as a sequential loop. Its result order is the same, because `collect` keeps order.
- FindEntropies: `sort_by` is modelled by the functional stable insertion sort `StableSort`, not an in-place sort. The `expect` on a NaN comparison is not modelled, because real numbers always compare.
- The `HashMap` of `find_entropy` is a Dafny `map`. Its iteration order is an arbitrary choice, and the model proves the score does not depend on it.
- SuggestWord: requires a non-empty `valid`. The source panics through `expect` on an empty ranking, and the advisor never calls it with an empty list.
- Brain.Suggest: takes `weigh` as a parameter, because the solver is parameterised by it.
- Brain.Suggest: the random `choose` of the last round is an arbitrary pick among the candidates. Its contract promises only that the word is a candidate.
- SanityCheckOne: the exact value 1.0 is stated under the hypothesis weigh(1, 2) = 1/2, which is what p·log2(1/p) gives for p = 1/2. The logarithm is not modelled.
- SanityCheckTwo: takes as a hypothesis that 2 + 1 scores below 1 + 1 + 1 (about 0.918 against 1.585 with the entropy term), because real logarithms are not modelled.
- `usize` overflow of the counts is not modelled; a count never exceeds five or the number of candidates.
- The terminal interface and the word list (src/app.rs, src/text.rs, src/main.rs, src/data/mod.rs) are not part of this model.
