/** Value types shared by the feedback engine, the brain and the solver. */
module Words {

  /** A word of the game: exactly five letters (`[char; 5]`). */
  type Word = w: seq<char> | |w| == 5 witness "aaaaa"

  /** Number of occurrences of `c` in `w`. */
  function CountChar(w: seq<char>, c: char): (n: nat)
    ensures n <= |w|
    ensures n == 0 <==> c !in w
  {
    if |w| == 0 then 0
    else
      assert w == w[..|w| - 1] + [w[|w| - 1]];
      CountChar(w[..|w| - 1], c) + (if w[|w| - 1] == c then 1 else 0)
  }

  /** Lookup in a counting map with 0 for a missing key, as `get(k).unwrap_or(&0)`. */
  function CountOf<K>(m: map<K, nat>, k: K): nat
  {
    if k in m then m[k] else 0
  }
}
