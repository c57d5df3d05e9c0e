/**
 * The in-place Fisher-Yates shuffle used for removal orders, digit orders
 * and the order in which solutions are handed back.
 */
module Shuffle {

  /**
   * shuffle: walks i from the last index down to 1 and swaps a[i] with a[j]
   * for some j in 0..i. The random draw `Math.floor(Math.random() * (i + 1))`
   * is modelled as an arbitrary choice in that range, so every property
   * below holds whatever the random source returns. The array is permuted
   * in place and returned.
   */
  method Shuffle<T>(a: array<T>) returns (shuffled: array<T>)
    modifies a
    ensures shuffled == a
    ensures multiset(a[..]) == old(multiset(a[..]))
  {
    var i := a.Length - 1;
    while i > 0
      invariant -1 <= i <= a.Length - 1
      invariant multiset(a[..]) == old(multiset(a[..]))
    {
      var j :| 0 <= j <= i;
      a[i], a[j] := a[j], a[i];
      i := i - 1;
    }
    shuffled := a;
  }
}
