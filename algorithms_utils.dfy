/** `AlgorithmsUtils<T>::isSorted` (src/SortAlgorithms/AlgorithmsUtils.hpp)
    and the orderings the sort library is specified with. Elements are
    compared through an integer `key`: the identity for numbers, the weight
    for edge triples (whose only comparison is `operator<=` on weights). */
module AlgorithmsUtils {

  /** Ascending by key: every earlier element is no greater than every later
      one. */
  ghost predicate Sorted<T>(s: seq<T>, key: T -> int) {
    forall i, j | 0 <= i < j < |s| :: key(s[i]) <= key(s[j])
  }

  /** What `isSorted` checks: no adjacent pair with `s[i] > s[i + 1]`. */
  ghost predicate AdjacentSorted<T>(s: seq<T>, key: T -> int) {
    forall i | 0 <= i < |s| - 1 :: key(s[i]) <= key(s[i + 1])
  }

  /** Since the order is transitive, adjacent order gives all-pairs order. */
  lemma {:induction false} AdjacentSortedIsSorted<T>(s: seq<T>, key: T -> int)
    requires AdjacentSorted(s, key)
    ensures Sorted(s, key)
  {
    forall i, j | 0 <= i < j < |s|
      ensures key(s[i]) <= key(s[j])
    {
      AdjacentChain(s, key, i, j);
    }
  }

  lemma {:induction false} AdjacentChain<T>(s: seq<T>, key: T -> int, i: int, j: int)
    requires AdjacentSorted(s, key)
    requires 0 <= i <= j < |s|
    ensures key(s[i]) <= key(s[j])
    decreases j - i
  {
    if i < j {
      AdjacentChain(s, key, i + 1, j);
    }
  }

  /** The converse direction, so the two notions agree. */
  lemma SortedIsAdjacentSorted<T>(s: seq<T>, key: T -> int)
    requires Sorted(s, key)
    ensures AdjacentSorted(s, key)
  {
  }

  /** `isSorted(data)`: scans `i` from 0 while `i < n - 1` and answers false
      at the first `data[i] > data[i + 1]`. It returns true exactly when the
      contents are ascending, in particular for fewer than two elements; it
      only reads its argument. */
  method IsSorted<T>(data: array<T>, key: T -> int) returns (b: bool)
    ensures b <==> Sorted(data[..], key)
    ensures data.Length <= 1 ==> b
  {
    var n := data.Length;
    var i := 0;
    while i < n - 1
      invariant 0 <= i <= if n == 0 then 0 else n - 1
      invariant forall k | 0 <= k < i :: key(data[k]) <= key(data[k + 1])
    {
      if key(data[i]) > key(data[i + 1]) {
        return false;
      }
      i := i + 1;
    }
    AdjacentSortedIsSorted(data[..], key);
    return true;
  }
}
