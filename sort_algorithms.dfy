/** `SortAlgorithms<T>` (src/SortAlgorithms/SortAlgorithms.hpp): insertion
    sort, binary insertion sort, heap sort and randomised quick sort, all in
    place on the elements of a Vektor, here an array. Elements are compared
    through an integer `key`, so `a > b` is `key(a) > key(b)` and `a <= b` is
    `key(a) <= key(b)`. */
module SortAlgorithms {
  import opened AlgorithmsUtils

  // ---------------------------------------------------------------------
  // Stability

  /** The elements of `s` whose key is `k`, in their order in `s`. */
  function KeyRun<T>(s: seq<T>, key: T -> int, k: int): (r: seq<T>)
    ensures |r| <= |s|
  {
    if s == [] then []
    else KeyRun(s[..|s| - 1], key, k) + (if key(s[|s| - 1]) == k then [s[|s| - 1]] else [])
  }

  /** `t` holds the same elements as `s`, counted with multiplicity. */
  ghost predicate Permutes<T>(t: seq<T>, s: seq<T>) {
    multiset(t) == multiset(s)
  }

  /** Equal-key elements appear in the same relative order in `s` and `t`:
      a sort that ends in this state from its input is stable. */
  ghost predicate SameRuns<T>(s: seq<T>, t: seq<T>, key: T -> int) {
    forall k :: KeyRun(s, key, k) == KeyRun(t, key, k)
  }

  lemma {:induction false} KeyRunAppend<T>(s: seq<T>, t: seq<T>, key: T -> int, k: int)
    ensures KeyRun(s + t, key, k) == KeyRun(s, key, k) + KeyRun(t, key, k)
    decreases |t|
  {
    if t == [] {
      assert s + t == s;
    } else {
      var n := |t| - 1;
      assert (s + t)[..|s + t| - 1] == s + t[..n];
      assert (s + t)[|s + t| - 1] == t[n];
      KeyRunAppend(s, t[..n], key, k);
    }
  }

  lemma {:induction false} KeyRunNone<T>(s: seq<T>, key: T -> int, k: int)
    requires forall m | 0 <= m < |s| :: key(s[m]) != k
    ensures KeyRun(s, key, k) == []
    decreases |s|
  {
    if s != [] {
      KeyRunNone(s[..|s| - 1], key, k);
    }
  }

  /** An element occurs in `s` as often as in the run of its own key. */
  lemma {:induction false} CountInOwnRun<T>(s: seq<T>, key: T -> int, x: T)
    ensures multiset(s)[x] == multiset(KeyRun(s, key, key(x)))[x]
    decreases |s|
  {
    if s != [] {
      var n := |s| - 1;
      assert s == s[..n] + [s[n]];
      CountInOwnRun(s[..n], key, x);
    }
  }

  /** A stable rearrangement is a permutation: equal runs for every key
      mean equal multisets. */
  lemma RunsKeepElements<T>(s: seq<T>, t: seq<T>, key: T -> int)
    requires SameRuns(s, t, key)
    ensures Permutes(s, t)
  {
    forall x
      ensures multiset(s)[x] == multiset(t)[x]
    {
      CountInOwnRun(s, key, x);
      CountInOwnRun(t, key, x);
    }
  }

  /** `s` with the element at `i` moved to position `p <= i`: what one pass
      of either insertion sort does. */
  function Inserted<T>(s: seq<T>, i: int, p: int): seq<T>
    requires 0 <= p <= i < |s|
  {
    s[..p] + [s[i]] + s[p..i] + s[i + 1..]
  }

  /** One insertion step keeps order: when `s[..i]` is ascending and `s[i]`
      goes after an element `<=` it and before the strictly greater ones,
      the prefix `[0, i]` becomes ascending. */
  lemma InsertSorted<T>(s: seq<T>, key: T -> int, i: int, p: int)
    requires 0 <= p <= i < |s|
    requires Sorted(s[..i], key)
    requires p == 0 || key(s[p - 1]) <= key(s[i])
    requires forall m | p <= m < i :: key(s[m]) > key(s[i])
    ensures Sorted(Inserted(s, i, p)[..i + 1], key)
  {
    var t := Inserted(s, i, p)[..i + 1];
    assert |t| == i + 1;
    forall a, b | 0 <= a < b < i + 1
      ensures key(t[a]) <= key(t[b])
    {
      var u := s[..i];
      if b < p {
        assert t[a] == u[a] && t[b] == u[b];
      } else if b == p {
        assert t[b] == s[i];
        if a < p - 1 {
          assert t[a] == u[a] && s[p - 1] == u[p - 1];
        } else {
          assert t[a] == s[p - 1];
        }
      } else if a < p {
        assert t[a] == u[a] && t[b] == u[b - 1];
        assert s[p - 1] == u[p - 1];
      } else if a == p {
        assert t[a] == s[i] && t[b] == s[b - 1];
      } else {
        assert t[a] == u[a - 1] && t[b] == u[b - 1];
      }
    }
  }

  lemma KeyRunOfThree<T>(a: seq<T>, m: seq<T>, c: seq<T>, key: T -> int, k: int)
    ensures KeyRun(a + m + c, key, k) == KeyRun(a, key, k) + KeyRun(m, key, k) + KeyRun(c, key, k)
  {
    KeyRunAppend(a + m, c, key, k);
    KeyRunAppend(a, m, key, k);
  }

  /** Moving `x` in front of elements of strictly greater key leaves every
      run as it was. */
  lemma KeyRunMoveFront<T>(b: seq<T>, x: T, key: T -> int, k: int)
    requires forall m | 0 <= m < |b| :: key(b[m]) > key(x)
    ensures KeyRun([x] + b, key, k) == KeyRun(b + [x], key, k)
  {
    KeyRunAppend([x], b, key, k);
    KeyRunAppend(b, [x], key, k);
    assert KeyRun([x], key, k) == if key(x) == k then [x] else [] by {
      assert [x][..0] == [];
    }
    if key(x) == k {
      KeyRunNone(b, key, k);
    }
  }

  /** One insertion step overtakes no element of the moved element's key:
      every key's run is unchanged. */
  lemma InsertRuns<T>(s: seq<T>, key: T -> int, i: int, p: int)
    requires 0 <= p <= i < |s|
    requires forall m | p <= m < i :: key(s[m]) > key(s[i])
    ensures SameRuns(Inserted(s, i, p), s, key)
  {
    var x := s[i];
    var a, b, c := s[..p], s[p..i], s[i + 1..];
    assert s == a + (b + [x]) + c;
    assert Inserted(s, i, p) == a + ([x] + b) + c;
    forall k
      ensures KeyRun(a + ([x] + b) + c, key, k) == KeyRun(a + (b + [x]) + c, key, k)
    {
      KeyRunOfThree(a, [x] + b, c, key, k);
      KeyRunOfThree(a, b + [x], c, key, k);
      KeyRunMoveFront(b, x, key, k);
    }
  }

  /** The array contents after a pass: `[0, p)` as before, the old element
      `i` at `p`, `[p, i)` moved one place right, the rest as before. */
  lemma ShiftedIsInserted<T>(t: seq<T>, s: seq<T>, i: int, p: int)
    requires |t| == |s| && 0 <= p <= i < |s|
    requires forall m | 0 <= m < p :: t[m] == s[m]
    requires t[p] == s[i]
    requires forall m | p < m <= i :: t[m] == s[m - 1]
    requires forall m | i < m < |s| :: t[m] == s[m]
    ensures t == Inserted(s, i, p)
  {
  }

  /** One pass of either insertion sort: a longer ascending prefix, and no
      equal-key element overtaken. */
  lemma InsertPass<T>(t: seq<T>, s: seq<T>, key: T -> int, i: int, p: int)
    requires 0 <= p <= i < |s| && |t| == |s|
    requires Sorted(s[..i], key)
    requires p == 0 || key(s[p - 1]) <= key(s[i])
    requires forall m | p <= m < i :: key(s[m]) > key(s[i])
    requires forall m | 0 <= m < p :: t[m] == s[m]
    requires t[p] == s[i]
    requires forall m | p < m <= i :: t[m] == s[m - 1]
    requires forall m | i < m < |s| :: t[m] == s[m]
    ensures Sorted(t[..i + 1], key)
    ensures SameRuns(t, s, key)
  {
    ShiftedIsInserted(t, s, i, p);
    InsertSorted(s, key, i, p);
    InsertRuns(s, key, i, p);
  }

  // ---------------------------------------------------------------------
  // Insertion sorts

  /** `insertionSort`: for `i = 1 .. n - 1`, `data[i]` is carried left past
      the elements strictly greater than it. The result is ascending and a
      stable permutation of the input. */
  method InsertionSort<T>(data: array<T>, key: T -> int)
    modifies data
    ensures Sorted(data[..], key)
    ensures Permutes(data[..], old(data[..]))
    ensures SameRuns(data[..], old(data[..]), key)
  {
    var n := data.Length;
    var i := 1;
    while i < n
      invariant 1 <= i <= n || (n == 0 && i == 1)
      invariant i <= n ==> Sorted(data[..i], key)
      invariant SameRuns(data[..], old(data[..]), key)
    {
      InsertKey(data, key, i);
      i := i + 1;
    }
    RunsKeepElements(data[..], old(data[..]), key);
  }

  /** One pass of `insertionSort`'s outer loop: `key = data[i]`; while
      `data[j] > key`, `data[j + 1] = data[j]` and `j--`; then
      `data[j + 1] = key`. */
  method InsertKey<T>(data: array<T>, key: T -> int, i: int)
    requires 1 <= i < data.Length
    requires Sorted(data[..i], key)
    modifies data
    ensures Sorted(data[..i + 1], key)
    ensures SameRuns(data[..], old(data[..]), key)
  {
    var n := data.Length;
    var x := data[i];
    ghost var s := data[..];
    var j := i - 1;
    while j >= 0 && key(data[j]) > key(x)
      invariant -1 <= j <= i - 1
      invariant forall m | 0 <= m <= j :: data[m] == s[m]
      invariant forall m | j + 1 < m <= i :: data[m] == s[m - 1]
      invariant forall m | i < m < n :: data[m] == s[m]
      invariant forall m | j + 1 <= m < i :: key(s[m]) > key(x)
    {
      data[j + 1] := data[j];
      j := j - 1;
    }
    data[j + 1] := x;
    InsertPass(data[..], s, key, i, j + 1);
  }

  /** `binaryInsertionSort`: for `i = 1 .. n - 1`, `data[i]` is inserted
      into the ascending prefix after every element `<=` it. The result is
      ascending and a stable permutation of the input. */
  method BinaryInsertionSort<T>(data: array<T>, key: T -> int)
    modifies data
    ensures Sorted(data[..], key)
    ensures Permutes(data[..], old(data[..]))
    ensures SameRuns(data[..], old(data[..]), key)
  {
    var n := data.Length;
    var i := 1;
    while i < n
      invariant 1 <= i <= n || (n == 0 && i == 1)
      invariant i <= n ==> Sorted(data[..i], key)
      invariant SameRuns(data[..], old(data[..]), key)
    {
      BinaryInsertKey(data, key, i);
      i := i + 1;
    }
    RunsKeepElements(data[..], old(data[..]), key);
  }

  /** One pass of `binaryInsertionSort`'s outer loop: a binary search over
      `[0, i)` finds `left`, the first position whose element is strictly
      greater than `key = data[i]`; `[left, i)` shifts one place right and
      `key` goes to `left`. */
  method BinaryInsertKey<T>(data: array<T>, key: T -> int, i: int)
    requires 1 <= i < data.Length
    requires Sorted(data[..i], key)
    modifies data
    ensures Sorted(data[..i + 1], key)
    ensures SameRuns(data[..], old(data[..]), key)
  {
    var n := data.Length;
    var x := data[i];
    ghost var s := data[..];
    var left := SearchInsertionPoint(data, key, i, x);
    var j := i;
    while j > left
      invariant left <= j <= i
      invariant forall m | 0 <= m <= j :: data[m] == s[m]
      invariant forall m | j < m <= i :: data[m] == s[m - 1]
      invariant forall m | i < m < n :: data[m] == s[m]
    {
      data[j] := data[j - 1];
      j := j - 1;
    }
    data[left] := x;
    InsertPass(data[..], s, key, i, left);
  }

  /** The binary search of `binaryInsertionSort`: `left = 0, right = i - 1`;
      `mid = left + (right - left) / 2` moves `left` past `mid` when
      `data[mid] <= key` and `right` before it otherwise. On an ascending
      prefix it returns the number of elements `<=` the key. */
  method SearchInsertionPoint<T>(data: array<T>, key: T -> int, i: int, x: T) returns (left: int)
    requires 0 <= i <= data.Length
    requires Sorted(data[..i], key)
    ensures 0 <= left <= i
    ensures forall m | 0 <= m < left :: key(data[m]) <= key(x)
    ensures forall m | left <= m < i :: key(data[m]) > key(x)
  {
    left := 0;
    var right := i - 1;
    while left <= right
      invariant 0 <= left <= right + 1 <= i
      invariant forall m | 0 <= m < left :: key(data[m]) <= key(x)
      invariant forall m | right < m < i :: key(data[m]) > key(x)
      decreases right - left
    {
      var mid := left + (right - left) / 2;
      assert data[..i][mid] == data[mid];
      if key(data[mid]) <= key(x) {
        assert forall m | 0 <= m < mid :: data[..i][m] == data[m];
        left := mid + 1;
      } else {
        assert forall m | mid < m < i :: data[..i][m] == data[m];
        right := mid - 1;
      }
    }
  }

  // ---------------------------------------------------------------------
  // Swapping and bounds under permutation

  /** `t` is `s` with slots `a` and `b` exchanged. */
  ghost predicate Swapped<T>(t: seq<T>, s: seq<T>, a: int, b: int) {
    && |t| == |s| && 0 <= a < |s| && 0 <= b < |s|
    && t[a] == s[b] && t[b] == s[a]
    && forall m | 0 <= m < |s| && m != a && m != b :: t[m] == s[m]
  }

  /** `std::swap` of two elements (and the three-assignment swaps of
      `heapSort` and `maxHeapify`): a permutation that exchanges two slots. */
  method Swap<T>(data: array<T>, a: int, b: int)
    requires 0 <= a < data.Length && 0 <= b < data.Length
    modifies data
    ensures Swapped(data[..], old(data[..]), a, b)
    ensures Permutes(data[..], old(data[..]))
  {
    data[a], data[b] := data[b], data[a];
    assert data[..] == old(data[..])[a := old(data[b])][b := old(data[a])];
  }

  /** Slots outside `[lo, hi)` are equal in `s` and `t`. */
  ghost predicate SameOutside<T>(s: seq<T>, t: seq<T>, lo: int, hi: int) {
    |s| == |t| && forall m | 0 <= m < |s| && !(lo <= m < hi) :: s[m] == t[m]
  }

  /** A permutation that leaves everything outside `[lo, hi)` in place
      permutes `[lo, hi)` itself. */
  lemma RangePermutes<T>(s: seq<T>, t: seq<T>, lo: int, hi: int)
    requires 0 <= lo <= hi <= |s|
    requires Permutes(t, s) && SameOutside(s, t, lo, hi)
    ensures multiset(t[lo..hi]) == multiset(s[lo..hi])
  {
    MultisetSplit(s, lo, hi);
    MultisetSplit(t, lo, hi);
    assert s[..lo] == t[..lo] && s[hi..] == t[hi..];
    var front, back := multiset(s[..lo]), multiset(s[hi..]);
    forall x
      ensures multiset(t[lo..hi])[x] == multiset(s[lo..hi])[x]
    {
      assert multiset(s)[x] == front[x] + multiset(s[lo..hi])[x] + back[x];
      assert multiset(t)[x] == front[x] + multiset(t[lo..hi])[x] + back[x];
    }
  }

  lemma MultisetSplit<T>(s: seq<T>, lo: int, hi: int)
    requires 0 <= lo <= hi <= |s|
    ensures multiset(s) == multiset(s[..lo]) + multiset(s[lo..hi]) + multiset(s[hi..])
  {
    assert s == s[..lo] + s[lo..hi] + s[hi..];
  }

  /** An upper bound on the keys of `[lo, hi)` survives a permutation of
      that range. */
  lemma RangeAtMost<T>(s: seq<T>, t: seq<T>, key: T -> int, lo: int, hi: int, bound: int)
    requires 0 <= lo <= hi <= |s|
    requires Permutes(t, s) && SameOutside(s, t, lo, hi)
    requires forall m | lo <= m < hi :: key(s[m]) <= bound
    ensures forall m | lo <= m < hi :: key(t[m]) <= bound
  {
    RangePermutes(s, t, lo, hi);
    forall m | lo <= m < hi
      ensures key(t[m]) <= bound
    {
      assert t[m] == t[lo..hi][m - lo];
      assert t[m] in multiset(s[lo..hi]);
      var k :| 0 <= k < hi - lo && s[lo..hi][k] == t[m];
      assert s[lo + k] == t[m];
    }
  }

  /** A strict lower bound on the keys of `[lo, hi)` survives a
      permutation of that range. */
  lemma RangeAbove<T>(s: seq<T>, t: seq<T>, key: T -> int, lo: int, hi: int, bound: int)
    requires 0 <= lo <= hi <= |s|
    requires Permutes(t, s) && SameOutside(s, t, lo, hi)
    requires forall m | lo <= m < hi :: key(s[m]) > bound
    ensures forall m | lo <= m < hi :: key(t[m]) > bound
  {
    RangePermutes(s, t, lo, hi);
    forall m | lo <= m < hi
      ensures key(t[m]) > bound
    {
      assert t[m] == t[lo..hi][m - lo];
      assert t[m] in multiset(s[lo..hi]);
      var k :| 0 <= k < hi - lo && s[lo..hi][k] == t[m];
      assert s[lo + k] == t[m];
    }
  }

  // ---------------------------------------------------------------------
  // Heap sort

  /** The parent slot of slot `c` in the implicit binary tree. */
  function Parent(c: int): int {
    (c - 1) / 2
  }

  /** The children of slot `k` are the slots `2k + 1` and `2k + 2`. */
  lemma ChildrenOf(k: int, c: int)
    requires 0 <= k && 0 < c
    ensures Parent(c) == k <==> (c == 2 * k + 1 || c == 2 * k + 2)
  {
  }

  /** Slot `c` is no greater than its parent. */
  ghost predicate BelowParent<T>(s: seq<T>, key: T -> int, c: int) {
    0 < c < |s| ==> key(s[c]) <= key(s[Parent(c)])
  }

  /** Max-heap order in `[0, n)` for every slot whose parent is `i` or
      later; with `i = 0` the whole of `[0, n)` is a max-heap. */
  ghost predicate HeapFrom<T>(s: seq<T>, key: T -> int, i: int, n: int) {
    forall c | 0 < c < n && Parent(c) >= i :: BelowParent(s, key, c)
  }

  /** Slot `m` lies in the subtree rooted at slot `r`. */
  ghost predicate Descends(m: int, r: int)
    decreases m
  {
    m == r || (0 <= r < m && Descends(Parent(m), r))
  }

  lemma {:induction false} DescendsThroughChild(m: int, c: int, r: int)
    requires 0 <= r < c && Parent(c) == r
    requires Descends(m, c)
    ensures Descends(m, r)
    decreases m
  {
    if m != c {
      DescendsThroughChild(Parent(m), c, r);
    }
  }

  /** In a max-heap the root is no less than any element: follow the
      parents up from `m`. */
  lemma {:induction false} RootIsMax<T>(s: seq<T>, key: T -> int, n: int, m: int)
    requires n <= |s| && HeapFrom(s, key, 0, n)
    requires 0 <= m < n
    ensures key(s[m]) <= key(s[0])
    decreases m
  {
    if m > 0 {
      assert BelowParent(s, key, m);
      RootIsMax(s, key, n, Parent(m));
    }
  }

  function Max(a: int, b: int): int {
    if a < b then b else a
  }

  /** The largest key among slot `i` and its children inside `[0, n)`. */
  ghost function FamilyMax<T>(s: seq<T>, key: T -> int, i: int, n: int): int
    requires 0 <= i < |s| && n <= |s|
  {
    var a := key(s[i]);
    var b := if 2 * i + 1 < n then Max(a, key(s[2 * i + 1])) else a;
    if 2 * i + 2 < n then Max(b, key(s[2 * i + 2])) else b
  }

  /** A family member whose key is no less than the others' carries the
      family maximum. */
  lemma LargestIsFamilyMax<T>(s: seq<T>, key: T -> int, i: int, n: int, largest: int)
    requires 0 <= i < n <= |s|
    requires largest == i || (largest == 2 * i + 1 && largest < n) || (largest == 2 * i + 2 && largest < n)
    requires key(s[i]) <= key(s[largest])
    requires 2 * i + 1 < n ==> key(s[2 * i + 1]) <= key(s[largest])
    requires 2 * i + 2 < n ==> key(s[2 * i + 2]) <= key(s[largest])
    ensures FamilyMax(s, key, i, n) == key(s[largest])
  {
  }

  /** A slot whose key bounds both children of `i` bounds every child of
      `i`. */
  lemma BoundsChildren<T>(s: seq<T>, key: T -> int, i: int, n: int, l: int)
    requires 0 <= i && n <= |s| && 0 <= l < |s|
    requires 2 * i + 1 < n ==> key(s[2 * i + 1]) <= key(s[l])
    requires 2 * i + 2 < n ==> key(s[2 * i + 2]) <= key(s[l])
    ensures forall c | 0 < c < n && Parent(c) == i :: key(s[c]) <= key(s[l])
  {
    forall c | 0 < c < n && Parent(c) == i
      ensures key(s[c]) <= key(s[l])
    {
      ChildrenOf(i, c);
    }
  }

  /** Swapping slot `i` with a child `l` leaves the order below `l`
      untouched. */
  lemma SwapKeepsLowerHeap<T>(s0: seq<T>, s1: seq<T>, key: T -> int, i: int, l: int, n: int)
    requires 0 <= i < l < n <= |s0| && Parent(l) == i
    requires Swapped(s1, s0, i, l)
    requires HeapFrom(s0, key, i + 1, n)
    ensures HeapFrom(s1, key, l + 1, n)
  {
    forall c | 0 < c < n && Parent(c) >= l + 1
      ensures BelowParent(s1, key, c)
    {
      assert BelowParent(s0, key, c);
    }
  }

  /** A slot of the subtree at `r` is not before `r`. */
  lemma {:induction false} DescendsIsLater(m: int, r: int)
    requires Descends(m, r)
    ensures r <= m
    decreases m
  {
    if m != r {
      DescendsIsLater(Parent(m), r);
    }
  }

  /** The slots that the sift-down below child `l` of `i` may move: only
      slots of the subtree at `i`. */
  lemma SiftDownFrame<T>(s0: seq<T>, s1: seq<T>, s2: seq<T>, i: int, l: int, n: int)
    requires 0 <= i < l < n <= |s0| && Parent(l) == i
    requires Swapped(s1, s0, i, l) && |s2| == |s0|
    requires forall m | 0 <= m < |s1| && !(m < n && Descends(m, l)) :: s2[m] == s1[m]
    ensures forall m | 0 <= m < |s0| && !(m < n && Descends(m, i)) :: s2[m] == s0[m]
  {
    assert Descends(l, i) by {
      assert Descends(Parent(l), i);
    }
    forall m | 0 <= m < |s0| && !(m < n && Descends(m, i))
      ensures s2[m] == s0[m]
    {
      if m < n && Descends(m, l) {
        DescendsThroughChild(m, l, i);
      }
    }
  }

  /** Only slots of the subtree at `r` inside `[0, n)` moved: then nothing
      outside `[r, n)` moved. */
  lemma SubtreeFrameIsRange<T>(s: seq<T>, t: seq<T>, r: int, n: int)
    requires |s| == |t|
    requires forall m | 0 <= m < |s| && !(m < n && Descends(m, r)) :: t[m] == s[m]
    ensures SameOutside(s, t, r, n)
  {
    forall m | 0 <= m < |s| && !(r <= m < n)
      ensures t[m] == s[m]
    {
      if m < n && Descends(m, r) {
        DescendsIsLater(m, r);
      }
    }
  }

  /** After the swap of `i` with its largest child `l` and the sift-down
      from `l`, the new key at `l` is no greater than the one at `i`. */
  lemma SiftDownTop<T>(s0: seq<T>, s1: seq<T>, s2: seq<T>, key: T -> int, i: int, l: int, n: int)
    requires 0 <= i < l < n <= |s0| && Parent(l) == i
    requires Swapped(s1, s0, i, l) && |s2| == |s0|
    requires HeapFrom(s0, key, i + 1, n)
    requires key(s0[i]) <= key(s0[l])
    requires key(s2[l]) == FamilyMax(s1, key, l, n)
    ensures key(s2[l]) <= key(s0[l])
  {
    ChildrenOf(l, 2 * l + 1);
    ChildrenOf(l, 2 * l + 2);
    if 2 * l + 1 < n {
      assert BelowParent(s0, key, 2 * l + 1);
    }
    if 2 * l + 2 < n {
      assert BelowParent(s0, key, 2 * l + 2);
    }
  }

  /** After the swap of `i` with its largest child `l` and the sift-down
      from `l`, the heap order reaches up to `i`. */
  lemma SiftDownJoin<T>(s0: seq<T>, s1: seq<T>, s2: seq<T>, key: T -> int, i: int, l: int, n: int)
    requires 0 <= i < l < n <= |s0| && Parent(l) == i
    requires Swapped(s1, s0, i, l) && |s2| == |s0|
    requires HeapFrom(s0, key, i + 1, n)
    requires forall c | 0 < c < n && Parent(c) == i :: key(s0[c]) <= key(s0[l])
    requires HeapFrom(s2, key, l, n)
    requires key(s2[l]) <= key(s0[l])
    requires forall m | 0 <= m < |s1| && !(m < n && Descends(m, l)) :: s2[m] == s1[m]
    ensures HeapFrom(s2, key, i, n)
  {
    assert !Descends(i, l);
    forall c | 0 < c < n && Parent(c) >= i
      ensures BelowParent(s2, key, c)
    {
      if Parent(c) >= l {
      } else if Parent(c) == i {
        if c != l {
          assert !Descends(c, l) by {
            if c > l {
              assert !Descends(Parent(c), l);
            }
          }
        }
      } else {
        assert !Descends(Parent(c), l);
        assert !Descends(c, l);
        assert BelowParent(s0, key, c);
      }
    }
  }

  /** `maxHeapify(data, i, heapSize)`: the larger of `i` and its children
      inside `heapSize` is found with `>`; if it is a child, the two swap
      and the child is heapified in turn. When the subtrees below `i` are
      max-heaps, afterwards the subtree at `i` is one, `i` holds the largest
      key of its family, and only slots of that subtree have moved. */
  method MaxHeapify<T>(data: array<T>, key: T -> int, i: int, heapSize: int)
    requires 0 <= i && heapSize <= data.Length
    requires HeapFrom(data[..], key, i + 1, heapSize)
    modifies data
    ensures HeapFrom(data[..], key, i, heapSize)
    ensures i < heapSize ==> key(data[i]) == FamilyMax(old(data[..]), key, i, heapSize)
    ensures Permutes(data[..], old(data[..]))
    ensures forall m | 0 <= m < data.Length && !(m < heapSize && Descends(m, i)) :: data[m] == old(data[m])
    decreases heapSize - i
  {
    var largest := i;
    var left := 2 * i + 1;
    var right := 2 * i + 2;
    if left < heapSize && key(data[left]) > key(data[largest]) {
      largest := left;
    }
    if right < heapSize && key(data[right]) > key(data[largest]) {
      largest := right;
    }
    ChildrenOf(i, left);
    ChildrenOf(i, right);
    if i < heapSize {
      LargestIsFamilyMax(data[..], key, i, heapSize, largest);
    }
    if largest != i {
      ghost var s0 := data[..];
      Swap(data, i, largest);
      ghost var s1 := data[..];
      SwapKeepsLowerHeap(s0, s1, key, i, largest, heapSize);
      MaxHeapify(data, key, largest, heapSize);
      ghost var s2 := data[..];
      SiftDownTop(s0, s1, s2, key, i, largest, heapSize);
      BoundsChildren(s0, key, i, heapSize, largest);
      SiftDownJoin(s0, s1, s2, key, i, largest, heapSize);
      SiftDownFrame(s0, s1, s2, i, largest, heapSize);
      assert !Descends(i, largest);
      assert data[i] == s0[largest];
    } else if i < heapSize {
      BoundsChildren(data[..], key, i, heapSize, i);
    }
  }

  /** Every slot of `[0, n)` has its parent before `n / 2`. */
  lemma ParentsBeforeHalf(n: int)
    ensures forall c | 0 < c < n :: Parent(c) < n / 2
  {
  }

  /** `buildMaxHeap`: heapifies `i = n/2 - 1` down to `0`, which makes the
      whole array a max-heap. */
  method BuildMaxHeap<T>(data: array<T>, key: T -> int)
    modifies data
    ensures HeapFrom(data[..], key, 0, data.Length)
    ensures Permutes(data[..], old(data[..]))
  {
    var n := data.Length;
    var i := n / 2 - 1;
    ParentsBeforeHalf(n);
    while i >= 0
      invariant -1 <= i <= n / 2 - 1
      invariant HeapFrom(data[..], key, i + 1, n)
      invariant Permutes(data[..], old(data[..]))
    {
      MaxHeapify(data, key, i, n);
      i := i - 1;
    }
  }

  /** Slots `[lo, hi)` are in ascending key order. */
  ghost predicate SortedBetween<T>(s: seq<T>, key: T -> int, lo: int, hi: int) {
    forall a, b | lo <= a < b < hi && 0 <= a && b < |s| :: key(s[a]) <= key(s[b])
  }

  /** The state of `heapSort` before the round for slot `i`: `[0, i]` is a
      max-heap, `(i, n)` is ascending, and no key in `[0, i]` exceeds the
      first key of `(i, n)`. */
  ghost predicate HeapSortState<T>(s: seq<T>, key: T -> int, i: int) {
    && 0 <= i < |s|
    && HeapFrom(s, key, 0, i + 1)
    && SortedBetween(s, key, i + 1, |s|)
    && (i + 1 < |s| ==> forall m | 0 <= m <= i :: key(s[m]) <= key(s[i + 1]))
  }

  /** One round of `heapSort`: the root of the max-heap `[0, i]` is swapped
      to slot `i` and `[0, i)` is heapified again. The sorted tail grows by
      one slot, which bounds everything before it. */
  lemma HeapSortStep<T>(s0: seq<T>, s1: seq<T>, s2: seq<T>, key: T -> int, i: int)
    requires 1 <= i && HeapSortState(s0, key, i)
    requires Swapped(s1, s0, 0, i)
    requires Permutes(s2, s1) && SameOutside(s1, s2, 0, i)
    requires HeapFrom(s2, key, 0, i)
    ensures HeapSortState(s2, key, i - 1)
  {
    forall m | 0 <= m <= i
      ensures key(s0[m]) <= key(s0[0])
    {
      RootIsMax(s0, key, i + 1, m);
    }
    RangeAtMost(s1, s2, key, 0, i, key(s0[0]));
  }

  /** Once the heap is down to slot 0, the whole array is ascending. */
  lemma HeapSortDone<T>(s: seq<T>, key: T -> int)
    requires HeapSortState(s, key, 0)
    ensures Sorted(s, key)
  {
  }

  /** `heapSort`: builds a max-heap, then for `i = n - 1` down to `1` swaps
      the root into slot `i` and heapifies `[0, i)`. The result is ascending
      and a permutation of the input. */
  method HeapSort<T>(data: array<T>, key: T -> int)
    modifies data
    ensures Sorted(data[..], key)
    ensures Permutes(data[..], old(data[..]))
  {
    var n := data.Length;
    BuildMaxHeap(data, key);
    if n == 0 {
      return;
    }
    var i := n - 1;
    while i >= 1
      invariant 0 <= i < n
      invariant HeapSortState(data[..], key, i)
      invariant Permutes(data[..], old(data[..]))
    {
      HeapSortRound(data, key, i);
      i := i - 1;
    }
    HeapSortDone(data[..], key);
  }

  /** The body of the loop of `heapSort` for slot `i`. */
  method HeapSortRound<T>(data: array<T>, key: T -> int, i: int)
    requires 1 <= i && HeapSortState(data[..], key, i)
    modifies data
    ensures HeapSortState(data[..], key, i - 1)
    ensures Permutes(data[..], old(data[..]))
  {
    ghost var s0 := data[..];
    Swap(data, 0, i);
    ghost var s1 := data[..];
    MaxHeapify(data, key, 0, i);
    SubtreeFrameIsRange(s1, data[..], 0, i);
    HeapSortStep(s0, s1, data[..], key, i);
  }

  // ---------------------------------------------------------------------
  // Quick sort

  /** `partition(data, l, r)`: a pivot index drawn uniformly from `[l, r]`
      (here any index in that range) is swapped to `r`; elements `<=` the
      pivot are swapped to the front; the pivot is swapped to just after
      them and its slot is returned. Only `[l, r]` is rearranged. */
  method Partition<T>(data: array<T>, key: T -> int, l: int, r: int) returns (p: int)
    requires 0 <= l <= r < data.Length
    modifies data
    ensures l <= p <= r
    ensures forall m | l <= m < p :: key(data[m]) <= key(data[p])
    ensures forall m | p < m <= r :: key(data[m]) > key(data[p])
    ensures Permutes(data[..], old(data[..]))
    ensures SameOutside(data[..], old(data[..]), l, r + 1)
  {
    var pivotIndex :| l <= pivotIndex <= r;
    Swap(data, pivotIndex, r);
    var pivot := data[r];
    var i := l - 1;
    var j := l;
    while j < r
      invariant l <= j <= r && l - 1 <= i < j
      invariant data[r] == pivot
      invariant forall m | l <= m <= i :: key(data[m]) <= key(pivot)
      invariant forall m | i < m < j :: key(data[m]) > key(pivot)
      invariant Permutes(data[..], old(data[..]))
      invariant SameOutside(data[..], old(data[..]), l, r + 1)
    {
      if key(data[j]) <= key(pivot) {
        i := i + 1;
        Swap(data, i, j);
      }
      j := j + 1;
    }
    Swap(data, i + 1, r);
    p := i + 1;
  }

  /** After partitioning around slot `p` and sorting both sides, all of
      `[l, r]` is ascending. */
  lemma QuickSortJoin<T>(s0: seq<T>, s1: seq<T>, s2: seq<T>, key: T -> int, l: int, p: int, r: int)
    requires 0 <= l <= p <= r < |s0|
    requires forall m | l <= m < p :: key(s0[m]) <= key(s0[p])
    requires forall m | p < m <= r :: key(s0[m]) > key(s0[p])
    requires Permutes(s1, s0) && SameOutside(s0, s1, l, p)
    requires SortedBetween(s1, key, l, p)
    requires Permutes(s2, s1) && SameOutside(s1, s2, p + 1, r + 1)
    requires SortedBetween(s2, key, p + 1, r + 1)
    ensures SortedBetween(s2, key, l, r + 1)
  {
    RangeAtMost(s0, s1, key, l, p, key(s0[p]));
    RangeAbove(s1, s2, key, p + 1, r + 1, key(s0[p]));
  }

  /** `recurciveQuickSort(data, l, r)`: for `l < r`, partitions and sorts
      both sides; it rearranges only `[l, r]` and leaves it ascending. */
  method RecursiveQuickSort<T>(data: array<T>, key: T -> int, l: int, r: int)
    requires l < r ==> 0 <= l && r < data.Length
    modifies data
    ensures SortedBetween(data[..], key, l, r + 1)
    ensures Permutes(data[..], old(data[..]))
    ensures SameOutside(data[..], old(data[..]), l, r + 1)
    decreases r - l
  {
    if l < r {
      var p := Partition(data, key, l, r);
      ghost var s0 := data[..];
      RecursiveQuickSort(data, key, l, p - 1);
      ghost var s1 := data[..];
      RecursiveQuickSort(data, key, p + 1, r);
      QuickSortJoin(s0, s1, data[..], key, l, p, r);
    }
  }

  /** `quickSort`: nothing for fewer than two elements, otherwise
      `recurciveQuickSort(0, n - 1)`. Whatever pivots are drawn, the result
      is ascending and a permutation of the input. */
  method QuickSort<T>(data: array<T>, key: T -> int)
    modifies data
    ensures Sorted(data[..], key)
    ensures Permutes(data[..], old(data[..]))
  {
    if data.Length > 1 {
      RecursiveQuickSort(data, key, 0, data.Length - 1);
    }
  }
}
