/** The binary min-heap `MinHeap<T>` (src/HeapImpl/MinHeap.hpp), as the
    core instantiates it: over `(distance, vertex)` pairs compared with the
    lexicographic `<` of `std::pair`. */
module MinHeaps {

  import opened Vektors

  /** A `std::pair<int, int>` holding `(distance, vertex)`. */
  type Entry = (int, int)

  /** `std::pair::operator<`: first components, then second components. */
  predicate Less(a: Entry, b: Entry) {
    a.0 < b.0 || (a.0 == b.0 && a.1 < b.1)
  }

  /** The parent index of a heap slot. */
  function Parent(i: int): int {
    (i - 1) / 2
  }

  /** Slot `i` is no less than its parent. */
  ghost predicate ParentOk(h: seq<Entry>, i: int) {
    0 < i < |h| ==> !Less(h[i], h[Parent(i)])
  }

  /** Heap order: no element is `<` its parent. */
  ghost predicate HeapOrdered(h: seq<Entry>) {
    forall i | 0 < i < |h| :: ParentOk(h, i)
  }

  /** Under heap order the root is `<=` every element: follow the parents
      from `i` up to the root. */
  lemma {:induction false} RootIsLeast(h: seq<Entry>, i: int)
    requires HeapOrdered(h)
    requires 0 <= i < |h|
    ensures !Less(h[i], h[0])
    decreases i
  {
    if i > 0 {
      assert ParentOk(h, i);
      RootIsLeast(h, Parent(i));
    }
  }

  /** Heap order holds everywhere except, possibly, between `k` and its
      parent; the parent of `k` is no greater than `k`'s children. This is
      what sifting up maintains. */
  ghost predicate OrderedExceptAt(h: seq<Entry>, k: int) {
    && 0 <= k < |h|
    && (forall i | 0 < i < |h| && i != k :: ParentOk(h, i))
    && (k > 0 ==> forall i | 0 < i < |h| && Parent(i) == k :: !Less(h[i], h[Parent(k)]))
  }

  /** Heap order holds everywhere except, possibly, between `k` and its
      children; the parent of `k` is no greater than `k`'s children. This is
      what sifting down maintains. */
  ghost predicate OrderedBelowExcept(h: seq<Entry>, k: int) {
    && 0 <= k < |h|
    && (forall i | 0 < i < |h| && Parent(i) != k :: ParentOk(h, i))
    && (k > 0 ==> forall i | 0 < i < |h| && Parent(i) == k :: !Less(h[i], h[Parent(k)]))
  }

  function Swap(h: seq<Entry>, a: int, b: int): (r: seq<Entry>)
    requires 0 <= a < |h| && 0 <= b < |h|
    ensures |r| == |h| && multiset(r) == multiset(h)
  {
    h[a := h[b]][b := h[a]]
  }

  /** One step of `heapifyUp`: swapping `k` with a greater parent moves the
      fault one level up. */
  lemma SiftUpStep(h: seq<Entry>, k: int)
    requires OrderedExceptAt(h, k) && k > 0
    requires Less(h[k], h[Parent(k)])
    ensures OrderedExceptAt(Swap(h, k, Parent(k)), Parent(k))
  {
    var p := Parent(k);
    var h' := Swap(h, k, p);
    forall i | 0 < i < |h'| && i != p
      ensures ParentOk(h', i)
    {
      if i == k {
      } else if Parent(i) == k {
      } else if Parent(i) == p {
        assert ParentOk(h, i);
      } else {
        assert ParentOk(h, i);
      }
    }
    if p > 0 {
      forall i | 0 < i < |h'| && Parent(i) == p
        ensures !Less(h'[i], h'[Parent(p)])
      {
        assert ParentOk(h, p);
        if i != k {
          assert ParentOk(h, i);
        }
      }
    }
  }

  /** One step of `heapifyDown`: swapping `k` with its smallest child, when
      that child is `<` it, moves the fault one level down. */
  lemma SiftDownStep(h: seq<Entry>, k: int, s: int)
    requires OrderedBelowExcept(h, k)
    requires 0 < s < |h| && Parent(s) == k
    requires Less(h[s], h[k])
    requires forall c | 0 < c < |h| && Parent(c) == k :: !Less(h[c], h[s])
    ensures OrderedBelowExcept(Swap(h, k, s), s)
  {
    var h' := Swap(h, k, s);
    forall i | 0 < i < |h'| && Parent(i) != s
      ensures ParentOk(h', i)
    {
      if i == s {
      } else if Parent(i) == k {
      } else if i == k {
      } else {
        assert ParentOk(h, i);
      }
    }
    forall i | 0 < i < |h'| && Parent(i) == s
      ensures !Less(h'[i], h'[Parent(s)])
    {
      assert ParentOk(h, i);
    }
  }

  /** The last element moved to the root and the end dropped: exactly one
      copy of the old root goes, and only the new root may be out of
      order. */
  lemma RemoveRoot(h: seq<Entry>)
    requires HeapOrdered(h) && |h| > 0
    ensures var r := h[0 := h[|h| - 1]][..|h| - 1];
            && multiset(r) == multiset(h) - multiset{h[0]}
            && (|r| > 0 ==> OrderedBelowExcept(r, 0))
  {
    var last := |h| - 1;
    var r := h[0 := h[last]][..last];
    assert h == [h[0]] + h[1..];
    if last > 0 {
      assert r == [h[last]] + h[1..last];
      assert h[1..] == h[1..last] + [h[last]];
      forall i | 0 < i < |r| && Parent(i) != 0
        ensures ParentOk(r, i)
      {
        assert ParentOk(h, i);
      }
    } else {
      assert r == [];
    }
  }

  /** A slot no greater than either child of `k` is no greater than any
      child of `k`. */
  lemma LeastOfChildren(h: seq<Entry>, k: int, s: int)
    requires 0 <= k && 0 <= s < |h|
    requires 2 * k + 1 < |h| ==> !Less(h[2 * k + 1], h[s])
    requires 2 * k + 2 < |h| ==> !Less(h[2 * k + 2], h[s])
    ensures forall c | 0 < c < |h| && Parent(c) == k :: !Less(h[c], h[s])
  {
    forall c | 0 < c < |h| && Parent(c) == k
      ensures !Less(h[c], h[s])
    {
      ChildrenOf(k, c);
    }
  }

  /** When the children of the faulty slot are no smaller than it, the
      whole sequence is in heap order. */
  lemma SettledAt(h: seq<Entry>, k: int)
    requires OrderedBelowExcept(h, k)
    requires forall c | 0 < c < |h| && Parent(c) == k :: !Less(h[c], h[k])
    ensures HeapOrdered(h)
  {
    forall i | 0 < i < |h|
      ensures ParentOk(h, i)
    {
    }
  }

  /** The children of slot `k` are the slots `2k + 1` and `2k + 2`. */
  lemma ChildrenOf(k: int, i: int)
    requires 0 <= k && 0 < i
    ensures Parent(i) == k <==> (i == 2 * k + 1 || i == 2 * k + 2)
  {
  }

  class MinHeap {
    /** The `heap` Vektor, as the sequence of its elements. */
    var heap: seq<Entry>

    ghost predicate Valid()
      reads this
    {
      HeapOrdered(heap)
    }

    constructor ()
      ensures Valid() && heap == []
    {
      heap := [];
    }

    /** `empty()`. */
    method Empty() returns (b: bool)
      ensures b <==> |heap| == 0
    {
      b := |heap| == 0;
    }

    /** `size()`. */
    method Size() returns (n: int)
      ensures n == |heap|
    {
      n := |heap|;
    }

    /** `top()`: `heap[0]`, which the bounds check of `operator[]` rejects
        with `out_of_range` on an empty heap; otherwise it is no greater than
        any stored element. */
    method Top() returns (r: Access<Entry>)
      requires Valid()
      ensures |heap| == 0 ==> r == OutOfRange
      ensures |heap| > 0 ==> r == Value(heap[0])
      ensures r.Value? ==> forall i | 0 <= i < |heap| :: !Less(heap[i], r.x)
    {
      if |heap| == 0 {
        return OutOfRange;
      }
      r := Value(heap[0]);
      forall i | 0 <= i < |heap|
        ensures !Less(heap[i], heap[0])
      {
        RootIsLeast(heap, i);
      }
    }

    /** `push(value)`: append, then sift up. Exactly one element is added
        and heap order is restored. */
    method Push(value: Entry)
      requires Valid()
      modifies this
      ensures Valid()
      ensures multiset(heap) == old(multiset(heap)) + multiset{value}
      ensures |heap| == old(|heap|) + 1
    {
      heap := heap + [value];
      assert forall i | 0 < i < |heap| - 1 :: ParentOk(heap, i) by {
        forall i | 0 < i < |heap| - 1
          ensures ParentOk(heap, i)
        {
          assert ParentOk(old(heap), i);
        }
      }
      HeapifyUp(|heap| - 1);
    }

    /** `pop()`: on an empty heap nothing happens; otherwise the last
        element replaces the root, is removed from the end, and is sifted
        down. Exactly one copy of the old root goes. */
    method Pop()
      requires Valid()
      modifies this
      ensures Valid()
      ensures old(|heap|) == 0 ==> heap == old(heap)
      ensures old(|heap|) > 0 ==>
                multiset(heap) == old(multiset(heap)) - multiset{old(heap[0])}
                && |heap| == old(|heap|) - 1
    {
      if |heap| == 0 {
        return;
      }
      var last := |heap| - 1;
      RemoveRoot(heap);
      heap := heap[0 := heap[last]];
      heap := heap[..last];
      if last > 0 {
        HeapifyDown(0);
      }
    }

    /** `heapifyUp(index)`: swaps the element at `index` with its parent
        while it is `<` the parent. */
    method HeapifyUp(index: int)
      requires OrderedExceptAt(heap, index)
      modifies this
      ensures Valid()
      ensures multiset(heap) == old(multiset(heap)) && |heap| == old(|heap|)
    {
      var k := index;
      while k > 0
        invariant OrderedExceptAt(heap, k)
        invariant multiset(heap) == old(multiset(heap)) && |heap| == old(|heap|)
      {
        var parent := Parent(k);
        if Less(heap[k], heap[parent]) {
          SiftUpStep(heap, k);
          heap := Swap(heap, k, parent);
          k := parent;
        } else {
          break;
        }
      }
    }

    /** `heapifyDown(index)`: swaps the element at `index` with its smaller
        child while that child is `<` it. */
    method HeapifyDown(index: int)
      requires OrderedBelowExcept(heap, index)
      modifies this
      ensures Valid()
      ensures multiset(heap) == old(multiset(heap)) && |heap| == old(|heap|)
    {
      var n := |heap|;
      var k := index;
      while true
        invariant OrderedBelowExcept(heap, k) && n == |heap|
        invariant multiset(heap) == old(multiset(heap))
        decreases n - k
      {
        var smallest := k;
        var left := 2 * k + 1;
        var right := 2 * k + 2;
        if left < n && Less(heap[left], heap[smallest]) {
          smallest := left;
        }
        if right < n && Less(heap[right], heap[smallest]) {
          smallest := right;
        }
        LeastOfChildren(heap, k, smallest);
        if smallest == k {
          SettledAt(heap, k);
          break;
        }
        ChildrenOf(k, smallest);
        SiftDownStep(heap, k, smallest);
        heap := Swap(heap, k, smallest);
        k := smallest;
      }
    }
  }
}
