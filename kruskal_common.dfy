/** What the two Kruskal solvers (src/GraphsAlgorithms/MSTProblem/
    KruskalList.hpp and KruskalMatrix.hpp) share: the undirected edge list
    without repeated vertex pairs that their `extractUniqueEdges` /
    `extractAllEdges` build, and the selection loop of `findMST` over the
    edges sorted by weight, with a `UnionJoinSet` telling the components
    apart. */
module KruskalCommon {
  import opened EdgeTriples
  import opened MstCommon
  import opened UnionFind
  import opened AlgorithmsUtils
  import opened SortAlgorithms

  // ---------------------------------------------------------------------
  // Undirected edges without repeated pairs
  // ---------------------------------------------------------------------

  /** `{std::min(u, v), std::max(u, v), w}`. */
  function Normalized(u: int, v: int, w: int): (t: EdgeTriple)
    ensures t.from <= t.to && t.weight == w
    ensures (t.from == u && t.to == v) || (t.from == v && t.to == u)
  {
    if u <= v then EdgeTriple(u, v, w) else EdgeTriple(v, u, w)
  }

  /** Same vertex pair, whatever the weights. */
  predicate SamePair(a: EdgeTriple, b: EdgeTriple) {
    a.from == b.from && a.to == b.to
  }

  /** Some edge of `es` has the pair of `t`. */
  predicate PairIn(es: seq<EdgeTriple>, t: EdgeTriple) {
    exists i | 0 <= i < |es| :: SamePair(es[i], t)
  }

  /** One offered edge: kept unless its pair was kept before. */
  function DedupStep(kept: seq<EdgeTriple>, t: EdgeTriple): seq<EdgeTriple> {
    if PairIn(kept, t) then kept else kept + [t]
  }

  /** The edges kept from the offers `c`, in order: the first offer of
      every pair. */
  function Dedup(c: seq<EdgeTriple>): seq<EdgeTriple> {
    if c == [] then [] else DedupStep(Dedup(c[..|c| - 1]), c[|c| - 1])
  }

  lemma DedupAppend(c: seq<EdgeTriple>, t: EdgeTriple)
    ensures Dedup(c + [t]) == DedupStep(Dedup(c), t)
  {
    assert (c + [t])[..|c|] == c;
  }

  /** `seenPairs` lists the pairs of the kept edges, in the same order. */
  ghost predicate PairsOf(seen: seq<(int, int)>, kept: seq<EdgeTriple>) {
    |seen| == |kept| && forall j | 0 <= j < |seen| :: seen[j] == (kept[j].from, kept[j].to)
  }

  /** The kept edges have pairwise different pairs, each comes from the
      offers, and every offered pair is kept. */
  lemma {:induction false} DedupMeaning(c: seq<EdgeTriple>)
    ensures forall i, j | 0 <= i < j < |Dedup(c)| :: !SamePair(Dedup(c)[i], Dedup(c)[j])
    ensures forall t | t in Dedup(c) :: t in c
    ensures forall k | 0 <= k < |c| :: PairIn(Dedup(c), c[k])
  {
    if c != [] {
      var pre := c[..|c| - 1];
      var t := c[|c| - 1];
      DedupMeaning(pre);
      var r := Dedup(pre);
      assert Dedup(c) == DedupStep(r, t);
      forall k | 0 <= k < |c|
        ensures PairIn(Dedup(c), c[k])
      {
        if k < |pre| {
          assert c[k] == pre[k];
          var i :| 0 <= i < |r| && SamePair(r[i], pre[k]);
          assert Dedup(c)[i] == r[i];
        } else if !PairIn(r, t) {
          assert Dedup(c)[|r|] == t;
        }
      }
    }
  }

  /** Every kept edge is the first offer of its pair. */
  lemma {:induction false} DedupKeepsFirst(c: seq<EdgeTriple>, i: int)
    requires 0 <= i < |Dedup(c)|
    ensures exists k | 0 <= k < |c| :: c[k] == Dedup(c)[i] && forall j | 0 <= j < k :: !SamePair(c[j], c[k])
  {
    var pre := c[..|c| - 1];
    var t := c[|c| - 1];
    var r := Dedup(pre);
    DedupMeaning(pre);
    if i < |r| {
      DedupKeepsFirst(pre, i);
      var k :| 0 <= k < |pre| && pre[k] == r[i] && forall j | 0 <= j < k :: !SamePair(pre[j], pre[k]);
      assert c[k] == Dedup(c)[i];
      forall j | 0 <= j < k
        ensures !SamePair(c[j], c[k])
      {
        assert c[j] == pre[j];
      }
    } else {
      assert Dedup(c)[i] == t && !PairIn(r, t);
      forall j | 0 <= j < |pre|
        ensures !SamePair(c[j], t)
      {
        assert c[j] == pre[j];
      }
    }
  }

  /** The inner search of the extraction: is `(a, b)` among the pairs seen
      so far? */
  method PairSeen(seen: seq<(int, int)>, a: int, b: int) returns (found: bool)
    ensures found <==> exists j | 0 <= j < |seen| :: seen[j] == (a, b)
  {
    found := false;
    var j := 0;
    while j < |seen|
      invariant 0 <= j <= |seen|
      invariant forall k | 0 <= k < j :: seen[k] != (a, b)
    {
      if seen[j].0 == a && seen[j].1 == b {
        found := true;
        break;
      }
      j := j + 1;
    }
  }

  /** One offered edge `{a, b, w}` with `a <= b`: pushed to `edges` and its
      pair to `seenPairs` unless the pair was seen. */
  method Offer(edges: seq<EdgeTriple>, seen: seq<(int, int)>, t: EdgeTriple)
      returns (edges': seq<EdgeTriple>, seen': seq<(int, int)>)
    requires PairsOf(seen, edges)
    ensures edges' == DedupStep(edges, t) && PairsOf(seen', edges')
  {
    var found := PairSeen(seen, t.from, t.to);
    if found {
      var j :| 0 <= j < |seen| && seen[j] == (t.from, t.to);
      assert SamePair(edges[j], t);
      edges', seen' := edges, seen;
    } else {
      assert !PairIn(edges, t) by {
        forall j | 0 <= j < |edges|
          ensures !SamePair(edges[j], t)
        {
          assert seen[j] == (edges[j].from, edges[j].to);
        }
      }
      edges', seen' := edges + [t], seen + [(t.from, t.to)];
    }
  }

  // ---------------------------------------------------------------------
  // Components as labels
  // ---------------------------------------------------------------------

  /** Every element labelled `a` gets label `b`. */
  function Relabel(labels: seq<int>, a: int, b: int): (r: seq<int>)
    ensures |r| == |labels|
    ensures forall i | 0 <= i < |r| :: r[i] == if labels[i] == a then b else labels[i]
  {
    seq(|labels|, i requires 0 <= i < |labels| => if labels[i] == a then b else labels[i])
  }

  /** The label of each vertex after the edges `es` were accepted, as the
      union-find roots record it: at first every vertex is its own label;
      accepting `e` moves the whole class of `e.from` to the label of
      `e.to`, as `unite(e.from, e.to)` does. */
  function Labels(n: nat, es: seq<EdgeTriple>): (labels: seq<int>)
    requires EndsInRange(es, n)
    ensures |labels| == n
  {
    if es == [] then seq(n, i => i)
    else
      var pre := Labels(n, es[..|es| - 1]);
      var e := es[|es| - 1];
      Relabel(pre, pre[e.from], pre[e.to])
  }

  /** Accepting `e` relabels the class of `e.from`. */
  lemma LabelsAppend(n: nat, es: seq<EdgeTriple>, e: EdgeTriple)
    requires EndsInRange(es, n) && 0 <= e.from < n && 0 <= e.to < n
    ensures EndsInRange(es + [e], n)
    ensures var before := Labels(n, es);
            forall v | 0 <= v < n ::
              Labels(n, es + [e])[v] == if before[v] == before[e.from] then before[e.to] else before[v]
  {
    assert (es + [e])[..|es|] == es;
  }

  /** Accepting `e` merges exactly the classes of its two ends: two vertices
      share a label afterwards exactly when they shared one before or lay
      in the two merged classes. */
  lemma LabelsMerge(n: nat, es: seq<EdgeTriple>, e: EdgeTriple, x: int, y: int)
    requires EndsInRange(es, n) && 0 <= e.from < n && 0 <= e.to < n
    requires 0 <= x < n && 0 <= y < n
    ensures EndsInRange(es + [e], n)
    ensures var before := Labels(n, es);
            var after := Labels(n, es + [e]);
            after[x] == after[y] <==>
              || before[x] == before[y]
              || (before[x] == before[e.from] && before[y] == before[e.to])
              || (before[x] == before[e.to] && before[y] == before[e.from])
  {
    assert (es + [e])[..|es|] == es;
  }

  /** The two ends of every accepted edge end up in one class. */
  lemma {:induction false} LabelsJoinEdges(n: nat, es: seq<EdgeTriple>)
    requires EndsInRange(es, n)
    ensures forall k | 0 <= k < |es| :: Labels(n, es)[es[k].from] == Labels(n, es)[es[k].to]
  {
    if es != [] {
      var pre := es[..|es| - 1];
      LabelsJoinEdges(n, pre);
      forall k | 0 <= k < |es|
        ensures Labels(n, es)[es[k].from] == Labels(n, es)[es[k].to]
      {
        assert es == pre + [es[|es| - 1]];
        LabelsMerge(n, pre, es[|es| - 1], es[k].from, es[k].to);
        if k < |pre| {
          assert es[k] == pre[k];
        }
      }
    }
  }

  // ---------------------------------------------------------------------
  // The selection loop of `findMST`
  // ---------------------------------------------------------------------

  /** The edges `findMST` keeps from `es` in order: an edge goes in while
      fewer than V - 1 are in and its ends lie in different classes. */
  function KruskalPick(n: nat, es: seq<EdgeTriple>): (r: seq<EdgeTriple>)
    requires EndsInRange(es, n)
    ensures EndsInRange(r, n)
    ensures forall t | t in r :: t in es
  {
    if es == [] then []
    else
      var m := KruskalPick(n, es[..|es| - 1]);
      var e := es[|es| - 1];
      if |m| < n - 1 && Labels(n, m)[e.from] != Labels(n, m)[e.to] then m + [e] else m
  }

  /** At most V - 1 edges, none when there is no vertex; and once V - 1
      edges are in, later edges change nothing. */
  lemma {:induction false} KruskalPickSize(n: nat, es: seq<EdgeTriple>, i: int)
    requires EndsInRange(es, n) && 0 <= i <= |es|
    ensures |KruskalPick(n, es)| <= if n == 0 then 0 else n - 1
    ensures |KruskalPick(n, es[..i])| >= n - 1 ==> KruskalPick(n, es) == KruskalPick(n, es[..i])
  {
    if es != [] {
      var pre := es[..|es| - 1];
      if i == |es| {
        assert es[..i] == es;
        KruskalPickSize(n, pre, |pre|);
      } else {
        assert pre[..i] == es[..i];
        KruskalPickSize(n, pre, i);
      }
    }
  }

  /** A forest: every kept edge joined two different classes of the edges
      kept before it. */
  lemma {:induction false} KruskalPickIsForest(n: nat, es: seq<EdgeTriple>, k: int)
    requires EndsInRange(es, n) && 0 <= k < |KruskalPick(n, es)|
    ensures var r := KruskalPick(n, es);
            EndsInRange(r[..k], n) && Labels(n, r[..k])[r[k].from] != Labels(n, r[..k])[r[k].to]
  {
    var pre := es[..|es| - 1];
    var e := es[|es| - 1];
    var m := KruskalPick(n, pre);
    var r := KruskalPick(n, es);
    if k < |m| {
      KruskalPickIsForest(n, pre, k);
      assert r[..k] == m[..k] && r[k] == m[k] by {
        if r != m {
          assert r == m + [e];
        }
      }
    } else {
      assert r == m + [e] && r[..k] == m && r[k] == e;
    }
  }

  /** Ordered by weight when the input is. */
  lemma {:induction false} KruskalPickSorted(n: nat, es: seq<EdgeTriple>)
    requires EndsInRange(es, n) && Sorted(es, WeightKey)
    ensures Sorted(KruskalPick(n, es), WeightKey)
  {
    if es != [] {
      var pre := es[..|es| - 1];
      var e := es[|es| - 1];
      var m := KruskalPick(n, pre);
      KruskalPickSorted(n, pre);
      forall t | t in m
        ensures t.weight <= e.weight
      {
        var j :| 0 <= j < |pre| && pre[j] == t;
        assert es[j] == t;
      }
    }
  }

  /** Spanning: when fewer than V - 1 edges were kept, the two ends of every
      input edge lie in one class of the kept edges. */
  lemma {:induction false} KruskalPickSpans(n: nat, es: seq<EdgeTriple>)
    requires EndsInRange(es, n)
    ensures var r := KruskalPick(n, es);
            |r| < n - 1 ==> forall k | 0 <= k < |es| :: Labels(n, r)[es[k].from] == Labels(n, r)[es[k].to]
  {
    if es != [] {
      var pre := es[..|es| - 1];
      var e := es[|es| - 1];
      var m := KruskalPick(n, pre);
      var r := KruskalPick(n, es);
      KruskalPickSpans(n, pre);
      if |r| < n - 1 {
        forall k | 0 <= k < |es|
          ensures Labels(n, r)[es[k].from] == Labels(n, r)[es[k].to]
        {
          if k < |pre| {
            assert es[k] == pre[k];
            if r != m {
              LabelsKeepJoined(n, m, e, es[k]);
            }
          } else if r != m {
            LabelsJoinLast(n, m, e);
          }
        }
      }
    }
  }

  /** Accepting an edge keeps the ends of `t` in one class. */
  lemma LabelsKeepJoined(n: nat, es: seq<EdgeTriple>, e: EdgeTriple, t: EdgeTriple)
    requires EndsInRange(es, n) && 0 <= e.from < n && 0 <= e.to < n
    requires 0 <= t.from < n && 0 <= t.to < n
    requires Labels(n, es)[t.from] == Labels(n, es)[t.to]
    ensures EndsInRange(es + [e], n)
    ensures Labels(n, es + [e])[t.from] == Labels(n, es + [e])[t.to]
  {
    LabelsMerge(n, es, e, t.from, t.to);
  }

  /** Accepting `e` puts its two ends in one class. */
  lemma LabelsJoinLast(n: nat, es: seq<EdgeTriple>, e: EdgeTriple)
    requires EndsInRange(es, n) && 0 <= e.from < n && 0 <= e.to < n
    ensures EndsInRange(es + [e], n)
    ensures Labels(n, es + [e])[e.from] == Labels(n, es + [e])[e.to]
  {
    LabelsMerge(n, es, e, e.from, e.to);
  }

  /** The union-find roots are the labels of the accepted edges `mst`. */
  ghost predicate Tracks(unionJoinSet: UnionJoinSet, n: nat, mst: seq<EdgeTriple>)
    reads unionJoinSet, unionJoinSet.parent
  {
    && unionJoinSet.Valid() && unionJoinSet.parent.Length == n && EndsInRange(mst, n)
    && forall v | 0 <= v < n :: unionJoinSet.Root(v) == Labels(n, mst)[v]
  }

  /** One more edge of the sorted input, as `KruskalPick` takes it. */
  lemma KruskalPickAppend(n: nat, es: seq<EdgeTriple>, i: int)
    requires EndsInRange(es, n) && 0 <= i < |es|
    ensures var m := KruskalPick(n, es[..i]);
            var e := es[i];
            KruskalPick(n, es[..i + 1])
            == if |m| < n - 1 && Labels(n, m)[e.from] != Labels(n, m)[e.to] then m + [e] else m
  {
    assert es[..i + 1][..i] == es[..i];
  }

  /** The loop of `findMST` over the sorted edges: `find` both ends, keep
      the edge and `unite` them when the roots differ, until V - 1 edges
      are in. */
  method SelectForest(n: nat, sorted: seq<EdgeTriple>) returns (mst: seq<EdgeTriple>)
    requires EndsInRange(sorted, n)
    ensures mst == KruskalPick(n, sorted)
  {
    var unionJoinSet := new UnionJoinSet(n);
    mst := [];
    var i := 0;
    while i < |sorted| && |mst| < n - 1
      invariant 0 <= i <= |sorted|
      invariant fresh(unionJoinSet.parent)
      invariant mst == KruskalPick(n, sorted[..i])
      invariant Tracks(unionJoinSet, n, mst)
    {
      KruskalPickAppend(n, sorted, i);
      mst := KruskalStep(unionJoinSet, n, mst, sorted[i]);
      i := i + 1;
    }
    KruskalPickSize(n, sorted, i);
    if i == |sorted| {
      assert sorted[..i] == sorted;
    }
  }

  /** One round of the loop, for the edge `e`. */
  method KruskalStep(unionJoinSet: UnionJoinSet, n: nat, mst: seq<EdgeTriple>, e: EdgeTriple)
      returns (mst': seq<EdgeTriple>)
    requires Tracks(unionJoinSet, n, mst) && 0 <= e.from < n && 0 <= e.to < n
    modifies unionJoinSet, unionJoinSet.parent
    ensures mst' == if Labels(n, mst)[e.from] != Labels(n, mst)[e.to] then mst + [e] else mst
    ensures Tracks(unionJoinSet, n, mst')
  {
    var rootFrom := unionJoinSet.Find(e.from);
    var rootTo := unionJoinSet.Find(e.to);
    if rootFrom != rootTo {
      LabelsAppend(n, mst, e);
      unionJoinSet.Unite(e.from, e.to);
      mst' := mst + [e];
    } else {
      mst' := mst;
    }
  }

  // ---------------------------------------------------------------------
  // Sorting by weight
  // ---------------------------------------------------------------------

  /** `sortEdgesByWeight(edges)`: quick sort under `operator<=`, which
      compares weights only. */
  method SortEdgesByWeight(edges: seq<EdgeTriple>) returns (sorted: seq<EdgeTriple>)
    ensures Sorted(sorted, WeightKey) && Permutes(sorted, edges)
  {
    var a := new EdgeTriple[|edges|](i requires 0 <= i < |edges| => edges[i]);
    assert a[..] == edges;
    QuickSort(a, WeightKey);
    sorted := a[..];
  }

  /** A permutation of edges of `[0, n)` has its edges in `[0, n)`. */
  lemma PermutesInRange(t: seq<EdgeTriple>, s: seq<EdgeTriple>, n: int)
    requires Permutes(t, s) && EndsInRange(s, n)
    ensures EndsInRange(t, n)
  {
    forall k | 0 <= k < |t|
      ensures 0 <= t[k].from < n && 0 <= t[k].to < n
    {
      assert t[k] in multiset(t);
      var j :| 0 <= j < |s| && s[j] == t[k];
    }
  }

  /** Kept edges from in-range offers are in range. */
  lemma DedupInRange(c: seq<EdgeTriple>, n: int)
    requires EndsInRange(c, n)
    ensures EndsInRange(Dedup(c), n)
  {
    DedupMeaning(c);
    forall k | 0 <= k < |Dedup(c)|
      ensures 0 <= Dedup(c)[k].from < n && 0 <= Dedup(c)[k].to < n
    {
      var t := Dedup(c)[k];
      assert t in Dedup(c);
      var j :| 0 <= j < |c| && c[j] == t;
    }
  }

  /** What `findMST` of either Kruskal solver returns, for the offers
      `offers` of the graph and any order `sorted` the sort may leave them
      in: at most V - 1 edges, each an offered edge, in ascending weight;
      each joined two classes of the edges kept before it; and when fewer
      than V - 1 were kept, the two ends of every offer lie in one class. */
  lemma KruskalIsSpanningForest(n: nat, offers: seq<EdgeTriple>, sorted: seq<EdgeTriple>)
    requires EndsInRange(offers, n) && EndsInRange(sorted, n)
    requires Sorted(sorted, WeightKey) && Permutes(sorted, Dedup(offers))
    ensures var r := KruskalPick(n, sorted);
            && |r| <= (if n == 0 then 0 else n - 1)
            && (forall t | t in r :: t in offers)
            && Sorted(r, WeightKey)
            && (forall k | 0 <= k < |r| ::
                  EndsInRange(r[..k], n) && Labels(n, r[..k])[r[k].from] != Labels(n, r[..k])[r[k].to])
            && (|r| < n - 1 ==> forall t | t in offers :: Labels(n, r)[t.from] == Labels(n, r)[t.to])
  {
    var r := KruskalPick(n, sorted);
    var kept := Dedup(offers);
    DedupMeaning(offers);
    KruskalPickSize(n, sorted, 0);
    KruskalPickSorted(n, sorted);
    forall t | t in r
      ensures t in offers
    {
      assert t in multiset(sorted);
      assert t in kept;
    }
    forall k | 0 <= k < |r|
      ensures EndsInRange(r[..k], n) && Labels(n, r[..k])[r[k].from] != Labels(n, r[..k])[r[k].to]
    {
      KruskalPickIsForest(n, sorted, k);
    }
    if |r| < n - 1 {
      KruskalPickSpans(n, sorted);
      forall t | t in offers
        ensures Labels(n, r)[t.from] == Labels(n, r)[t.to]
      {
        var k :| 0 <= k < |offers| && offers[k] == t;
        var i :| 0 <= i < |kept| && SamePair(kept[i], t);
        assert kept[i] in multiset(sorted);
        var j :| 0 <= j < |sorted| && sorted[j] == kept[i];
      }
    }
  }
}
