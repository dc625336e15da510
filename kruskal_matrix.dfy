/** `KruskalMatrix` (src/GraphsAlgorithms/MSTProblem/KruskalMatrix.hpp):
    Kruskal's algorithm on the incidence matrix. Every edge slot is offered
    as an undirected edge `{min, max, weight}`; the first offer of each pair
    is kept, the kept edges are sorted by weight and a union-find structure
    picks the forest. */
module KruskalMatrix {
  import opened EdgeTriples
  import opened GraphMatrices
  import opened MstCommon
  import opened KruskalCommon
  import opened AlgorithmsUtils
  import opened SortAlgorithms

  /** The offers of `extractAllEdges`, slot by slot. */
  function MatrixOffers(edges: seq<EdgeTriple>): (r: seq<EdgeTriple>)
    ensures |r| == |edges|
    ensures forall i | 0 <= i < |edges| :: r[i] == Normalized(edges[i].from, edges[i].to, edges[i].weight)
  {
    seq(|edges|, i requires 0 <= i < |edges| => Normalized(edges[i].from, edges[i].to, edges[i].weight))
  }

  /** With every edge between two vertices, so is every offer. */
  lemma MatrixOffersInRange(edges: seq<EdgeTriple>, n: int)
    requires ProperEdges(edges, n)
    ensures EndsInRange(MatrixOffers(edges), n)
  {
    forall k | 0 <= k < |edges|
      ensures 0 <= MatrixOffers(edges)[k].from < n && 0 <= MatrixOffers(edges)[k].to < n
    {
      assert 0 <= edges[k].from < n && 0 <= edges[k].to < n;
    }
  }

  /** `extractAllEdges(graph)`: the offers of the first `getEdgeCount()`
      slots, keeping the first offer of each pair. */
  method ExtractAllEdges(graph: GraphMatrix) returns (edges: seq<EdgeTriple>)
    requires graph.Valid()
    ensures edges == Dedup(MatrixOffers(graph.edges))
  {
    var edgeQuantity := graph.GetEdgeCount();
    ghost var offers := MatrixOffers(graph.edges);
    edges := [];
    var seen: seq<(int, int)> := [];
    var i := 0;
    assert offers[..0] == [];
    while i < edgeQuantity
      invariant 0 <= i <= edgeQuantity
      invariant graph.Valid() && edgeQuantity == |graph.edges| && offers == MatrixOffers(graph.edges)
      invariant edges == Dedup(offers[..i]) && PairsOf(seen, edges)
    {
      edges, seen := OfferSlot(graph, i, edges, seen);
      i := i + 1;
    }
    assert offers[..i] == offers;
  }

  /** One round of `extractAllEdges`: slot `i` read through `getFrom`,
      `getDest` and `getWeight`, and offered. */
  method OfferSlot(graph: GraphMatrix, i: int, edges: seq<EdgeTriple>, seen: seq<(int, int)>)
      returns (edges': seq<EdgeTriple>, seen': seq<(int, int)>)
    requires graph.Valid() && 0 <= i < |graph.edges|
    requires edges == Dedup(MatrixOffers(graph.edges)[..i]) && PairsOf(seen, edges)
    ensures edges' == Dedup(MatrixOffers(graph.edges)[..i + 1]) && PairsOf(seen', edges')
  {
    ghost var offers := MatrixOffers(graph.edges);
    var u := graph.GetFrom(i);
    var v := graph.GetDest(i);
    var w := graph.GetWeight(i);
    var a := if u <= v then u else v;
    var b := if u <= v then v else u;
    assert EdgeTriple(a, b, w) == offers[i];
    DedupAppend(offers[..i], offers[i]);
    assert offers[..i + 1] == offers[..i] + [offers[i]];
    edges', seen' := Offer(edges, seen, EdgeTriple(a, b, w));
  }

  /** `findMST(graph)`: the unique edges, sorted by weight (`sorted`, the
      order the sort leaves them in), then the greedy forest over them. */
  method FindMST(graph: GraphMatrix) returns (mst: seq<EdgeTriple>, ghost sorted: seq<EdgeTriple>)
    requires graph.Valid()
    ensures EndsInRange(sorted, graph.vertexCount)
    ensures Sorted(sorted, WeightKey) && Permutes(sorted, Dedup(MatrixOffers(graph.edges)))
    ensures mst == KruskalPick(graph.vertexCount, sorted)
    ensures MatrixSpanningForest(graph.edges, graph.vertexCount, mst)
  {
    var vertexQuantity := graph.GetVertexCount();
    var allEdges := ExtractAllEdges(graph);
    MatrixOffersInRange(graph.edges, vertexQuantity);
    DedupInRange(MatrixOffers(graph.edges), vertexQuantity);
    var ordered := SortEdgesByWeight(allEdges);
    PermutesInRange(ordered, allEdges, vertexQuantity);
    sorted := ordered;
    mst := SelectForest(vertexQuantity, ordered);
    KruskalMatrixIsSpanningForest(graph.edges, vertexQuantity, ordered);
  }

  /** What `findMST` on the matrix returns: at most V - 1 edges, each an
      added edge written smaller end first, in ascending weight, each
      joining two classes of the edges before it; and when fewer than V - 1
      came out, the two ends of every added edge lie in one class. */
  ghost predicate MatrixSpanningForest(edges: seq<EdgeTriple>, n: nat, r: seq<EdgeTriple>)
    requires ProperEdges(edges, n)
  {
    && EndsInRange(r, n)
    && |r| <= (if n == 0 then 0 else n - 1)
    && (forall t | t in r :: exists i | 0 <= i < |edges| ::
          t == Normalized(edges[i].from, edges[i].to, edges[i].weight))
    && Sorted(r, WeightKey)
    && (forall k | 0 <= k < |r| ::
          EndsInRange(r[..k], n) && Labels(n, r[..k])[r[k].from] != Labels(n, r[..k])[r[k].to])
    && (|r| < n - 1 ==> forall i | 0 <= i < |edges| ::
          Labels(n, r)[edges[i].from] == Labels(n, r)[edges[i].to])
  }

  /** Kruskal's pick over any weight-sorted order of the offers is such a forest. */
  lemma KruskalMatrixIsSpanningForest(edges: seq<EdgeTriple>, n: nat, sorted: seq<EdgeTriple>)
    requires ProperEdges(edges, n) && EndsInRange(sorted, n)
    requires Sorted(sorted, WeightKey) && Permutes(sorted, Dedup(MatrixOffers(edges)))
    ensures MatrixSpanningForest(edges, n, KruskalPick(n, sorted))
  {
    var offers := MatrixOffers(edges);
    var r := KruskalPick(n, sorted);
    MatrixOffersInRange(edges, n);
    KruskalIsSpanningForest(n, offers, sorted);
    forall t | t in r
      ensures exists i | 0 <= i < |edges| :: t == Normalized(edges[i].from, edges[i].to, edges[i].weight)
    {
      var i :| 0 <= i < |offers| && offers[i] == t;
    }
    if |r| < n - 1 {
      forall i | 0 <= i < |edges|
        ensures Labels(n, r)[edges[i].from] == Labels(n, r)[edges[i].to]
      {
        assert offers[i] in offers;
      }
    }
  }
}
