/** `KruskalList` (src/GraphsAlgorithms/MSTProblem/KruskalList.hpp):
    Kruskal's algorithm on the adjacency lists. Every directed entry is
    offered as an undirected edge `{min, max, weight}`; the first offer of
    each pair is kept, the kept edges are sorted by weight and a union-find
    structure picks the forest. */
module KruskalList {
  import opened EdgeTriples
  import opened GraphLists
  import opened MstCommon
  import opened KruskalCommon
  import opened AlgorithmsUtils
  import opened SortAlgorithms

  /** The offers of vertex `u`'s list, in list order. */
  function RowOffers(u: int, row: seq<Edge>): (r: seq<EdgeTriple>)
    ensures |r| == |row|
    ensures forall i | 0 <= i < |row| :: r[i] == Normalized(u, row[i].dest, row[i].weight)
  {
    seq(|row|, i requires 0 <= i < |row| => Normalized(u, row[i].dest, row[i].weight))
  }

  /** The offers of every list, one block per vertex. */
  function OfferBlocks(adj: seq<seq<Edge>>): (blocks: seq<seq<EdgeTriple>>)
    ensures |blocks| == |adj|
  {
    seq(|adj|, u => if 0 <= u < |adj| then RowOffers(u, adj[u]) else [])
  }

  /** All offers of `extractUniqueEdges`, vertex by vertex, list by list. */
  function ListOffers(adj: seq<seq<Edge>>): seq<EdgeTriple> {
    Flatten(OfferBlocks(adj))
  }

  /** An offer is exactly a list entry, written with the smaller end first. */
  lemma ListOffersMeaning(adj: seq<seq<Edge>>, t: EdgeTriple)
    ensures t in ListOffers(adj) <==>
      exists u, i | 0 <= u < |adj| && 0 <= i < |adj[u]| :: t == Normalized(u, adj[u][i].dest, adj[u][i].weight)
  {
    var blocks := OfferBlocks(adj);
    if t in ListOffers(adj) {
      FlattenMember(blocks, t);
      var u :| 0 <= u < |blocks| && t in blocks[u];
      var i :| 0 <= i < |adj[u]| && RowOffers(u, adj[u])[i] == t;
    }
    if exists u, i | 0 <= u < |adj| && 0 <= i < |adj[u]| :: t == Normalized(u, adj[u][i].dest, adj[u][i].weight) {
      var u, i :| 0 <= u < |adj| && 0 <= i < |adj[u]| && t == Normalized(u, adj[u][i].dest, adj[u][i].weight);
      assert blocks[u][i] == t;
      FlattenHas(blocks, u, t);
    }
  }

  /** With every `dest` a vertex, every offer joins two vertices. */
  lemma ListOffersInRange(adj: seq<seq<Edge>>)
    requires TargetsInRange(adj)
    ensures EndsInRange(ListOffers(adj), |adj|)
  {
    forall k | 0 <= k < |ListOffers(adj)|
      ensures 0 <= ListOffers(adj)[k].from < |adj| && 0 <= ListOffers(adj)[k].to < |adj|
    {
      var t := ListOffers(adj)[k];
      ListOffersMeaning(adj, t);
      var u, i :| 0 <= u < |adj| && 0 <= i < |adj[u]| && t == Normalized(u, adj[u][i].dest, adj[u][i].weight);
      assert 0 <= adj[u][i].dest < |adj|;
    }
  }

  /** `extractUniqueEdges(graph, vertexQuantity)`: the offers of the first
      `vertexQuantity` lists, keeping the first offer of each pair. */
  method ExtractUniqueEdges(graph: GraphList, vertexQuantity: int) returns (edges: seq<EdgeTriple>)
    requires graph.Valid() && vertexQuantity == graph.vertexCount
    ensures edges == Dedup(ListOffers(graph.adjList))
  {
    ghost var blocks := OfferBlocks(graph.adjList);
    edges := [];
    var seen: seq<(int, int)> := [];
    var u := 0;
    while u < vertexQuantity
      invariant 0 <= u <= vertexQuantity
      invariant graph.Valid() && blocks == OfferBlocks(graph.adjList)
      invariant edges == Dedup(Flatten(blocks[..u])) && PairsOf(seen, edges)
    {
      edges, seen := ExtractRow(graph, u, edges, seen, Flatten(blocks[..u]));
      FlattenStep(blocks, u);
      u := u + 1;
    }
    assert blocks[..u] == blocks;
  }

  /** The inner loop of `extractUniqueEdges` over the list of `u`. */
  method ExtractRow(graph: GraphList, u: int, edges: seq<EdgeTriple>, seen: seq<(int, int)>,
                    ghost before: seq<EdgeTriple>)
      returns (edges': seq<EdgeTriple>, seen': seq<(int, int)>)
    requires graph.Valid() && 0 <= u < graph.vertexCount
    requires edges == Dedup(before) && PairsOf(seen, edges)
    ensures edges' == Dedup(before + RowOffers(u, graph.adjList[u])) && PairsOf(seen', edges')
  {
    var neighbors := graph.GetNeighbors(u);
    ghost var row := RowOffers(u, neighbors);
    ghost var offered := before;
    edges', seen' := edges, seen;
    var i := 0;
    assert row[..0] == [];
    while i < |neighbors|
      invariant 0 <= i <= |neighbors|
      invariant offered == before + row[..i]
      invariant edges' == Dedup(offered) && PairsOf(seen', edges')
    {
      var v := neighbors[i].dest;
      var w := neighbors[i].weight;
      var a := if u <= v then u else v;
      var b := if u <= v then v else u;
      assert EdgeTriple(a, b, w) == row[i];
      DedupAppend(offered, row[i]);
      edges', seen' := Offer(edges', seen', EdgeTriple(a, b, w));
      assert row[..i + 1] == row[..i] + [row[i]];
      offered := offered + [row[i]];
      i := i + 1;
    }
    assert row[..i] == row;
  }

  /** `findMST(graph)`: the unique edges, sorted by weight (`sorted`, the
      order the sort leaves them in), then the greedy forest over them. */
  method FindMST(graph: GraphList) returns (mst: seq<EdgeTriple>, ghost sorted: seq<EdgeTriple>)
    requires graph.WellFormed()
    ensures EndsInRange(sorted, graph.vertexCount)
    ensures Sorted(sorted, WeightKey) && Permutes(sorted, Dedup(ListOffers(graph.adjList)))
    ensures mst == KruskalPick(graph.vertexCount, sorted)
    ensures ListSpanningForest(graph.adjList, mst)
  {
    var vertexQuantity := graph.GetVertexCount();
    var allEdges := ExtractUniqueEdges(graph, vertexQuantity);
    ListOffersInRange(graph.adjList);
    DedupInRange(ListOffers(graph.adjList), vertexQuantity);
    var ordered := SortEdgesByWeight(allEdges);
    PermutesInRange(ordered, allEdges, vertexQuantity);
    sorted := ordered;
    mst := SelectForest(vertexQuantity, ordered);
    KruskalListIsSpanningForest(graph.adjList, ordered);
  }

  /** What `findMST` on the lists returns: at most V - 1 edges, each an
      entry `{u, dest, weight}` of some list written smaller end first, in
      ascending weight, each joining two classes of the edges before it;
      and when fewer than V - 1 came out, the two ends of every entry of
      every list lie in one class. */
  ghost predicate ListSpanningForest(adj: seq<seq<Edge>>, r: seq<EdgeTriple>)
    requires TargetsInRange(adj)
  {
    var n := |adj|;
    && EndsInRange(r, n)
    && |r| <= (if n == 0 then 0 else n - 1)
    && (forall t | t in r :: exists u, i | 0 <= u < n && 0 <= i < |adj[u]| ::
          t == Normalized(u, adj[u][i].dest, adj[u][i].weight))
    && Sorted(r, WeightKey)
    && (forall k | 0 <= k < |r| ::
          EndsInRange(r[..k], n) && Labels(n, r[..k])[r[k].from] != Labels(n, r[..k])[r[k].to])
    && (|r| < n - 1 ==> forall u, i | 0 <= u < n && 0 <= i < |adj[u]| ::
          Labels(n, r)[u] == Labels(n, r)[adj[u][i].dest])
  }

  /** Kruskal's pick over any weight-sorted order of the offers is such a forest. */
  lemma KruskalListIsSpanningForest(adj: seq<seq<Edge>>, sorted: seq<EdgeTriple>)
    requires TargetsInRange(adj) && EndsInRange(sorted, |adj|)
    requires Sorted(sorted, WeightKey) && Permutes(sorted, Dedup(ListOffers(adj)))
    ensures ListSpanningForest(adj, KruskalPick(|adj|, sorted))
  {
    var n := |adj|;
    var offers := ListOffers(adj);
    var r := KruskalPick(n, sorted);
    ListOffersInRange(adj);
    KruskalIsSpanningForest(n, offers, sorted);
    forall t | t in r
      ensures exists u, i | 0 <= u < n && 0 <= i < |adj[u]| :: t == Normalized(u, adj[u][i].dest, adj[u][i].weight)
    {
      ListOffersMeaning(adj, t);
    }
    if |r| < n - 1 {
      forall u, i | 0 <= u < n && 0 <= i < |adj[u]|
        ensures Labels(n, r)[u] == Labels(n, r)[adj[u][i].dest]
      {
        var t := Normalized(u, adj[u][i].dest, adj[u][i].weight);
        ListOffersMeaning(adj, t);
        assert t in offers;
      }
    }
  }
}
