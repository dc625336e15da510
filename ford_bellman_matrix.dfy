/** `FordBellmanMatrix` (src/GraphsAlgorithms/TSPProblem/FordBellmanMatrix.hpp):
    the Ford-Bellman algorithm on the incidence matrix. V - 1 rounds relax
    every column in order; a column still relaxable afterwards means a
    negative cycle and an empty result. */
module FordBellmanMatrix {
  import opened EdgeTriples
  import opened GraphMatrices
  import opened MstCommon
  import opened ShortestPaths

  /** The `Vektor<int>(V)` pair of lines 22-28: zero-filled, then every
      distance set to `INT_MAX` and every parent to `-1`. */
  method InitializeState(n: nat) returns (distances: seq<int>, previous: seq<int>)
    ensures distances == Unreached(n) && previous == NoParents(n)
  {
    distances := seq(n, _ => 0);
    previous := seq(n, _ => 0);
    var i := 0;
    while i < n
      invariant 0 <= i <= n && |distances| == n && |previous| == n
      invariant forall v | 0 <= v < i :: distances[v] == IntMax && previous[v] == -1
    {
      distances := distances[i := IntMax];
      previous := previous[i := -1];
      i := i + 1;
    }
  }

  /** `findShortestPaths(graph, source, destination)`. `dist`, `prev` are
      the `distances`/`previous` vectors after the rounds and `walks` their
      witness walks. After the V - 1 rounds no walk of at most V - 1 edges
      is shorter than its end's distance; when the check finds a relaxable
      column the result is empty, otherwise it is the all-paths result
      (source and unreached vertices skipped) or the walk back from
      `destination`. */
  method FindShortestPaths(graph: GraphMatrix, source: int, destination: int)
      returns (paths: seq<EdgeTriple>, ghost dist: seq<int>, ghost prev: seq<int>,
               ghost walks: seq<seq<EdgeTriple>>)
    requires graph.Valid() && 0 <= source < graph.vertexCount
    requires destination == -1 || 0 <= destination < graph.vertexCount
    ensures |dist| == graph.vertexCount
    ensures Consistent(graph.edges, source, dist, prev, walks) && ParentsInRange(prev)
    ensures BoundsWalks(graph.edges, source, dist, graph.vertexCount - 1)
    ensures !Relaxed(graph.edges, dist) ==> paths == []
    ensures Relaxed(graph.edges, dist) ==>
              paths == if destination == -1 then AllPaths(prev, dist, source, true, true)
                       else SinglePath(prev, dist, source, destination)
    ensures ShortestTriples(graph.edges, source, paths)
  {
    var vertexQuantity := graph.GetVertexCount();
    var distances, previous := InitializeState(vertexQuantity);
    distances := distances[source := 0];
    walks := seq(vertexQuantity, _ => []);
    StartConsistent(graph.edges, vertexQuantity, source);
    BoundsNoEdges(graph.edges, vertexQuantity, source);
    var i := 0;
    while i < vertexQuantity - 1
      invariant 0 <= i <= vertexQuantity - 1
      invariant graph.Valid() && |distances| == vertexQuantity
      invariant Consistent(graph.edges, source, distances, previous, walks)
      invariant BoundsWalks(graph.edges, source, distances, i)
    {
      distances, previous, walks := Round(graph, source, i, distances, previous, walks);
      i := i + 1;
    }
    dist, prev := distances, previous;
    ParentsOkInRange(graph.edges, source, distances, previous);
    var relaxed := NoRelaxableColumn(graph, distances);
    if !relaxed {
      paths := [];
    } else {
      ReconstructionIsShortest(graph.edges, source, distances, previous, walks, destination, true, true);
      if destination == -1 {
        paths := ReconstructPaths(previous, distances, source, true, true);
      } else {
        paths := ReconstructSinglePath(previous, distances, source, destination);
      }
    }
  }

  /** One round: every column relaxed in order. Walks of one more edge
      become bounded; distances only go down. */
  method Round(graph: GraphMatrix, source: int, ghost k: nat, dist: seq<int>, prev: seq<int>,
               ghost walks: seq<seq<EdgeTriple>>)
      returns (dist': seq<int>, prev': seq<int>, ghost walks': seq<seq<EdgeTriple>>)
    requires graph.Valid() && Consistent(graph.edges, source, dist, prev, walks)
    requires BoundsWalks(graph.edges, source, dist, k)
    ensures Consistent(graph.edges, source, dist', prev', walks')
    ensures BoundsWalks(graph.edges, source, dist', k + 1) && Below(dist', dist)
  {
    var edgeQuantity := graph.GetEdgeCount();
    ghost var E := graph.edges;
    dist', prev', walks' := dist, prev, walks;
    var e := 0;
    while e < edgeQuantity
      invariant 0 <= e <= edgeQuantity == |E| && graph.Valid() && E == graph.edges
      invariant Consistent(E, source, dist', prev', walks') && Below(dist', dist)
      invariant RoundProgress(E, source, dist', k, E[..e])
    {
      ghost var before := dist';
      dist', prev', walks' := RelaxColumn(graph, source, e, dist', prev', walks');
      SlotStep(E, source, dist, before, dist', k, E[..e], E[e]);
      TakeOneMore(E, e);
      e := e + 1;
    }
    assert E[..e] == E;
    RoundEnd(E, source, dist, dist', k, E);
  }

  /** Lines 34-42 for column `e`: read through `getFrom`, `getDest` and
      `getWeight`, then relaxed. */
  method RelaxColumn(graph: GraphMatrix, source: int, e: int, dist: seq<int>, prev: seq<int>,
                     ghost walks: seq<seq<EdgeTriple>>)
      returns (dist': seq<int>, prev': seq<int>, ghost walks': seq<seq<EdgeTriple>>)
    requires graph.Valid() && 0 <= e < |graph.edges|
    requires Consistent(graph.edges, source, dist, prev, walks)
    ensures 0 <= graph.edges[e].from < |dist| && 0 <= graph.edges[e].to < |dist|
    ensures dist' == RelaxDistances(dist, graph.edges[e]) && prev' == RelaxParents(dist, prev, graph.edges[e])
    ensures Consistent(graph.edges, source, dist', prev', walks') && Below(dist', dist)
    ensures dist[graph.edges[e].from] != IntMax ==>
              dist'[graph.edges[e].to] <= dist[graph.edges[e].from] + graph.edges[e].weight
  {
    var from := graph.GetFrom(e);
    var to := graph.GetDest(e);
    var weight := graph.GetWeight(e);
    assert graph.edges[e] == EdgeTriple(from, to, weight) && graph.edges[e] in graph.edges;
    InRangeEnds(graph.edges, |dist|, graph.edges[e]);
    RelaxOutcome(graph.edges, source, dist, prev, walks, graph.edges[e]);
    dist', prev' := Relax(EdgeTriple(from, to, weight), dist, prev);
    walks' := RelaxWalks(dist, walks, graph.edges[e]);
  }

  /** The negative-cycle check of lines 47-56: true iff no column can still
      be relaxed. */
  method NoRelaxableColumn(graph: GraphMatrix, dist: seq<int>) returns (relaxed: bool)
    requires graph.Valid() && |dist| == graph.vertexCount
    ensures relaxed <==> Relaxed(graph.edges, dist)
  {
    var edgeQuantity := graph.GetEdgeCount();
    var e := 0;
    while e < edgeQuantity
      invariant 0 <= e <= edgeQuantity == |graph.edges|
      invariant forall j | 0 <= j < e :: !Improves(dist, graph.edges[j])
    {
      var from := graph.GetFrom(e);
      var to := graph.GetDest(e);
      var weight := graph.GetWeight(e);
      if dist[from] != IntMax && dist[from] + weight < dist[to] {
        assert Improves(dist, graph.edges[e]);
        return false;
      }
      e := e + 1;
    }
    return true;
  }
}
