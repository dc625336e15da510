/** `FordBellmanList` (src/GraphsAlgorithms/TSPProblem/FordBellmanList.hpp):
    the Ford-Bellman algorithm on the adjacency lists. V - 1 rounds relax
    every list entry, vertex by vertex and in list order; an entry still
    relaxable afterwards means a negative cycle and an empty result. */
module FordBellmanList {
  import opened EdgeTriples
  import opened GraphLists
  import opened MstCommon
  import opened ShortestPaths

  /** `findShortestPaths(graph, source, destination)`. The edges are the
      list entries as triples `{u, dest, weight}`; `dist`, `prev` are the
      `distances`/`previous` vectors after the rounds and `walks` their
      witness walks. After the V - 1 rounds no walk of at most V - 1 edges
      is shorter than its end's distance; when the check finds a relaxable
      entry the result is empty, otherwise it is the all-paths result
      (source and unreached vertices skipped) or the walk back from
      `destination`. */
  method FindShortestPaths(graph: GraphList, source: int, destination: int)
      returns (paths: seq<EdgeTriple>, ghost dist: seq<int>, ghost prev: seq<int>,
               ghost walks: seq<seq<EdgeTriple>>)
    requires graph.WellFormed() && 0 <= source < graph.vertexCount
    requires destination == -1 || 0 <= destination < graph.vertexCount
    ensures |dist| == graph.vertexCount
    ensures Consistent(ListTriples(graph.adjList), source, dist, prev, walks) && ParentsInRange(prev)
    ensures BoundsWalks(ListTriples(graph.adjList), source, dist, graph.vertexCount - 1)
    ensures !Relaxed(ListTriples(graph.adjList), dist) ==> paths == []
    ensures Relaxed(ListTriples(graph.adjList), dist) ==>
              paths == if destination == -1 then AllPaths(prev, dist, source, true, true)
                       else SinglePath(prev, dist, source, destination)
    ensures ShortestTriples(ListTriples(graph.adjList), source, paths)
  {
    ghost var E := ListTriples(graph.adjList);
    var vertexQuantity := graph.GetVertexCount();
    var distances := InitializeDistances(vertexQuantity);
    var previous := InitializePrevious(vertexQuantity);
    distances := distances[source := 0];
    walks := seq(vertexQuantity, _ => []);
    ListTriplesInRange(graph.adjList);
    StartConsistent(E, vertexQuantity, source);
    BoundsNoEdges(E, vertexQuantity, source);
    var i := 1;
    while i < vertexQuantity
      invariant 1 <= i <= if vertexQuantity == 0 then 1 else vertexQuantity
      invariant graph.WellFormed() && E == ListTriples(graph.adjList) && |distances| == vertexQuantity
      invariant Consistent(E, source, distances, previous, walks)
      invariant BoundsWalks(E, source, distances, i - 1)
    {
      distances, previous, walks := Round(graph, source, i - 1, distances, previous, walks);
      i := i + 1;
    }
    dist, prev := distances, previous;
    ParentsOkInRange(E, source, distances, previous);
    var relaxed := NoRelaxableEntry(graph, distances);
    if !relaxed {
      paths := [];
    } else {
      ReconstructionIsShortest(E, source, distances, previous, walks, destination, true, true);
      if destination == -1 {
        paths := ReconstructPaths(previous, distances, source, true, true);
      } else {
        paths := ReconstructSinglePath(previous, distances, source, destination);
      }
    }
  }

  /** One round (lines 24-34): every list relaxed in vertex order. Walks
      of one more edge become bounded; distances only go down. */
  method Round(graph: GraphList, source: int, ghost k: nat, dist: seq<int>, prev: seq<int>,
               ghost walks: seq<seq<EdgeTriple>>)
      returns (dist': seq<int>, prev': seq<int>, ghost walks': seq<seq<EdgeTriple>>)
    requires graph.WellFormed() && Consistent(ListTriples(graph.adjList), source, dist, prev, walks)
    requires BoundsWalks(ListTriples(graph.adjList), source, dist, k)
    ensures Consistent(ListTriples(graph.adjList), source, dist', prev', walks')
    ensures BoundsWalks(ListTriples(graph.adjList), source, dist', k + 1) && Below(dist', dist)
  {
    var vertexQuantity := graph.GetVertexCount();
    ghost var adj := graph.adjList;
    ghost var E := ListTriples(adj);
    dist', prev', walks' := dist, prev, walks;
    var u := 0;
    assert adj[..0] == [];
    while u < vertexQuantity
      invariant 0 <= u <= vertexQuantity == |adj| && graph.WellFormed() && adj == graph.adjList
      invariant Consistent(E, source, dist', prev', walks') && Below(dist', dist)
      invariant RoundProgress(E, source, dist', k, ListTriples(adj[..u]))
    {
      dist', prev', walks' := RelaxList(graph, source, k, u, dist, dist', prev', walks');
      ListTriplesStep(adj, u);
      u := u + 1;
    }
    assert adj[..u] == adj;
    RoundEnd(E, source, dist, dist', k, E);
  }

  /** Lines 25-33 for vertex `u`: every entry of its list relaxed in order.
      Afterwards the entries of the lists before `u` and of `u`'s own list
      are bounded. */
  method RelaxList(graph: GraphList, source: int, ghost k: nat, u: int, ghost start: seq<int>,
                   dist: seq<int>, prev: seq<int>, ghost walks: seq<seq<EdgeTriple>>)
      returns (dist': seq<int>, prev': seq<int>, ghost walks': seq<seq<EdgeTriple>>)
    requires graph.WellFormed() && 0 <= u < graph.vertexCount
    requires Consistent(ListTriples(graph.adjList), source, dist, prev, walks)
    requires BoundsWalks(ListTriples(graph.adjList), source, start, k) && Below(dist, start)
    requires RoundProgress(ListTriples(graph.adjList), source, dist, k, ListTriples(graph.adjList[..u]))
    ensures Consistent(ListTriples(graph.adjList), source, dist', prev', walks') && Below(dist', dist)
    ensures RoundProgress(ListTriples(graph.adjList), source, dist', k,
                          ListTriples(graph.adjList[..u]) + RowTriples(u, graph.adjList[u]))
  {
    ghost var E := ListTriples(graph.adjList);
    var neighbors := graph.GetNeighbors(u);
    ghost var row := RowTriples(u, neighbors);
    ghost var done := ListTriples(graph.adjList[..u]);
    dist', prev', walks' := dist, prev, walks;
    var j := 0;
    assert row[..0] == [];
    while j < |neighbors|
      invariant 0 <= j <= |neighbors|
      invariant Consistent(E, source, dist', prev', walks') && Below(dist', dist)
      invariant done == ListTriples(graph.adjList[..u]) + row[..j]
      invariant RoundProgress(E, source, dist', k, done)
    {
      dist', prev', walks' := RelaxEntry(graph, source, k, u, j, start, dist', prev', walks', done);
      TakeOneMore(row, j);
      done := done + [row[j]];
      j := j + 1;
    }
    assert row[..j] == row;
  }

  /** Lines 27-32 for entry `j` of `u`'s list: read, then relaxed; the
      entry joins the bounded ones. */
  method RelaxEntry(graph: GraphList, source: int, ghost k: nat, u: int, j: int, ghost start: seq<int>,
                    dist: seq<int>, prev: seq<int>, ghost walks: seq<seq<EdgeTriple>>,
                    ghost done: seq<EdgeTriple>)
      returns (dist': seq<int>, prev': seq<int>, ghost walks': seq<seq<EdgeTriple>>)
    requires graph.WellFormed() && 0 <= u < graph.vertexCount && 0 <= j < |graph.adjList[u]|
    requires Consistent(ListTriples(graph.adjList), source, dist, prev, walks)
    requires BoundsWalks(ListTriples(graph.adjList), source, start, k) && Below(dist, start)
    requires RoundProgress(ListTriples(graph.adjList), source, dist, k, done)
    ensures Consistent(ListTriples(graph.adjList), source, dist', prev', walks')
    ensures Below(dist', dist)
    ensures RoundProgress(ListTriples(graph.adjList), source, dist', k,
                          done + [RowTriples(u, graph.adjList[u])[j]])
  {
    ghost var E := ListTriples(graph.adjList);
    var neighbors := graph.GetNeighbors(u);
    var v := neighbors[j].dest;
    var weight := neighbors[j].weight;
    EntryIsTriple(graph.adjList, u, j);
    InRangeEnds(E, |dist|, EdgeTriple(u, v, weight));
    RelaxOutcome(E, source, dist, prev, walks, EdgeTriple(u, v, weight));
    dist', prev' := Relax(EdgeTriple(u, v, weight), dist, prev);
    walks' := RelaxWalks(dist, walks, EdgeTriple(u, v, weight));
    SlotStep(E, source, start, dist, dist', k, done, EdgeTriple(u, v, weight));
  }

  /** The negative-cycle check of lines 38-48: true iff no list entry can
      still be relaxed. */
  method NoRelaxableEntry(graph: GraphList, dist: seq<int>) returns (relaxed: bool)
    requires graph.WellFormed() && |dist| == graph.vertexCount
    ensures relaxed <==> Relaxed(ListTriples(graph.adjList), dist)
  {
    ghost var adj := graph.adjList;
    var vertexQuantity := graph.GetVertexCount();
    var u := 0;
    assert adj[..0] == [];
    while u < vertexQuantity
      invariant 0 <= u <= vertexQuantity == |adj| && graph.WellFormed() && adj == graph.adjList
      invariant Relaxed(ListTriples(adj[..u]), dist)
    {
      var rowRelaxed := NoRelaxableInList(graph, u, dist);
      if !rowRelaxed {
        return false;
      }
      u := u + 1;
    }
    assert adj[..u] == adj;
    return true;
  }

  /** Lines 39-47 for vertex `u`: with the lists before `u` relaxed, true
      iff `u`'s list is relaxed too; false only on an entry that can still
      be relaxed. */
  method NoRelaxableInList(graph: GraphList, u: int, dist: seq<int>) returns (relaxed: bool)
    requires graph.WellFormed() && |dist| == graph.vertexCount && 0 <= u < graph.vertexCount
    requires Relaxed(ListTriples(graph.adjList[..u]), dist)
    ensures relaxed ==> Relaxed(ListTriples(graph.adjList[..u + 1]), dist)
    ensures !relaxed ==> !Relaxed(ListTriples(graph.adjList), dist)
  {
    ghost var before := ListTriples(graph.adjList[..u]);
    var neighbors := graph.GetNeighbors(u);
    ghost var row := RowTriples(u, neighbors);
    var j := 0;
    assert row[..0] == [];
    while j < |neighbors|
      invariant 0 <= j <= |neighbors|
      invariant Relaxed(before + row[..j], dist)
    {
      var v := neighbors[j].dest;
      var weight := neighbors[j].weight;
      EntryIsTriple(graph.adjList, u, j);
      if dist[u] != IntMax && dist[u] + weight < dist[v] {
        EntryIsNotRelaxed(ListTriples(graph.adjList), dist, EdgeTriple(u, v, weight));
        return false;
      }
      TakeOneMore(row, j);
      RelaxedAppend(before + row[..j], dist, row[j]);
      assert before + row[..j + 1] == (before + row[..j]) + [row[j]];
      j := j + 1;
    }
    assert row[..j] == row;
    ListTriplesStep(graph.adjList, u);
    return true;
  }
}
