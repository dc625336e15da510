/** `DijkstraList` (src/GraphsAlgorithms/TSPProblem/DijkstraList.hpp):
    Dijkstra's algorithm on the adjacency lists with a `MinHeap` of
    `(distance, vertex)` pairs and lazy deletion: a popped pair whose
    distance is above the vertex's current one is skipped; otherwise the
    vertex's list is relaxed and every lowered distance is pushed. */
module DijkstraList {
  import opened EdgeTriples
  import opened GraphLists
  import opened MstCommon
  import opened ShortestPaths
  import opened MinHeaps

  /** Entry `i` of `u`'s list as a triple `{u, dest, weight}`. */
  function Outgoing(adj: seq<seq<Edge>>, u: int, i: int): (t: EdgeTriple)
    requires 0 <= u < |adj| && 0 <= i < |adj[u]|
    ensures t.from == u && Edge(t.to, t.weight) == adj[u][i]
  {
    EdgeTriple(u, adj[u][i].dest, adj[u][i].weight)
  }

  /** The sum of the distances: what every relaxation lowers. */
  ghost function Sum(d: seq<int>): int {
    if d == [] then 0 else Sum(d[..|d| - 1]) + d[|d| - 1]
  }

  /** Lowering one distance lowers the sum by as much. */
  lemma {:induction false} SumUpdate(d: seq<int>, v: int, x: int)
    requires 0 <= v < |d|
    ensures Sum(d[v := x]) == Sum(d) - d[v] + x
  {
    var n := |d| - 1;
    assert d[v := x][..n] == if v < n then d[..n][v := x] else d[..n];
    if v < n {
      SumUpdate(d[..n], v, x);
    }
  }

  /** Non-negative distances have a non-negative sum. */
  lemma {:induction false} SumNonNegative(d: seq<int>)
    requires forall v | 0 <= v < |d| :: 0 <= d[v]
    ensures 0 <= Sum(d)
  {
    if d != [] {
      SumNonNegative(d[..|d| - 1]);
    }
  }

  /** A relaxation that lowers a distance lowers the sum by at least one. */
  lemma SumRelax(dist: seq<int>, t: EdgeTriple)
    requires 0 <= t.from < |dist| && 0 <= t.to < |dist|
    ensures Sum(RelaxDistances(dist, t)) + (if Improves(dist, t) then 1 else 0) <= Sum(dist)
  {
    if Improves(dist, t) {
      SumUpdate(dist, t.to, dist[t.from] + t.weight);
    }
  }

  /** Every pair in the heap names a vertex. */
  ghost predicate EntriesInRange(heap: seq<Entry>, n: int) {
    forall i | 0 <= i < |heap| :: 0 <= heap[i].1 < n
  }

  /** The first `j` entries of `u`'s list cannot be relaxed. */
  ghost predicate ListRelaxedUpTo(adj: seq<seq<Edge>>, dist: seq<int>, u: int, j: int)
    requires TargetsInRange(adj) && |dist| == |adj| && 0 <= u < |adj| && 0 <= j <= |adj[u]|
  {
    forall i | 0 <= i < j :: !Improves(dist, Outgoing(adj, u, i))
  }

  /** Vertex `u` is unreached, or waits in the heap with its current
      distance, or its whole list cannot be relaxed. */
  ghost predicate Pending(adj: seq<seq<Edge>>, dist: seq<int>, heap: seq<Entry>, u: int)
    requires TargetsInRange(adj) && |dist| == |adj| && 0 <= u < |adj|
  {
    dist[u] == IntMax || (dist[u], u) in heap || ListRelaxedUpTo(adj, dist, u, |adj[u]|)
  }

  /** Every vertex other than `cv` is pending. */
  ghost predicate OthersPending(adj: seq<seq<Edge>>, dist: seq<int>, heap: seq<Entry>, cv: int)
    requires TargetsInRange(adj) && |dist| == |adj|
  {
    forall u | 0 <= u < |adj| && u != cv :: Pending(adj, dist, heap, u)
  }

  /** Adding pairs that name vertices keeps every pair naming one. */
  lemma EntriesAdded(heap: seq<Entry>, heap': seq<Entry>, n: int, extra: multiset<Entry>)
    requires EntriesInRange(heap, n) && multiset(heap') == multiset(heap) + extra
    requires forall x | x in extra :: 0 <= x.1 < n
    ensures EntriesInRange(heap', n)
  {
    forall i | 0 <= i < |heap'|
      ensures 0 <= heap'[i].1 < n
    {
      assert heap'[i] in multiset(heap');
      if heap'[i] !in extra {
        assert heap'[i] in multiset(heap);
        var k :| 0 <= k < |heap| && heap[k] == heap'[i];
      }
    }
  }

  /** Relaxing entry `j` of `cv`'s list, and pushing a lowered distance,
      keeps every other vertex pending and adds the entry to the relaxed
      prefix of `cv`'s list. */
  lemma RelaxKeepsPending(adj: seq<seq<Edge>>, dist: seq<int>, heap: seq<Entry>, heap': seq<Entry>,
                          cv: int, j: int)
    requires TargetsInRange(adj) && NoSelfLoops(adj) && |dist| == |adj|
    requires 0 <= cv < |adj| && 0 <= j < |adj[cv]|
    requires var t := Outgoing(adj, cv, j);
             multiset(heap') == multiset(heap) +
               (if Improves(dist, t) then multiset{(RelaxDistances(dist, t)[t.to], t.to)} else multiset{})
    requires OthersPending(adj, dist, heap, cv) && ListRelaxedUpTo(adj, dist, cv, j)
    ensures var d := RelaxDistances(dist, Outgoing(adj, cv, j));
            OthersPending(adj, d, heap', cv) && ListRelaxedUpTo(adj, d, cv, j + 1)
  {
    var t := Outgoing(adj, cv, j);
    var d := RelaxDistances(dist, t);
    assert t.to != cv;
    forall u | 0 <= u < |adj| && u != cv
      ensures Pending(adj, d, heap', u)
    {
      if u == t.to && Improves(dist, t) {
        assert (d[u], u) in multiset(heap');
      } else if (dist[u], u) in heap {
        assert (dist[u], u) in multiset(heap');
      } else if dist[u] != IntMax {
        assert Pending(adj, dist, heap, u);
        assert d[u] == dist[u];
        forall i | 0 <= i < |adj[u]|
          ensures !Improves(d, Outgoing(adj, u, i))
        {
          assert !Improves(dist, Outgoing(adj, u, i));
        }
      }
    }
  }

  /** With no vertex pending in the heap, no entry of any list can be
      relaxed. */
  lemma EmptyHeapIsRelaxed(adj: seq<seq<Edge>>, dist: seq<int>)
    requires TargetsInRange(adj) && |dist| == |adj|
    requires forall u | 0 <= u < |adj| :: Pending(adj, dist, [], u)
    ensures Relaxed(ListTriples(adj), dist)
  {
    var E := ListTriples(adj);
    ListTriplesInRange(adj);
    forall k | 0 <= k < |E|
      ensures !Improves(dist, E[k])
    {
      var t := E[k];
      ListTriplesMeaning(adj, t);
      var i :| 0 <= i < |adj[t.from]| && adj[t.from][i] == Edge(t.to, t.weight);
      assert Outgoing(adj, t.from, i) == t;
      assert Pending(adj, dist, [], t.from);
    }
  }

  /** Lines 39-46 for entry `j` of `cv`'s list: when going through `cv` is
      shorter, the neighbour's distance and parent are set and the new pair
      pushed. With a non-negative weight and distances up to `INT_MAX` this
      is exactly the relaxation along the entry. */
  method RelaxNeighbor(graph: GraphList, cv: int, j: int, dist: seq<int>, prev: seq<int>, minHeap: MinHeap)
      returns (dist': seq<int>, prev': seq<int>)
    requires graph.WellFormed() && 0 <= cv < graph.vertexCount && 0 <= j < |graph.adjList[cv]|
    requires |dist| == |prev| == graph.vertexCount && 0 <= graph.adjList[cv][j].weight
    requires forall v | 0 <= v < |dist| :: dist[v] <= IntMax
    requires minHeap.Valid()
    modifies minHeap
    ensures minHeap.Valid()
    ensures var t := Outgoing(graph.adjList, cv, j);
            && 0 <= t.to < |dist|
            && dist' == RelaxDistances(dist, t) && prev' == RelaxParents(dist, prev, t)
            && multiset(minHeap.heap) == old(multiset(minHeap.heap)) +
                 (if Improves(dist, t) then multiset{(dist'[t.to], t.to)} else multiset{})
            && |minHeap.heap| == old(|minHeap.heap|) + (if Improves(dist, t) then 1 else 0)
  {
    var neighbors := graph.GetNeighbors(cv);
    var neighbor := neighbors[j].dest;
    var weight := neighbors[j].weight;
    dist', prev' := dist, prev;
    if dist[cv] + weight < dist[neighbor] {
      dist' := dist[neighbor := dist[cv] + weight];
      prev' := prev[neighbor := cv];
      minHeap.Push((dist'[neighbor], neighbor));
    }
  }

  /** The state the main loop keeps: consistent, non-negative distances,
      heap pairs naming vertices, and every vertex other than `cv`
      pending. */
  ghost predicate Settled(adj: seq<seq<Edge>>, source: int, dist: seq<int>, prev: seq<int>,
                          walks: seq<seq<EdgeTriple>>, heap: seq<Entry>, cv: int)
    requires TargetsInRange(adj)
  {
    && Consistent(ListTriples(adj), source, dist, prev, walks) && |dist| == |adj|
    && (forall v | 0 <= v < |dist| :: 0 <= dist[v])
    && EntriesInRange(heap, |dist|)
    && OthersPending(adj, dist, heap, cv)
  }

  /** One step of the loop over `cv`'s list: entry `j` relaxed. */
  method RelaxStep(graph: GraphList, source: int, cv: int, j: int, dist: seq<int>, prev: seq<int>,
                   ghost walks: seq<seq<EdgeTriple>>, minHeap: MinHeap)
      returns (dist': seq<int>, prev': seq<int>, ghost walks': seq<seq<EdgeTriple>>)
    requires graph.WellFormed() && NonNegative(ListTriples(graph.adjList))
    requires 0 <= cv < graph.vertexCount && 0 <= j < |graph.adjList[cv]| && minHeap.Valid()
    requires Settled(graph.adjList, source, dist, prev, walks, minHeap.heap, cv)
    requires ListRelaxedUpTo(graph.adjList, dist, cv, j)
    modifies minHeap
    ensures minHeap.Valid()
    ensures Settled(graph.adjList, source, dist', prev', walks', minHeap.heap, cv)
    ensures ListRelaxedUpTo(graph.adjList, dist', cv, j + 1)
    ensures Sum(dist') + |minHeap.heap| <= Sum(dist) + old(|minHeap.heap|)
  {
    ghost var adj := graph.adjList;
    ghost var E := ListTriples(adj);
    ghost var t := Outgoing(adj, cv, j);
    ghost var heap := minHeap.heap;
    EntryIsTriple(adj, cv, j);
    assert t in E;
    ghost var k :| 0 <= k < |E| && E[k] == t;
    dist', prev' := RelaxNeighbor(graph, cv, j, dist, prev, minHeap);
    RelaxOutcome(E, source, dist, prev, walks, t);
    walks' := RelaxWalks(dist, walks, t);
    RelaxKeepsPending(adj, dist, heap, minHeap.heap, cv, j);
    SumRelax(dist, t);
    EntriesAdded(heap, minHeap.heap, |dist|,
                 if Improves(dist, t) then multiset{(dist'[t.to], t.to)} else multiset{});
  }

  /** Lines 37-47: every entry of `cv`'s list relaxed in order. Afterwards
      `cv`'s whole list cannot be relaxed, so every vertex is pending, and
      the sum of the distances plus the heap size has not grown. */
  method RelaxNeighbors(graph: GraphList, source: int, cv: int, dist: seq<int>, prev: seq<int>,
                        ghost walks: seq<seq<EdgeTriple>>, minHeap: MinHeap)
      returns (dist': seq<int>, prev': seq<int>, ghost walks': seq<seq<EdgeTriple>>)
    requires graph.WellFormed() && NonNegative(ListTriples(graph.adjList))
    requires 0 <= cv < graph.vertexCount && minHeap.Valid()
    requires Settled(graph.adjList, source, dist, prev, walks, minHeap.heap, cv)
    modifies minHeap
    ensures minHeap.Valid()
    ensures Settled(graph.adjList, source, dist', prev', walks', minHeap.heap, -1)
    ensures Sum(dist') + |minHeap.heap| <= Sum(dist) + old(|minHeap.heap|)
  {
    var neighbors := graph.GetNeighbors(cv);
    dist', prev', walks' := dist, prev, walks;
    var i := 0;
    while i < |neighbors|
      invariant 0 <= i <= |neighbors| == |graph.adjList[cv]|
      invariant minHeap.Valid()
      invariant Settled(graph.adjList, source, dist', prev', walks', minHeap.heap, cv)
      invariant ListRelaxedUpTo(graph.adjList, dist', cv, i)
      invariant Sum(dist') + |minHeap.heap| <= Sum(dist) + old(|minHeap.heap|)
    {
      dist', prev', walks' := RelaxStep(graph, source, cv, i, dist', prev', walks', minHeap);
      i := i + 1;
    }
    assert Pending(graph.adjList, dist', minHeap.heap, cv);
  }

  /** Popping the least pair `x` of vertex `cv` keeps every other vertex
      pending, and `cv` too when `x` is stale; the pairs left still name
      vertices. */
  lemma PopKeepsPending(adj: seq<seq<Edge>>, dist: seq<int>, heap: seq<Entry>, heap': seq<Entry>, x: Entry)
    requires TargetsInRange(adj) && |dist| == |adj|
    requires x in heap && multiset(heap') == multiset(heap) - multiset{x}
    requires EntriesInRange(heap, |dist|) && OthersPending(adj, dist, heap, -1)
    ensures EntriesInRange(heap', |dist|) && OthersPending(adj, dist, heap', x.1)
    ensures x != (dist[x.1], x.1) ==> OthersPending(adj, dist, heap', -1)
  {
    forall i | 0 <= i < |heap'|
      ensures 0 <= heap'[i].1 < |dist|
    {
      assert heap'[i] in multiset(heap');
      assert heap'[i] in multiset(heap);
      var k :| 0 <= k < |heap| && heap[k] == heap'[i];
    }
    forall u | 0 <= u < |adj| && (u != x.1 || x != (dist[x.1], x.1))
      ensures Pending(adj, dist, heap', u)
    {
      assert Pending(adj, dist, heap, u);
      if (dist[u], u) in heap {
        assert (dist[u], u) in multiset(heap);
        assert (dist[u], u) in multiset(heap');
      }
    }
  }

  /** `findShortestPaths(graph, source, destination)` for non-negative
      weights, which its termination needs. `dist`, `prev` are the
      `distances`/`previous` vectors when the heap runs empty and `walks`
      their witness walks: every reported distance is the weight of a walk
      from `source`, and no list entry can be relaxed, so no walk is
      shorter. The result is the all-paths result (the source skipped,
      unreached vertices kept) or the walk back from `destination`. */
  method FindShortestPaths(graph: GraphList, source: int, destination: int)
      returns (paths: seq<EdgeTriple>, ghost dist: seq<int>, ghost prev: seq<int>,
               ghost walks: seq<seq<EdgeTriple>>)
    requires graph.WellFormed() && NonNegative(ListTriples(graph.adjList))
    requires 0 <= source < graph.vertexCount
    requires destination == -1 || 0 <= destination < graph.vertexCount
    ensures |dist| == graph.vertexCount
    ensures Consistent(ListTriples(graph.adjList), source, dist, prev, walks) && ParentsInRange(prev)
    ensures Relaxed(ListTriples(graph.adjList), dist)
    ensures paths == if destination == -1 then AllPaths(prev, dist, source, true, false)
                     else SinglePath(prev, dist, source, destination)
    ensures ShortestTriples(ListTriples(graph.adjList), source, paths)
  {
    ghost var adj := graph.adjList;
    ghost var E := ListTriples(adj);
    var vertexQuantity := graph.GetVertexCount();
    var distances := InitializeDistances(vertexQuantity);
    var previous := InitializePrevious(vertexQuantity);
    var minHeap := new MinHeap();
    distances := distances[source := 0];
    minHeap.Push((0, source));
    walks := seq(vertexQuantity, _ => []);
    ListTriplesInRange(adj);
    StartConsistent(E, vertexQuantity, source);
    assert (0, source) in multiset(minHeap.heap);
    forall i | 0 <= i < |minHeap.heap|
      ensures minHeap.heap[i] == (0, source)
    {
      assert minHeap.heap[i] in multiset(minHeap.heap);
    }
    var empty := minHeap.Empty();
    while !empty
      invariant minHeap.Valid() && adj == graph.adjList
      invariant empty <==> |minHeap.heap| == 0
      invariant Settled(adj, source, distances, previous, walks, minHeap.heap, -1)
      decreases Sum(distances) + |minHeap.heap|
    {
      SumNonNegative(distances);
      var access := minHeap.Top();
      var top := access.x;
      ghost var heap := minHeap.heap;
      minHeap.Pop();
      PopKeepsPending(adj, distances, heap, minHeap.heap, top);
      var currentVertex := top.1;
      var currentDistance := top.0;
      if currentDistance <= distances[currentVertex] {
        distances, previous, walks := RelaxNeighbors(graph, source, currentVertex, distances, previous, walks, minHeap);
      }
      SumNonNegative(distances);
      empty := minHeap.Empty();
    }
    assert minHeap.heap == [];
    EmptyHeapIsRelaxed(adj, distances);
    dist, prev := distances, previous;
    ReconstructionIsShortest(E, source, distances, previous, walks, destination, true, false);
    if destination != -1 {
      paths := ReconstructSinglePath(previous, distances, source, destination);
    } else {
      paths := ReconstructPaths(previous, distances, source, true, false);
    }
  }
}
