/** `DijkstraMatrix` (src/GraphsAlgorithms/TSPProblem/DijkstraMatrix.hpp):
    Dijkstra's algorithm on the incidence matrix, with a linear scan for the
    closest unvisited vertex instead of a heap. At most V - 1 vertices are
    visited; visiting one relaxes the columns leaving it towards unvisited
    vertices. */
module DijkstraMatrix {
  import opened EdgeTriples
  import opened GraphMatrices
  import opened MstCommon
  import opened ShortestPaths

  // ---------------------------------------------------------------------
  // The visited flags
  // ---------------------------------------------------------------------

  /** `initializeTSPVisited(n)`: no vertex visited. */
  function NoneVisited(n: nat): (visited: seq<bool>)
    ensures |visited| == n && forall v | 0 <= v < n :: !visited[v]
  {
    seq(n, _ => false)
  }

  /** The loop of `initializeTSPVisited`: `false` pushed `n` times. */
  method InitializeVisited(n: nat) returns (visited: seq<bool>)
    ensures visited == NoneVisited(n)
  {
    visited := [];
    var i := 0;
    while i < n
      invariant 0 <= i <= n
      invariant visited == NoneVisited(i)
    {
      visited := visited + [false];
      i := i + 1;
    }
  }

  /** The number of visited vertices. */
  ghost function CountTrue(visited: seq<bool>): nat {
    if visited == [] then 0
    else CountTrue(visited[..|visited| - 1]) + (if visited[|visited| - 1] then 1 else 0)
  }

  /** Nothing visited counts zero. */
  lemma {:induction false} CountNoneVisited(n: nat)
    ensures CountTrue(NoneVisited(n)) == 0
  {
    if n > 0 {
      assert NoneVisited(n)[..n - 1] == NoneVisited(n - 1);
      CountNoneVisited(n - 1);
    }
  }

  /** Visiting an unvisited vertex counts one more. */
  lemma {:induction false} CountVisit(visited: seq<bool>, v: int)
    requires 0 <= v < |visited| && !visited[v]
    ensures CountTrue(visited[v := true]) == CountTrue(visited) + 1
  {
    var n := |visited| - 1;
    assert visited[v := true][..n] == if v < n then visited[..n][v := true] else visited[..n];
    if v < n {
      CountVisit(visited[..n], v);
    }
  }

  /** The count never exceeds the number of vertices, and two unvisited
      vertices leave it at least two short. */
  lemma {:induction false} CountBounds(visited: seq<bool>, x: int, y: int)
    requires 0 <= x < |visited| && 0 <= y < |visited|
    ensures CountTrue(visited) <= |visited|
    ensures x != y && !visited[x] && !visited[y] ==> CountTrue(visited) <= |visited| - 2
    ensures !visited[x] ==> CountTrue(visited) <= |visited| - 1
    decreases |visited|
  {
    var n := |visited| - 1;
    if n > 0 {
      var x' := if x < n then x else 0;
      var y' := if y < n then y else if x' == 0 then n - 1 else 0;
      CountBounds(visited[..n], x', y');
      if x < n {
        CountBounds(visited[..n], x, x);
      }
      if y < n {
        CountBounds(visited[..n], y, y);
      }
    }
  }

  /** At most one vertex is still unvisited. */
  ghost predicate AtMostOneUnvisited(visited: seq<bool>) {
    forall x, y | 0 <= x < |visited| && 0 <= y < |visited| && x != y :: visited[x] || visited[y]
  }

  /** Once `V - 1` vertices are visited, or all of them, at most one is
      left. */
  lemma CountedAllButOne(visited: seq<bool>)
    requires CountTrue(visited) >= |visited| - 1 || forall v | 0 <= v < |visited| :: visited[v]
    ensures AtMostOneUnvisited(visited)
  {
    forall x, y | 0 <= x < |visited| && 0 <= y < |visited| && x != y
      ensures visited[x] || visited[y]
    {
      CountBounds(visited, x, y);
    }
  }

  // ---------------------------------------------------------------------
  // Choosing the next vertex
  // ---------------------------------------------------------------------

  /** `getMinDistanceVertex(distances, visited)`: `-1` iff no unvisited
      vertex has a distance up to `INT_MAX`; otherwise an unvisited vertex
      whose distance is least among the unvisited ones and, of those, the
      one with the highest index. */
  method GetMinDistanceVertex(distances: seq<int>, visited: seq<bool>) returns (minIndex: int)
    requires |visited| == |distances|
    ensures -1 <= minIndex < |distances|
    ensures minIndex == -1 <==> forall v | 0 <= v < |distances| :: visited[v] || distances[v] > IntMax
    ensures minIndex != -1 ==>
              && !visited[minIndex] && distances[minIndex] <= IntMax
              && (forall v | 0 <= v < |distances| && !visited[v] :: distances[minIndex] <= distances[v])
              && (forall v | minIndex < v < |distances| && !visited[v] :: distances[minIndex] < distances[v])
  {
    var minValue := IntMax;
    minIndex := -1;
    var i := 0;
    while i < |distances|
      invariant 0 <= i <= |distances| && -1 <= minIndex < i && minValue <= IntMax
      invariant minIndex == -1 ==> minValue == IntMax && forall v | 0 <= v < i :: visited[v] || distances[v] > IntMax
      invariant minIndex != -1 ==> !visited[minIndex] && distances[minIndex] == minValue
      invariant forall v | 0 <= v < i && !visited[v] :: minValue <= distances[v]
      invariant forall v | minIndex < v < i && !visited[v] :: minValue < distances[v]
    {
      if !visited[i] && distances[i] <= minValue {
        minValue := distances[i];
        minIndex := i;
      }
      i := i + 1;
    }
  }

  // ---------------------------------------------------------------------
  // Visiting a vertex
  // ---------------------------------------------------------------------

  /** Whether the scan of vertex `cv` relaxes along `t`: `t` leaves `cv`
      towards an unvisited vertex. */
  predicate Scanned(visited: seq<bool>, cv: int, t: EdgeTriple)
    requires 0 <= t.to < |visited|
  {
    t.from == cv && !visited[t.to]
  }

  /** The distances after the scan of `cv` reaches column `t`. */
  function ScanDistances(dist: seq<int>, visited: seq<bool>, cv: int, t: EdgeTriple): seq<int>
    requires 0 <= t.from < |dist| && 0 <= t.to < |dist| && |visited| == |dist|
  {
    if Scanned(visited, cv, t) then RelaxDistances(dist, t) else dist
  }

  /** The parents after the scan of `cv` reaches column `t`. */
  function ScanParents(dist: seq<int>, prev: seq<int>, visited: seq<bool>, cv: int, t: EdgeTriple): seq<int>
    requires 0 <= t.from < |dist| && 0 <= t.to < |dist| && |visited| == |dist| && |prev| == |dist|
  {
    if Scanned(visited, cv, t) then RelaxParents(dist, prev, t) else prev
  }

  /** The witness walks after the scan of `cv` reaches column `t`. */
  ghost function ScanWalks(dist: seq<int>, walks: seq<seq<EdgeTriple>>, visited: seq<bool>, cv: int,
                           t: EdgeTriple): seq<seq<EdgeTriple>>
    requires 0 <= t.from < |dist| && 0 <= t.to < |dist| && |visited| == |dist| && |walks| == |dist|
  {
    if Scanned(visited, cv, t) then RelaxWalks(dist, walks, t) else walks
  }

  /** Vertices visited keep their distances from `d` in `d'`. */
  ghost predicate Kept(d': seq<int>, d: seq<int>, visited: seq<bool>) {
    |d'| == |d| == |visited| && forall v | 0 <= v < |d| && visited[v] :: d'[v] == d[v]
  }

  /** Every distance of `d'` is unchanged from `d` or at least `cv`'s in
      `d`. */
  ghost predicate AboveTail(d': seq<int>, d: seq<int>, cv: int)
    requires |d'| == |d| && 0 <= cv < |d|
  {
    forall v | 0 <= v < |d| :: d'[v] == d[v] || d[cv] <= d'[v]
  }

  /** Columns before `e` leaving a reached `cv` towards an unvisited vertex
      end in `d'` within their weight of `cv`'s distance in `d`. */
  ghost predicate Reaching(E: seq<EdgeTriple>, d': seq<int>, d: seq<int>, visited: seq<bool>, cv: int, e: int)
    requires EndsInRange(E, |d|) && |d'| == |d| == |visited| && 0 <= cv < |d| && 0 <= e <= |E|
  {
    d[cv] != IntMax ==>
      forall k | 0 <= k < e && E[k].from == cv && !visited[E[k].to] :: d'[E[k].to] <= d[cv] + E[k].weight
  }

  /** The scan of `cv` has gone through the columns before `e`, starting
      from the distances `start`. */
  ghost predicate ScanProgress(E: seq<EdgeTriple>, start: seq<int>, d: seq<int>, visited: seq<bool>, cv: int, e: int)
    requires EndsInRange(E, |start|) && |d| == |start| == |visited| && 0 <= cv < |start| && 0 <= e <= |E|
  {
    && Below(d, start) && Kept(d, start, visited)
    && (NonNegative(E) ==> AboveTail(d, start, cv))
    && Reaching(E, d, start, visited, cv, e)
  }

  /** What one column of the scan keeps: the state stays consistent,
      distances only go down, visited vertices keep theirs, with
      non-negative weights no distance drops below `cv`'s, and a scanned
      column ends within its weight of a reached `cv`. */
  lemma ScanOutcome(E: seq<EdgeTriple>, source: int, dist: seq<int>, prev: seq<int>,
                    walks: seq<seq<EdgeTriple>>, visited: seq<bool>, cv: int, t: EdgeTriple)
    requires Consistent(E, source, dist, prev, walks) && t in E && |visited| == |dist|
    requires 0 <= t.from < |dist| && 0 <= t.to < |dist| && 0 <= cv < |dist|
    ensures |walks| == |dist|
    ensures var d := ScanDistances(dist, visited, cv, t);
            && Consistent(E, source, d, ScanParents(dist, prev, visited, cv, t),
                          ScanWalks(dist, walks, visited, cv, t))
            && Below(d, dist) && Kept(d, dist, visited)
            && (NonNegative(E) ==> AboveTail(d, dist, cv))
            && (Scanned(visited, cv, t) && dist[cv] != IntMax ==> d[t.to] <= dist[cv] + t.weight)
  {
    RelaxOutcome(E, source, dist, prev, walks, t);
    if NonNegative(E) {
      var k :| 0 <= k < |E| && E[k] == t;
    }
  }

  /** One more column scanned keeps the scan's progress. */
  lemma ScanStep(E: seq<EdgeTriple>, start: seq<int>, before: seq<int>, after: seq<int>,
                 visited: seq<bool>, cv: int, e: int)
    requires EndsInRange(E, |start|) && |before| == |after| == |start| == |visited|
    requires 0 <= cv < |start| && visited[cv] && 0 <= e < |E|
    requires ScanProgress(E, start, before, visited, cv, e)
    requires Below(after, before) && Kept(after, before, visited)
    requires NonNegative(E) ==> AboveTail(after, before, cv)
    requires Scanned(visited, cv, E[e]) && before[cv] != IntMax ==> after[E[e].to] <= before[cv] + E[e].weight
    ensures ScanProgress(E, start, after, visited, cv, e + 1)
  {
    assert before[cv] == start[cv];
  }

  /** Lines 34-43 for column `e`: its tail read through `getFrom`; when it
      is `cv`, its head and weight read too and, towards an unvisited head,
      the column relaxed. */
  method ScanColumn(graph: GraphMatrix, cv: int, visited: seq<bool>, e: int, dist: seq<int>, prev: seq<int>)
      returns (dist': seq<int>, prev': seq<int>)
    requires graph.Valid() && 0 <= e < |graph.edges|
    requires |dist| == graph.vertexCount && |visited| == |dist| && |prev| == |dist|
    ensures 0 <= graph.edges[e].from < |dist| && 0 <= graph.edges[e].to < |dist|
    ensures dist' == ScanDistances(dist, visited, cv, graph.edges[e])
    ensures prev' == ScanParents(dist, prev, visited, cv, graph.edges[e])
  {
    assert 0 <= graph.edges[e].from < |dist| && 0 <= graph.edges[e].to < |dist|;
    dist', prev' := dist, prev;
    var from := graph.GetFrom(e);
    if from == cv {
      var neighbor := graph.GetDest(e);
      var weight := graph.GetWeight(e);
      if !visited[neighbor] && dist[cv] != IntMax && dist[cv] + weight < dist[neighbor] {
        dist' := dist[neighbor := dist[cv] + weight];
        prev' := prev[neighbor := cv];
      }
    }
  }

  /** Lines 33-44: `cv`, already marked visited, is scanned over every
      column. The state stays consistent, visited vertices keep their
      distances, with non-negative weights no distance drops below `cv`'s,
      and every column from a reached `cv` to an unvisited vertex ends
      within its weight. */
  method ScanVertex(graph: GraphMatrix, source: int, cv: int, visited: seq<bool>, dist: seq<int>,
                    prev: seq<int>, ghost walks: seq<seq<EdgeTriple>>)
      returns (dist': seq<int>, prev': seq<int>, ghost walks': seq<seq<EdgeTriple>>)
    requires graph.Valid() && Consistent(graph.edges, source, dist, prev, walks)
    requires |visited| == |dist| == graph.vertexCount && 0 <= cv < |dist| && visited[cv]
    ensures Consistent(graph.edges, source, dist', prev', walks') && |dist'| == |dist|
    ensures ScanProgress(graph.edges, dist, dist', visited, cv, |graph.edges|)
  {
    var edgeQuantity := graph.GetEdgeCount();
    ghost var E := graph.edges;
    dist', prev', walks' := dist, prev, walks;
    var e := 0;
    while e < edgeQuantity
      invariant 0 <= e <= edgeQuantity == |E| && graph.Valid() && E == graph.edges
      invariant Consistent(E, source, dist', prev', walks') && |dist'| == |dist|
      invariant ScanProgress(E, dist, dist', visited, cv, e)
    {
      ghost var before := dist';
      ghost var beforeWalks := walks';
      ghost var beforePrev := prev';
      dist', prev' := ScanColumn(graph, cv, visited, e, dist', prev');
      assert E[e] in E;
      ScanOutcome(E, source, before, beforePrev, beforeWalks, visited, cv, E[e]);
      walks' := ScanWalks(before, beforeWalks, visited, cv, E[e]);
      ScanStep(E, dist, before, dist', visited, cv, e);
      e := e + 1;
    }
  }

  // ---------------------------------------------------------------------
  // Why the result is right for non-negative weights
  // ---------------------------------------------------------------------

  /** Every visited vertex is no farther than any unvisited one. */
  ghost predicate VisitedFirst(dist: seq<int>, visited: seq<bool>)
    requires |visited| == |dist|
  {
    forall a, b | 0 <= a < |dist| && 0 <= b < |dist| && visited[a] && !visited[b] :: dist[a] <= dist[b]
  }

  /** No column leaving a visited vertex can be relaxed. */
  ghost predicate VisitedTight(E: seq<EdgeTriple>, dist: seq<int>, visited: seq<bool>)
    requires EndsInRange(E, |dist|) && |visited| == |dist|
  {
    forall k | 0 <= k < |E| && visited[E[k].from] :: !Improves(dist, E[k])
  }

  /** Visiting a closest unvisited vertex `cv` with non-negative weights
      keeps visited vertices first and their columns tight. */
  lemma VisitStep(E: seq<EdgeTriple>, dist: seq<int>, dist': seq<int>, visited: seq<bool>, cv: int)
    requires EndsInRange(E, |dist|) && NonNegative(E)
    requires |visited| == |dist| == |dist'| && 0 <= cv < |dist| && !visited[cv]
    requires forall b | 0 <= b < |dist| && !visited[b] :: dist[cv] <= dist[b]
    requires VisitedFirst(dist, visited) && VisitedTight(E, dist, visited)
    requires ScanProgress(E, dist, dist', visited[cv := true], cv, |E|)
    ensures VisitedFirst(dist', visited[cv := true]) && VisitedTight(E, dist', visited[cv := true])
  {
    var vis := visited[cv := true];
    forall a, b | 0 <= a < |dist| && 0 <= b < |dist| && vis[a] && !vis[b]
      ensures dist'[a] <= dist'[b]
    {
      assert dist'[a] == dist[a] <= dist[cv];
    }
    forall k | 0 <= k < |E| && vis[E[k].from]
      ensures !Improves(dist', E[k])
    {
      var t := E[k];
      if t.from != cv {
        assert !Improves(dist, t);
      } else if vis[t.to] {
        assert dist'[t.to] == dist[t.to] <= dist[cv];
      }
    }
  }

  /** With visited vertices first, their columns tight, non-negative
      weights and at most one vertex left unvisited, no column can be
      relaxed at all. */
  lemma FinishedIsRelaxed(E: seq<EdgeTriple>, dist: seq<int>, visited: seq<bool>)
    requires EndsInRange(E, |dist|) && NonNegative(E) && |visited| == |dist|
    requires VisitedFirst(dist, visited) && VisitedTight(E, dist, visited)
    requires AtMostOneUnvisited(visited)
    ensures Relaxed(E, dist)
  {
    forall k | 0 <= k < |E|
      ensures !Improves(dist, E[k])
    {
      var t := E[k];
      if !visited[t.from] && visited[t.to] {
        assert dist[t.to] <= dist[t.from];
      }
    }
  }

  // ---------------------------------------------------------------------
  // The solver
  // ---------------------------------------------------------------------

  /** Lines 31-44: the vertex `cv` chosen by `getMinDistanceVertex` is
      marked visited and scanned. One more vertex is visited, the state
      stays consistent and, with non-negative weights, visited vertices
      stay first and their columns tight. */
  method Visit(graph: GraphMatrix, source: int, cv: int, visited: seq<bool>, dist: seq<int>,
               prev: seq<int>, ghost walks: seq<seq<EdgeTriple>>)
      returns (visited': seq<bool>, dist': seq<int>, prev': seq<int>, ghost walks': seq<seq<EdgeTriple>>)
    requires graph.Valid() && Consistent(graph.edges, source, dist, prev, walks)
    requires |visited| == |dist| == graph.vertexCount && 0 <= cv < |dist| && !visited[cv]
    requires forall v | 0 <= v < |dist| && !visited[v] :: dist[cv] <= dist[v]
    requires NonNegative(graph.edges) ==>
               VisitedFirst(dist, visited) && VisitedTight(graph.edges, dist, visited)
    ensures visited' == visited[cv := true] && CountTrue(visited') == CountTrue(visited) + 1
    ensures Consistent(graph.edges, source, dist', prev', walks') && |dist'| == |dist|
    ensures NonNegative(graph.edges) ==>
              VisitedFirst(dist', visited') && VisitedTight(graph.edges, dist', visited')
  {
    visited' := visited[cv := true];
    CountVisit(visited, cv);
    dist', prev', walks' := ScanVertex(graph, source, cv, visited', dist, prev, walks);
    if NonNegative(graph.edges) {
      VisitStep(graph.edges, dist, dist', visited, cv);
    }
  }

  /** `findShortestPaths(graph, source, destination)`. `dist`, `prev` are
      the `distances`/`previous` vectors after the visits and `walks` their
      witness walks: every reported distance is the weight of a walk from
      `source`, and with non-negative weights no column can be relaxed, so
      no walk is shorter. The result is the all-paths result (unreached
      vertices skipped, the source kept) or the walk back from
      `destination`. */
  method FindShortestPaths(graph: GraphMatrix, source: int, destination: int)
      returns (paths: seq<EdgeTriple>, ghost dist: seq<int>, ghost prev: seq<int>,
               ghost walks: seq<seq<EdgeTriple>>)
    requires graph.Valid() && 0 <= source < graph.vertexCount
    requires destination == -1 || 0 <= destination < graph.vertexCount
    ensures |dist| == graph.vertexCount
    ensures Consistent(graph.edges, source, dist, prev, walks) && ParentsInRange(prev)
    ensures NonNegative(graph.edges) ==> Relaxed(graph.edges, dist)
    ensures paths == if destination == -1 then AllPaths(prev, dist, source, false, true)
                     else SinglePath(prev, dist, source, destination)
    ensures NonNegative(graph.edges) ==> ShortestTriples(graph.edges, source, paths)
  {
    ghost var E := graph.edges;
    var vertexQuantity := graph.GetVertexCount();
    var distances := InitializeDistances(vertexQuantity);
    var previous := InitializePrevious(vertexQuantity);
    var visited := InitializeVisited(vertexQuantity);
    distances := distances[source := 0];
    walks := seq(vertexQuantity, _ => []);
    StartConsistent(E, vertexQuantity, source);
    CountNoneVisited(vertexQuantity);
    var i := 0;
    while i < vertexQuantity - 1
      invariant 0 <= i <= vertexQuantity - 1
      invariant graph.Valid() && E == graph.edges
      invariant |distances| == |visited| == vertexQuantity
      invariant Consistent(E, source, distances, previous, walks)
      invariant CountTrue(visited) == i
      invariant NonNegative(E) ==> VisitedFirst(distances, visited) && VisitedTight(E, distances, visited)
    {
      var currentVertex := GetMinDistanceVertex(distances, visited);
      if currentVertex == -1 {
        break;
      }
      visited, distances, previous, walks := Visit(graph, source, currentVertex, visited, distances, previous, walks);
      i := i + 1;
    }
    dist, prev := distances, previous;
    if NonNegative(E) {
      CountedAllButOne(visited);
      FinishedIsRelaxed(E, distances, visited);
      ReconstructionIsShortest(E, source, distances, previous, walks, destination, false, true);
    }
    ParentsOkInRange(E, source, distances, previous);
    if destination != -1 {
      paths := ReconstructSinglePath(previous, distances, source, destination);
    } else {
      paths := ReconstructPaths(previous, distances, source, false, true);
    }
  }
}
