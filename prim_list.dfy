/** `PrimList` (src/GraphsAlgorithms/MSTProblem/PrimList.hpp): Prim's
    algorithm on the adjacency lists, without a priority queue. Each round
    rescans the whole graph for the lightest edge between the tree and the
    rest, treating every directed entry as an undirected edge. */
module PrimList {
  import opened EdgeTriples
  import opened GraphLists
  import opened MstCommon

  // ---------------------------------------------------------------------
  // The candidates of `selectMinimumEdge`, in the order it meets them
  // ---------------------------------------------------------------------

  /** The entry `e` of tree vertex `u`'s list is a candidate: it is no
      self-loop and leads out of the tree. (`inMST[dest]` is bounds-checked,
      so the solvers need every `dest` to be a vertex.) */
  predicate LeavesTree(u: int, e: Edge, inTree: seq<bool>) {
    e.dest != u && 0 <= e.dest < |inTree| && !inTree[e.dest]
  }

  /** Candidates from tree vertex `u`'s own list: every entry to a vertex
      outside the tree (self-loops skipped), as `{u, dest, weight}`. */
  function Outgoing(u: int, row: seq<Edge>, inTree: seq<bool>): seq<EdgeTriple> {
    if row == [] then []
    else
      var e := row[|row| - 1];
      Outgoing(u, row[..|row| - 1], inTree)
        + (if LeavesTree(u, e, inTree) then [EdgeTriple(u, e.dest, e.weight)] else [])
  }

  /** Candidates from the list of vertex `v`: every entry back to `u`,
      reported the other way round as `{u, v, weight}`. */
  function IncomingFrom(u: int, v: int, row: seq<Edge>): seq<EdgeTriple> {
    if row == [] then []
    else
      IncomingFrom(u, v, row[..|row| - 1])
        + (if row[|row| - 1].dest == u then [EdgeTriple(u, v, row[|row| - 1].weight)] else [])
  }

  /** The candidates from the list of vertex `v` back to tree vertex `u`:
      nothing unless `v` is a vertex outside the tree other than `u`. */
  function IncomingBlock(adj: seq<seq<Edge>>, inTree: seq<bool>, u: int, v: int): seq<EdgeTriple> {
    if 0 <= v < |adj| && v < |inTree| && v != u && !inTree[v] then IncomingFrom(u, v, adj[v]) else []
  }

  /** Those blocks for every `v` in ascending order. */
  function IncomingBlocks(adj: seq<seq<Edge>>, inTree: seq<bool>, u: int): (blocks: seq<seq<EdgeTriple>>)
    ensures |blocks| == |adj|
  {
    seq(|adj|, v => IncomingBlock(adj, inTree, u, v))
  }

  /** The candidates of tree vertex `u`: first its outgoing ones, then the
      incoming ones; nothing for a vertex outside the tree. */
  function CandidateBlock(adj: seq<seq<Edge>>, inTree: seq<bool>, u: int): seq<EdgeTriple> {
    if 0 <= u < |adj| && u < |inTree| && inTree[u]
    then Outgoing(u, adj[u], inTree) + Flatten(IncomingBlocks(adj, inTree, u))
    else []
  }

  /** Those blocks for every tree vertex in ascending order. */
  function CandidateBlocks(adj: seq<seq<Edge>>, inTree: seq<bool>): (blocks: seq<seq<EdgeTriple>>)
    ensures |blocks| == |adj|
  {
    seq(|adj|, u => CandidateBlock(adj, inTree, u))
  }

  /** The edge `selectMinimumEdge` returns for the tree `inTree`. */
  function PrimChoice(adj: seq<seq<Edge>>, inTree: seq<bool>): EdgeTriple {
    Scan(Flatten(CandidateBlocks(adj, inTree))).best
  }

  /** `selectMinimumEdge` on the lists `adj`, as a function of the tree. */
  function PrimChooser(adj: seq<seq<Edge>>): seq<bool> -> EdgeTriple {
    inTree => PrimChoice(adj, inTree)
  }

  // ---------------------------------------------------------------------
  // What the candidates are
  // ---------------------------------------------------------------------

  /** `t` goes from the tree to a vertex outside it along an entry of the
      lists, in one direction or the other. */
  ghost predicate Crossing(adj: seq<seq<Edge>>, inTree: seq<bool>, t: EdgeTriple)
    requires |adj| == |inTree|
  {
    && 0 <= t.from < |adj| && 0 <= t.to < |adj|
    && inTree[t.from] && !inTree[t.to]
    && (Edge(t.to, t.weight) in adj[t.from] || Edge(t.from, t.weight) in adj[t.to])
  }

  /** Entry `i` of `u`'s list joins the tree to the rest. */
  ghost predicate CrossingEntry(adj: seq<seq<Edge>>, inTree: seq<bool>, u: int, i: int)
    requires |adj| == |inTree| && TargetsInRange(adj)
  {
    0 <= u < |adj| && 0 <= i < |adj[u]| && inTree[u] != inTree[adj[u][i].dest]
  }

  /** That entry as a triple oriented from the tree outwards. */
  function Oriented(adj: seq<seq<Edge>>, inTree: seq<bool>, u: int, i: int): EdgeTriple
    requires 0 <= u < |adj| == |inTree| && 0 <= i < |adj[u]|
  {
    if inTree[u] then EdgeTriple(u, adj[u][i].dest, adj[u][i].weight)
    else EdgeTriple(adj[u][i].dest, u, adj[u][i].weight)
  }

  lemma {:induction false} OutgoingCross(adj: seq<seq<Edge>>, inTree: seq<bool>, u: int, row: seq<Edge>)
    requires |adj| == |inTree|
    requires 0 <= u < |adj| && inTree[u] && row <= adj[u]
    ensures forall t | t in Outgoing(u, row, inTree) :: Crossing(adj, inTree, t)
  {
    if row != [] {
      var e := row[|row| - 1];
      OutgoingCross(adj, inTree, u, row[..|row| - 1]);
      assert e == adj[u][|row| - 1];
    }
  }

  lemma {:induction false} IncomingFromCross(adj: seq<seq<Edge>>, inTree: seq<bool>, u: int, v: int, row: seq<Edge>)
    requires |adj| == |inTree|
    requires 0 <= u < |adj| && inTree[u] && 0 <= v < |adj| && !inTree[v] && row <= adj[v]
    ensures forall t | t in IncomingFrom(u, v, row) :: Crossing(adj, inTree, t)
  {
    if row != [] {
      IncomingFromCross(adj, inTree, u, v, row[..|row| - 1]);
      assert row[|row| - 1] == adj[v][|row| - 1];
    }
  }

  lemma IncomingCross(adj: seq<seq<Edge>>, inTree: seq<bool>, u: int, t: EdgeTriple)
    requires |adj| == |inTree| && 0 <= u < |adj| && inTree[u]
    requires t in Flatten(IncomingBlocks(adj, inTree, u))
    ensures Crossing(adj, inTree, t)
  {
    var blocks := IncomingBlocks(adj, inTree, u);
    FlattenMember(blocks, t);
    var v :| 0 <= v < |blocks| && t in blocks[v];
    IncomingFromCross(adj, inTree, u, v, adj[v]);
  }

  /** Every candidate crosses from the tree to the rest along an entry. */
  lemma CandidatesCross(adj: seq<seq<Edge>>, inTree: seq<bool>, t: EdgeTriple)
    requires |adj| == |inTree|
    requires t in Flatten(CandidateBlocks(adj, inTree))
    ensures Crossing(adj, inTree, t)
  {
    var blocks := CandidateBlocks(adj, inTree);
    FlattenMember(blocks, t);
    var u :| 0 <= u < |blocks| && t in blocks[u];
    if t in Outgoing(u, adj[u], inTree) {
      OutgoingCross(adj, inTree, u, adj[u]);
    } else {
      IncomingCross(adj, inTree, u, t);
    }
  }

  lemma {:induction false} OutgoingHas(u: int, row: seq<Edge>, inTree: seq<bool>, i: int)
    requires 0 <= i < |row| && LeavesTree(u, row[i], inTree)
    ensures EdgeTriple(u, row[i].dest, row[i].weight) in Outgoing(u, row, inTree)
  {
    if i < |row| - 1 {
      assert row[..|row| - 1][i] == row[i];
      OutgoingHas(u, row[..|row| - 1], inTree, i);
    }
  }

  lemma {:induction false} IncomingFromHas(u: int, v: int, row: seq<Edge>, j: int)
    requires 0 <= j < |row| && row[j].dest == u
    ensures EdgeTriple(u, v, row[j].weight) in IncomingFrom(u, v, row)
  {
    if j < |row| - 1 {
      assert row[..|row| - 1][j] == row[j];
      IncomingFromHas(u, v, row[..|row| - 1], j);
    }
  }

  /** Every entry joining the tree to the rest is a candidate, oriented from
      the tree outwards. */
  lemma CrossingEntryIsCandidate(adj: seq<seq<Edge>>, inTree: seq<bool>, u: int, i: int)
    requires |adj| == |inTree| && TargetsInRange(adj) && NoSelfLoops(adj)
    requires CrossingEntry(adj, inTree, u, i)
    ensures Oriented(adj, inTree, u, i) in Flatten(CandidateBlocks(adj, inTree))
  {
    var v := adj[u][i].dest;
    var t := Oriented(adj, inTree, u, i);
    var blocks := CandidateBlocks(adj, inTree);
    if inTree[u] {
      OutgoingHas(u, adj[u], inTree, i);
      assert t in blocks[u];
      FlattenHas(blocks, u, t);
    } else {
      var incoming := IncomingBlocks(adj, inTree, v);
      IncomingFromHas(v, u, adj[u], i);
      assert t in incoming[u];
      FlattenHas(incoming, u, t);
      assert t in blocks[v];
      FlattenHas(blocks, v, t);
    }
  }

  /** `selectMinimumEdge` returns `{-1, -1, -1}` exactly when every entry
      joining the tree to the rest weighs `INT_MAX`; otherwise an edge from
      the tree to a new vertex along an entry (reported from the tree side),
      no heavier than any entry joining the tree to the rest. */
  lemma PrimChoiceIsLightestCrossing(adj: seq<seq<Edge>>, inTree: seq<bool>)
    requires |adj| == |inTree| && TargetsInRange(adj) && NoSelfLoops(adj)
    ensures PrimChoice(adj, inTree) == NoEdge <==>
              forall u, i | CrossingEntry(adj, inTree, u, i) :: adj[u][i].weight >= IntMax
    ensures PrimChoice(adj, inTree) != NoEdge ==>
              && Crossing(adj, inTree, PrimChoice(adj, inTree))
              && PrimChoice(adj, inTree).weight < IntMax
              && forall u, i | CrossingEntry(adj, inTree, u, i) ::
                   PrimChoice(adj, inTree).weight <= adj[u][i].weight
  {
    var c := Flatten(CandidateBlocks(adj, inTree));
    ScanFindsFirstMinimum(c);
    forall u, i | CrossingEntry(adj, inTree, u, i)
      ensures Oriented(adj, inTree, u, i) in c
    {
      CrossingEntryIsCandidate(adj, inTree, u, i);
    }
    if Scan(c) == NoPick {
      assert PrimChoice(adj, inTree) == NoEdge;
    } else {
      var k :| 0 <= k < |c| && c[k] == Scan(c).best;
      CandidatesCross(adj, inTree, c[k]);
      assert PrimChoice(adj, inTree) != NoEdge;
      forall u, i | CrossingEntry(adj, inTree, u, i)
        ensures Scan(c).best.weight <= adj[u][i].weight
      {
        var j :| 0 <= j < |c| && c[j] == Oriented(adj, inTree, u, i);
      }
    }
  }

  // ---------------------------------------------------------------------
  // The solver
  // ---------------------------------------------------------------------

  /** `selectMinimumEdge(graph, inMST, vertexQuantity)`: for every tree
      vertex `u` in ascending order, first its own entries to non-tree
      vertices, then the entries of every non-tree vertex back to `u`; the
      first strictly lightest one wins. */
  method SelectMinimumEdge(graph: GraphList, inMST: seq<bool>, n: int) returns (best: EdgeTriple)
    requires graph.WellFormed() && n == graph.vertexCount == |inMST|
    ensures best == PrimChoice(graph.adjList, inMST)
  {
    ghost var adj := graph.adjList;
    ghost var blocks := CandidateBlocks(adj, inMST);
    var pick := NoPick;
    var u := 0;
    while u < n
      invariant 0 <= u <= n
      invariant graph.WellFormed() && graph.adjList == adj
      invariant pick == Scan(Flatten(blocks[..u]))
    {
      pick := ScanTreeVertex(graph, inMST, u, pick, Flatten(blocks[..u]));
      FlattenStep(blocks, u);
      u := u + 1;
    }
    assert blocks[..u] == blocks;
    best := pick.best;
  }

  /** One round of the outer loop of `selectMinimumEdge`: both inner loops
      when `u` is in the tree, nothing otherwise. */
  method ScanTreeVertex(graph: GraphList, inMST: seq<bool>, u: int, pick: Pick, ghost seen: seq<EdgeTriple>)
      returns (pick': Pick)
    requires graph.WellFormed() && graph.vertexCount == |inMST| && 0 <= u < |inMST|
    requires pick == Scan(seen)
    ensures pick' == Scan(seen + CandidateBlocks(graph.adjList, inMST)[u])
  {
    ghost var adj := graph.adjList;
    pick' := pick;
    if inMST[u] {
      ghost var outgoing := Outgoing(u, adj[u], inMST);
      pick' := ScanOwnEntries(graph, inMST, u, pick', seen);
      ghost var incoming := Flatten(IncomingBlocks(adj, inMST, u));
      pick' := ScanEntriesBack(graph, inMST, u, pick', seen + outgoing);
      assert CandidateBlocks(adj, inMST)[u] == outgoing + incoming;
      assert (seen + outgoing) + incoming == seen + (outgoing + incoming);
    } else {
      assert seen + [] == seen;
    }
  }

  /** The first inner loop of `selectMinimumEdge`: tree vertex `u`'s own
      entries, self-loops and tree targets skipped. */
  method ScanOwnEntries(graph: GraphList, inMST: seq<bool>, u: int, pick: Pick, ghost seen: seq<EdgeTriple>)
      returns (pick': Pick)
    requires graph.WellFormed() && graph.vertexCount == |inMST| && 0 <= u < |inMST|
    requires pick == Scan(seen)
    ensures pick' == Scan(seen + Outgoing(u, graph.adjList[u], inMST))
  {
    var neighbors := graph.GetNeighbors(u);
    pick' := pick;
    ghost var seen' := seen;
    var i := 0;
    while i < |neighbors|
      invariant 0 <= i <= |neighbors|
      invariant seen' == seen + Outgoing(u, neighbors[..i], inMST)
      invariant pick' == Scan(seen')
    {
      var v := neighbors[i].dest;
      var weight := neighbors[i].weight;
      assert neighbors[..i + 1][..i] == neighbors[..i];
      if v != u && !inMST[v] {
        assert LeavesTree(u, neighbors[i], inMST);
        ScanAppend(seen', EdgeTriple(u, v, weight));
        seen' := seen' + [EdgeTriple(u, v, weight)];
        if weight < pick'.minWeight {
          pick' := Pick(weight, EdgeTriple(u, v, weight));
        }
      }
      i := i + 1;
    }
    assert neighbors[..i] == neighbors;
  }

  /** The second inner loop of `selectMinimumEdge`: for every non-tree
      vertex `v` other than `u`, the entries of `v` back to `u`. */
  method ScanEntriesBack(graph: GraphList, inMST: seq<bool>, u: int, pick: Pick, ghost seen: seq<EdgeTriple>)
      returns (pick': Pick)
    requires graph.Valid() && graph.vertexCount == |inMST| && 0 <= u < |inMST|
    requires pick == Scan(seen)
    ensures pick' == Scan(seen + Flatten(IncomingBlocks(graph.adjList, inMST, u)))
  {
    ghost var blocks := IncomingBlocks(graph.adjList, inMST, u);
    pick' := pick;
    var v := 0;
    assert seen + Flatten(blocks[..0]) == seen;
    while v < |inMST|
      invariant 0 <= v <= |inMST|
      invariant graph.Valid() && blocks == IncomingBlocks(graph.adjList, inMST, u)
      invariant pick' == Scan(seen + Flatten(blocks[..v]))
    {
      pick' := ScanVertexBack(graph, inMST, u, v, pick', seen);
      v := v + 1;
    }
    assert blocks[..v] == blocks;
  }

  /** One round of the second inner loop: vertex `v`'s entries back to `u`,
      when `v` is outside the tree and other than `u`. */
  method ScanVertexBack(graph: GraphList, inMST: seq<bool>, u: int, v: int, pick: Pick, ghost seen: seq<EdgeTriple>)
      returns (pick': Pick)
    requires graph.Valid() && graph.vertexCount == |inMST| && 0 <= v < |inMST|
    requires pick == Scan(seen + Flatten(IncomingBlocks(graph.adjList, inMST, u)[..v]))
    ensures pick' == Scan(seen + Flatten(IncomingBlocks(graph.adjList, inMST, u)[..v + 1]))
  {
    ghost var blocks := IncomingBlocks(graph.adjList, inMST, u);
    ghost var before := seen + Flatten(blocks[..v]);
    FlattenStepAfter(seen, blocks, v);
    pick' := pick;
    if v != u && !inMST[v] {
      var incoming := graph.GetNeighbors(v);
      pick' := ScanEntriesOf(incoming, u, v, pick', before);
    } else {
      assert before + [] == before;
    }
  }

  /** The entries of `v` back to `u`, reported as `{u, v, weight}`. */
  method ScanEntriesOf(incoming: seq<Edge>, u: int, v: int, pick: Pick, ghost seen: seq<EdgeTriple>)
      returns (pick': Pick)
    requires pick == Scan(seen)
    ensures pick' == Scan(seen + IncomingFrom(u, v, incoming))
  {
    pick' := pick;
    ghost var seen' := seen;
    var j := 0;
    while j < |incoming|
      invariant 0 <= j <= |incoming|
      invariant seen' == seen + IncomingFrom(u, v, incoming[..j])
      invariant pick' == Scan(seen')
    {
      assert incoming[..j + 1][..j] == incoming[..j];
      if incoming[j].dest == u {
        var weight := incoming[j].weight;
        ScanAppend(seen', EdgeTriple(u, v, weight));
        seen' := seen' + [EdgeTriple(u, v, weight)];
        if weight < pick'.minWeight {
          pick' := Pick(weight, EdgeTriple(u, v, weight));
        }
      }
      j := j + 1;
    }
    assert incoming[..j] == incoming;
  }

  /** A search that reports an end of -1 found nothing; any other result
      is a crossing edge. */
  lemma PrimChoiceFound(adj: seq<seq<Edge>>, inTree: seq<bool>)
    requires |adj| == |inTree|
    ensures PrimChoice(adj, inTree).from == -1 || PrimChoice(adj, inTree).to == -1 ==>
              PrimChoice(adj, inTree) == NoEdge
    ensures PrimChoice(adj, inTree) != NoEdge ==> Crossing(adj, inTree, PrimChoice(adj, inTree))
  {
    var c := Flatten(CandidateBlocks(adj, inTree));
    ScanFindsFirstMinimum(c);
    if Scan(c) != NoPick {
      var k :| 0 <= k < |c| && c[k] == Scan(c).best;
      CandidatesCross(adj, inTree, c[k]);
    }
  }

  /** `findMST(graph)`: vertex 0 seeds the tree (so the graph needs a
      vertex), and rounds of `selectMinimumEdge` add one edge and one vertex
      each until V - 1 edges are in or no edge is found. */
  method FindMST(graph: GraphList) returns (mst: seq<EdgeTriple>)
    requires graph.WellFormed() && graph.vertexCount >= 1
    ensures GreedyRun(graph.vertexCount, mst, PrimChooser(graph.adjList))
  {
    ghost var adj := graph.adjList;
    var vertexQuantity := graph.GetVertexCount();
    var inMST := InitializeMSTFlags(vertexQuantity);
    mst := [];
    inMST := inMST[0 := true];
    assert inMST == TreeFlags(vertexQuantity, []);
    while |mst| < vertexQuantity - 1
      invariant graph.WellFormed() && graph.adjList == adj
      invariant |mst| <= vertexQuantity - 1
      invariant ChosenRun(vertexQuantity, mst, PrimChooser(adj)) && EndsInRange(mst, vertexQuantity)
      invariant inMST == TreeFlags(vertexQuantity, mst)
      decreases vertexQuantity - |mst|
    {
      var bestEdge := SelectMinimumEdge(graph, inMST, vertexQuantity);
      PrimChoiceFound(adj, inMST);
      if bestEdge.from != -1 && bestEdge.to != -1 {
        ChosenRunExtend(vertexQuantity, mst, PrimChooser(adj), bestEdge);
        TreeFlagsAppend(vertexQuantity, mst, bestEdge);
        mst := mst + [bestEdge];
        inMST := inMST[bestEdge.to := true];
      } else {
        break;
      }
    }
  }

  /** Edge `k` of the run, against the tree built before it. */
  lemma PrimRunEdge(adj: seq<seq<Edge>>, mst: seq<EdgeTriple>, k: int)
    requires TargetsInRange(adj) && NoSelfLoops(adj) && ChosenRun(|adj|, mst, PrimChooser(adj))
    requires 0 <= k < |mst|
    ensures EndsInRange(mst[..k], |adj|)
    ensures Crossing(adj, TreeFlags(|adj|, mst[..k]), mst[k])
    ensures forall u, i | CrossingEntry(adj, TreeFlags(|adj|, mst[..k]), u, i) :: mst[k].weight <= adj[u][i].weight
  {
    ChosenRunAt(|adj|, mst, PrimChooser(adj), k);
    PrimChoiceIsLightestCrossing(adj, TreeFlags(|adj|, mst[..k]));
  }

  /** The result of `findMST` is a tree grown from vertex 0: every edge runs
      from the tree to a new vertex along an entry of the lists, the `to`
      ends are pairwise distinct and never 0, and each edge is no heavier
      than any entry joining the tree built before it to the rest. When the
      result stops short of V - 1 edges, every entry leaving the final tree
      weighs `INT_MAX` (no such entry, in a graph of `int` weights below
      it). */
  lemma PrimRunIsGreedyTree(adj: seq<seq<Edge>>, mst: seq<EdgeTriple>)
    requires TargetsInRange(adj) && NoSelfLoops(adj) && GreedyRun(|adj|, mst, PrimChooser(adj))
    ensures GrowsTree(|adj|, mst)
    ensures forall k | 0 <= k < |mst| :: mst[k].to != 0
    ensures forall j, k | 0 <= j < k < |mst| :: mst[j].to != mst[k].to
    ensures forall k | 0 <= k < |mst| ::
              Edge(mst[k].to, mst[k].weight) in adj[mst[k].from]
              || Edge(mst[k].from, mst[k].weight) in adj[mst[k].to]
    ensures forall k, u, i | 0 <= k < |mst| && CrossingEntry(adj, TreeFlags(|adj|, mst[..k]), u, i) ::
              mst[k].weight <= adj[u][i].weight
    ensures |mst| < |adj| - 1 ==>
              forall u, i | CrossingEntry(adj, TreeFlags(|adj|, mst), u, i) :: adj[u][i].weight >= IntMax
  {
    var n := |adj|;
    forall k | 0 <= k < |mst|
      ensures EndsInRange(mst[..k], n)
      ensures Crossing(adj, TreeFlags(n, mst[..k]), mst[k])
      ensures forall u, i | CrossingEntry(adj, TreeFlags(n, mst[..k]), u, i) :: mst[k].weight <= adj[u][i].weight
    {
      PrimRunEdge(adj, mst, k);
    }
    assert GrowsTree(n, mst);
    TreeShape(n, mst);
    if |mst| < n - 1 {
      PrimChoiceIsLightestCrossing(adj, TreeFlags(n, mst));
    }
  }
}
