/** `PrimMatrix` (src/GraphsAlgorithms/MSTProblem/PrimMatrix.hpp): Prim's
    algorithm on the incidence matrix. Each round scans every used edge
    slot for the lightest edge between the tree and the rest, in either
    direction. */
module PrimMatrix {
  import opened EdgeTriples
  import opened GraphMatrices
  import opened MstCommon

  // ---------------------------------------------------------------------
  // The candidates of `selectMinimumEdge`, in slot order
  // ---------------------------------------------------------------------

  /** Slot `k` holds an edge with one end in the tree and the other out. */
  predicate CrossingSlot(edges: seq<EdgeTriple>, inTree: seq<bool>, k: int) {
    && 0 <= k < |edges|
    && 0 <= edges[k].from < |inTree| && 0 <= edges[k].to < |inTree|
    && inTree[edges[k].from] != inTree[edges[k].to]
  }

  /** That edge reported from the tree side. */
  function OrientedSlot(edges: seq<EdgeTriple>, inTree: seq<bool>, k: int): (t: EdgeTriple)
    requires CrossingSlot(edges, inTree, k)
    ensures 0 <= t.from < |inTree| && 0 <= t.to < |inTree|
    ensures inTree[t.from] && !inTree[t.to] && t.weight == edges[k].weight
  {
    var e := edges[k];
    if inTree[e.from] then e else EdgeTriple(e.to, e.from, e.weight)
  }

  /** `t` is the edge of a crossing slot, reported from the tree side. */
  ghost predicate SlotEdge(edges: seq<EdgeTriple>, inTree: seq<bool>, t: EdgeTriple) {
    exists k | CrossingSlot(edges, inTree, k) :: t == OrientedSlot(edges, inTree, k)
  }

  /** What slot `k` offers the search: its edge from the tree side when it
      crosses, nothing otherwise. */
  function SlotCandidate(edges: seq<EdgeTriple>, inTree: seq<bool>, k: int): seq<EdgeTriple> {
    if CrossingSlot(edges, inTree, k) then [OrientedSlot(edges, inTree, k)] else []
  }

  /** The offers of all slots, in slot order. */
  function SlotCandidates(edges: seq<EdgeTriple>, inTree: seq<bool>): (blocks: seq<seq<EdgeTriple>>)
    ensures |blocks| == |edges|
  {
    seq(|edges|, k => SlotCandidate(edges, inTree, k))
  }

  /** The edge `selectMinimumEdge` returns for the tree `inTree`. */
  function MatrixChoice(edges: seq<EdgeTriple>, inTree: seq<bool>): EdgeTriple {
    Scan(Flatten(SlotCandidates(edges, inTree))).best
  }

  /** `selectMinimumEdge` on the edges `edges`, as a function of the tree. */
  function MatrixChooser(edges: seq<EdgeTriple>): seq<bool> -> EdgeTriple {
    inTree => MatrixChoice(edges, inTree)
  }

  // ---------------------------------------------------------------------
  // What the search finds
  // ---------------------------------------------------------------------

  /** The candidates are exactly the crossing slots, reported from the tree
      side. */
  lemma SlotCandidatesMeaning(edges: seq<EdgeTriple>, inTree: seq<bool>, t: EdgeTriple)
    ensures t in Flatten(SlotCandidates(edges, inTree)) <==> SlotEdge(edges, inTree, t)
  {
    var blocks := SlotCandidates(edges, inTree);
    if t in Flatten(blocks) {
      FlattenMember(blocks, t);
      var k :| 0 <= k < |blocks| && t in blocks[k];
      assert CrossingSlot(edges, inTree, k);
    }
    if SlotEdge(edges, inTree, t) {
      var k :| CrossingSlot(edges, inTree, k) && t == OrientedSlot(edges, inTree, k);
      assert t in blocks[k];
      FlattenHas(blocks, k, t);
    }
  }

  /** `selectMinimumEdge` returns `{-1, -1, -1}` exactly when every slot
      joining the tree to the rest weighs `INT_MAX`; otherwise the edge of a
      crossing slot, reported from the tree side, lighter than `INT_MAX` and
      no heavier than any crossing slot. */
  lemma MatrixChoiceIsLightestCrossing(edges: seq<EdgeTriple>, inTree: seq<bool>)
    ensures MatrixChoice(edges, inTree) == NoEdge <==>
              forall k | CrossingSlot(edges, inTree, k) :: edges[k].weight >= IntMax
    ensures MatrixChoice(edges, inTree) != NoEdge ==>
              && SlotEdge(edges, inTree, MatrixChoice(edges, inTree))
              && MatrixChoice(edges, inTree).weight < IntMax
              && forall k | CrossingSlot(edges, inTree, k) :: MatrixChoice(edges, inTree).weight <= edges[k].weight
  {
    var c := Flatten(SlotCandidates(edges, inTree));
    ScanFindsFirstMinimum(c);
    forall k | CrossingSlot(edges, inTree, k)
      ensures OrientedSlot(edges, inTree, k) in c
    {
      SlotCandidatesMeaning(edges, inTree, OrientedSlot(edges, inTree, k));
    }
    if Scan(c) == NoPick {
      assert MatrixChoice(edges, inTree) == NoEdge;
    } else {
      var j :| 0 <= j < |c| && c[j] == Scan(c).best;
      SlotCandidatesMeaning(edges, inTree, c[j]);
      assert MatrixChoice(edges, inTree) != NoEdge;
      forall k | CrossingSlot(edges, inTree, k)
        ensures Scan(c).best.weight <= edges[k].weight
      {
        var i :| 0 <= i < |c| && c[i] == OrientedSlot(edges, inTree, k);
      }
    }
  }

  /** A search that reports an end of -1 found nothing; any other result
      runs from the tree to a vertex outside it. */
  lemma MatrixChoiceFound(edges: seq<EdgeTriple>, inTree: seq<bool>)
    ensures MatrixChoice(edges, inTree).from == -1 || MatrixChoice(edges, inTree).to == -1 ==>
              MatrixChoice(edges, inTree) == NoEdge
    ensures MatrixChoice(edges, inTree) != NoEdge ==>
              && 0 <= MatrixChoice(edges, inTree).from < |inTree|
              && 0 <= MatrixChoice(edges, inTree).to < |inTree|
              && inTree[MatrixChoice(edges, inTree).from] && !inTree[MatrixChoice(edges, inTree).to]
  {
    var c := Flatten(SlotCandidates(edges, inTree));
    ScanFindsFirstMinimum(c);
    if Scan(c) != NoPick {
      var j :| 0 <= j < |c| && c[j] == Scan(c).best;
      SlotCandidatesMeaning(edges, inTree, c[j]);
    }
  }

  // ---------------------------------------------------------------------
  // The solver
  // ---------------------------------------------------------------------

  /** `selectMinimumEdge(graph, inMST, edgesQuantity)`: every used slot in
      order; an edge leaving the tree forwards or backwards replaces the
      best when strictly lighter. */
  method SelectMinimumEdge(graph: GraphMatrix, inMST: seq<bool>, edgesQuantity: int) returns (best: EdgeTriple)
    requires graph.Valid() && |inMST| == graph.vertexCount && edgesQuantity == |graph.edges|
    ensures best == MatrixChoice(graph.edges, inMST)
  {
    ghost var blocks := SlotCandidates(graph.edges, inMST);
    var pick := NoPick;
    var i := 0;
    while i < edgesQuantity
      invariant 0 <= i <= edgesQuantity
      invariant graph.Valid() && blocks == SlotCandidates(graph.edges, inMST)
      invariant pick == Scan(Flatten(blocks[..i]))
    {
      pick := ConsiderSlot(graph, inMST, i, pick);
      i := i + 1;
    }
    assert blocks[..i] == blocks;
    best := pick.best;
  }

  /** One round of `selectMinimumEdge`: slot `i` read through `getFrom`,
      `getDest` and `getWeight`. */
  method ConsiderSlot(graph: GraphMatrix, inMST: seq<bool>, i: int, pick: Pick) returns (pick': Pick)
    requires graph.Valid() && |inMST| == graph.vertexCount && 0 <= i < |graph.edges|
    requires pick == Scan(Flatten(SlotCandidates(graph.edges, inMST)[..i]))
    ensures pick' == Scan(Flatten(SlotCandidates(graph.edges, inMST)[..i + 1]))
  {
    ghost var edges := graph.edges;
    ghost var blocks := SlotCandidates(edges, inMST);
    var u := graph.GetFrom(i);
    var v := graph.GetDest(i);
    var weight := graph.GetWeight(i);
    FlattenStep(blocks, i);
    ghost var before := Flatten(blocks[..i]);
    if CrossingSlot(edges, inMST, i) {
      ScanAppend(before, OrientedSlot(edges, inMST, i));
    } else {
      assert before + [] == before;
    }
    if inMST[u] && !inMST[v] && weight < pick.minWeight {
      pick' := Pick(weight, EdgeTriple(u, v, weight));
    } else if inMST[v] && !inMST[u] && weight < pick.minWeight {
      pick' := Pick(weight, EdgeTriple(v, u, weight));
    } else {
      pick' := pick;
    }
  }

  /** `findMST(graph)`: vertex 0 seeds the tree (so the graph needs a
      vertex), and rounds of `selectMinimumEdge` add one edge and one vertex
      each until V - 1 edges are in or no edge is found. */
  method FindMST(graph: GraphMatrix) returns (mst: seq<EdgeTriple>)
    requires graph.Valid() && graph.vertexCount >= 1
    ensures GreedyRun(graph.vertexCount, mst, MatrixChooser(graph.edges))
  {
    ghost var edges := graph.edges;
    var vertexQuantity := graph.GetVertexCount();
    var edgesQuantity := graph.GetEdgeCount();
    var inMST := InitializeMSTFlags(vertexQuantity);
    mst := [];
    inMST := inMST[0 := true];
    assert inMST == TreeFlags(vertexQuantity, []);
    while |mst| < vertexQuantity - 1
      invariant graph.Valid() && graph.edges == edges
      invariant |mst| <= vertexQuantity - 1
      invariant ChosenRun(vertexQuantity, mst, MatrixChooser(edges)) && EndsInRange(mst, vertexQuantity)
      invariant inMST == TreeFlags(vertexQuantity, mst)
      decreases vertexQuantity - |mst|
    {
      var bestEdge := SelectMinimumEdge(graph, inMST, edgesQuantity);
      MatrixChoiceFound(edges, inMST);
      if bestEdge.from != -1 && bestEdge.to != -1 {
        ChosenRunExtend(vertexQuantity, mst, MatrixChooser(edges), bestEdge);
        TreeFlagsAppend(vertexQuantity, mst, bestEdge);
        mst := mst + [bestEdge];
        inMST := inMST[bestEdge.to := true];
      } else {
        break;
      }
    }
  }

  /** Edge `k` of the run, against the tree built before it. */
  lemma MatrixRunEdge(edges: seq<EdgeTriple>, n: nat, mst: seq<EdgeTriple>, k: int)
    requires ChosenRun(n, mst, MatrixChooser(edges)) && 0 <= k < |mst|
    ensures EndsInRange(mst[..k], n)
    ensures 0 <= mst[k].from < n && 0 <= mst[k].to < n
    ensures TreeFlags(n, mst[..k])[mst[k].from] && !TreeFlags(n, mst[..k])[mst[k].to]
    ensures SlotEdge(edges, TreeFlags(n, mst[..k]), mst[k])
    ensures forall j | CrossingSlot(edges, TreeFlags(n, mst[..k]), j) :: mst[k].weight <= edges[j].weight
  {
    ChosenRunAt(n, mst, MatrixChooser(edges), k);
    MatrixChoiceIsLightestCrossing(edges, TreeFlags(n, mst[..k]));
  }

  /** The result of `findMST` is a tree grown from vertex 0: every edge is
      the edge of a slot, reported from the tree side, that joined the tree
      built before it to a new vertex, no heavier than any slot joining that
      tree to the rest; the `to` ends are pairwise distinct and never 0.
      When the result stops short of V - 1 edges, every slot leaving the
      final tree weighs `INT_MAX`. */
  lemma MatrixRunIsGreedyTree(edges: seq<EdgeTriple>, n: nat, mst: seq<EdgeTriple>)
    requires GreedyRun(n, mst, MatrixChooser(edges))
    ensures GrowsTree(n, mst)
    ensures forall k | 0 <= k < |mst| :: mst[k].to != 0
    ensures forall j, k | 0 <= j < k < |mst| :: mst[j].to != mst[k].to
    ensures forall k | 0 <= k < |mst| :: SlotEdge(edges, TreeFlags(n, mst[..k]), mst[k])
    ensures forall k, j | 0 <= k < |mst| && CrossingSlot(edges, TreeFlags(n, mst[..k]), j) ::
              mst[k].weight <= edges[j].weight
    ensures |mst| < n - 1 ==>
              forall j | CrossingSlot(edges, TreeFlags(n, mst), j) :: edges[j].weight >= IntMax
  {
    forall k | 0 <= k < |mst|
      ensures EndsInRange(mst[..k], n)
      ensures TreeFlags(n, mst[..k])[mst[k].from] && !TreeFlags(n, mst[..k])[mst[k].to]
      ensures SlotEdge(edges, TreeFlags(n, mst[..k]), mst[k])
      ensures forall j | CrossingSlot(edges, TreeFlags(n, mst[..k]), j) :: mst[k].weight <= edges[j].weight
    {
      MatrixRunEdge(edges, n, mst, k);
    }
    TreeShape(n, mst);
    if |mst| < n - 1 {
      MatrixChoiceIsLightestCrossing(edges, TreeFlags(n, mst));
    }
  }
}
