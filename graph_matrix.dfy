/** The incidence-matrix graph `GraphMatrix`
    (src/GraphsImpl/GraphMatrix.hpp): one row per vertex, one column per
    edge slot; column `e` holds `1` in the row of the edge's source, `-1` in
    the row of its destination and `0` elsewhere, and `weights[e]` holds its
    weight. */
module GraphMatrices {
  import opened EdgeTriples

  /** The number of edge columns `GraphMatrix(vertices, maxEdges)` allocates:
      the row-filling loop runs `maxEdges` times, so none when it is
      negative. */
  function Columns(maxEdges: int): nat {
    if maxEdges < 0 then 0 else maxEdges
  }

  /** The entry that the added edges put at row `r`, column `e`. */
  function Cell(edges: seq<EdgeTriple>, r: int, e: int): int {
    if 0 <= e < |edges| then
      if edges[e].from == r then 1 else if edges[e].to == r then -1 else 0
    else 0
  }

  /** The weight that the added edges put in slot `e`. */
  function SlotWeight(edges: seq<EdgeTriple>, e: int): int {
    if 0 <= e < |edges| then edges[e].weight else 0
  }

  /** Every added edge joins two distinct vertices of `[0, n)`. */
  ghost predicate ProperEdges(edges: seq<EdgeTriple>, n: int) {
    forall e | 0 <= e < |edges| ::
      0 <= edges[e].from < n && 0 <= edges[e].to < n && edges[e].from != edges[e].to
  }

  class GraphMatrix {
    const vertexCount: nat
    const edgeLimit: int
    var currentEdge: int
    const matrix: array2<int>
    const weights: array<int>
    /** The edges added so far, in column order. */
    ghost var edges: seq<EdgeTriple>

    /** The matrix and the weights are exactly what the added edges put
        there; every column past `currentEdge` is still zero. */
    ghost predicate Valid()
      reads this, matrix, weights
    {
      && matrix.Length0 == vertexCount
      && matrix.Length1 == Columns(edgeLimit)
      && weights.Length == Columns(edgeLimit)
      && currentEdge == |edges| <= Columns(edgeLimit)
      && ProperEdges(edges, vertexCount)
      && (forall r, e | 0 <= r < vertexCount && 0 <= e < matrix.Length1 :: matrix[r, e] == Cell(edges, r, e))
      && (forall e | 0 <= e < weights.Length :: weights[e] == SlotWeight(edges, e))
    }

    /** `GraphMatrix(vertices, maxEdges)`: an all-zero V x maxEdges matrix,
        zero weights and no edges. */
    constructor (vertices: nat, maxEdges: int)
      ensures Valid() && fresh(matrix) && fresh(weights)
      ensures vertexCount == vertices && edgeLimit == maxEdges && edges == []
    {
      var m := new int[vertices, Columns(maxEdges)];
      var r := 0;
      while r < vertices
        modifies m
        invariant 0 <= r <= vertices
        invariant forall i, j | 0 <= i < r && 0 <= j < m.Length1 :: m[i, j] == 0
      {
        var c := 0;
        while c < m.Length1
          modifies m
          invariant 0 <= c <= m.Length1
          invariant forall i, j | 0 <= i < r && 0 <= j < m.Length1 :: m[i, j] == 0
          invariant forall j | 0 <= j < c :: m[r, j] == 0
        {
          m[r, c] := 0;
          c := c + 1;
        }
        r := r + 1;
      }
      var w := new int[Columns(maxEdges)];
      var e := 0;
      while e < w.Length
        modifies w
        invariant 0 <= e <= w.Length
        invariant forall j | 0 <= j < e :: w[j] == 0
      {
        w[e] := 0;
        e := e + 1;
      }
      vertexCount := vertices;
      edgeLimit := maxEdges;
      currentEdge := 0;
      edges := [];
      matrix := m;
      weights := w;
      assert forall i, j | 0 <= i < vertices && 0 <= j < m.Length1 :: m[i, j] == Cell([], i, j);
      assert forall j | 0 <= j < w.Length :: w[j] == SlotWeight([], j);
    }

    /** `addEdge(u, v, weight)`: a self-loop is dropped, and so is any edge
        once `edgeLimit` columns are used; otherwise column `currentEdge`
        records the edge and the count grows by one. The rows `u` and `v` are
        bounds-checked only in the last case. */
    method AddEdge(u: int, v: int, weight: int)
      requires Valid()
      requires u != v && currentEdge < edgeLimit ==> 0 <= u < vertexCount && 0 <= v < vertexCount
      modifies this, matrix, weights
      ensures Valid()
      ensures u == v || old(currentEdge) >= edgeLimit ==> edges == old(edges)
      ensures u != v && old(currentEdge) < edgeLimit ==> edges == old(edges) + [EdgeTriple(u, v, weight)]
    {
      if u == v {
        return;
      }
      if currentEdge >= edgeLimit {
        return;
      }
      matrix[u, currentEdge] := 1;
      matrix[v, currentEdge] := -1;
      weights[currentEdge] := weight;
      currentEdge := currentEdge + 1;
      edges := edges + [EdgeTriple(u, v, weight)];
    }

    /** `getVertexCount()`: the number of rows. */
    function GetVertexCount(): (n: nat)
      reads this, matrix, weights
      requires Valid()
      ensures n == matrix.Length0
    {
      vertexCount
    }

    /** `getEdgeCount()`: the number of edges added. */
    function GetEdgeCount(): (m: int)
      reads this, matrix, weights
      requires Valid()
      ensures m == |edges|
    {
      currentEdge
    }

    /** `getFrom(edgeIndex)`: the first row holding `1` in the column, which
        is the source of the edge in that slot, or `-1` for a slot not yet
        used. The column is bounds-checked once a row is looked at. */
    method GetFrom(edgeIndex: int) returns (u: int)
      requires Valid()
      requires vertexCount > 0 ==> 0 <= edgeIndex < matrix.Length1
      ensures 0 <= edgeIndex < |edges| ==> u == edges[edgeIndex].from
      ensures !(0 <= edgeIndex < |edges|) ==> u == -1
    {
      var r := 0;
      while r < vertexCount
        invariant 0 <= r <= vertexCount
        invariant forall k | 0 <= k < r :: matrix[k, edgeIndex] != 1
        invariant 0 <= edgeIndex < |edges| ==> r <= edges[edgeIndex].from
      {
        if matrix[r, edgeIndex] == 1 {
          return r;
        }
        r := r + 1;
      }
      return -1;
    }

    /** `getDest(edgeIndex)`: the first row holding `-1` in the column, which
        is the destination of the edge in that slot, or `-1` for a slot not
        yet used. */
    method GetDest(edgeIndex: int) returns (v: int)
      requires Valid()
      requires vertexCount > 0 ==> 0 <= edgeIndex < matrix.Length1
      ensures 0 <= edgeIndex < |edges| ==> v == edges[edgeIndex].to
      ensures !(0 <= edgeIndex < |edges|) ==> v == -1
    {
      var r := 0;
      while r < vertexCount
        invariant 0 <= r <= vertexCount
        invariant forall k | 0 <= k < r :: matrix[k, edgeIndex] != -1
        invariant 0 <= edgeIndex < |edges| ==> r <= edges[edgeIndex].to
      {
        if matrix[r, edgeIndex] == -1 {
          return r;
        }
        r := r + 1;
      }
      return -1;
    }

    /** `getWeight(edgeIndex)`: the weight in the slot, `0` for a slot not
        yet used. */
    method GetWeight(edgeIndex: int) returns (w: int)
      requires Valid()
      requires 0 <= edgeIndex < weights.Length
      ensures 0 <= edgeIndex < |edges| ==> w == edges[edgeIndex].weight
      ensures edgeIndex >= |edges| ==> w == 0
    {
      w := weights[edgeIndex];
    }
  }
}
