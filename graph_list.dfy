/** The adjacency-list graph `GraphList` (src/GraphsImpl/GraphList.hpp):
    for every vertex the ordered list of its outgoing `(dest, weight)`
    entries. */
module GraphLists {
  import opened EdgeTriples

  /** `struct Edge`: one adjacency entry. */
  datatype Edge = Edge(dest: int, weight: int)

  /** The number of entries over all adjacency lists. */
  function TotalEdges(adj: seq<seq<Edge>>): nat {
    if adj == [] then 0 else TotalEdges(adj[..|adj| - 1]) + |adj[|adj| - 1]|
  }

  /** Appending one entry to one list adds one to the total. */
  lemma {:induction false} AppendAddsOne(adj: seq<seq<Edge>>, f: int, e: Edge)
    requires 0 <= f < |adj|
    ensures TotalEdges(adj[f := adj[f] + [e]]) == TotalEdges(adj) + 1
    decreases |adj|
  {
    var adj' := adj[f := adj[f] + [e]];
    var n := |adj| - 1;
    assert adj'[..n] == if f < n then adj[..n][f := adj[f] + [e]] else adj[..n];
    if f < n {
      AppendAddsOne(adj[..n], f, e);
    }
  }

  /** No list holds an entry back to its own vertex. */
  ghost predicate NoSelfLoops(adj: seq<seq<Edge>>) {
    forall u, i | 0 <= u < |adj| && 0 <= i < |adj[u]| :: adj[u][i].dest != u
  }

  /** Every entry names a vertex of the graph: what the solvers need, since
      they index per-vertex arrays by `dest` and those indexings throw
      `out_of_range` otherwise. */
  ghost predicate TargetsInRange(adj: seq<seq<Edge>>) {
    forall u, i | 0 <= u < |adj| && 0 <= i < |adj[u]| :: 0 <= adj[u][i].dest < |adj|
  }

  /** The entries of one vertex's list as directed triples `{u, dest, weight}`,
      in list order. */
  function RowTriples(u: int, row: seq<Edge>): (r: seq<EdgeTriple>)
    ensures |r| == |row|
    ensures forall i | 0 <= i < |row| :: r[i] == EdgeTriple(u, row[i].dest, row[i].weight)
  {
    seq(|row|, i requires 0 <= i < |row| => EdgeTriple(u, row[i].dest, row[i].weight))
  }

  /** Every entry of the lists as a directed triple, vertex by vertex and in
      list order: the edge set the solvers walk along. */
  function ListTriples(adj: seq<seq<Edge>>): seq<EdgeTriple> {
    if adj == [] then [] else ListTriples(adj[..|adj| - 1]) + RowTriples(|adj| - 1, adj[|adj| - 1])
  }

  /** The triples are exactly the entries: `{u, v, w}` is a triple iff `u`'s
      list holds `{v, w}`. */
  lemma {:induction false} ListTriplesMeaning(adj: seq<seq<Edge>>, t: EdgeTriple)
    ensures t in ListTriples(adj) <==> 0 <= t.from < |adj| && Edge(t.to, t.weight) in adj[t.from]
  {
    if adj != [] {
      var n := |adj| - 1;
      ListTriplesMeaning(adj[..n], t);
      var row := RowTriples(n, adj[n]);
      assert t in row <==> t.from == n && Edge(t.to, t.weight) in adj[n] by {
        if t in row {
          var i :| 0 <= i < |row| && row[i] == t;
          assert adj[n][i] == Edge(t.to, t.weight);
        }
        if t.from == n && Edge(t.to, t.weight) in adj[n] {
          var i :| 0 <= i < |adj[n]| && adj[n][i] == Edge(t.to, t.weight);
          assert row[i] == t;
        }
      }
    }
  }

  /** The triples of one more list append that list's triples. */
  lemma ListTriplesStep(adj: seq<seq<Edge>>, u: int)
    requires 0 <= u < |adj|
    ensures ListTriples(adj[..u + 1]) == ListTriples(adj[..u]) + RowTriples(u, adj[u])
  {
    assert adj[..u + 1][..u] == adj[..u];
  }

  /** With every `dest` a vertex, every triple joins two vertices. */
  lemma ListTriplesInRange(adj: seq<seq<Edge>>)
    requires TargetsInRange(adj)
    ensures EndsInRange(ListTriples(adj), |adj|)
  {
    forall k | 0 <= k < |ListTriples(adj)|
      ensures 0 <= ListTriples(adj)[k].from < |adj| && 0 <= ListTriples(adj)[k].to < |adj|
    {
      var t := ListTriples(adj)[k];
      ListTriplesMeaning(adj, t);
      var i :| 0 <= i < |adj[t.from]| && adj[t.from][i] == Edge(t.to, t.weight);
    }
  }

  /** The entry `i` of `u`'s list is among the triples. */
  lemma EntryIsTriple(adj: seq<seq<Edge>>, u: int, i: int)
    requires 0 <= u < |adj| && 0 <= i < |adj[u]|
    ensures EdgeTriple(u, adj[u][i].dest, adj[u][i].weight) in ListTriples(adj)
  {
    assert Edge(adj[u][i].dest, adj[u][i].weight) == adj[u][i];
    ListTriplesMeaning(adj, EdgeTriple(u, adj[u][i].dest, adj[u][i].weight));
  }

  class GraphList {
    const vertexCount: nat
    var edgeCount: int
    var adjList: seq<seq<Edge>>

    /** `adjList` has one list per vertex, `edgeCount` is the total number of
        entries, and self-loops never get in. */
    ghost predicate Valid()
      reads this
    {
      && |adjList| == vertexCount
      && edgeCount == TotalEdges(adjList)
      && NoSelfLoops(adjList)
    }

    /** A valid graph whose every entry names one of its vertices. */
    ghost predicate WellFormed()
      reads this
    {
      Valid() && TargetsInRange(adjList)
    }

    /** `GraphList(vertices)`: V empty lists and no edges. */
    constructor (vertices: nat)
      ensures WellFormed()
      ensures vertexCount == vertices && edgeCount == 0
      ensures adjList == seq(vertices, _ => [])
    {
      vertexCount := vertices;
      edgeCount := 0;
      adjList := seq(vertices, _ => []);
      TotalOfEmptyLists(vertices);
    }

    /** `addEdge(from, to, weight)`: a self-loop is dropped; otherwise
        `{to, weight}` goes to the end of `from`'s list, the count grows by
        one and every other list is untouched. The self-loop test comes
        first, so a self-loop is dropped whatever `from` is; otherwise
        `adjList[from]` is bounds-checked and `to` is not. */
    method AddEdge(from: int, to: int, weight: int)
      requires Valid()
      requires from != to ==> 0 <= from < vertexCount
      modifies this
      ensures Valid()
      ensures from == to ==> adjList == old(adjList) && edgeCount == old(edgeCount)
      ensures from != to ==>
                && adjList == old(adjList)[from := old(adjList)[from] + [Edge(to, weight)]]
                && edgeCount == old(edgeCount) + 1
      ensures old(WellFormed()) && 0 <= to < vertexCount ==> WellFormed()
    {
      var edge := Edge(to, weight);
      if from == to {
        return;
      }
      AppendAddsOne(adjList, from, edge);
      adjList := adjList[from := adjList[from] + [edge]];
      edgeCount := edgeCount + 1;
    }

    /** `getNeighbors(node)`: the outgoing entries of `node`, in insertion
        order. */
    function GetNeighbors(node: int): (neighbors: seq<Edge>)
      reads this
      requires Valid()
      requires 0 <= node < vertexCount
      ensures neighbors == adjList[node]
      ensures forall i | 0 <= i < |neighbors| :: neighbors[i].dest != node
    {
      adjList[node]
    }

    /** `getVertexCount()`: the number of lists, fixed at construction. */
    function GetVertexCount(): (n: nat)
      reads this
      requires Valid()
      ensures n == |adjList|
    {
      vertexCount
    }

    /** `getEdgeCount()`: the total number of adjacency entries. */
    function GetEdgeCount(): (m: int)
      reads this
      requires Valid()
      ensures m == TotalEdges(adjList)
    {
      edgeCount
    }
  }

  /** V empty lists hold no entries. */
  lemma {:induction false} TotalOfEmptyLists(n: nat)
    ensures TotalEdges(seq<seq<Edge>>(n, _ => [])) == 0
  {
    if n > 0 {
      var lists: seq<seq<Edge>> := seq(n, _ => []);
      assert lists[..n - 1] == seq(n - 1, _ => []);
      TotalOfEmptyLists(n - 1);
    }
  }
}
