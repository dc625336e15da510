/** The edge record shared by every solver (src/common/EdgeTripple.hpp) and
    the limits of the C++ `int` that the solvers use as sentinels. */
module EdgeTriples {

  /** std::numeric_limits<int>::max(): "unreached" in the shortest-path
      solvers and the starting minimum of every minimum search. */
  const IntMax: int := 0x7FFF_FFFF

  /** std::numeric_limits<int>::min(): the starting maximum of the
      Dijkstra weight summaries. */
  const IntMin: int := -0x8000_0000

  /** A value that fits a C++ `int`. */
  predicate IsInt(x: int) {
    IntMin <= x <= IntMax
  }

  /** `{from, to, weight}`: an MST edge, a shortest-path tree edge (whose
      weight is then a cumulative distance) or a Kruskal candidate. */
  datatype EdgeTriple = EdgeTriple(from: int, to: int, weight: int)

  /** The triple `{-1, -1, -1}` the Prim solvers use for "no edge found". */
  const NoEdge: EdgeTriple := EdgeTriple(-1, -1, -1)

  /** The sort key that makes the generic sorts compare triples exactly as
      `operator<=` does. */
  function WeightKey(e: EdgeTriple): int {
    e.weight
  }

  /** `EdgeTriple::operator<=`: the weights alone decide, so ordering by
      WeightKey is ordering by `operator<=`. */
  function AtMost(a: EdgeTriple, b: EdgeTriple): (r: bool)
    ensures r <==> WeightKey(a) <= WeightKey(b)
  {
    a.weight <= b.weight
  }

  /** Every edge ends inside `[0, n)`. */
  ghost predicate EndsInRange(es: seq<EdgeTriple>, n: int) {
    forall k | 0 <= k < |es| :: 0 <= es[k].from < n && 0 <= es[k].to < n
  }

  /** `operator<=` ignores the endpoints: triples of equal weight compare
      `<=` both ways, whatever their endpoints. */
  lemma AtMostIgnoresEndpoints(a: EdgeTriple, b: EdgeTriple)
    requires a.weight == b.weight
    requires a.from != b.from || a.to != b.to
    ensures AtMost(a, b) && AtMost(b, a)
    ensures a != b
  {
  }

  /** `operator<=` is a total preorder: total and transitive, as it inherits
      `int <=`; AtMostIgnoresEndpoints shows it is not antisymmetric. */
  lemma AtMostIsTotalPreorder()
    ensures forall a: EdgeTriple, b: EdgeTriple :: AtMost(a, b) || AtMost(b, a)
    ensures forall a: EdgeTriple, b: EdgeTriple, c: EdgeTriple ::
              AtMost(a, b) && AtMost(b, c) ==> AtMost(a, c)
  {
  }
}
