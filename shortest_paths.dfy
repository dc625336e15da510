/** What the four shortest-path solvers of src/GraphsAlgorithms/TSPProblem
    share: the `distances`/`previous` state they start from and keep,
    relaxation along an edge, what a state with no relaxable edge means,
    the two ways of turning the state into triples, and the two ways of
    summarising the triples' weights. Every solver reads its graph as a
    sequence of directed triples `{from, to, weight}`, and `INT_MAX` is the
    "unreached" distance. */
module ShortestPaths {
  import opened EdgeTriples
  import opened MstCommon
  import opened Decimal

  // ---------------------------------------------------------------------
  // Initial state
  // ---------------------------------------------------------------------

  /** `initializeTSPDistances(n)`: every vertex unreached. */
  function Unreached(n: nat): (d: seq<int>)
    ensures |d| == n && forall v | 0 <= v < n :: d[v] == IntMax
  {
    seq(n, _ => IntMax)
  }

  /** `initializeTSPPrevious(n)`: no vertex has a parent. */
  function NoParents(n: nat): (p: seq<int>)
    ensures |p| == n && forall v | 0 <= v < n :: p[v] == -1
  {
    seq(n, _ => -1)
  }

  /** The distances after `distances[source] = 0`. */
  function StartDistances(n: nat, source: int): (d: seq<int>)
    requires 0 <= source < n
    ensures |d| == n && d[source] == 0
    ensures forall v | 0 <= v < n && v != source :: d[v] == IntMax
  {
    Unreached(n)[source := 0]
  }

  /** The loop of `initializeTSPDistances`: `INT_MAX` pushed `n` times. */
  method InitializeDistances(n: nat) returns (distances: seq<int>)
    ensures distances == Unreached(n)
  {
    distances := [];
    var i := 0;
    while i < n
      invariant 0 <= i <= n
      invariant distances == Unreached(i)
    {
      distances := distances + [IntMax];
      i := i + 1;
    }
  }

  /** The loop of `initializeTSPPrevious`: `-1` pushed `n` times. */
  method InitializePrevious(n: nat) returns (previous: seq<int>)
    ensures previous == NoParents(n)
  {
    previous := [];
    var i := 0;
    while i < n
      invariant 0 <= i <= n
      invariant previous == NoParents(i)
    {
      previous := previous + [-1];
      i := i + 1;
    }
  }

  // ---------------------------------------------------------------------
  // Walks
  // ---------------------------------------------------------------------

  /** `walk` is a walk from `s` to `v` along triples of `E`. */
  ghost predicate IsWalk(E: seq<EdgeTriple>, s: int, walk: seq<EdgeTriple>, v: int)
    decreases |walk|
  {
    if walk == [] then s == v
    else
      var e := walk[|walk| - 1];
      e in E && e.to == v && IsWalk(E, s, walk[..|walk| - 1], e.from)
  }

  /** Every proper prefix of `walk` weighs less than `INT_MAX`: along such a
      walk the sentinel never blocks a relaxation. */
  ghost predicate BelowSentinel(walk: seq<EdgeTriple>) {
    forall k | 0 <= k < |walk| :: TotalWeight(walk[..k]) < IntMax
  }

  /** One more triple extends a walk and adds its weight. */
  lemma WalkExtend(E: seq<EdgeTriple>, s: int, walk: seq<EdgeTriple>, t: EdgeTriple)
    requires IsWalk(E, s, walk, t.from) && t in E
    ensures IsWalk(E, s, walk + [t], t.to)
    ensures TotalWeight(walk + [t]) == TotalWeight(walk) + t.weight
  {
    assert (walk + [t])[..|walk|] == walk;
  }

  /** Every triple joins two vertices of `[0, n)`. */
  lemma InRangeEnds(E: seq<EdgeTriple>, n: int, t: EdgeTriple)
    requires EndsInRange(E, n) && t in E
    ensures 0 <= t.from < n && 0 <= t.to < n
  {
    var k :| 0 <= k < |E| && E[k] == t;
  }

  // ---------------------------------------------------------------------
  // The state the solvers keep
  // ---------------------------------------------------------------------

  /** `t` can be relaxed: its tail is reached and going through it beats
      the head's distance. */
  predicate Improves(dist: seq<int>, t: EdgeTriple)
    requires 0 <= t.from < |dist| && 0 <= t.to < |dist|
  {
    dist[t.from] != IntMax && dist[t.from] + t.weight < dist[t.to]
  }

  /** No triple of `E` can be relaxed: what the negative-cycle check of
      Ford-Bellman tests, and what Dijkstra leaves behind. */
  ghost predicate Relaxed(E: seq<EdgeTriple>, dist: seq<int>) {
    EndsInRange(E, |dist|) && forall k | 0 <= k < |E| :: !Improves(dist, E[k])
  }

  /** No triple of `E` has a negative weight: what Dijkstra's algorithm
      assumes of its graph. */
  ghost predicate NonNegative(E: seq<EdgeTriple>) {
    forall k | 0 <= k < |E| :: 0 <= E[k].weight
  }

  /** One more edge that cannot be relaxed keeps a relaxed sequence
      relaxed. */
  lemma RelaxedAppend(E: seq<EdgeTriple>, dist: seq<int>, t: EdgeTriple)
    requires Relaxed(E, dist) && 0 <= t.from < |dist| && 0 <= t.to < |dist| && !Improves(dist, t)
    ensures Relaxed(E + [t], dist)
  {
    assert (E + [t])[|E|] == t;
  }

  /** A relaxable edge of `E` means `E` is not relaxed. */
  lemma EntryIsNotRelaxed(E: seq<EdgeTriple>, dist: seq<int>, t: EdgeTriple)
    requires t in E && 0 <= t.from < |dist| && 0 <= t.to < |dist| && Improves(dist, t)
    ensures !Relaxed(E, dist)
  {
    var k :| 0 <= k < |E| && E[k] == t;
  }

  /** Every reached vertex `v` is the end of `walks[v]`, a walk from the
      source below the sentinel that weighs exactly `dist[v]`. */
  ghost predicate Achieved(E: seq<EdgeTriple>, source: int, dist: seq<int>, walks: seq<seq<EdgeTriple>>) {
    |walks| == |dist|
    && forall v | 0 <= v < |dist| && dist[v] != IntMax ::
         IsWalk(E, source, walks[v], v) && BelowSentinel(walks[v]) && TotalWeight(walks[v]) == dist[v]
  }

  /** `p` reaches `v` by a triple of `E` whose weight, added to `dist[p]`,
      does not exceed `dist[v]`. */
  ghost predicate ParentEdge(E: seq<EdgeTriple>, dist: seq<int>, p: int, v: int)
    requires 0 <= p < |dist| && 0 <= v < |dist|
  {
    exists w :: EdgeTriple(p, v, w) in E && dist[p] + w <= dist[v]
  }

  /** A vertex without a parent keeps its initial distance; a vertex with
      one is reached, through a triple from its parent. */
  ghost predicate ParentsOk(E: seq<EdgeTriple>, source: int, dist: seq<int>, prev: seq<int>)
    requires |prev| == |dist|
  {
    forall v | 0 <= v < |dist| ::
      if prev[v] == -1 then dist[v] == (if v == source then 0 else IntMax)
      else 0 <= prev[v] < |dist| && dist[v] != IntMax && ParentEdge(E, dist, prev[v], v)
  }

  /** The invariant of every solver: distances never above `INT_MAX`, the
      source's never above 0, every reached distance achieved by a walk,
      and every parent link an edge that explains its distance. */
  ghost predicate Consistent(E: seq<EdgeTriple>, source: int, dist: seq<int>, prev: seq<int>,
                             walks: seq<seq<EdgeTriple>>) {
    && |prev| == |dist| && 0 <= source < |dist| && EndsInRange(E, |dist|)
    && (forall v | 0 <= v < |dist| :: dist[v] <= IntMax)
    && dist[source] <= 0
    && Achieved(E, source, dist, walks)
    && ParentsOk(E, source, dist, prev)
  }

  /** The state right after `distances[source] = 0`. */
  lemma StartConsistent(E: seq<EdgeTriple>, n: nat, source: int)
    requires 0 <= source < n && EndsInRange(E, n)
    ensures Consistent(E, source, StartDistances(n, source), NoParents(n), seq(n, _ => []))
  {
    var walks: seq<seq<EdgeTriple>> := seq(n, _ => []);
    assert IsWalk(E, source, walks[source], source);
  }

  /** The relaxation of every solver: when `dist[from] + weight` beats
      `dist[to]` from a reached tail, lowering `dist[to]` and pointing
      `previous[to]` at `from` keeps the state consistent; the witness
      walk of `to` becomes the one of `from` extended by the edge. */
  lemma RelaxKeeps(E: seq<EdgeTriple>, source: int, dist: seq<int>, prev: seq<int>,
                   walks: seq<seq<EdgeTriple>>, t: EdgeTriple)
    requires Consistent(E, source, dist, prev, walks)
    requires t in E
    requires 0 <= t.from < |dist| && 0 <= t.to < |dist|
    requires dist[t.from] != IntMax && dist[t.from] + t.weight < dist[t.to]
    ensures Consistent(E, source, dist[t.to := dist[t.from] + t.weight], prev[t.to := t.from],
                       walks[t.to := walks[t.from] + [t]])
  {
    var d := dist[t.to := dist[t.from] + t.weight];
    var p := prev[t.to := t.from];
    var ws := walks[t.to := walks[t.from] + [t]];
    WalkExtend(E, source, walks[t.from], t);
    assert BelowSentinel(ws[t.to]) by {
      var walk := walks[t.from];
      forall k | 0 <= k < |walk + [t]|
        ensures TotalWeight((walk + [t])[..k]) < IntMax
      {
        if k < |walk| {
          assert (walk + [t])[..k] == walk[..k];
        } else {
          assert (walk + [t])[..k] == walk;
        }
      }
    }
    forall v | 0 <= v < |d|
      ensures if p[v] == -1 then d[v] == (if v == source then 0 else IntMax)
              else 0 <= p[v] < |d| && d[v] != IntMax && ParentEdge(E, d, p[v], v)
    {
      if v == t.to {
        assert EdgeTriple(t.from, t.to, t.weight) == t;
      } else if prev[v] != -1 {
        var w :| EdgeTriple(prev[v], v, w) in E && dist[prev[v]] + w <= dist[v];
        assert d[prev[v]] + w <= d[v];
      }
    }
  }

  /** The distances after relaxing along `t`. */
  function RelaxDistances(dist: seq<int>, t: EdgeTriple): seq<int>
    requires 0 <= t.from < |dist| && 0 <= t.to < |dist|
  {
    if Improves(dist, t) then dist[t.to := dist[t.from] + t.weight] else dist
  }

  /** The parents after relaxing along `t`. */
  function RelaxParents(dist: seq<int>, prev: seq<int>, t: EdgeTriple): seq<int>
    requires 0 <= t.from < |dist| && 0 <= t.to < |dist| && |prev| == |dist|
  {
    if Improves(dist, t) then prev[t.to := t.from] else prev
  }

  /** The relaxation of the Ford-Bellman solvers along `t`: from a reached
      tail, a shorter way to the head lowers its distance and makes the
      tail its parent; otherwise nothing changes. What this keeps is
      `RelaxOutcome`. */
  method Relax(t: EdgeTriple, dist: seq<int>, prev: seq<int>) returns (dist': seq<int>, prev': seq<int>)
    requires 0 <= t.from < |dist| && 0 <= t.to < |dist| && |prev| == |dist|
    ensures dist' == RelaxDistances(dist, t) && prev' == RelaxParents(dist, prev, t)
  {
    if dist[t.from] != IntMax && dist[t.from] + t.weight < dist[t.to] {
      dist' := dist[t.to := dist[t.from] + t.weight];
      prev' := prev[t.to := t.from];
    } else {
      dist', prev' := dist, prev;
    }
  }

  /** The witness walks after relaxing along `t`. */
  ghost function RelaxWalks(dist: seq<int>, walks: seq<seq<EdgeTriple>>, t: EdgeTriple): seq<seq<EdgeTriple>>
    requires 0 <= t.from < |dist| && 0 <= t.to < |dist| && |walks| == |dist|
  {
    if Improves(dist, t) then walks[t.to := walks[t.from] + [t]] else walks
  }

  /** Relaxing along an edge of `E` keeps the state consistent, only lowers
      distances, and leaves `t.to` within `t.weight` of a reached tail. */
  lemma RelaxOutcome(E: seq<EdgeTriple>, source: int, dist: seq<int>, prev: seq<int>,
                     walks: seq<seq<EdgeTriple>>, t: EdgeTriple)
    requires Consistent(E, source, dist, prev, walks) && t in E
    requires 0 <= t.from < |dist| && 0 <= t.to < |dist|
    ensures |walks| == |dist|
    ensures Consistent(E, source, RelaxDistances(dist, t), RelaxParents(dist, prev, t), RelaxWalks(dist, walks, t))
    ensures Below(RelaxDistances(dist, t), dist)
    ensures dist[t.from] != IntMax ==> RelaxDistances(dist, t)[t.to] <= dist[t.from] + t.weight
  {
    if Improves(dist, t) {
      RelaxKeeps(E, source, dist, prev, walks, t);
    }
  }

  // ---------------------------------------------------------------------
  // What a relaxed state means
  // ---------------------------------------------------------------------

  /** With no relaxable edge, no walk from the source below the sentinel
      is shorter than its end's distance. */
  lemma {:induction false} RelaxedBoundsWalk(E: seq<EdgeTriple>, dist: seq<int>, s: int,
                                             walk: seq<EdgeTriple>, v: int)
    requires Relaxed(E, dist) && 0 <= s < |dist| && dist[s] <= 0
    requires IsWalk(E, s, walk, v) && BelowSentinel(walk)
    ensures 0 <= v < |dist| && dist[v] <= TotalWeight(walk)
    decreases |walk|
  {
    if walk != [] {
      var pre := walk[..|walk| - 1];
      var e := walk[|walk| - 1];
      assert BelowSentinel(pre) by {
        forall k | 0 <= k < |pre|
          ensures TotalWeight(pre[..k]) < IntMax
        {
          assert pre[..k] == walk[..k];
        }
      }
      RelaxedBoundsWalk(E, dist, s, pre, e.from);
      assert TotalWeight(walk[..|pre|]) < IntMax;
      assert walk[..|pre|] == pre;
      var k :| 0 <= k < |E| && E[k] == e;
      assert !Improves(dist, E[k]);
    }
  }

  /** The correctness of a solver's final state: once no edge can be
      relaxed, the distance of every vertex is at most the weight of any
      walk to it from the source that stays below the sentinel, and every
      reached vertex's distance is the weight of such a walk: the
      distances are exactly the least walk weights. */
  lemma DistancesAreShortest(E: seq<EdgeTriple>, source: int, dist: seq<int>, prev: seq<int>,
                             walks: seq<seq<EdgeTriple>>)
    requires Consistent(E, source, dist, prev, walks) && Relaxed(E, dist)
    ensures forall v, walk | IsWalk(E, source, walk, v) && BelowSentinel(walk) ::
              0 <= v < |dist| && dist[v] <= TotalWeight(walk)
    ensures forall v | 0 <= v < |dist| && dist[v] != IntMax ::
              IsWalk(E, source, walks[v], v) && BelowSentinel(walks[v]) && TotalWeight(walks[v]) == dist[v]
  {
    forall v, walk | IsWalk(E, source, walk, v) && BelowSentinel(walk)
      ensures 0 <= v < |dist| && dist[v] <= TotalWeight(walk)
    {
      RelaxedBoundsWalk(E, dist, source, walk, v);
    }
  }

  // ---------------------------------------------------------------------
  // Rounds of Ford-Bellman
  // ---------------------------------------------------------------------

  /** `d` lies pointwise at or below `e`. */
  ghost predicate Below(d: seq<int>, e: seq<int>) {
    |d| == |e| && forall v | 0 <= v < |d| :: d[v] <= e[v]
  }

  /** No walk from `s` of at most `k` edges that stays below the sentinel
      is shorter than its end's distance. */
  ghost predicate BoundsWalks(E: seq<EdgeTriple>, s: int, dist: seq<int>, k: int) {
    forall walk, v | IsWalk(E, s, walk, v) && |walk| <= k && BelowSentinel(walk) ::
      0 <= v < |dist| && dist[v] <= TotalWeight(walk)
  }

  /** After the edge `t` was processed in a round that started from walks
      of at most `k` edges: every such walk to `t.from`, extended by `t`,
      is no shorter than `t.to`'s distance. */
  ghost predicate SlotBound(E: seq<EdgeTriple>, s: int, dist: seq<int>, k: int, t: EdgeTriple) {
    0 <= t.to < |dist|
    && forall walk | IsWalk(E, s, walk, t.from) && |walk| <= k && BelowSentinel(walk + [t]) ::
         dist[t.to] <= TotalWeight(walk) + t.weight
  }

  /** The edges processed so far in the current round are all bounded. */
  ghost predicate RoundProgress(E: seq<EdgeTriple>, s: int, dist: seq<int>, k: int, done: seq<EdgeTriple>) {
    forall t | t in done :: SlotBound(E, s, dist, k, t)
  }

  /** Before the first round: only the empty walk has no edges, and the
      source starts at 0. */
  lemma BoundsNoEdges(E: seq<EdgeTriple>, n: nat, s: int)
    requires 0 <= s < n
    ensures BoundsWalks(E, s, StartDistances(n, s), 0)
  {
    forall walk, v | IsWalk(E, s, walk, v) && |walk| <= 0 && BelowSentinel(walk)
      ensures 0 <= v < n && StartDistances(n, s)[v] <= TotalWeight(walk)
    {
      assert walk == [];
    }
  }

  /** Processing one edge `t` in a round: if afterwards `t.to`'s distance
      is at most `t.from`'s distance before plus the weight whenever the
      tail was reached, `t` joins the bounded edges, and lowering distances
      keeps the earlier ones bounded. */
  lemma SlotStep(E: seq<EdgeTriple>, s: int, start: seq<int>, dist: seq<int>, dist': seq<int>,
                 k: int, done: seq<EdgeTriple>, t: EdgeTriple)
    requires BoundsWalks(E, s, start, k) && Below(dist, start) && Below(dist', dist)
    requires RoundProgress(E, s, dist, k, done)
    requires 0 <= t.from < |dist| && 0 <= t.to < |dist|
    requires dist[t.from] != IntMax ==> dist'[t.to] <= dist[t.from] + t.weight
    ensures RoundProgress(E, s, dist', k, done + [t])
  {
    forall u | u in done + [t]
      ensures SlotBound(E, s, dist', k, u)
    {
      if u in done {
        assert SlotBound(E, s, dist, k, u);
      } else {
        forall walk | IsWalk(E, s, walk, t.from) && |walk| <= k && BelowSentinel(walk + [t])
          ensures dist'[t.to] <= TotalWeight(walk) + t.weight
        {
          assert TotalWeight((walk + [t])[..|walk|]) < IntMax;
          assert (walk + [t])[..|walk|] == walk;
          assert BelowSentinel(walk) by {
            forall j | 0 <= j < |walk|
              ensures TotalWeight(walk[..j]) < IntMax
            {
              assert (walk + [t])[..j] == walk[..j];
            }
          }
          assert start[t.from] <= TotalWeight(walk);
        }
      }
    }
  }

  /** A finished round: with every edge of `E` processed, walks of one more
      edge are bounded too. */
  lemma RoundEnd(E: seq<EdgeTriple>, s: int, start: seq<int>, dist: seq<int>, k: nat, done: seq<EdgeTriple>)
    requires BoundsWalks(E, s, start, k) && Below(dist, start)
    requires RoundProgress(E, s, dist, k, done)
    requires forall j | 0 <= j < |E| :: E[j] in done
    ensures BoundsWalks(E, s, dist, k + 1)
  {
    forall walk, v | IsWalk(E, s, walk, v) && |walk| <= k + 1 && BelowSentinel(walk)
      ensures 0 <= v < |dist| && dist[v] <= TotalWeight(walk)
    {
      if |walk| <= k {
        assert 0 <= v < |start| && start[v] <= TotalWeight(walk);
      } else {
        var pre := walk[..|walk| - 1];
        var t := walk[|walk| - 1];
        assert walk == pre + [t];
        var j :| 0 <= j < |E| && E[j] == t;
        assert SlotBound(E, s, dist, k, t);
        assert IsWalk(E, s, pre, t.from);
        WalkExtend(E, s, pre, t);
      }
    }
  }

  // ---------------------------------------------------------------------
  // All-paths mode
  // ---------------------------------------------------------------------

  /** Whether `reconstructPaths` reports vertex `v`: it needs a parent; the
      list Dijkstra and both Ford-Bellman solvers skip the source, the
      matrix Dijkstra and both Ford-Bellman solvers skip unreached
      vertices. */
  predicate Listed(parents: seq<int>, dist: seq<int>, source: int, v: int,
                   skipSource: bool, skipUnreached: bool)
    requires 0 <= v < |parents| == |dist|
  {
    (!skipSource || v != source) && parents[v] != -1 && (!skipUnreached || dist[v] != IntMax)
  }

  /** The triples `{parents[v], v, distances[v]}` of the listed vertices
      below `m`, in ascending `v`. */
  function PathsUpTo(parents: seq<int>, dist: seq<int>, source: int,
                     skipSource: bool, skipUnreached: bool, m: int): seq<EdgeTriple>
    requires |parents| == |dist| && 0 <= m <= |parents|
  {
    if m == 0 then []
    else
      PathsUpTo(parents, dist, source, skipSource, skipUnreached, m - 1)
        + (if Listed(parents, dist, source, m - 1, skipSource, skipUnreached)
           then [EdgeTriple(parents[m - 1], m - 1, dist[m - 1])] else [])
  }

  /** The result of all-paths mode. */
  function AllPaths(parents: seq<int>, dist: seq<int>, source: int,
                    skipSource: bool, skipUnreached: bool): seq<EdgeTriple>
    requires |parents| == |dist|
  {
    PathsUpTo(parents, dist, source, skipSource, skipUnreached, |parents|)
  }

  /** A triple is reported iff it is `{parents[v], v, distances[v]}` for a
      listed vertex `v`. */
  lemma {:induction false} PathsMeaning(parents: seq<int>, dist: seq<int>, source: int,
                                        skipSource: bool, skipUnreached: bool, m: int, t: EdgeTriple)
    requires |parents| == |dist| && 0 <= m <= |parents|
    ensures t in PathsUpTo(parents, dist, source, skipSource, skipUnreached, m) <==>
              0 <= t.to < m && Listed(parents, dist, source, t.to, skipSource, skipUnreached)
              && t == EdgeTriple(parents[t.to], t.to, dist[t.to])
  {
    if m > 0 {
      PathsMeaning(parents, dist, source, skipSource, skipUnreached, m - 1, t);
    }
  }

  /** The triples ascend strictly in `to`. */
  predicate AscendingTo(r: seq<EdgeTriple>) {
    forall i, j | 0 <= i < j < |r| :: r[i].to < r[j].to
  }

  /** The reported triples ascend strictly in `to`: one per vertex. */
  lemma {:induction false} PathsAscend(parents: seq<int>, dist: seq<int>, source: int,
                                       skipSource: bool, skipUnreached: bool, m: int)
    requires |parents| == |dist| && 0 <= m <= |parents|
    ensures AscendingTo(PathsUpTo(parents, dist, source, skipSource, skipUnreached, m))
    ensures forall t | t in PathsUpTo(parents, dist, source, skipSource, skipUnreached, m) :: t.to < m
  {
    if m > 0 {
      PathsAscend(parents, dist, source, skipSource, skipUnreached, m - 1);
      var pre := PathsUpTo(parents, dist, source, skipSource, skipUnreached, m - 1);
      var r := PathsUpTo(parents, dist, source, skipSource, skipUnreached, m);
      forall i, j | 0 <= i < j < |r|
        ensures r[i].to < r[j].to
      {
        if j < |pre| {
          assert r[i] == pre[i] && r[j] == pre[j];
          assert pre[i].to < pre[j].to;
        } else {
          assert Listed(parents, dist, source, m - 1, skipSource, skipUnreached);
          assert r == pre + [EdgeTriple(parents[m - 1], m - 1, dist[m - 1])];
          assert r[i] == pre[i] && pre[i] in pre;
          assert pre[i].to < m - 1 && r[j].to == m - 1;
        }
      }
    }
  }

  /** `reconstructPaths(parents, distances[, source])`: one pass over the
      vertices in ascending order. */
  method ReconstructPaths(parents: seq<int>, dist: seq<int>, source: int,
                          skipSource: bool, skipUnreached: bool) returns (result: seq<EdgeTriple>)
    requires |parents| == |dist|
    ensures result == AllPaths(parents, dist, source, skipSource, skipUnreached)
  {
    result := [];
    var v := 0;
    while v < |parents|
      invariant 0 <= v <= |parents|
      invariant result == PathsUpTo(parents, dist, source, skipSource, skipUnreached, v)
    {
      if (!skipSource || v != source) && parents[v] != -1 && (!skipUnreached || dist[v] != IntMax) {
        result := result + [EdgeTriple(parents[v], v, dist[v])];
      }
      v := v + 1;
    }
  }

  // ---------------------------------------------------------------------
  // Single-path mode
  // ---------------------------------------------------------------------

  /** Every parent is `-1` or a vertex. */
  ghost predicate ParentsInRange(parents: seq<int>) {
    forall v | 0 <= v < |parents| :: parents[v] == -1 || 0 <= parents[v] < |parents|
  }

  /** The walk back from `current` along the parents, at most `fuel` steps:
      `{parents[current], current, distances[current]}`, then on from the
      parent, until the source or a parentless vertex. */
  function PathBack(parents: seq<int>, dist: seq<int>, source: int, current: int, fuel: nat): seq<EdgeTriple>
    requires |parents| == |dist| && ParentsInRange(parents) && 0 <= current < |parents|
    decreases fuel
  {
    if fuel == 0 || current == source || parents[current] == -1 then []
    else [EdgeTriple(parents[current], current, dist[current])]
           + PathBack(parents, dist, source, parents[current], fuel - 1)
  }

  /** The result of single-path mode: nothing for an unreached `dest`,
      otherwise the walk back from `dest`, at most V steps. */
  function SinglePath(parents: seq<int>, dist: seq<int>, source: int, dest: int): seq<EdgeTriple>
    requires |parents| == |dist| && ParentsInRange(parents) && 0 <= dest < |parents|
  {
    if dist[dest] == IntMax then [] else PathBack(parents, dist, source, dest, |parents|)
  }

  /** The vertex the walk back reaches after `k` steps. */
  function StepBack(parents: seq<int>, current: int, k: nat): (v: int)
    requires ParentsInRange(parents) && 0 <= current < |parents|
    ensures 0 <= v < |parents|
    decreases k
  {
    if k == 0 || parents[current] == -1 then current else StepBack(parents, parents[current], k - 1)
  }

  /** The walk back is a chain: its first triple ends at the start, each
      triple is `{parents[v], v, distances[v]}` with `v != source`, each
      begins where the next ends, and when it stops short of its fuel it
      stops at the source or at a parentless vertex. */
  lemma {:induction false} PathBackChain(parents: seq<int>, dist: seq<int>, source: int, current: int, fuel: nat)
    requires |parents| == |dist| && ParentsInRange(parents) && 0 <= current < |parents|
    ensures var r := PathBack(parents, dist, source, current, fuel);
            && |r| <= fuel
            && (r != [] ==> r[0].to == current)
            && (forall i | 0 <= i < |r| ::
                  0 <= r[i].to < |parents| && r[i].to != source && parents[r[i].to] != -1
                  && r[i] == EdgeTriple(parents[r[i].to], r[i].to, dist[r[i].to]))
            && (forall i | 0 <= i < |r| - 1 :: r[i].from == r[i + 1].to)
            && (|r| < fuel ==> var last := StepBack(parents, current, |r|);
                                 last == source || parents[last] == -1)
    decreases fuel
  {
    if !(fuel == 0 || current == source || parents[current] == -1) {
      var rest := PathBack(parents, dist, source, parents[current], fuel - 1);
      PathBackChain(parents, dist, source, parents[current], fuel - 1);
      var r := PathBack(parents, dist, source, current, fuel);
      assert r == [EdgeTriple(parents[current], current, dist[current])] + rest;
      assert forall i | 1 <= i < |r| :: r[i] == rest[i - 1];
    }
  }

  /** `reconstructSinglePath(parents, distances, source, dest)`. The walk
      back is cut after V steps (see `SinglePath`). */
  method ReconstructSinglePath(parents: seq<int>, dist: seq<int>, source: int, dest: int)
      returns (result: seq<EdgeTriple>)
    requires |parents| == |dist| && ParentsInRange(parents) && 0 <= dest < |parents|
    ensures result == SinglePath(parents, dist, source, dest)
  {
    result := [];
    if dist[dest] == IntMax {
      return;
    }
    var current := dest;
    var steps := 0;
    while current != source && parents[current] != -1 && steps < |parents|
      invariant 0 <= current < |parents| && 0 <= steps <= |parents|
      invariant result + PathBack(parents, dist, source, current, |parents| - steps)
                == PathBack(parents, dist, source, dest, |parents|)
      decreases |parents| - steps
    {
      result := result + [EdgeTriple(parents[current], current, dist[current])];
      current := parents[current];
      steps := steps + 1;
    }
  }

  /** Consistent parents are `-1` or vertices. */
  lemma ParentsOkInRange(E: seq<EdgeTriple>, source: int, dist: seq<int>, prev: seq<int>)
    requires |prev| == |dist| && ParentsOk(E, source, dist, prev)
    ensures ParentsInRange(prev)
  {
    forall v | 0 <= v < |prev|
      ensures prev[v] == -1 || 0 <= prev[v] < |prev|
    {
    }
  }

  /** Every triple of all-paths mode is `{previous[v], v, distances[v]}`
      for an edge of the graph from `previous[v]` to `v` that explains
      `distances[v]`. */
  lemma AllPathsFollowParents(E: seq<EdgeTriple>, source: int, dist: seq<int>, prev: seq<int>,
                              skipSource: bool, skipUnreached: bool)
    requires |prev| == |dist| && ParentsOk(E, source, dist, prev)
    ensures forall t | t in AllPaths(prev, dist, source, skipSource, skipUnreached) ::
              0 <= t.from < |dist| && 0 <= t.to < |dist| && t.weight == dist[t.to]
              && ParentEdge(E, dist, t.from, t.to)
  {
    forall t | t in AllPaths(prev, dist, source, skipSource, skipUnreached)
      ensures 0 <= t.from < |dist| && 0 <= t.to < |dist| && t.weight == dist[t.to]
              && ParentEdge(E, dist, t.from, t.to)
    {
      PathsMeaning(prev, dist, source, skipSource, skipUnreached, |prev|, t);
    }
  }

  /** Every triple of single-path mode is `{previous[v], v, distances[v]}`
      for an edge of the graph from `previous[v]` to `v` that explains
      `distances[v]`, and the triples chain back from `dest`. */
  lemma SinglePathFollowsParents(E: seq<EdgeTriple>, source: int, dist: seq<int>, prev: seq<int>, dest: int)
    requires |prev| == |dist| && ParentsOk(E, source, dist, prev) && 0 <= dest < |prev|
    ensures ParentsInRange(prev)
    ensures var r := SinglePath(prev, dist, source, dest);
            && (r != [] ==> r[0].to == dest)
            && (forall i | 0 <= i < |r| - 1 :: r[i].from == r[i + 1].to)
            && forall t | t in r ::
                 0 <= t.from < |dist| && 0 <= t.to < |dist| && t.weight == dist[t.to]
                 && ParentEdge(E, dist, t.from, t.to)
  {
    ParentsOkInRange(E, source, dist, prev);
    if dist[dest] != IntMax {
      var r := SinglePath(prev, dist, source, dest);
      PathBackChain(prev, dist, source, dest, |prev|);
      forall t | t in r
        ensures 0 <= t.from < |dist| && 0 <= t.to < |dist| && t.weight == dist[t.to]
                && ParentEdge(E, dist, t.from, t.to)
      {
        var i :| 0 <= i < |r| && r[i] == t;
        assert prev[t.to] != -1 && t.from == prev[t.to];
      }
    }
  }

  /** `d` is the weight of a lightest walk from `s` to `v`: some walk
      achieves it, and no walk whose running weight stays below `INT_MAX`
      is lighter. */
  ghost predicate ShortestDistance(E: seq<EdgeTriple>, s: int, v: int, d: int) {
    && (exists walk :: IsWalk(E, s, walk, v) && TotalWeight(walk) == d)
    && (forall walk | IsWalk(E, s, walk, v) && BelowSentinel(walk) :: d <= TotalWeight(walk))
  }

  /** Every triple of `paths` is an edge of `E` into its target, labelled
      with the target's shortest distance from `s`. */
  ghost predicate ShortestTriples(E: seq<EdgeTriple>, s: int, paths: seq<EdgeTriple>) {
    forall t | t in paths ::
      (exists w :: EdgeTriple(t.from, t.to, w) in E) && ShortestDistance(E, s, t.to, t.weight)
  }

  /** Triples `{previous[v], v, distances[v]}` of vertices with a parent are
      shortest once the distances are relaxed. */
  lemma ParentTriplesAreShortest(E: seq<EdgeTriple>, source: int, dist: seq<int>, prev: seq<int>,
                                 walks: seq<seq<EdgeTriple>>, paths: seq<EdgeTriple>)
    requires Consistent(E, source, dist, prev, walks) && Relaxed(E, dist)
    requires forall t | t in paths ::
               0 <= t.to < |dist| && prev[t.to] != -1 && t.from == prev[t.to] && t.weight == dist[t.to]
    ensures ShortestTriples(E, source, paths)
  {
    DistancesAreShortest(E, source, dist, prev, walks);
    forall t | t in paths
      ensures (exists w :: EdgeTriple(t.from, t.to, w) in E) && ShortestDistance(E, source, t.to, t.weight)
    {
      assert ParentEdge(E, dist, t.from, t.to);
      assert IsWalk(E, source, walks[t.to], t.to) && TotalWeight(walks[t.to]) == t.weight;
    }
  }

  /** What the solvers return once no edge improves: in both modes, each
      triple is a graph edge labelled with its target's shortest distance. */
  lemma ReconstructionIsShortest(E: seq<EdgeTriple>, source: int, dist: seq<int>, prev: seq<int>,
                                 walks: seq<seq<EdgeTriple>>, destination: int,
                                 skipSource: bool, skipUnreached: bool)
    requires Consistent(E, source, dist, prev, walks) && Relaxed(E, dist)
    requires destination == -1 || 0 <= destination < |dist|
    ensures ParentsInRange(prev)
    ensures destination == -1 ==>
              ShortestTriples(E, source, AllPaths(prev, dist, source, skipSource, skipUnreached))
    ensures destination != -1 ==>
              ShortestTriples(E, source, SinglePath(prev, dist, source, destination))
  {
    ParentsOkInRange(E, source, dist, prev);
    if destination == -1 {
      var r := AllPaths(prev, dist, source, skipSource, skipUnreached);
      forall t | t in r
        ensures 0 <= t.to < |dist| && prev[t.to] != -1 && t.from == prev[t.to] && t.weight == dist[t.to]
      {
        PathsMeaning(prev, dist, source, skipSource, skipUnreached, |prev|, t);
      }
      ParentTriplesAreShortest(E, source, dist, prev, walks, r);
    } else {
      var r := SinglePath(prev, dist, source, destination);
      if dist[destination] != IntMax {
        PathBackChain(prev, dist, source, destination, |prev|);
        forall t | t in r
          ensures 0 <= t.to < |dist| && prev[t.to] != -1 && t.from == prev[t.to] && t.weight == dist[t.to]
        {
          var i :| 0 <= i < |r| && r[i] == t;
        }
      }
      ParentTriplesAreShortest(E, source, dist, prev, walks, r);
    }
  }

  // ---------------------------------------------------------------------
  // Weight summaries
  // ---------------------------------------------------------------------

  /** The least weight of `paths`, starting from `seed`. */
  function LeastWeight(seed: int, paths: seq<EdgeTriple>): int {
    if paths == [] then seed
    else
      var m := LeastWeight(seed, paths[..|paths| - 1]);
      if paths[|paths| - 1].weight < m then paths[|paths| - 1].weight else m
  }

  /** The greatest weight of `paths`, starting from `seed`. */
  function GreatestWeight(seed: int, paths: seq<EdgeTriple>): int {
    if paths == [] then seed
    else
      var m := GreatestWeight(seed, paths[..|paths| - 1]);
      if paths[|paths| - 1].weight > m then paths[|paths| - 1].weight else m
  }

  /** `LeastWeight` is a lower bound of the seed and every weight, and is
      the seed or one of the weights. */
  lemma {:induction false} LeastWeightMeaning(seed: int, paths: seq<EdgeTriple>)
    ensures LeastWeight(seed, paths) <= seed
    ensures forall i | 0 <= i < |paths| :: LeastWeight(seed, paths) <= paths[i].weight
    ensures LeastWeight(seed, paths) == seed || exists i | 0 <= i < |paths| :: LeastWeight(seed, paths) == paths[i].weight
  {
    if paths != [] {
      var pre := paths[..|paths| - 1];
      LeastWeightMeaning(seed, pre);
      assert forall i | 0 <= i < |pre| :: pre[i] == paths[i];
    }
  }

  /** `GreatestWeight` is an upper bound of the seed and every weight, and
      is the seed or one of the weights. */
  lemma {:induction false} GreatestWeightMeaning(seed: int, paths: seq<EdgeTriple>)
    ensures GreatestWeight(seed, paths) >= seed
    ensures forall i | 0 <= i < |paths| :: GreatestWeight(seed, paths) >= paths[i].weight
    ensures GreatestWeight(seed, paths) == seed || exists i | 0 <= i < |paths| :: GreatestWeight(seed, paths) == paths[i].weight
  {
    if paths != [] {
      var pre := paths[..|paths| - 1];
      GreatestWeightMeaning(seed, pre);
      assert forall i | 0 <= i < |pre| :: pre[i] == paths[i];
    }
  }

  /** The text shown for a least weight `lo` and a greatest weight `hi`:
      one number when they agree or a single destination was asked for,
      else the range `[lo - hi]`. */
  function RangeText(lo: int, hi: int, destination: bool): string {
    if lo == hi || destination then IntToString(hi)
    else "[" + IntToString(lo) + " - " + IntToString(hi) + "]"
  }

  /** `calculatePathWeightAsString` of the Dijkstra solvers: "0" for no
      triples, else the range text of the weights scanned from
      `INT_MAX`/`INT_MIN`. */
  function SentinelSummary(paths: seq<EdgeTriple>, destination: bool): string {
    if |paths| == 0 then "0"
    else RangeText(LeastWeight(IntMax, paths), GreatestWeight(IntMin, paths), destination)
  }

  /** `calculatePathWeightAsString` of the Ford-Bellman solvers: "0" for no
      triples, the weight of a single triple, else the range text of the
      weights scanned from the first one. */
  function FirstSummary(paths: seq<EdgeTriple>, destination: bool): string {
    if |paths| == 0 then "0"
    else if |paths| == 1 then IntToString(paths[0].weight)
    else RangeText(LeastWeight(paths[0].weight, paths[1..]), GreatestWeight(paths[0].weight, paths[1..]), destination)
  }

  /** The two summaries agree whenever every weight is an `int`: scanning
      from the sentinels and scanning from the first weight find the same
      least and greatest weights. */
  lemma SummariesAgree(paths: seq<EdgeTriple>, destination: bool)
    requires forall i | 0 <= i < |paths| :: IsInt(paths[i].weight)
    ensures SentinelSummary(paths, destination) == FirstSummary(paths, destination)
  {
    if |paths| > 0 {
      var lo := LeastWeight(IntMax, paths);
      var hi := GreatestWeight(IntMin, paths);
      LeastWeightMeaning(IntMax, paths);
      GreatestWeightMeaning(IntMin, paths);
      var rest := paths[1..];
      assert forall i | 0 <= i < |rest| :: rest[i] == paths[i + 1];
      LeastWeightMeaning(paths[0].weight, rest);
      GreatestWeightMeaning(paths[0].weight, rest);
      var lo' := LeastWeight(paths[0].weight, rest);
      var hi' := GreatestWeight(paths[0].weight, rest);
      assert lo == lo' by {
        assert exists i | 0 <= i < |paths| :: lo == paths[i].weight by {
          if lo == IntMax {
            assert lo == paths[0].weight;
          }
        }
        var i :| 0 <= i < |paths| && lo == paths[i].weight;
        if i > 0 {
          assert rest[i - 1] == paths[i];
        }
        if lo' != paths[0].weight {
          var i :| 0 <= i < |rest| && lo' == rest[i].weight;
          assert paths[i + 1] == rest[i];
        }
      }
      assert hi == hi' by {
        assert exists i | 0 <= i < |paths| :: hi == paths[i].weight by {
          if hi == IntMin {
            assert hi == paths[0].weight;
          }
        }
        var i :| 0 <= i < |paths| && hi == paths[i].weight;
        if i > 0 {
          assert rest[i - 1] == paths[i];
        }
        if hi' != paths[0].weight {
          var i :| 0 <= i < |rest| && hi' == rest[i].weight;
          assert paths[i + 1] == rest[i];
        }
      }
      if |paths| == 1 {
        assert rest == [];
      }
    }
  }

  /** The loop of the Dijkstra solvers' `calculatePathWeightAsString`. */
  method CalculatePathWeightAsString(paths: seq<EdgeTriple>, destination: bool) returns (s: string)
    ensures s == SentinelSummary(paths, destination)
  {
    if |paths| == 0 {
      return "0";
    }
    var lo := IntMax;
    var hi := IntMin;
    var i := 0;
    while i < |paths|
      invariant 0 <= i <= |paths|
      invariant lo == LeastWeight(IntMax, paths[..i]) && hi == GreatestWeight(IntMin, paths[..i])
    {
      assert paths[..i + 1][..i] == paths[..i];
      if paths[i].weight < lo {
        lo := paths[i].weight;
      }
      if paths[i].weight > hi {
        hi := paths[i].weight;
      }
      i := i + 1;
    }
    assert paths[..i] == paths;
    s := RangeText(lo, hi, destination);
  }

  /** The loop of the Ford-Bellman solvers' `calculatePathWeightAsString`. */
  method CalculatePathWeightAsStringFromFirst(paths: seq<EdgeTriple>, destination: bool) returns (s: string)
    ensures s == FirstSummary(paths, destination)
  {
    if |paths| == 0 {
      return "0";
    }
    if |paths| == 1 {
      return IntToString(paths[0].weight);
    }
    var lo := paths[0].weight;
    var hi := paths[0].weight;
    ghost var rest := paths[1..];
    var i := 1;
    while i < |paths|
      invariant 1 <= i <= |paths|
      invariant lo == LeastWeight(paths[0].weight, rest[..i - 1])
      invariant hi == GreatestWeight(paths[0].weight, rest[..i - 1])
    {
      assert rest[..i][..i - 1] == rest[..i - 1] && rest[i - 1] == paths[i];
      if paths[i].weight < lo {
        lo := paths[i].weight;
      }
      if paths[i].weight > hi {
        hi := paths[i].weight;
      }
      i := i + 1;
    }
    assert rest[..i - 1] == rest;
    s := RangeText(lo, hi, destination);
  }
}
