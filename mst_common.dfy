/** What the minimum-spanning-tree solvers share: the `inMST` flags of the
    Prim solvers and the way they grow a tree from vertex 0, the strict-`<`
    minimum search of their `selectMinimumEdge`, and the total weight that
    `calculateMSTWeightAsString` renders. */
module MstCommon {
  import opened EdgeTriples
  import opened Decimal

  // ---------------------------------------------------------------------
  // The minimum search of `selectMinimumEdge`
  // ---------------------------------------------------------------------

  /** `minWeight` and `bestEdge` of a minimum search. */
  datatype Pick = Pick(minWeight: int, best: EdgeTriple)

  /** Before any candidate: `minWeight = INT_MAX`, `bestEdge = {-1, -1, -1}`. */
  const NoPick: Pick := Pick(IntMax, NoEdge)

  /** One candidate met: it replaces the best only when strictly lighter. */
  function Consider(p: Pick, e: EdgeTriple): Pick {
    if e.weight < p.minWeight then Pick(e.weight, e) else p
  }

  /** The search over the candidates `c`, in the order they are met. */
  function Scan(c: seq<EdgeTriple>): Pick {
    if c == [] then NoPick else Consider(Scan(c[..|c| - 1]), c[|c| - 1])
  }

  lemma ScanAppend(c: seq<EdgeTriple>, e: EdgeTriple)
    ensures Scan(c + [e]) == Consider(Scan(c), e)
  {
    assert (c + [e])[..|c|] == c;
  }

  /** The search finds nothing exactly when no candidate weighs less than
      `INT_MAX`; otherwise it returns the FIRST candidate of least weight,
      and that weight is below `INT_MAX`. */
  lemma {:induction false} ScanFindsFirstMinimum(c: seq<EdgeTriple>)
    ensures Scan(c) == NoPick <==> forall j | 0 <= j < |c| :: c[j].weight >= IntMax
    ensures Scan(c) != NoPick ==>
              && Scan(c).minWeight == Scan(c).best.weight < IntMax
              && (forall j | 0 <= j < |c| :: Scan(c).best.weight <= c[j].weight)
              && exists k | 0 <= k < |c| ::
                   c[k] == Scan(c).best && forall j | 0 <= j < k :: c[j].weight > c[k].weight
  {
    if c != [] {
      var c' := c[..|c| - 1];
      var e := c[|c| - 1];
      ScanFindsFirstMinimum(c');
      assert forall j | 0 <= j < |c'| :: c'[j] == c[j];
      if Scan(c') == NoPick {
        if e.weight < IntMax {
          assert c[|c| - 1] == Scan(c).best;
        }
      } else {
        var k :| 0 <= k < |c'| && c'[k] == Scan(c').best && forall j | 0 <= j < k :: c'[j].weight > c'[k].weight;
        if e.weight < Scan(c').minWeight {
          assert c[|c| - 1] == Scan(c).best;
        } else {
          assert c[k] == Scan(c).best;
        }
      }
    }
  }

  // ---------------------------------------------------------------------
  // Candidates met block by block
  // ---------------------------------------------------------------------

  /** The blocks one after another. */
  function Flatten<T>(blocks: seq<seq<T>>): seq<T> {
    if blocks == [] then [] else Flatten(blocks[..|blocks| - 1]) + blocks[|blocks| - 1]
  }

  /** One more element of a prefix appends that element. */
  lemma TakeOneMore<T>(s: seq<T>, i: int)
    requires 0 <= i < |s|
    ensures s[..i + 1] == s[..i] + [s[i]]
  {
  }

  /** One more block of a prefix appends that block. */
  lemma FlattenStep<T>(blocks: seq<seq<T>>, i: int)
    requires 0 <= i < |blocks|
    ensures Flatten(blocks[..i + 1]) == Flatten(blocks[..i]) + blocks[i]
  {
    assert blocks[..i + 1][..i] == blocks[..i];
  }

  /** FlattenStep behind a fixed prefix `seen`. */
  lemma FlattenStepAfter<T>(seen: seq<T>, blocks: seq<seq<T>>, i: int)
    requires 0 <= i < |blocks|
    ensures seen + Flatten(blocks[..i + 1]) == (seen + Flatten(blocks[..i])) + blocks[i]
  {
    FlattenStep(blocks, i);
  }

  /** An element of a block is an element of the whole. */
  lemma {:induction false} FlattenHas<T>(blocks: seq<seq<T>>, i: int, x: T)
    requires 0 <= i < |blocks| && x in blocks[i]
    ensures x in Flatten(blocks)
  {
    var last := |blocks| - 1;
    if i < last {
      assert blocks[..last][i] == blocks[i];
      FlattenHas(blocks[..last], i, x);
    }
  }

  /** An element of the whole comes from some block. */
  lemma {:induction false} FlattenMember<T>(blocks: seq<seq<T>>, x: T)
    requires x in Flatten(blocks)
    ensures exists i | 0 <= i < |blocks| :: x in blocks[i]
  {
    var last := |blocks| - 1;
    if x !in blocks[last] {
      FlattenMember(blocks[..last], x);
      var i :| 0 <= i < last && x in blocks[..last][i];
      assert blocks[..last][i] == blocks[i];
    }
  }

  // ---------------------------------------------------------------------
  // Growing a tree from vertex 0
  // ---------------------------------------------------------------------

  /** The `inMST` flags after the edges `es` were accepted: vertex 0, then
      the `to` end of every accepted edge. */
  function TreeFlags(n: nat, es: seq<EdgeTriple>): (flags: seq<bool>)
    requires EndsInRange(es, n)
    ensures |flags| == n
  {
    if es == [] then seq(n, v => v == 0)
    else TreeFlags(n, es[..|es| - 1])[es[|es| - 1].to := true]
  }

  /** A vertex is flagged exactly when it is 0 or the `to` end of an
      accepted edge. */
  lemma {:induction false} TreeFlagsMeaning(n: nat, es: seq<EdgeTriple>, v: int)
    requires EndsInRange(es, n) && 0 <= v < n
    ensures TreeFlags(n, es)[v] <==> v == 0 || exists k | 0 <= k < |es| :: es[k].to == v
  {
    if es != [] {
      var es' := es[..|es| - 1];
      TreeFlagsMeaning(n, es', v);
      assert forall k | 0 <= k < |es'| :: es'[k] == es[k];
      if v != 0 && TreeFlags(n, es)[v] && es[|es| - 1].to != v {
        var k :| 0 <= k < |es'| && es'[k].to == v;
        assert es[k].to == v;
      }
    }
  }

  /** Accepting one more edge flags its `to` end. */
  lemma TreeFlagsAppend(n: nat, es: seq<EdgeTriple>, e: EdgeTriple)
    requires EndsInRange(es, n) && 0 <= e.from < n && 0 <= e.to < n
    ensures EndsInRange(es + [e], n)
    ensures TreeFlags(n, es + [e]) == TreeFlags(n, es)[e.to := true]
  {
    assert (es + [e])[..|es|] == es;
  }

  /** Every accepted edge went from a flagged vertex to an unflagged one, as
      the flags stood when it was accepted. */
  ghost predicate GrowsTree(n: nat, es: seq<EdgeTriple>)
    requires EndsInRange(es, n)
  {
    forall k | 0 <= k < |es| ::
      EndsInRange(es[..k], n)
      && TreeFlags(n, es[..k])[es[k].from] && !TreeFlags(n, es[..k])[es[k].to]
  }

  /** An edge list grown this way is a tree on vertex 0 and the `to` ends:
      every `to` end is new, so they are pairwise distinct and never 0, and
      every `from` end is 0 or the `to` end of an earlier edge. */
  lemma TreeShape(n: nat, es: seq<EdgeTriple>)
    requires EndsInRange(es, n) && GrowsTree(n, es)
    ensures forall k | 0 <= k < |es| :: es[k].to != 0
    ensures forall j, k | 0 <= j < k < |es| :: es[j].to != es[k].to
    ensures forall k | 0 <= k < |es| ::
              es[k].from == 0 || exists j | 0 <= j < k :: es[j].to == es[k].from
  {
    forall k | 0 <= k < |es|
      ensures es[k].to != 0
      ensures forall j | 0 <= j < k :: es[j].to != es[k].to
      ensures es[k].from == 0 || exists j | 0 <= j < k :: es[j].to == es[k].from
    {
      var pre := es[..k];
      TreeFlagsMeaning(n, pre, es[k].to);
      TreeFlagsMeaning(n, pre, es[k].from);
      forall j | 0 <= j < k
        ensures es[j].to != es[k].to
      {
        assert pre[j] == es[j];
      }
      if es[k].from != 0 {
        var j :| 0 <= j < |pre| && pre[j].to == es[k].from;
        assert es[j].to == es[k].from;
      }
    }
  }

  /** Accepting one more edge from the tree to a new vertex keeps the list
      grown from vertex 0. */
  lemma GrowsTreeAppend(n: nat, es: seq<EdgeTriple>, e: EdgeTriple)
    requires EndsInRange(es, n) && GrowsTree(n, es)
    requires 0 <= e.from < n && 0 <= e.to < n
    requires TreeFlags(n, es)[e.from] && !TreeFlags(n, es)[e.to]
    ensures EndsInRange(es + [e], n) && GrowsTree(n, es + [e])
  {
    var es' := es + [e];
    assert es'[..|es|] == es;
    forall k | 0 <= k < |es|
      ensures es'[..k] == es[..k]
    {
    }
  }

  /** Each edge of `mst` is what `choice` picks for the tree built by the
      edges before it, and no edge is `{-1, -1, -1}`: the edges the Prim
      solvers push, one round at a time. */
  ghost predicate ChosenRun(n: nat, mst: seq<EdgeTriple>, choice: seq<bool> -> EdgeTriple)
    decreases |mst|
  {
    mst == [] ||
      var pre := mst[..|mst| - 1];
      var e := mst[|mst| - 1];
      && ChosenRun(n, pre, choice)
      && EndsInRange(pre, n)
      && e != NoEdge && e == choice(TreeFlags(n, pre))
  }

  /** The edge at position `k` of such a run. */
  lemma {:induction false} ChosenRunAt(n: nat, mst: seq<EdgeTriple>, choice: seq<bool> -> EdgeTriple, k: int)
    requires ChosenRun(n, mst, choice) && 0 <= k < |mst|
    ensures EndsInRange(mst[..k], n)
    ensures mst[k] != NoEdge && mst[k] == choice(TreeFlags(n, mst[..k]))
  {
    var pre := mst[..|mst| - 1];
    if k < |pre| {
      ChosenRunAt(n, pre, choice, k);
      assert pre[..k] == mst[..k] && pre[k] == mst[k];
    }
  }

  /** Pushing what `choice` picks for the current tree extends the run. */
  lemma ChosenRunExtend(n: nat, mst: seq<EdgeTriple>, choice: seq<bool> -> EdgeTriple, e: EdgeTriple)
    requires ChosenRun(n, mst, choice) && EndsInRange(mst, n)
    requires e != NoEdge && e == choice(TreeFlags(n, mst))
    ensures ChosenRun(n, mst + [e], choice)
  {
    assert (mst + [e])[..|mst|] == mst;
  }

  /** What `findMST` of either Prim solver returns: at most V - 1 edges of
      `[0, V)`, each the choice for the tree built by the edges before it,
      and fewer than V - 1 only when the last search found nothing. */
  ghost predicate GreedyRun(n: nat, mst: seq<EdgeTriple>, choice: seq<bool> -> EdgeTriple) {
    && |mst| <= n - 1
    && ChosenRun(n, mst, choice)
    && EndsInRange(mst, n)
    && (|mst| < n - 1 ==> choice(TreeFlags(n, mst)) == NoEdge)
  }

  /** `initializeMSTFlags(n)`: pushes `false` n times. */
  method InitializeMSTFlags(n: nat) returns (flags: seq<bool>)
    ensures |flags| == n && forall v | 0 <= v < n :: !flags[v]
  {
    flags := [];
    var i := 0;
    while i < n
      invariant 0 <= i <= n && |flags| == i
      invariant forall v | 0 <= v < i :: !flags[v]
    {
      flags := flags + [false];
      i := i + 1;
    }
  }

  // ---------------------------------------------------------------------
  // Total weight
  // ---------------------------------------------------------------------

  /** The sum of the weights, in unbounded arithmetic. */
  function TotalWeight(es: seq<EdgeTriple>): int {
    if es == [] then 0 else TotalWeight(es[..|es| - 1]) + es[|es| - 1].weight
  }

  /** The total splits over a concatenation. */
  lemma {:induction false} TotalWeightSplit(a: seq<EdgeTriple>, b: seq<EdgeTriple>)
    ensures TotalWeight(a + b) == TotalWeight(a) + TotalWeight(b)
    decreases |b|
  {
    if b != [] {
      var b' := b[..|b| - 1];
      assert (a + b)[..|a + b| - 1] == a + b';
      TotalWeightSplit(a, b');
    } else {
      assert a + b == a;
    }
  }

  /** `calculateMSTWeightAsString(mst)` (identical in the Prim-list and both
      Kruskal solvers): the decimal rendering of the sum of the weights. */
  method CalculateMSTWeightAsString(mst: seq<EdgeTriple>) returns (s: string)
    ensures s == IntToString(TotalWeight(mst))
    ensures ParseInt(s) == TotalWeight(mst)
  {
    var total := 0;
    var i := 0;
    while i < |mst|
      invariant 0 <= i <= |mst|
      invariant total == TotalWeight(mst[..i])
    {
      assert mst[..i + 1][..i] == mst[..i];
      total := total + mst[i].weight;
      i := i + 1;
    }
    assert mst[..|mst|] == mst;
    s := IntToString(total);
    IntRoundTrip(total);
  }
}
