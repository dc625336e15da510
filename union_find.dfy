/** The disjoint-set structure `UnionJoinSet` (src/common/UnionJoinSet.hpp):
    a parent array, `find` with path compression and `unite` that re-parents
    one root. There is no union by rank in the source; the ghost `rank`
    below exists only to show that every parent chain ends at a root. */
module UnionFind {

  /** A parent array over `[0, n)` together with a ghost rank that grows
      strictly from a non-root to its parent and is bounded by `bound`: the
      parent links form a forest. */
  ghost predicate Forest(parent: seq<int>, rank: seq<nat>, bound: nat) {
    && |rank| == |parent|
    && (forall i | 0 <= i < |parent| :: 0 <= parent[i] < |parent|)
    && (forall i | 0 <= i < |parent| :: rank[i] <= bound)
    && (forall i | 0 <= i < |parent| && parent[i] != i :: rank[i] < rank[parent[i]])
  }

  /** The root reached by following parent links from `i`. */
  ghost function RootOf(parent: seq<int>, rank: seq<nat>, bound: nat, i: int): (r: int)
    requires Forest(parent, rank, bound)
    requires 0 <= i < |parent|
    ensures 0 <= r < |parent| && parent[r] == r
    ensures rank[i] <= rank[r]
    ensures parent[i] != i ==> rank[i] < rank[r]
    decreases bound - rank[i]
  {
    if parent[i] == i then i else RootOf(parent, rank, bound, parent[i])
  }

  /** Path compression: pointing `x` straight at its root keeps a forest and
      leaves the root of every element as it was. */
  lemma {:induction false} CompressKeepsRoots(parent: seq<int>, rank: seq<nat>, bound: nat, x: int, i: int)
    requires Forest(parent, rank, bound)
    requires 0 <= x < |parent| && 0 <= i < |parent|
    ensures Forest(parent[x := RootOf(parent, rank, bound, x)], rank, bound)
    ensures RootOf(parent[x := RootOf(parent, rank, bound, x)], rank, bound, i)
         == RootOf(parent, rank, bound, i)
    decreases bound - rank[i]
  {
    var p' := parent[x := RootOf(parent, rank, bound, x)];
    if parent[i] != i {
      CompressKeepsRoots(parent, rank, bound, x, parent[i]);
      if i == x {
        var r := RootOf(parent, rank, bound, x);
        assert p'[r] == r;
      }
    }
  }

  /** Linking root `a` under root `b` (with `b`'s rank raised above `a`'s)
      moves exactly the elements whose root was `a` to root `b`. */
  lemma {:induction false} LinkMovesOneSet(parent: seq<int>, rank: seq<nat>, bound: nat,
                                           a: int, b: int, i: int)
    requires Forest(parent, rank, bound)
    requires 0 <= a < |parent| && parent[a] == a
    requires 0 <= b < |parent| && parent[b] == b
    requires a != b
    requires 0 <= i < |parent|
    ensures Forest(parent[a := b], Relinked(rank, a, b), LinkedBound(rank, bound, a))
    ensures RootOf(parent[a := b], Relinked(rank, a, b), LinkedBound(rank, bound, a), i)
         == if RootOf(parent, rank, bound, i) == a then b else RootOf(parent, rank, bound, i)
    decreases bound - rank[i]
  {
    var p', r', b' := parent[a := b], Relinked(rank, a, b), LinkedBound(rank, bound, a);
    assert Forest(p', r', b');
    if parent[i] != i {
      LinkMovesOneSet(parent, rank, bound, a, b, parent[i]);
    }
  }

  /** `LinkMovesOneSet` for every element at once. */
  lemma LinkMovesEverySet(parent: seq<int>, rank: seq<nat>, bound: nat, a: int, b: int)
    requires Forest(parent, rank, bound)
    requires 0 <= a < |parent| && parent[a] == a
    requires 0 <= b < |parent| && parent[b] == b
    requires a != b
    ensures Forest(parent[a := b], Relinked(rank, a, b), LinkedBound(rank, bound, a))
    ensures forall i | 0 <= i < |parent| ::
              RootOf(parent[a := b], Relinked(rank, a, b), LinkedBound(rank, bound, a), i)
              == if RootOf(parent, rank, bound, i) == a then b else RootOf(parent, rank, bound, i)
  {
    LinkMovesOneSet(parent, rank, bound, a, b, a);
    forall i | 0 <= i < |parent|
      ensures RootOf(parent[a := b], Relinked(rank, a, b), LinkedBound(rank, bound, a), i)
           == if RootOf(parent, rank, bound, i) == a then b else RootOf(parent, rank, bound, i)
    {
      LinkMovesOneSet(parent, rank, bound, a, b, i);
    }
  }

  /** The ranks after linking root `a` under root `b`. */
  ghost function Relinked(rank: seq<nat>, a: int, b: int): seq<nat>
    requires 0 <= a < |rank| && 0 <= b < |rank|
  {
    rank[b := if rank[a] + 1 > rank[b] then rank[a] + 1 else rank[b]]
  }

  ghost function LinkedBound(rank: seq<nat>, bound: nat, a: int): nat
    requires 0 <= a < |rank|
  {
    if rank[a] + 1 > bound then rank[a] + 1 else bound
  }

  class UnionJoinSet {
    const parent: array<int>
    ghost var rank: seq<nat>
    ghost var bound: nat

    ghost predicate Valid()
      reads this, parent
    {
      Forest(parent[..], rank, bound)
    }

    /** The root that `find(i)` returns. */
    ghost function Root(i: int): int
      reads this, parent
      requires Valid() && 0 <= i < parent.Length
    {
      RootOf(parent[..], rank, bound, i)
    }

    /** `UnionJoinSet(n)`: every element is its own parent. */
    constructor (n: nat)
      ensures Valid() && fresh(parent) && parent.Length == n
      ensures forall i | 0 <= i < n :: parent[i] == i && Root(i) == i
    {
      var p := new int[n];
      var i := 0;
      while i < n
        invariant 0 <= i <= n
        invariant forall k | 0 <= k < i :: p[k] == k
      {
        p[i] := i;
        i := i + 1;
      }
      parent := p;
      rank := seq(n, _ => 0);
      bound := 0;
    }

    /** `find(u)`: returns the root of `u`, leaves `parent[u]` pointing at
        it (path compression) and does not change the root of any element. */
    method Find(u: int) returns (r: int)
      requires Valid() && 0 <= u < parent.Length
      modifies parent
      ensures Valid()
      ensures r == old(Root(u)) && parent[u] == r
      ensures forall i | 0 <= i < parent.Length :: Root(i) == old(Root(i))
      ensures forall i | 0 <= i < parent.Length && rank[i] < rank[u] :: parent[i] == old(parent[i])
      decreases bound - rank[u]
    {
      if parent[u] != u {
        ghost var before := parent[..];
        var root := Find(parent[u]);
        assert parent[u] == before[u];
        ghost var mid := parent[..];
        assert root == RootOf(mid, rank, bound, u) by {
          assert mid[u] == before[u];
        }
        parent[u] := root;
        assert parent[..] == mid[u := root];
        forall i | 0 <= i < parent.Length
          ensures Root(i) == old(Root(i))
        {
          CompressKeepsRoots(mid, rank, bound, u, i);
        }
        CompressKeepsRoots(mid, rank, bound, u, u);
      }
      r := parent[u];
    }

    /** `unite(u, v)`: `parent[find(u)] = find(v)`. The set of `u` joins the
        set of `v`; every other set keeps its root; when `u` and `v` already
        share a root nothing changes. */
    method Unite(u: int, v: int)
      requires Valid() && 0 <= u < parent.Length && 0 <= v < parent.Length
      modifies this, parent
      ensures Valid()
      ensures forall i | 0 <= i < parent.Length ::
                Root(i) == if old(Root(i)) == old(Root(u)) then old(Root(v)) else old(Root(i))
      ensures Root(u) == Root(v)
    {
      var rv := Find(v);
      var ru := Find(u);
      ghost var mid := parent[..];
      assert forall i | 0 <= i < parent.Length :: RootOf(mid, rank, bound, i) == old(Root(i));
      parent[ru] := rv;
      if ru != rv {
        assert parent[..] == mid[ru := rv];
        LinkMovesEverySet(mid, rank, bound, ru, rv);
        rank, bound := Relinked(rank, ru, rv), LinkedBound(rank, bound, ru);
      } else {
        assert parent[..] == mid;
      }
    }
  }
}
