/** Why kruskal's union-find test is the greedy rule: the forest in parent
    and rank puts two ids under the same root exactly when the edges kept so
    far connect them. */
module KruskalSteps {
  import opened Common
  import opened Edges
  import opened Forests
  import UnionFind

  /** x and y share a root exactly when the kept edges connect them. */
  ghost predicate Agree(parent: seq<nat>, rank: seq<nat>, kept: seq<Edge>, x: int, y: int)
    requires UnionFind.Valid(parent, rank) && 0 <= x < |parent| && 0 <= y < |parent|
  {
    UnionFind.Find(parent, rank, x) == UnionFind.Find(parent, rank, y) <==> Connected(kept, x, y)
  }

  ghost predicate Tracks(parent: seq<nat>, rank: seq<nat>, kept: seq<Edge>, n: nat)
  {
    && UnionFind.Valid(parent, rank) && |parent| == n
    && forall x, y :: 0 <= x < n && 0 <= y < n ==> Agree(parent, rank, kept, x, y)
  }

  /** What Tracks says about one pair of vertices. */
  lemma TracksPair(parent: seq<nat>, rank: seq<nat>, kept: seq<Edge>, n: nat, x: int, y: int)
    requires Tracks(parent, rank, kept, n) && 0 <= x < n && 0 <= y < n
    ensures UnionFind.Find(parent, rank, x) == UnionFind.Find(parent, rank, y) <==> Connected(kept, x, y)
  {
    assert Agree(parent, rank, kept, x, y);
  }

  /** At least one root survives, so a forest on n > 0 vertices whose every
      edge removed a root has fewer than n edges. */
  lemma KeptBound(parent: seq<nat>, rank: seq<nat>, kept: seq<Edge>, n: nat)
    requires UnionFind.Valid(parent, rank) && |parent| == n && |UnionFind.Roots(parent)| + |kept| == n
    ensures n > 0 ==> |kept| < n
    ensures n == 0 ==> kept == []
  {
    if n > 0 {
      var r0 := UnionFind.Find(parent, rank, 0);
      assert r0 in UnionFind.Roots(parent);
      SubsetCard({r0}, UnionFind.Roots(parent));
    }
  }

  /** One singleton set per vertex, no edge kept. */
  lemma InitialTracks(parent: seq<nat>, rank: seq<nat>, n: nat)
    requires |parent| == |rank| == n
    requires forall i :: 0 <= i < n ==> parent[i] == i && rank[i] == 0
    ensures Tracks(parent, rank, [], n)
    ensures |UnionFind.Roots(parent)| == n
  {
    var range := set x | x in Range(n);
    forall x | x in range
      ensures x in UnionFind.Roots(parent)
    {
      var i :| 0 <= i < n && Range(n)[i] == x;
    }
    forall x | x in UnionFind.Roots(parent)
      ensures x in range
    {
      assert Range(n)[x] == x;
    }
    assert UnionFind.Roots(parent) == range;
    DistinctCard(Range(n));
    assert UnionFind.Valid(parent, rank);
    forall x, y | 0 <= x < n && 0 <= y < n
      ensures Agree(parent, rank, [], x, y)
    {
      UnionFind.FindInitial(parent, rank, x);
      UnionFind.FindInitial(parent, rank, y);
      if Connected([], x, y) {
        ConnectedEmpty(x, y);
      }
      if x == y {
        ConnectedRefl([], x);
      }
    }
  }

  /** Linking the two roots of an edge's endpoints keeps tracking the kept
      edges once that edge is appended. */
  lemma UnionTracks(parent: seq<nat>, rank: seq<nat>, kept: seq<Edge>, n: nat, e: Edge,
                    child: nat, root: nat, parent': seq<nat>, rank': seq<nat>)
    requires Tracks(parent, rank, kept, n)
    requires 0 <= e.source < n && 0 <= e.target < n
    requires child < n && root < n
    requires
      || (child == UnionFind.Find(parent, rank, e.source) && root == UnionFind.Find(parent, rank, e.target))
      || (child == UnionFind.Find(parent, rank, e.target) && root == UnionFind.Find(parent, rank, e.source))
    requires child != root && rank[child] <= rank[root]
    requires parent' == parent[child := root] && rank' == rank[root := rank[root] + 1]
    ensures Tracks(parent', rank', kept + [e], n)
    ensures |UnionFind.Roots(parent')| == |UnionFind.Roots(parent)| - 1
  {
    UnionFind.Link(parent, rank, child, root, parent', rank');
    var s, t := e.source, e.target;
    forall x, y | 0 <= x < n && 0 <= y < n
      ensures Agree(parent', rank', kept + [e], x, y)
    {
      ConnectedAppend(kept, e, x, y);
      assert Agree(parent, rank, kept, x, y);
      assert Agree(parent, rank, kept, x, s);
      assert Agree(parent, rank, kept, x, t);
      assert Agree(parent, rank, kept, s, y);
      assert Agree(parent, rank, kept, t, y);
    }
  }
}
