/** The disjoint-set structure that kruskal keeps in two lists indexed by
    vertex id: parent links (no path compression) and ranks. */
module UnionFind {

  /** Shape of the two lists: every parent link stays in range, and a
      non-root's parent has a strictly larger rank. The second clause is what
      makes the recursive find terminate. */
  ghost predicate Valid(parent: seq<nat>, rank: seq<nat>)
  {
    && |parent| == |rank|
    && (forall i :: 0 <= i < |parent| ==> parent[i] < |parent|)
    && (forall i :: 0 <= i < |parent| && parent[i] != i ==> rank[i] < rank[parent[i]])
  }

  /** An upper bound of all ranks; it only serves as termination measure. */
  ghost function MaxRank(rank: seq<nat>): (m: nat)
    ensures forall i :: 0 <= i < |rank| ==> rank[i] <= m
  {
    if rank == [] then 0
    else
      var m := MaxRank(rank[1..]);
      assert forall i :: 1 <= i < |rank| ==> rank[i] == rank[1..][i - 1];
      if rank[0] > m then rank[0] else m
  }

  /** The element reached from i after k parent links. */
  function Ancestor(parent: seq<nat>, i: nat, k: nat): nat
    requires i < |parent| && forall j :: 0 <= j < |parent| ==> parent[j] < |parent|
    decreases k
  {
    if k == 0 then i else Ancestor(parent, parent[i], k - 1)
  }

  /** find: follow parent links until an element that is its own parent. */
  function Find(parent: seq<nat>, ghost rank: seq<nat>, i: nat): (r: nat)
    requires Valid(parent, rank) && i < |parent|
    ensures r < |parent| && parent[r] == r
    decreases MaxRank(rank) - rank[i]
  {
    if parent[i] == i then i else Find(parent, rank, parent[i])
  }

  /** The root find returns is reached from i by parent links. */
  lemma {:induction false} FindReachesRoot(parent: seq<nat>, rank: seq<nat>, i: nat)
    requires Valid(parent, rank) && i < |parent|
    ensures exists k: nat :: Ancestor(parent, i, k) == Find(parent, rank, i)
    decreases MaxRank(rank) - rank[i]
  {
    if parent[i] == i {
      assert Ancestor(parent, i, 0) == i;
    } else {
      FindReachesRoot(parent, rank, parent[i]);
      var k: nat :| Ancestor(parent, parent[i], k) == Find(parent, rank, parent[i]);
      assert Ancestor(parent, i, k + 1) == Ancestor(parent, parent[i], k);
    }
  }

  /** Every element is its own root in the initial lists parent[i] == i. */
  lemma FindInitial(parent: seq<nat>, rank: seq<nat>, i: nat)
    requires Valid(parent, rank) && i < |parent|
    requires forall j :: 0 <= j < |parent| ==> parent[j] == j
    ensures Find(parent, rank, i) == i
  {
  }

  /** The roots of the forest: one per disjoint set. */
  ghost function Roots(parent: seq<nat>): set<int>
  {
    set i | 0 <= i < |parent| && parent[i] == i
  }

  /** The union step of kruskal: root child is hung under root root, whose
      rank grows by one (on every union, not only on equal ranks). The
      forest shape is kept, the number of roots drops by one, and every
      element that found child now finds root. */
  lemma {:induction false} Link(parent: seq<nat>, rank: seq<nat>, child: nat, root: nat,
                                parent': seq<nat>, rank': seq<nat>)
    requires Valid(parent, rank) && child < |parent| && root < |parent|
    requires parent[child] == child && parent[root] == root && child != root
    requires rank[child] <= rank[root]
    requires parent' == parent[child := root] && rank' == rank[root := rank[root] + 1]
    ensures Valid(parent', rank')
    ensures Roots(parent') == Roots(parent) - {child} && |Roots(parent')| == |Roots(parent)| - 1
    ensures forall x :: 0 <= x < |parent| ==>
      Find(parent', rank', x) == if Find(parent, rank, x) == child then root else Find(parent, rank, x)
  {
    assert Roots(parent') == Roots(parent) - {child};
    forall x | 0 <= x < |parent|
      ensures Find(parent', rank', x) == if Find(parent, rank, x) == child then root else Find(parent, rank, x)
    {
      FindAfterLink(parent, rank, child, root, parent', rank', x);
    }
  }

  lemma {:induction false} FindAfterLink(parent: seq<nat>, rank: seq<nat>, child: nat, root: nat,
                                         parent': seq<nat>, rank': seq<nat>, x: nat)
    requires Valid(parent, rank) && child < |parent| && root < |parent|
    requires parent[child] == child && parent[root] == root && child != root
    requires rank[child] <= rank[root]
    requires parent' == parent[child := root] && rank' == rank[root := rank[root] + 1]
    requires x < |parent|
    ensures Valid(parent', rank')
    ensures Find(parent', rank', x) == if Find(parent, rank, x) == child then root else Find(parent, rank, x)
    decreases MaxRank(rank) - rank[x]
  {
    if parent[x] != x {
      FindAfterLink(parent, rank, child, root, parent', rank', parent[x]);
    }
  }
}
