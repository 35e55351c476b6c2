/** The in-memory graph of src/graph.py: insertion-ordered vertex ids and an
    insertion-ordered map from (source, target) keys to edges, with the two
    minimum-spanning-tree algorithms and the build step of parse_graph. */
module Graphs {
  import opened Common
  import opened Edges
  import opened Forests
  import opened WeightSort
  import opened KruskalSteps
  import opened Selection
  import UnionFind

  /** get_edge's test on one stored key: the key itself, or also its reverse
      when the lookup is undirected. */
  predicate KeyMatches(k: Key, id: Key, directed: bool)
  {
    k == id || (!directed && k == (id.1, id.0))
  }

  /** Position of the first key that matches, |ks| when there is none. */
  function FirstMatch(ks: seq<Key>, id: Key, directed: bool): (i: nat)
    ensures i <= |ks|
    ensures forall j :: 0 <= j < i ==> !KeyMatches(ks[j], id, directed)
    ensures i < |ks| ==> KeyMatches(ks[i], id, directed)
  {
    if ks == [] then 0
    else if KeyMatches(ks[0], id, directed) then 0
    else 1 + FirstMatch(ks[1..], id, directed)
  }

  /** An undirected lookup does not depend on the orientation asked for. */
  lemma {:induction false} FirstMatchSymmetric(ks: seq<Key>, u: int, v: int)
    ensures FirstMatch(ks, (u, v), false) == FirstMatch(ks, (v, u), false)
  {
    if ks != [] {
      FirstMatchSymmetric(ks[1..], u, v);
    }
  }

  /** The values of m at the keys ks, in the order of ks (dict.items()). */
  function ItemsOf(ks: seq<Key>, m: map<Key, Edge>): (r: seq<Edge>)
    requires forall k :: k in ks ==> k in m
    ensures |r| == |ks| && forall i :: 0 <= i < |ks| ==> r[i] == m[ks[i]]
  {
    seq(|ks|, i requires 0 <= i < |ks| => m[ks[i]])
  }

  /** What one key contributes to get_adjacent_vertices_by_vertex(id, filter). */
  function Neighbour(k: Key, id: int, filter: Option<string>): seq<int>
  {
    match filter
    case None => if k.0 == id then [k.1] else if k.1 == id then [k.0] else []
    case Some(f) =>
      if f == "+" then (if k.0 == id then [k.1] else [])
      else if f == "-" then (if k.1 == id then [k.0] else [])
      else []
  }

  /** The list get_adjacent_vertices_by_vertex builds over the keys ks. */
  function Neighbours(ks: seq<Key>, id: int, filter: Option<string>): seq<int>
  {
    if ks == [] then []
    else Neighbours(ks[..|ks| - 1], id, filter) + Neighbour(ks[|ks| - 1], id, filter)
  }

  /** With no filter: x is listed iff some key joins id and x, in either
      orientation. */
  lemma {:induction false} NeighboursAny(ks: seq<Key>, id: int, x: int)
    ensures x in Neighbours(ks, id, None) <==> exists k :: k in ks && KeyMatches(k, (id, x), false)
  {
    if ks != [] {
      var ks', k := ks[..|ks| - 1], ks[|ks| - 1];
      NeighboursAny(ks', id, x);
      assert ks == ks' + [k];
      assert x in Neighbours(ks, id, None) <==> x in Neighbours(ks', id, None) || x in Neighbour(k, id, None);
      assert x in Neighbour(k, id, None) <==> KeyMatches(k, (id, x), false);
      if exists k' :: k' in ks && KeyMatches(k', (id, x), false) {
        var k' :| k' in ks && KeyMatches(k', (id, x), false);
        if k' != k {
          assert k' in ks';
        }
      }
      if exists k' :: k' in ks' && KeyMatches(k', (id, x), false) {
        var k' :| k' in ks' && KeyMatches(k', (id, x), false);
        assert k' in ks;
      }
    }
  }

  /** With "+": x is listed iff (id, x) is a key. */
  lemma {:induction false} NeighboursOut(ks: seq<Key>, id: int, x: int)
    ensures x in Neighbours(ks, id, Some("+")) <==> (id, x) in ks
  {
    if ks != [] {
      var ks' := ks[..|ks| - 1];
      NeighboursOut(ks', id, x);
      assert ks == ks' + [ks[|ks| - 1]];
    }
  }

  /** With "-": x is listed iff (x, id) is a key. */
  lemma {:induction false} NeighboursIn(ks: seq<Key>, id: int, x: int)
    ensures x in Neighbours(ks, id, Some("-")) <==> (x, id) in ks
  {
    if ks != [] {
      var ks' := ks[..|ks| - 1];
      NeighboursIn(ks', id, x);
      assert ks == ks' + [ks[|ks| - 1]];
    }
  }

  /** Any other filter lists nothing; no key is listed twice, so a self-loop
      counts once. */
  lemma {:induction false} NeighboursCount(ks: seq<Key>, id: int, filter: Option<string>)
    ensures |Neighbours(ks, id, filter)| <= |ks|
    ensures filter.Some? && filter.value != "+" && filter.value != "-" ==> Neighbours(ks, id, filter) == []
  {
    if ks != [] {
      NeighboursCount(ks[..|ks| - 1], id, filter);
    }
  }

  lemma ItemsOfAppend(ks: seq<Key>, m: map<Key, Edge>, k: Key, e: Edge)
    requires forall k' :: k' in ks ==> k' in m
    requires k !in ks
    ensures ItemsOf(ks + [k], m[k := e]) == ItemsOf(ks, m) + [e]
  {
  }

  /** Keys whose targets strictly increase and lie in lo..hi-1 number at
      most hi - lo. */
  lemma {:induction false} IncreasingFits(ks: seq<Key>, lo: int, hi: int)
    requires forall a, b :: 0 <= a < b < |ks| ==> ks[a].1 < ks[b].1
    requires forall k :: k in ks ==> lo <= k.1 < hi
    ensures |ks| <= if hi < lo then 0 else hi - lo
  {
    if ks != [] {
      assert ks[0] in ks;
      forall k | k in ks[1..]
        ensures ks[0].1 + 1 <= k.1 < hi
      {
        var j :| 0 <= j < |ks[1..]| && ks[1..][j] == k;
        assert ks[j + 1] == k;
      }
      IncreasingFits(ks[1..], ks[0].1 + 1, hi);
    }
  }

  /** Appending a key whose target exceeds every earlier one keeps the
      targets increasing. */
  lemma IncreasingSnoc(ks: seq<Key>, k: Key)
    requires forall a, b :: 0 <= a < b < |ks| ==> ks[a].1 < ks[b].1
    requires forall k' :: k' in ks ==> k'.1 < k.1
    ensures forall a, b :: 0 <= a < b < |ks + [k]| ==> (ks + [k])[a].1 < (ks + [k])[b].1
  {
    forall a, b | 0 <= a < b < |ks + [k]|
      ensures (ks + [k])[a].1 < (ks + [k])[b].1
    {
      assert (ks + [k])[a] == ks[a];
      assert ks[a] in ks;
    }
  }

  /** ... and at most hi - lo - 1 when they also miss some x in lo..hi-1. */
  lemma {:induction false} IncreasingMisses(ks: seq<Key>, lo: int, hi: int, x: int)
    requires forall a, b :: 0 <= a < b < |ks| ==> ks[a].1 < ks[b].1
    requires forall k :: k in ks ==> lo <= k.1 < hi && k.1 != x
    requires lo <= x < hi
    ensures |ks| < hi - lo
  {
    if ks != [] {
      assert ks[0] in ks;
      forall k | k in ks[1..]
        ensures ks[0].1 + 1 <= k.1 < hi && k.1 != x
      {
        var j :| 0 <= j < |ks[1..]| && ks[1..][j] == k;
        assert ks[j + 1] == k;
      }
      if ks[0].1 < x {
        IncreasingMisses(ks[1..], ks[0].1 + 1, hi, x);
      } else {
        IncreasingFits(ks[1..], ks[0].1 + 1, hi);
      }
    }
  }

  /** The union step of kruskal: the root of lower rank goes under the other
      (the second under the first on equal ranks), and the surviving root's
      rank grows by one on every union. */
  method UnionByRank(parent: seq<nat>, rank: seq<nat>, v1: nat, v2: nat, ghost kept: seq<Edge>, ghost n: nat, ghost e: Edge)
    returns (parent': seq<nat>, rank': seq<nat>)
    requires Tracks(parent, rank, kept, n)
    requires 0 <= e.source < n && 0 <= e.target < n
    requires v1 == UnionFind.Find(parent, rank, e.source) && v2 == UnionFind.Find(parent, rank, e.target)
    requires v1 != v2
    ensures rank[v1] < rank[v2] ==> parent' == parent[v1 := v2] && rank' == rank[v2 := rank[v2] + 1]
    ensures rank[v1] >= rank[v2] ==> parent' == parent[v2 := v1] && rank' == rank[v1 := rank[v1] + 1]
    ensures Tracks(parent', rank', kept + [e], n)
    ensures |UnionFind.Roots(parent')| == |UnionFind.Roots(parent)| - 1
  {
    if rank[v1] < rank[v2] {
      UnionTracks(parent, rank, kept, n, e, v1, v2, parent[v1 := v2], rank[v2 := rank[v2] + 1]);
      parent' := parent[v1 := v2];
      rank' := rank[v2 := rank[v2] + 1];
    } else {
      UnionTracks(parent, rank, kept, n, e, v2, v1, parent[v2 := v1], rank[v1 := rank[v1] + 1]);
      parent' := parent[v2 := v1];
      rank' := rank[v1 := rank[v1] + 1];
    }
  }

  /** prim's lists between two rounds, with the vertices added to the
      result so far, in order. */
  datatype Snapshot = Snapshot(distance: seq<int>, parent: seq<Option<int>>, visited: seq<bool>, added: seq<int>)

  class Graph {
    var vertices: seq<int>
    var keys: seq<Key>
    var edges: map<Key, Edge>

    /** The dict invariants: ids and keys unique, keys listed in order, every
        edge stored under its own id and between known vertices. */
    ghost predicate Valid()
      reads this
    {
      && Distinct(vertices) && Distinct(keys)
      && (forall k :: k in edges <==> k in keys)
      && (forall k :: k in edges ==> edges[k].Id() == k && k.0 in vertices && k.1 in vertices)
    }

    /** At most one orientation of each pair is stored. */
    ghost predicate Undirected()
      reads this
    {
      forall k :: k in edges && k.0 != k.1 ==> (k.1, k.0) !in edges
    }

    ghost predicate Loopless()
      reads this
    {
      forall k :: k in edges ==> k.0 != k.1
    }

    /** The vertex ids are 0..n-1 in insertion order, as kruskal and prim
        assume when they index their lists by id. */
    ghost predicate IdsAreIndices()
      reads this
    {
      forall i :: 0 <= i < |vertices| ==> vertices[i] == i
    }

    /** The stored edges, listed in the order of their keys. */
    function EdgeList(): (r: seq<Edge>)
      reads this
      requires Valid()
      ensures |r| == |keys| && forall i :: 0 <= i < |keys| ==> r[i] == edges[keys[i]]
    {
      ItemsOf(keys, edges)
    }

    constructor ()
      ensures Valid() && vertices == [] && keys == [] && edges == map[]
    {
      vertices := [];
      keys := [];
      edges := map[];
    }

    /** add_vertex: only an absent id is added; a present one changes nothing. */
    method AddVertex(id: int)
      requires Valid()
      modifies this
      ensures Valid()
      ensures vertices == Touch(old(vertices), id)
      ensures keys == old(keys) && edges == old(edges)
    {
      if id !in vertices {
        vertices := vertices + [id];
      }
    }

    /** The conditions under which add_edge stores e. */
    ghost predicate Admits(e: Edge, directed: bool, auto: bool)
      reads this
    {
      && e.source in vertices && e.target in vertices
      && (directed || (e.target, e.source) !in edges)
      && (auto || e.source != e.target)
    }

    /** Stores e under its id: a present key keeps its place and gets the new
        edge, a new key goes last. */
    method Put(e: Edge)
      requires Valid() && e.source in vertices && e.target in vertices
      modifies this
      ensures Valid() && vertices == old(vertices)
      ensures edges == old(edges)[e.Id() := e] && keys == Touch(old(keys), e.Id())
    {
      if e.Id() !in keys {
        keys := keys + [e.Id()];
      }
      edges := edges[e.Id() := e];
    }

    /** add_edge: a best-effort insert. Both endpoints must be vertices; an
        undirected insert is refused when the reverse key is stored; a loop
        needs auto. An accepted edge replaces a same-key edge in place. */
    method AddEdge(e: Edge, directed: bool, auto: bool)
      requires Valid()
      modifies this
      ensures Valid() && vertices == old(vertices)
      ensures old(Admits(e, directed, auto)) ==>
        edges == old(edges)[e.Id() := e] && keys == Touch(old(keys), e.Id())
      ensures !old(Admits(e, directed, auto)) ==> edges == old(edges) && keys == old(keys)
      ensures old(Undirected()) && !directed ==> Undirected()
      ensures old(Loopless()) && !auto ==> Loopless()
    {
      var (v1, v2) := e.Id();
      if v1 in vertices && v2 in vertices {
        if directed {
          if auto {
            Put(e);
          } else if v1 != v2 {
            Put(e);
          }
        } else {
          if (v2, v1) !in edges {
            if auto {
              Put(e);
            } else if v1 != v2 {
              Put(e);
            }
          }
        }
      }
    }

    /** get_edges: the keys, in order. */
    method GetEdges() returns (r: seq<Key>)
      ensures r == keys
    {
      r := [];
      var i := 0;
      while i < |keys|
        invariant 0 <= i <= |keys|
        invariant r == keys[..i]
      {
        r := r + [keys[i]];
        i := i + 1;
      }
    }

    /** get_edge: the edge of the first key, in key order, that is id or
        (unless directed) its reverse; None when no key matches. */
    function GetEdge(id: Key, directed: bool): (r: Option<Edge>)
      reads this
      requires Valid()
      ensures r.None? <==> forall k :: k in keys ==> !KeyMatches(k, id, directed)
      ensures r.Some? ==> r.value.Id() in keys && edges[r.value.Id()] == r.value && KeyMatches(r.value.Id(), id, directed)
    {
      var i := FirstMatch(keys, id, directed);
      if i < |keys| then Some(edges[keys[i]]) else None
    }

    /** The edge get_edge finds sits at the first matching key. */
    lemma GetEdgeFirst(id: Key, directed: bool)
      requires Valid()
      ensures GetEdge(id, directed).Some? ==> exists i ::
        && 0 <= i < |keys| && keys[i] == GetEdge(id, directed).value.Id()
        && forall j :: 0 <= j < i ==> !KeyMatches(keys[j], id, directed)
    {
      var i := FirstMatch(keys, id, directed);
      if i < |keys| {
        assert keys[i] == GetEdge(id, directed).value.Id();
      }
    }

    /** get_adjacent_vertices_by_vertex */
    method GetAdjacentVerticesByVertex(id: int, filter: Option<string>) returns (r: seq<int>)
      ensures r == Neighbours(keys, id, filter)
    {
      r := [];
      var i := 0;
      while i < |keys|
        invariant 0 <= i <= |keys|
        invariant r == Neighbours(keys[..i], id, filter)
      {
        var (source, target) := keys[i];
        assert keys[..i + 1][..i] == keys[..i];
        if filter.None? {
          if source == id {
            r := r + [target];
          } else if target == id {
            r := r + [source];
          }
        } else if filter == Some("+") {
          if source == id {
            r := r + [target];
          }
        } else if filter == Some("-") {
          if target == id {
            r := r + [source];
          }
        }
        i := i + 1;
      }
      assert keys[..i] == keys;
    }

    /** Undirected lookups ignore orientation. */
    lemma GetEdgeSymmetric(u: int, v: int)
      requires Valid()
      ensures GetEdge((u, v), false) == GetEdge((v, u), false)
    {
      FirstMatchSymmetric(keys, u, v);
    }

    /** v is listed as a neighbour of u (no filter) exactly when an undirected
        get_edge((u, v)) finds an edge. */
    lemma AdjacentIffEdge(u: int, v: int)
      requires Valid()
      ensures v in Neighbours(keys, u, None) <==> GetEdge((u, v), false).Some?
    {
      NeighboursAny(keys, u, v);
    }

    /** Every edge of the list joins two of the ids 0..n-1. */
    lemma EdgeListInRange()
      requires Valid() && IdsAreIndices()
      ensures forall e :: e in EdgeList() ==> 0 <= e.source < |vertices| && 0 <= e.target < |vertices|
    {
      forall e | e in EdgeList()
        ensures 0 <= e.source < |vertices| && 0 <= e.target < |vertices|
      {
        var i :| 0 <= i < |keys| && EdgeList()[i] == e;
        var k := keys[i];
        assert edges[k].Id() == k;
        var a :| 0 <= a < |vertices| && vertices[a] == k.0;
        var b :| 0 <= b < |vertices| && vertices[b] == k.1;
      }
    }

    /** A stored key joins two ids that the stored edges connect. */
    lemma StoredJoinsConnected(k: Key)
      requires Valid() && k in edges
      ensures Connected(EdgeList(), k.0, k.1) && Connected(EdgeList(), k.1, k.0)
    {
      var i :| 0 <= i < |keys| && keys[i] == k;
      var f := EdgeList()[i];
      assert f == edges[k] && f.Id() == k;
      assert f in EdgeList() && Joins(f, k.0, k.1) && Joins(f, k.1, k.0);
      ConnectedRefl(EdgeList(), k.0);
      ConnectedStep(EdgeList(), k.0, k.0, k.1);
      ConnectedRefl(EdgeList(), k.1);
      ConnectedStep(EdgeList(), k.1, k.1, k.0);
    }

    /** Two ids the stored edges do not connect have no key between them. */
    lemma ApartNotStored(x: int, y: int)
      requires Valid() && !Connected(EdgeList(), x, y)
      ensures (x, y) !in edges && (y, x) !in edges
    {
      if (x, y) in edges {
        StoredJoinsConnected((x, y));
        assert false;
      }
      if (y, x) in edges {
        StoredJoinsConnected((y, x));
        assert false;
      }
    }

    /** The accepting branch of kruskal's loop: add both endpoints, then the
        edge as undirected and loop-free. An edge joining two vertices the
        forest does not connect is stored, and becomes its last edge. */
    method Grow(e: Edge, ghost kept: seq<Edge>)
      requires Valid() && Undirected() && Loopless()
      requires EdgeList() == kept && vertices == Endpoints(kept)
      requires !Connected(kept, e.source, e.target)
      modifies this
      ensures Valid() && Undirected() && Loopless()
      ensures EdgeList() == kept + [e] && vertices == Endpoints(kept + [e])
    {
      var (u, v) := e.Id();
      ApartNotStored(u, v);
      if u == v {
        ConnectedRefl(kept, u);
        assert false;
      }
      ghost var ks, es := keys, edges;
      AddVertex(u);
      AddVertex(v);
      AddEdge(Edge(u, v, e.weight), false, false);
      ItemsOfAppend(ks, es, (u, v), e);
    }

    /** The start of kruskal: every vertex is its own parent, with rank 0. */
    method MakeSets() returns (parent: seq<nat>, rank: seq<nat>)
      requires Valid() && IdsAreIndices()
      ensures |parent| == |rank| == |vertices|
      ensures forall i :: 0 <= i < |vertices| ==> parent[i] == i && rank[i] == 0
    {
      parent, rank := [], [];
      var j := 0;
      while j < |vertices|
        invariant 0 <= j <= |vertices| && |parent| == |rank| == j
        invariant forall i :: 0 <= i < j ==> parent[i] == i && rank[i] == 0
      {
        parent := parent + [vertices[j]];
        rank := rank + [0];
        j := j + 1;
      }
    }

    /** Sorting keeps every edge's endpoints among the vertex indices. */
    lemma SortedInRange()
      requires Valid() && IdsAreIndices()
      ensures forall e :: e in SortByWeight(EdgeList()) ==>
        0 <= e.source < |vertices| && 0 <= e.target < |vertices|
    {
      SortByWeightIsStable(EdgeList());
      EdgeListInRange();
      forall e | e in SortByWeight(EdgeList())
        ensures 0 <= e.source < |vertices| && 0 <= e.target < |vertices|
      {
        assert e in multiset(SortByWeight(EdgeList()));
      }
    }

    /** One pass of kruskal's loop on this, the tree under construction:
        find the roots of e's endpoints and, when they differ, store e and
        union the two sets. The union-find structure keeps tracking
        connectivity by the kept edges, and each kept edge removes one root. */
    method Consider(e: Edge, parent: seq<nat>, rank: seq<nat>, ghost kept: seq<Edge>, ghost n: nat)
      returns (parent': seq<nat>, rank': seq<nat>, ghost kept': seq<Edge>)
      requires Tracks(parent, rank, kept, n) && 0 <= e.source < n && 0 <= e.target < n
      requires Valid() && Undirected() && Loopless()
      requires EdgeList() == kept && vertices == Endpoints(kept)
      modifies this
      ensures kept' == if Connected(kept, e.source, e.target) then kept else kept + [e]
      ensures Tracks(parent', rank', kept', n)
      ensures |UnionFind.Roots(parent')| + |kept'| == |UnionFind.Roots(parent)| + |kept|
      ensures Valid() && Undirected() && Loopless()
      ensures EdgeList() == kept' && vertices == Endpoints(kept')
    {
      var (u, v) := e.Id();
      var v1 := UnionFind.Find(parent, rank, u);
      var v2 := UnionFind.Find(parent, rank, v);
      TracksPair(parent, rank, kept, n, u, v);
      if v1 != v2 {
        Grow(e, kept);
        parent', rank' := UnionByRank(parent, rank, v1, v2, kept, n, e);
        kept' := kept + [e];
      } else {
        parent', rank', kept' := parent, rank, kept;
      }
    }

    /** kruskal: scan the edges in stable weight order and keep each one whose
        endpoints have different roots, then union the two roots. The kept
        edges are exactly the greedy forest of the sorted list, each stored
        with its input weight; the vertices are the endpoints of kept edges. */
    method Kruskal() returns (t: Graph)
      requires Valid() && IdsAreIndices()
      ensures fresh(t) && t.Valid() && t.Undirected() && t.Loopless()
      ensures t.EdgeList() == Greedy(SortByWeight(EdgeList()))
      ensures t.vertices == Endpoints(t.EdgeList())
      ensures |t.keys| < |vertices| || t.keys == []
    {
      var parent, rank := MakeSets();
      var q := SortByWeight(EdgeList());
      SortedInRange();
      ghost var parent', rank';
      t, parent', rank' := Scan(q, parent, rank);
      KeptBound(parent', rank', t.EdgeList(), |vertices|);
      assert |t.keys| == |t.EdgeList()|;
    }

    /** kruskal's loop over the sorted edges q, from singleton sets. */
    static method Scan(q: seq<Edge>, parent0: seq<nat>, rank0: seq<nat>)
      returns (t: Graph, ghost parent': seq<nat>, ghost rank': seq<nat>)
      requires |parent0| == |rank0|
      requires forall i :: 0 <= i < |parent0| ==> parent0[i] == i && rank0[i] == 0
      requires forall e :: e in q ==> 0 <= e.source < |parent0| && 0 <= e.target < |parent0|
      ensures fresh(t) && t.Valid() && t.Undirected() && t.Loopless()
      ensures t.EdgeList() == Greedy(q)
      ensures t.vertices == Endpoints(t.EdgeList())
      ensures UnionFind.Valid(parent', rank') && |parent'| == |parent0|
      ensures |UnionFind.Roots(parent')| + |t.EdgeList()| == |parent0|
    {
      t := new Graph();
      var n := |parent0|;
      var parent, rank := parent0, rank0;
      InitialTracks(parent, rank, n);
      ghost var kept: seq<Edge> := [];
      var i := 0;
      while i < |q|
        invariant 0 <= i <= |q|
        invariant Tracks(parent, rank, kept, n)
        invariant |UnionFind.Roots(parent)| + |kept| == n
        invariant kept == Greedy(q[..i])
        invariant t.Valid() && t.Undirected() && t.Loopless()
        invariant t.EdgeList() == kept && t.vertices == Endpoints(kept)
      {
        var e := q[i];
        GreedyPrefix(q, i);
        parent, rank, kept := t.Consider(e, parent, rank, kept, n);
        i := i + 1;
      }
      assert q[..|q|] == q;
      parent', rank' := parent, rank;
    }

    /** v is an unvisited vertex for which the edge from u is strictly
        lighter than the distance recorded so far. */
    ghost predicate Improves(u: int, v: int, distance: seq<int>, visited: seq<bool>)
      reads this
      requires Valid() && 0 <= v < |distance| == |visited|
    {
      && !visited[v]
      && GetEdge((u, v), false).Some?
      && GetEdge((u, v), false).value.weight < distance[v]
    }

    /** distance' and parent' are distance and parent after relaxing the
        edges of u: improved entries take the edge weight and parent u, the
        others are unchanged. */
    ghost predicate Relaxed(u: int, distance: seq<int>, parent: seq<Option<int>>, visited: seq<bool>,
                            distance': seq<int>, parent': seq<Option<int>>)
      reads this
      requires Valid() && |distance| == |parent| == |visited|
    {
      && |distance'| == |parent'| == |distance|
      && forall v :: 0 <= v < |distance| ==>
           if Improves(u, v, distance, visited)
           then distance'[v] == GetEdge((u, v), false).value.weight && parent'[v] == Some(u)
           else distance'[v] == distance[v] && parent'[v] == parent[v]
    }

    /** distance' and parent' are distance and parent after relaxing the
        edges from u to the vertices in seen. */
    ghost predicate RelaxedOn(u: int, distance: seq<int>, parent: seq<Option<int>>, visited: seq<bool>,
                              seen: set<int>, distance': seq<int>, parent': seq<Option<int>>)
      reads this
      requires Valid() && |distance| == |parent| == |visited|
    {
      && |distance'| == |parent'| == |distance|
      && forall v :: 0 <= v < |distance| ==>
           if v in seen && Improves(u, v, distance, visited)
           then distance'[v] == GetEdge((u, v), false).value.weight && parent'[v] == Some(u)
           else distance'[v] == distance[v] && parent'[v] == parent[v]
    }

    /** One step of the relaxation loop, for the neighbour v, whether or not
        v was met before. */
    lemma RelaxVisit(u: int, v: int, distance: seq<int>, parent: seq<Option<int>>, visited: seq<bool>,
                     seen: set<int>, d0: seq<int>, p0: seq<Option<int>>)
      requires Valid() && |distance| == |parent| == |visited| && 0 <= v < |distance|
      requires RelaxedOn(u, distance, parent, visited, seen, d0, p0)
      requires GetEdge((u, v), false).Some?
      ensures var w := GetEdge((u, v), false).value.weight;
        RelaxedOn(u, distance, parent, visited, seen + {v},
                  if !visited[v] && d0[v] > w then d0[v := w] else d0,
                  if !visited[v] && d0[v] > w then p0[v := Some(u)] else p0)
    {
      var w := GetEdge((u, v), false).value.weight;
      var d1 := if !visited[v] && d0[v] > w then d0[v := w] else d0;
      var p1 := if !visited[v] && d0[v] > w then p0[v := Some(u)] else p0;
      forall x | 0 <= x < |distance|
        ensures if x in seen + {v} && Improves(u, x, distance, visited)
          then d1[x] == GetEdge((u, x), false).value.weight && p1[x] == Some(u)
          else d1[x] == distance[x] && p1[x] == parent[x]
      {
        if x != v {
          assert d1[x] == d0[x] && p1[x] == p0[x];
        }
      }
    }

    /** The relaxation loop of prim for the vertex u just visited: each
        unvisited neighbour whose distance the edge from u improves takes that
        edge's weight as distance and u as parent; every other entry stays. */
    method Relax(u: int, distance: seq<int>, parent: seq<Option<int>>, visited: seq<bool>)
      returns (distance': seq<int>, parent': seq<Option<int>>)
      requires Valid() && IdsAreIndices()
      requires |distance| == |parent| == |visited| == |vertices|
      ensures Relaxed(u, distance, parent, visited, distance', parent')
    {
      var adjacent := GetAdjacentVerticesByVertex(u, None);
      distance', parent' := distance, parent;
      ghost var seen: set<int> := {};
      var i := 0;
      while i < |adjacent|
        invariant 0 <= i <= |adjacent|
        invariant forall j :: 0 <= j < i ==> adjacent[j] in seen
        invariant RelaxedOn(u, distance, parent, visited, seen, distance', parent')
      {
        var v := adjacent[i];
        AdjacentIffEdge(u, v);
        AdjacentInRange(u, v);
        RelaxVisit(u, v, distance, parent, visited, seen, distance', parent');
        var w := GetEdge((u, v), false).value.weight;
        if !visited[v] && distance'[v] > w {
          distance' := distance'[v := w];
          parent' := parent'[v := Some(u)];
        }
        MetOneMore(adjacent, i, seen);
        seen := seen + {v};
        i := i + 1;
      }
      RelaxDone(u, distance, parent, visited, seen, distance', parent');
    }

    /** Meeting the next neighbour extends the met prefix by one. */
    static lemma MetOneMore(adjacent: seq<int>, i: int, seen: set<int>)
      requires 0 <= i < |adjacent| && forall j :: 0 <= j < i ==> adjacent[j] in seen
      ensures forall j :: 0 <= j < i + 1 ==> adjacent[j] in seen + {adjacent[i]}
    {
    }

    /** Once every neighbour of u has been met, the relaxation is complete. */
    lemma RelaxDone(u: int, distance: seq<int>, parent: seq<Option<int>>, visited: seq<bool>,
                    seen: set<int>, distance': seq<int>, parent': seq<Option<int>>)
      requires Valid() && |distance| == |parent| == |visited|
      requires RelaxedOn(u, distance, parent, visited, seen, distance', parent')
      requires forall j :: 0 <= j < |Neighbours(keys, u, None)| ==> Neighbours(keys, u, None)[j] in seen
      ensures Relaxed(u, distance, parent, visited, distance', parent')
    {
      forall v | 0 <= v < |distance| && Improves(u, v, distance, visited)
        ensures v in seen
      {
        AdjacentIffEdge(u, v);
        var j :| 0 <= j < |Neighbours(keys, u, None)| && Neighbours(keys, u, None)[j] == v;
      }
    }

    /** A neighbour of u is one of the ids 0..n-1. */
    lemma AdjacentInRange(u: int, v: int)
      requires Valid() && IdsAreIndices()
      requires v in Neighbours(keys, u, None)
      ensures 0 <= v < |vertices|
    {
      NeighboursAny(keys, u, v);
      var k :| k in keys && KeyMatches(k, (u, v), false);
      assert k.0 in vertices && k.1 in vertices;
      var a :| 0 <= a < |vertices| && vertices[a] == k.0;
      var b :| 0 <= b < |vertices| && vertices[b] == k.1;
    }

    /** What holds of prim's lists before round r, with V the vertices added
        to the result so far, in order. */
    ghost predicate PrimState(start: int, V: seq<int>, distance: seq<int>, parent: seq<Option<int>>,
                              visited: seq<bool>, r: nat)
      reads this
      requires Valid()
    {
      && PrimLists(start, V, distance, parent, visited, r)
      && PrimParents(start, V, distance, parent)
      && PrimFrontier(V, distance, r)
    }

    /** The shapes of the lists, the visited flags and the first rounds. */
    ghost predicate PrimLists(start: int, V: seq<int>, distance: seq<int>, parent: seq<Option<int>>,
                              visited: seq<bool>, r: nat)
      reads this
    {
      var n := |vertices|;
      && |distance| == |parent| == |visited| == n && 0 <= start < n
      && Distinct(V) && (forall i :: 0 <= i < |V| ==> 0 <= V[i] < n)
      && (forall v :: 0 <= v < n ==> (visited[v] <==> v in V))
      && (r == 0 ==> V == [] && forall v :: 0 <= v < n ==>
            distance[v] == (if v == start then 0 else MaxSize)
            && parent[v] == (if v == start then Some(-1) else None))
      && (r > 0 ==> |V| > 0 && V[0] == start)
      && parent[start] == Some(-1)
    }

    /** Parents: a vertex has one exactly when its distance is finite; it is
        an added vertex joined to it by an edge, added strictly earlier. */
    ghost predicate PrimParents(start: int, V: seq<int>, distance: seq<int>, parent: seq<Option<int>>)
      reads this
      requires Valid()
    {
      var n := |vertices|;
      && |distance| == |parent| == n
      && (forall i :: 0 <= i < |V| ==> 0 <= V[i] < n)
      && (forall v :: 0 <= v < n ==> distance[v] <= MaxSize && (parent[v].Some? <==> distance[v] < MaxSize))
      && (forall v :: 0 <= v < n && v != start && parent[v].Some? ==>
            parent[v].value in V && GetEdge((parent[v].value, v), false).Some?)
      && (forall a, b {:trigger parent[V[a]], V[b]} :: 0 <= a <= b < |V| ==> parent[V[a]] != Some(V[b]))
      && (forall i {:trigger parent[V[i]]} :: 0 <= i < |V| ==> V[i] == start || V[i] == 0 || parent[V[i]].Some?)
    }

    /** The frontier: no edge that undirected GetEdge finds from an added
        vertex is lighter than the distance of a vertex not yet added, and every round adds a vertex
        until only vertices of infinite distance are left. */
    ghost predicate PrimFrontier(V: seq<int>, distance: seq<int>, r: nat)
      reads this
      requires Valid()
    {
      var n := |vertices|;
      && |distance| == n
      && (forall u, v :: u in V && 0 <= v < n && v !in V && GetEdge((u, v), false).Some? ==>
            distance[v] <= GetEdge((u, v), false).value.weight)
      && (|V| == r || (0 in V && forall v :: 0 <= v < n && v !in V ==> distance[v] >= MaxSize))
    }

    /** Weights: the distance of a vertex with a parent is the weight of the
        edge from its parent, and the distance of an added vertex is no more
        than the weight of the edge undirected GetEdge finds to it from any
        vertex added before it. */
    ghost predicate PrimWeights(start: int, V: seq<int>, distance: seq<int>, parent: seq<Option<int>>)
      reads this
      requires Valid()
    {
      var n := |vertices|;
      && |distance| == |parent| == n
      && (forall i :: 0 <= i < |V| ==> 0 <= V[i] < n)
      && (forall v :: 0 <= v < n && v != start && parent[v].Some? && GetEdge((parent[v].value, v), false).Some? ==>
            distance[v] == GetEdge((parent[v].value, v), false).value.weight)
      && (forall a, b {:trigger GetEdge((V[a], V[b]), false)} :: 0 <= a < b < |V| && GetEdge((V[a], V[b]), false).Some? ==>
            distance[V[b]] <= GetEdge((V[a], V[b]), false).value.weight)
    }

    /** Relaxing never touches a visited vertex. */
    lemma RelaxSkipsVisited(u: int, distance: seq<int>, parent: seq<Option<int>>, visited: seq<bool>,
                            distance': seq<int>, parent': seq<Option<int>>)
      requires Valid() && |distance| == |parent| == |visited|
      requires Relaxed(u, distance, parent, visited, distance', parent')
      ensures forall v :: 0 <= v < |distance| && visited[v] ==> distance'[v] == distance[v] && parent'[v] == parent[v]
    {
      forall v | 0 <= v < |distance| && visited[v]
        ensures distance'[v] == distance[v] && parent'[v] == parent[v]
      {
        assert !Improves(u, v, distance, visited);
      }
    }

    /** Relaxing again from a vertex added earlier changes nothing. */
    lemma RelaxAgain(u: int, V: seq<int>, distance: seq<int>, parent: seq<Option<int>>, visited: seq<bool>,
                     r: nat, distance': seq<int>, parent': seq<Option<int>>)
      requires Valid() && |distance| == |parent| == |visited| == |vertices|
      requires PrimFrontier(V, distance, r) && u in V
      requires forall v :: 0 <= v < |vertices| ==> (visited[v] <==> v in V)
      requires Relaxed(u, distance, parent, visited, distance', parent')
      ensures distance' == distance && parent' == parent
    {
      forall v | 0 <= v < |distance|
        ensures distance'[v] == distance[v] && parent'[v] == parent[v]
      {
        if v !in V && GetEdge((u, v), false).Some? {
          assert distance[v] <= GetEdge((u, v), false).value.weight;
        }
      }
    }

    /** One round of prim keeps PrimState: select u, mark it, add it, relax. */
    lemma RoundStep(start: int, V: seq<int>, distance: seq<int>, parent: seq<Option<int>>, visited: seq<bool>,
                    r: nat, u: int, distance': seq<int>, parent': seq<Option<int>>)
      requires Valid() && PrimState(start, V, distance, parent, visited, r)
      requires Selected(distance, visited, u) && 0 <= u < |visited|
      requires Relaxed(u, distance, parent, visited[u := true], distance', parent')
      ensures PrimState(start, Touch(V, u), distance', parent', visited[u := true], r + 1)
    {
      var visited' := visited[u := true];
      RelaxSkipsVisited(u, distance, parent, visited', distance', parent');
      if u in V {
        RelaxAgain(u, V, distance, parent, visited', r, distance', parent');
        RoundAgain(start, V, distance, parent, visited, r, u);
        assert visited' == visited;
      } else {
        RoundLists(start, V, distance, parent, visited, r, u, distance', parent');
        RoundParents(start, V, distance, parent, visited, r, u, distance', parent');
        RoundFrontier(start, V, distance, parent, visited, r, u, distance', parent');
      }
    }


    /** A round that selects an added vertex: nothing was left to select, so
        it was vertex 0, and nothing changes. */
    lemma RoundAgain(start: int, V: seq<int>, distance: seq<int>, parent: seq<Option<int>>, visited: seq<bool>,
                     r: nat, u: int)
      requires Valid() && PrimState(start, V, distance, parent, visited, r)
      requires Selected(distance, visited, u) && u in V
      ensures PrimState(start, V, distance, parent, visited, r + 1)
    {
      var n := |vertices|;
      assert !Candidate(distance, visited, u);
      forall v | 0 <= v < n && v !in V
        ensures distance[v] >= MaxSize
      {
        assert !Candidate(distance, visited, v);
      }
    }

    /** The lists after a round that adds the new vertex u. */
    lemma RoundLists(start: int, V: seq<int>, distance: seq<int>, parent: seq<Option<int>>, visited: seq<bool>,
                     r: nat, u: int, distance': seq<int>, parent': seq<Option<int>>)
      requires Valid() && PrimLists(start, V, distance, parent, visited, r)
      requires Selected(distance, visited, u) && 0 <= u < |visited| && u !in V
      requires |distance'| == |parent'| == |distance|
      requires forall v :: 0 <= v < |distance| && visited[u := true][v] ==>
        distance'[v] == distance[v] && parent'[v] == parent[v]
      ensures PrimLists(start, Touch(V, u), distance', parent', visited[u := true], r + 1)
    {
      var V' := Touch(V, u);
      assert V' == V + [u];
      if r == 0 {
        assert Candidate(distance, visited, start);
        forall v | Candidate(distance, visited, v)
          ensures v == start
        {
        }
        assert u == start;
      } else {
        assert V[0] in V;
      }
    }

    /** The parents after a round that adds the new vertex u. */
    lemma RoundParents(start: int, V: seq<int>, distance: seq<int>, parent: seq<Option<int>>, visited: seq<bool>,
                       r: nat, u: int, distance': seq<int>, parent': seq<Option<int>>)
      requires Valid() && PrimLists(start, V, distance, parent, visited, r) && PrimParents(start, V, distance, parent)
      requires Selected(distance, visited, u) && 0 <= u < |visited| && u !in V
      requires Relaxed(u, distance, parent, visited[u := true], distance', parent')
      requires forall v :: 0 <= v < |distance| && visited[u := true][v] ==>
        distance'[v] == distance[v] && parent'[v] == parent[v]
      ensures PrimParents(start, Touch(V, u), distance', parent')
    {
      RoundParentLinks(start, V, distance, parent, visited, u, distance', parent');
      RoundParentOrder(start, V, distance, parent, visited, r, u, distance', parent');
    }

    /** After such a round a parent is still an added vertex joined by an
        edge, present exactly when the distance is finite. */
    lemma RoundParentLinks(start: int, V: seq<int>, distance: seq<int>, parent: seq<Option<int>>, visited: seq<bool>,
                           u: int, distance': seq<int>, parent': seq<Option<int>>)
      requires Valid() && PrimParents(start, V, distance, parent)
      requires |visited| == |vertices| && 0 <= u < |visited| && u !in V
      requires Relaxed(u, distance, parent, visited[u := true], distance', parent')
      ensures forall v :: 0 <= v < |vertices| ==>
        distance'[v] <= MaxSize && (parent'[v].Some? <==> distance'[v] < MaxSize)
      ensures forall v :: 0 <= v < |vertices| && v != start && parent'[v].Some? ==>
        parent'[v].value in Touch(V, u) && GetEdge((parent'[v].value, v), false).Some?
    {
      forall v | 0 <= v < |vertices|
        ensures distance'[v] <= MaxSize && (parent'[v].Some? <==> distance'[v] < MaxSize)
        ensures v != start && parent'[v].Some? ==>
          parent'[v].value in Touch(V, u) && GetEdge((parent'[v].value, v), false).Some?
      {
        if !Improves(u, v, distance, visited[u := true]) && v != start && parent[v].Some? {
          assert parent[v].value in V;
        }
      }
    }

    /** After such a round no added vertex has a later one as parent, and
        every added vertex is start, 0 or has a parent. */
    lemma RoundParentOrder(start: int, V: seq<int>, distance: seq<int>, parent: seq<Option<int>>, visited: seq<bool>,
                           r: nat, u: int, distance': seq<int>, parent': seq<Option<int>>)
      requires Valid() && PrimLists(start, V, distance, parent, visited, r) && PrimParents(start, V, distance, parent)
      requires Selected(distance, visited, u) && 0 <= u < |visited| && u !in V
      requires |distance'| == |parent'| == |distance|
      requires forall v :: 0 <= v < |distance| && visited[u := true][v] ==>
        distance'[v] == distance[v] && parent'[v] == parent[v]
      ensures forall i :: 0 <= i < |Touch(V, u)| ==> 0 <= Touch(V, u)[i] < |vertices|
      ensures forall a, b :: 0 <= a <= b < |Touch(V, u)| ==> parent'[Touch(V, u)[a]] != Some(Touch(V, u)[b])
      ensures forall i :: 0 <= i < |Touch(V, u)| ==>
        Touch(V, u)[i] == start || Touch(V, u)[i] == 0 || parent'[Touch(V, u)[i]].Some?
    {
      var V' := Touch(V, u);
      assert V' == V + [u];
      forall i | 0 <= i < |V'|
        ensures V'[i] == start || V'[i] == 0 || parent'[V'[i]].Some?
      {
        if i == |V| && u != 0 && u != start {
          assert Candidate(distance, visited, u);
        } else if i < |V| {
          assert V'[i] == V[i] && visited[V[i]];
        }
      }
      forall a, b | 0 <= a <= b < |V'|
        ensures parent'[V'[a]] != Some(V'[b])
      {
        assert visited[u := true][V'[a]];
        if b == |V| && V'[a] != start && parent[V'[a]].Some? {
          assert parent[V'[a]].value in V;
        }
      }
    }

    /** The frontier after a round that adds the new vertex u. */
    lemma RoundFrontier(start: int, V: seq<int>, distance: seq<int>, parent: seq<Option<int>>, visited: seq<bool>,
                        r: nat, u: int, distance': seq<int>, parent': seq<Option<int>>)
      requires Valid() && PrimState(start, V, distance, parent, visited, r)
      requires Selected(distance, visited, u) && 0 <= u < |visited| && u !in V
      requires Relaxed(u, distance, parent, visited[u := true], distance', parent')
      ensures PrimFrontier(Touch(V, u), distance', r + 1)
    {
      var n := |vertices|;
      var V' := Touch(V, u);
      assert V' == V + [u];
      forall u0, v | u0 in V' && 0 <= v < n && v !in V' && GetEdge((u0, v), false).Some?
        ensures distance'[v] <= GetEdge((u0, v), false).value.weight
      {
        if u0 != u {
          assert u0 in V;
        }
      }
    }

    /** The weights after a round that adds the new vertex u: u's distance
        was already no more than the edge GetEdge finds to it from any added
        vertex, and it is frozen from now on. */
    lemma RoundWeights(start: int, V: seq<int>, distance: seq<int>, parent: seq<Option<int>>, visited: seq<bool>,
                       r: nat, u: int, distance': seq<int>, parent': seq<Option<int>>)
      requires Valid() && PrimState(start, V, distance, parent, visited, r) && PrimWeights(start, V, distance, parent)
      requires 0 <= u < |visited|
      requires Relaxed(u, distance, parent, visited[u := true], distance', parent')
      ensures PrimWeights(start, Touch(V, u), distance', parent')
    {
      RelaxSkipsVisited(u, distance, parent, visited[u := true], distance', parent');
      if u in V {
        RelaxAgain(u, V, distance, parent, visited[u := true], r, distance', parent');
      } else {
        FrozenWeights(start, V, distance, parent, visited, u, distance', parent');
      }
    }

    /** The case of RoundWeights where u is new. */
    lemma FrozenWeights(start: int, V: seq<int>, distance: seq<int>, parent: seq<Option<int>>, visited: seq<bool>,
                        u: int, distance': seq<int>, parent': seq<Option<int>>)
      requires Valid() && |visited| == |vertices| && (forall v :: 0 <= v < |vertices| ==> (visited[v] <==> v in V))
      requires PrimFrontier(V, distance, |V|) && PrimWeights(start, V, distance, parent)
      requires 0 <= u < |visited| && u !in V
      requires Relaxed(u, distance, parent, visited[u := true], distance', parent')
      requires forall v :: 0 <= v < |distance| && visited[u := true][v] ==>
        distance'[v] == distance[v] && parent'[v] == parent[v]
      ensures PrimWeights(start, Touch(V, u), distance', parent')
    {
      ParentWeights(start, distance, parent, visited[u := true], u, distance', parent');
      FrozenLightest(V, distance, visited, u, distance');
    }

    /** After relaxing from u, a vertex with a parent still has the weight of
        the edge from its parent as distance. */
    lemma ParentWeights(start: int, distance: seq<int>, parent: seq<Option<int>>, visited: seq<bool>,
                        u: int, distance': seq<int>, parent': seq<Option<int>>)
      requires Valid() && |distance| == |parent| == |visited| == |vertices|
      requires forall v :: 0 <= v < |vertices| && v != start && parent[v].Some? && GetEdge((parent[v].value, v), false).Some? ==>
        distance[v] == GetEdge((parent[v].value, v), false).value.weight
      requires Relaxed(u, distance, parent, visited, distance', parent')
      ensures forall v :: 0 <= v < |vertices| && v != start && parent'[v].Some? && GetEdge((parent'[v].value, v), false).Some? ==>
        distance'[v] == GetEdge((parent'[v].value, v), false).value.weight
    {
      forall v | 0 <= v < |vertices| && v != start && parent'[v].Some? && GetEdge((parent'[v].value, v), false).Some?
        ensures distance'[v] == GetEdge((parent'[v].value, v), false).value.weight
      {
        if !Improves(u, v, distance, visited) {
          assert parent'[v] == parent[v];
        }
      }
    }

    /** The new vertex u joins the added ones with its distance frozen, and
        that distance is already no more than the edge GetEdge finds to u
        from any of them. */
    lemma FrozenLightest(V: seq<int>, distance: seq<int>, visited: seq<bool>, u: int, distance': seq<int>)
      requires Valid() && |distance| == |visited| == |distance'| == |vertices|
      requires forall v :: 0 <= v < |vertices| ==> (visited[v] <==> v in V)
      requires forall i :: 0 <= i < |V| ==> 0 <= V[i] < |vertices|
      requires PrimFrontier(V, distance, |V|) && 0 <= u < |vertices| && u !in V
      requires forall a, b {:trigger GetEdge((V[a], V[b]), false)} :: 0 <= a < b < |V| && GetEdge((V[a], V[b]), false).Some? ==>
        distance[V[b]] <= GetEdge((V[a], V[b]), false).value.weight
      requires forall v :: 0 <= v < |vertices| && visited[u := true][v] ==> distance'[v] == distance[v]
      ensures var V' := Touch(V, u);
        forall a, b {:trigger GetEdge((V'[a], V'[b]), false)} :: 0 <= a < b < |V'| && GetEdge((V'[a], V'[b]), false).Some? ==>
          distance'[V'[b]] <= GetEdge((V'[a], V'[b]), false).value.weight
    {
      var V' := Touch(V, u);
      assert V' == V + [u];
      forall a, b | 0 <= a < b < |V'| && GetEdge((V'[a], V'[b]), false).Some?
        ensures distance'[V'[b]] <= GetEdge((V'[a], V'[b]), false).value.weight
      {
        assert V'[a] == V[a] && V[a] in V;
        if b < |V| {
          assert V'[b] == V[b] && visited[V[b]];
        } else {
          assert V'[b] == u && visited[u := true][u];
        }
      }
    }

    /** After the last round every vertex left out has no parent, and
        vertex 0 has been added: either every vertex was, or a round fell
        back to 0. */
    lemma RoundsDone(start: int, V: seq<int>, distance: seq<int>, parent: seq<Option<int>>, visited: seq<bool>)
      requires Valid() && PrimState(start, V, distance, parent, visited, |vertices|)
      ensures forall v :: 0 <= v < |vertices| && v !in V ==> parent[v].None?
      ensures 0 in V
    {
      var n := |vertices|;
      if |V| == n {
        forall x | x in V
          ensures 0 <= x < n
        {
          var i :| 0 <= i < |V| && V[i] == x;
        }
        DistinctCovers(V, n);
      }
    }

    /** Two added vertices are never each other's parent, nor their own. */
    lemma ParentsOrdered(start: int, V: seq<int>, distance: seq<int>, parent: seq<Option<int>>, x: int, y: int)
      requires Valid() && PrimParents(start, V, distance, parent)
      requires x in V && y in V && parent[x] == Some(y)
      ensures x != y && parent[y] != Some(x)
    {
      var a :| 0 <= a < |V| && V[a] == x;
      var b :| 0 <= b < |V| && V[b] == y;
      if a <= b {
        assert false;
      } else {
        assert parent[V[b]] != Some(V[a]);
      }
    }

    /** A graph whose every edge goes from an earlier vertex to a later one,
        with no vertex the target of two edges, is a forest. */
    lemma ForwardForest()
      requires Valid()
      requires forall a, b :: 0 <= a < b < |keys| ==> keys[a].1 < keys[b].1
      requires forall a, b :: 0 <= a <= b < |vertices| ==> (vertices[b], vertices[a]) !in edges
      ensures Acyclic(EdgeList())
    {
      var es, vs := EdgeList(), vertices;
      var R := v => Position(vs, v);
      forall i | 0 <= i < |es|
        ensures es[i].source == keys[i].0 && es[i].target == keys[i].1
      {
        assert keys[i] in keys;
      }
      forall i | 0 <= i < |es|
        ensures R(es[i].source) < R(es[i].target)
      {
        var k := keys[i];
        assert k in keys;
        var a, b := Position(vs, k.0), Position(vs, k.1);
        assert (vs[a], vs[b]) == k;
      }
      RankedAcyclic(es, R);
    }

    /** prim(start): |V| rounds, each selecting the first unvisited vertex of
        smallest finite distance (vertex 0 when there is none), adding it and
        relaxing its edges; then an edge (parent[i], i) of the found weight for
        every other vertex with a parent. us and ss are the rounds' choices
        and states, which pin the result. It starts at start, holds vertex 0
        and only selected vertices, and is a forest whose every edge goes from
        an earlier selected vertex to a later one, one edge per target at
        most, and is no heavier than the edge undirected GetEdge finds between
        its target and any vertex selected earlier; no edge GetEdge finds
        between a selected and an unselected vertex has finite weight. */
    method Prim(start: int) returns (t: Graph, ghost us: seq<int>, ghost ss: seq<Snapshot>)
      requires Valid() && IdsAreIndices() && 0 <= start < |vertices|
      ensures fresh(t) && t.Valid() && t.Undirected() && t.Loopless()
      ensures PrimRun(start, us, ss) && |us| == |vertices| && t.vertices == ss[|us|].added
      ensures |ss[|us|].parent| == |vertices|
      ensures forall k :: k in t.edges <==>
        0 <= k.1 < |vertices| && k.1 != start && ss[|us|].parent[k.1] == Some(k.0)
      ensures |t.vertices| > 0 && t.vertices[0] == start && 0 in t.vertices
      ensures forall v :: v in t.vertices ==> 0 <= v < |vertices|
      ensures forall k :: k in t.keys ==>
        && k.1 != start && GetEdge(k, false).Some?
        && t.edges[k] == Edge(k.0, k.1, GetEdge(k, false).value.weight)
      ensures forall a, b :: 0 <= a < b < |t.keys| ==> t.keys[a].1 < t.keys[b].1
      ensures forall a, b :: 0 <= a <= b < |t.vertices| ==> (t.vertices[b], t.vertices[a]) !in t.edges
      ensures forall k, a, b ::
        k in t.keys && 0 <= a < b < |t.vertices| && t.vertices[b] == k.1 && GetEdge((t.vertices[a], k.1), false).Some?
        ==> t.edges[k].weight <= GetEdge((t.vertices[a], k.1), false).value.weight
      ensures forall v :: v in t.vertices && v != start && v != 0 ==> exists k :: k in t.keys && k.1 == v
      ensures forall u, v :: u in t.vertices && 0 <= v < |vertices| && v !in t.vertices && GetEdge((u, v), false).Some? ==>
        GetEdge((u, v), false).value.weight >= MaxSize
      ensures |t.keys| < |vertices|
      ensures Acyclic(t.EdgeList())
    {
      var distance, parent;
      t, distance, parent, us, ss := Rounds(start);
      ghost var V := t.vertices;
      PrimOutcome(start, us, ss);
      Attach(t, start, distance, parent);
      PrimLightest(start, V, distance, parent, t.keys, t.edges);
      AttachedExactly(t.keys, t.edges, start, parent);
      AttachedIncoming(start, V, distance, parent, t.keys, t.edges);
      IncreasingMisses(t.keys, 0, |vertices|, start);
      t.ForwardForest();
    }

    /** What the final loop of prim relies on and passes on, about the
        state after the last round. */
    lemma PrimOutcome(start: int, us: seq<int>, ss: seq<Snapshot>)
      requires Valid() && 0 <= start < |vertices| && PrimRun(start, us, ss) && |us| == |vertices|
      ensures var s := ss[|us|];
        && |s.distance| == |s.parent| == |vertices|
        && |s.added| > 0 && s.added[0] == start && 0 in s.added
        && PrimParents(start, s.added, s.distance, s.parent)
        && PrimWeights(start, s.added, s.distance, s.parent)
        && (forall v :: 0 <= v < |vertices| && v !in s.added ==> s.parent[v].None?)
        && (forall u, v :: u in s.added && 0 <= v < |vertices| && v !in s.added && GetEdge((u, v), false).Some? ==>
              GetEdge((u, v), false).value.weight >= MaxSize)
    {
      var s := ss[|us|];
      RunState(start, us, ss, |us|);
      RoundsDone(start, s.added, s.distance, s.parent, s.visited);
    }

    /** The edges the final loop attaches are the lightest into their
        targets from any vertex selected earlier. */
    lemma PrimLightest(start: int, V: seq<int>, distance: seq<int>, parent: seq<Option<int>>,
                       ks: seq<Key>, es: map<Key, Edge>)
      requires Valid() && PrimWeights(start, V, distance, parent)
      requires Attached(ks, es, start, parent, |vertices|)
      ensures forall k, a, b ::
        k in ks && 0 <= a < b < |V| && V[b] == k.1 && GetEdge((V[a], k.1), false).Some?
        ==> es[k].weight <= GetEdge((V[a], k.1), false).value.weight
    {
      forall k, a, b | k in ks && 0 <= a < b < |V| && V[b] == k.1 && GetEdge((V[a], k.1), false).Some?
        ensures es[k].weight <= GetEdge((V[a], k.1), false).value.weight
      {
        assert parent[k.1] == Some(k.0) && es[k].weight == GetEdge(k, false).value.weight;
        assert distance[k.1] == GetEdge(k, false).value.weight;
      }
    }

    /** visited, recovered from the added vertices. */
    function VisitedOf(n: nat): (visited: seq<bool>)
      reads this
      ensures |visited| == n && forall v :: 0 <= v < n ==> (visited[v] <==> v in vertices)
    {
      var vs := vertices;
      seq(n, v => v in vs)
    }

    /** prim's lists before the first round. */
    ghost predicate PrimStart(start: int, s: Snapshot)
      reads this
    {
      var n := |vertices|;
      && |s.distance| == |s.parent| == |s.visited| == n && s.added == []
      && forall v :: 0 <= v < n ==>
           && s.distance[v] == (if v == start then 0 else MaxSize)
           && s.parent[v] == (if v == start then Some(-1) else None)
           && !s.visited[v]
    }

    /** One round of prim takes s to s' by choosing u: the scan selects u,
        u is marked visited and added, and the edges of u are relaxed. */
    ghost predicate PrimStep(s: Snapshot, u: int, s': Snapshot)
      reads this
      requires Valid()
    {
      && |s.distance| == |s.parent| == |s.visited|
      && Selected(s.distance, s.visited, u) && 0 <= u < |s.visited|
      && s'.visited == s.visited[u := true]
      && s'.added == Touch(s.added, u)
      && Relaxed(u, s.distance, s.parent, s'.visited, s'.distance, s'.parent)
    }

    /** ss[r] is the state before round r, and us[r] the vertex round r
        chooses, for the |us| rounds run so far. */
    ghost predicate PrimRun(start: int, us: seq<int>, ss: seq<Snapshot>)
      reads this
      requires Valid()
    {
      && |ss| == |us| + 1 && PrimStart(start, ss[0])
      && forall r {:trigger us[r]} :: 0 <= r < |us| ==> PrimStep(ss[r], us[r], ss[r + 1])
    }

    /** A run extended by one more round. */
    lemma PrimRunSnoc(start: int, us: seq<int>, ss: seq<Snapshot>, u: int, s': Snapshot)
      requires Valid() && PrimRun(start, us, ss) && PrimStep(ss[|us|], u, s')
      ensures PrimRun(start, us + [u], ss + [s'])
    {
      var us', ss' := us + [u], ss + [s'];
      forall r | 0 <= r < |us'|
        ensures PrimStep(ss'[r], us'[r], ss'[r + 1])
      {
        if r < |us| {
          assert ss'[r] == ss[r] && us'[r] == us[r] && ss'[r + 1] == ss[r + 1];
        }
      }
    }

    /** The rounds loop of prim. */
    method Rounds(start: int) returns (t: Graph, distance: seq<int>, parent: seq<Option<int>>,
                                       ghost us: seq<int>, ghost ss: seq<Snapshot>)
      requires Valid() && IdsAreIndices() && 0 <= start < |vertices|
      ensures fresh(t) && t.Valid() && t.keys == [] && t.edges == map[]
      ensures PrimRun(start, us, ss) && |us| == |vertices|
      ensures ss[|us|] == Snapshot(distance, parent, t.VisitedOf(|vertices|), t.vertices)
    {
      var n := |vertices|;
      t := new Graph();
      var visited;
      distance, parent, visited := PrimLists0(start);
      us, ss := [], [Snapshot(distance, parent, visited, [])];
      var r := 0;
      while r < n
        invariant 0 <= r <= n
        invariant fresh(t) && t.Valid() && t.keys == [] && t.edges == map[]
        invariant |distance| == |parent| == |visited| == n
        invariant forall v :: 0 <= v < n ==> (visited[v] <==> v in t.vertices)
        invariant PrimRun(start, us, ss) && |us| == r && ss[r] == Snapshot(distance, parent, visited, t.vertices)
      {
        distance, parent, visited, us, ss := Round(t, start, distance, parent, visited, us, ss);
        r := r + 1;
      }
      assert visited == t.VisitedOf(n);
    }

    /** prim's lists before the rounds: distance 0 and parent -1 for start,
        sys.maxsize and None for every other vertex, nothing visited. */
    method PrimLists0(start: int) returns (distance: seq<int>, parent: seq<Option<int>>, visited: seq<bool>)
      requires 0 <= start < |vertices|
      ensures PrimStart(start, Snapshot(distance, parent, visited, []))
    {
      var n := |vertices|;
      distance := seq(n, _ => MaxSize);
      parent := seq(n, _ => None);
      visited := seq(n, _ => false);
      distance := distance[start := 0];
      parent := parent[start := Some(-1)];
    }

    /** The start lists satisfy the round invariants at round 0. */
    lemma StartState(start: int, s: Snapshot)
      requires Valid() && 0 <= start < |vertices| && PrimStart(start, s)
      ensures PrimState(start, s.added, s.distance, s.parent, s.visited, 0)
      ensures PrimWeights(start, s.added, s.distance, s.parent)
    {
    }

    /** Every state of a run satisfies the round invariants: each round keeps
        them (RoundStep, RoundWeights). */
    lemma {:induction false} RunState(start: int, us: seq<int>, ss: seq<Snapshot>, r: nat)
      requires Valid() && 0 <= start < |vertices| && PrimRun(start, us, ss) && r <= |us|
      ensures PrimState(start, ss[r].added, ss[r].distance, ss[r].parent, ss[r].visited, r)
      ensures PrimWeights(start, ss[r].added, ss[r].distance, ss[r].parent)
    {
      if r == 0 {
        StartState(start, ss[0]);
      } else {
        RunState(start, us, ss, r - 1);
        RunStep(start, us, ss, r - 1);
      }
    }

    /** Round r of a run keeps the round invariants. */
    lemma RunStep(start: int, us: seq<int>, ss: seq<Snapshot>, r: nat)
      requires Valid() && PrimRun(start, us, ss) && r < |us|
      requires PrimState(start, ss[r].added, ss[r].distance, ss[r].parent, ss[r].visited, r)
      requires PrimWeights(start, ss[r].added, ss[r].distance, ss[r].parent)
      ensures PrimState(start, ss[r + 1].added, ss[r + 1].distance, ss[r + 1].parent, ss[r + 1].visited, r + 1)
      ensures PrimWeights(start, ss[r + 1].added, ss[r + 1].distance, ss[r + 1].parent)
    {
      var s, u, s' := ss[r], us[r], ss[r + 1];
      assert PrimStep(s, u, s');
      RoundStep(start, s.added, s.distance, s.parent, s.visited, r, u, s'.distance, s'.parent);
      RoundWeights(start, s.added, s.distance, s.parent, s.visited, r, u, s'.distance, s'.parent);
    }

    /** One round of prim: select u, mark it visited, add it to t and relax
        the edges leaving it. The run so far grows by that round. */
    method Round(t: Graph, start: int, distance: seq<int>, parent: seq<Option<int>>, visited: seq<bool>,
                 ghost us: seq<int>, ghost ss: seq<Snapshot>)
      returns (distance': seq<int>, parent': seq<Option<int>>, visited': seq<bool>,
               ghost us': seq<int>, ghost ss': seq<Snapshot>)
      requires Valid() && IdsAreIndices() && t.Valid() && t.keys == [] && t.edges == map[] && t != this
      requires 0 <= start < |vertices| && |distance| == |parent| == |visited| == |vertices|
      requires PrimRun(start, us, ss) && ss[|us|] == Snapshot(distance, parent, visited, t.vertices)
      modifies t
      ensures t.Valid() && t.keys == [] && t.edges == map[]
      ensures |distance'| == |parent'| == |visited'| == |vertices|
      ensures forall v :: 0 <= v < |vertices| && (v in old(t.vertices) <==> visited[v]) ==>
        (v in t.vertices <==> visited'[v])
      ensures PrimRun(start, us', ss') && |us'| == |us| + 1 && us'[..|us|] == us && ss'[..|ss|] == ss
      ensures ss'[|us'|] == Snapshot(distance', parent', visited', t.vertices)
    {
      var u := SelectMin(distance, visited);
      visited' := visited[u := true];
      t.AddVertex(u);
      distance', parent' := Relax(u, distance, parent, visited');
      ghost var s' := Snapshot(distance', parent', visited', t.vertices);
      PrimRunSnoc(start, us, ss, u, s');
      us', ss' := us + [u], ss + [s'];
      assert us'[..|us|] == us && ss'[..|ss|] == ss;
    }

    /** What the final loop of prim has built, as keys ks and edges es,
        once it has passed the vertices below i: an edge (parent[v], v) of
        the input weight for each such v other than start that has a parent,
        in increasing order of v, and nothing else. */
    ghost predicate Attached(ks: seq<Key>, es: map<Key, Edge>, start: int, parent: seq<Option<int>>, i: int)
      reads this
      requires Valid() && 0 <= i <= |parent|
    {
      && (forall k :: k in ks ==> k in es && 0 <= k.1 < i && k.1 != start && parent[k.1] == Some(k.0))
      && (forall k :: k in ks ==>
            GetEdge(k, false).Some? && es[k] == Edge(k.0, k.1, GetEdge(k, false).value.weight))
      && (forall a, b :: 0 <= a < b < |ks| ==> ks[a].1 < ks[b].1)
      && (forall v :: 0 <= v < i && v != start && parent[v].Some? ==> (parent[v].value, v) in es)
    }

    /** Once the final loop is done, the edges are exactly (parent[v], v)
        for the vertices v other than start that have a parent. */
    lemma AttachedExactly(ks: seq<Key>, es: map<Key, Edge>, start: int, parent: seq<Option<int>>)
      requires Valid() && Attached(ks, es, start, parent, |parent|)
      requires forall k :: k in es <==> k in ks
      ensures forall k :: k in es <==> 0 <= k.1 < |parent| && k.1 != start && parent[k.1] == Some(k.0)
    {
    }

    /** Every selected vertex other than start and 0 gets an edge in. */
    lemma AttachedIncoming(start: int, V: seq<int>, distance: seq<int>, parent: seq<Option<int>>,
                           ks: seq<Key>, es: map<Key, Edge>)
      requires Valid() && PrimParents(start, V, distance, parent)
      requires Attached(ks, es, start, parent, |parent|) && forall k :: k in es <==> k in ks
      ensures forall v :: v in V && v != start && v != 0 ==> exists k :: k in ks && k.1 == v
    {
      forall v | v in V && v != start && v != 0
        ensures exists k :: k in ks && k.1 == v
      {
        var i :| 0 <= i < |V| && V[i] == v;
        assert parent[V[i]].Some?;
        assert (parent[v].value, v) in ks;
      }
    }

    /** A vertex without a parent, or start, adds nothing. */
    lemma AttachSkip(ks: seq<Key>, es: map<Key, Edge>, start: int, parent: seq<Option<int>>, i: int)
      requires Valid() && 0 <= i < |parent|
      requires Attached(ks, es, start, parent, i) && (i == start || parent[i].None?)
      ensures Attached(ks, es, start, parent, i + 1)
    {
      forall v | 0 <= v <= i && v != start && parent[v].Some?
        ensures (parent[v].value, v) in es
      {
        assert v < i;
      }
    }

    /** Adding the edge (parent[i], i) of the input weight passes i. */
    lemma AttachAdd(ks: seq<Key>, es: map<Key, Edge>, start: int, parent: seq<Option<int>>, i: int, w: int)
      requires Valid() && 0 <= i < |parent|
      requires Attached(ks, es, start, parent, i) && i != start && parent[i].Some?
      requires GetEdge((parent[i].value, i), false).Some? && w == GetEdge((parent[i].value, i), false).value.weight
      ensures Attached(ks + [(parent[i].value, i)], es[(parent[i].value, i) := Edge(parent[i].value, i, w)],
                       start, parent, i + 1)
    {
      var k := (parent[i].value, i);
      var ks', es' := ks + [k], es[k := Edge(k.0, k.1, w)];
      assert k !in ks;
      forall k' | k' in ks'
        ensures k' in es' && 0 <= k'.1 < i + 1 && k'.1 != start && parent[k'.1] == Some(k'.0)
        ensures GetEdge(k', false).Some? && es'[k'] == Edge(k'.0, k'.1, GetEdge(k', false).value.weight)
      {
        if k' != k {
          assert k' in ks;
        }
      }
      IncreasingSnoc(ks, k);
      forall v | 0 <= v <= i && v != start && parent[v].Some?
        ensures (parent[v].value, v) in es'
      {
        if v < i {
          assert (parent[v].value, v) in es;
        }
      }
    }

    /** The step of the final loop of prim that adds the edge (parent[i], i). */
    method AttachEdge(t: Graph, start: int, distance: seq<int>, parent: seq<Option<int>>, i: int)
      requires Valid() && t.Valid() && t.Undirected() && t.Loopless() && t != this
      requires 0 <= start < |vertices| && PrimParents(start, t.vertices, distance, parent)
      requires forall v :: 0 <= v < |vertices| && v !in t.vertices ==> parent[v].None?
      requires 0 <= i < |vertices| && i != start && parent[i].Some? && Attached(t.keys, t.edges, start, parent, i)
      modifies t
      ensures t.Valid() && t.Undirected() && t.Loopless() && t.vertices == old(t.vertices)
      ensures Attached(t.keys, t.edges, start, parent, i + 1)
    {
      ghost var V := t.vertices;
      var p := parent[i].value;
      var w := GetEdge((p, i), false).value.weight;
      if (i, p) in t.edges {
        ParentsOrdered(start, V, distance, parent, p, i);
        assert false;
      }
      ParentsOrdered(start, V, distance, parent, i, p);
      AttachAdd(t.keys, t.edges, start, parent, i, w);
      ghost var ks := t.keys;
      assert (p, i) !in ks;
      t.AddEdge(Edge(p, i, w), false, false);
      assert t.keys == ks + [(p, i)];
    }

    /** The final loop of prim: an edge (parent[i], i) for every i other
        than start that has a parent, in increasing order of i. */
    method Attach(t: Graph, start: int, distance: seq<int>, parent: seq<Option<int>>)
      requires Valid() && t.Valid() && t.keys == [] && t.edges == map[] && t != this
      requires 0 <= start < |vertices| && PrimParents(start, t.vertices, distance, parent)
      requires forall v :: 0 <= v < |vertices| && v !in t.vertices ==> parent[v].None?
      modifies t
      ensures t.Valid() && t.Undirected() && t.Loopless() && t.vertices == old(t.vertices)
      ensures Attached(t.keys, t.edges, start, parent, |vertices|)
    {
      var n := |vertices|;
      var i := 0;
      while i < n
        invariant 0 <= i <= n
        invariant t.Valid() && t.Undirected() && t.Loopless() && t.vertices == old(t.vertices)
        invariant Attached(t.keys, t.edges, start, parent, i)
      {
        if i != start && parent[i].Some? {
          AttachEdge(t, start, distance, parent, i);
        } else {
          AttachSkip(t.keys, t.edges, start, parent, i);
        }
        i := i + 1;
      }
    }
  }
}
