/** parse_graph, past reading the file: the checks on the starting vertex
    and the matrix, and the graph built from the matrix. */
module Parsing {
  import opened Common
  import opened Edges
  import opened Graphs

  /** The message of the ValueError parse_graph raises. */
  const Broken := "Input file is broken."

  /** Every row has as many entries as there are rows. */
  predicate Square(matrix: seq<seq<int>>)
  {
    forall i :: 0 <= i < |matrix| ==> |matrix[i]| == |matrix|
  }

  /** Lexicographic order on pairs: the order in which the nested loops of
      parse_graph offer them. */
  predicate Before(a: Key, b: Key)
  {
    a.0 < b.0 || (a.0 == b.0 && a.1 < b.1)
  }

  /** Whether the loops have offered the pair k once they have read the rows
      above row i and the first j entries of row i. */
  predicate Offered(k: Key, i: int, j: int)
  {
    k.0 < i || (k.0 == i && k.1 < j)
  }

  /** The edges after the loops have read up to entry j of row i: an edge
      (a, b, matrix[a][b]) for exactly the offered pairs with a < b. */
  ghost predicate BuiltEdges(edges: map<Key, Edge>, matrix: seq<seq<int>>, i: int, j: int)
    requires Square(matrix)
  {
    var n := |matrix|;
    && (forall k :: k in edges <==> 0 <= k.0 < k.1 < n && Offered(k, i, j))
    && (forall k :: k in edges ==> 0 <= k.0 < k.1 < n && edges[k] == Edge(k.0, k.1, matrix[k.0][k.1]))
  }

  /** Keys listed in lexicographic order. */
  ghost predicate InOrder(keys: seq<Key>)
  {
    forall a, b :: 0 <= a < b < |keys| ==> Before(keys[a], keys[b])
  }

  /** The graph after the loops have read up to entry j of row i: vertices
      0..n-1 in order, and the built edges kept in the order they were
      offered. */
  ghost predicate Built(g: Graph, matrix: seq<seq<int>>, i: int, j: int)
    reads g
    requires Square(matrix)
  {
    && g.Valid() && g.Undirected() && g.Loopless() && g.vertices == Range(|matrix|)
    && BuiltEdges(g.edges, matrix, i, j) && InOrder(g.keys)
  }

  /** Offering an entry above the diagonal adds its edge, last. */
  lemma OfferAbove(keys: seq<Key>, edges: map<Key, Edge>, matrix: seq<seq<int>>, i: int, j: int)
    requires Square(matrix) && 0 <= i < j < |matrix|
    requires BuiltEdges(edges, matrix, i, j) && InOrder(keys) && forall k :: k in keys ==> k in edges
    ensures (i, j) !in edges
    ensures BuiltEdges(edges[(i, j) := Edge(i, j, matrix[i][j])], matrix, i, j + 1)
    ensures InOrder(keys + [(i, j)])
  {
    var n, edges' := |matrix|, edges[(i, j) := Edge(i, j, matrix[i][j])];
    forall k
      ensures k in edges' <==> 0 <= k.0 < k.1 < n && Offered(k, i, j + 1)
    {
      if k != (i, j) {
        assert k in edges' <==> k in edges;
      }
    }
    forall a, b | 0 <= a < b < |keys + [(i, j)]|
      ensures Before((keys + [(i, j)])[a], (keys + [(i, j)])[b])
    {
      assert (keys + [(i, j)])[a] == keys[a] && keys[a] in keys;
    }
  }

  /** Offering an entry on or below the diagonal adds nothing. */
  lemma OfferBelow(edges: map<Key, Edge>, matrix: seq<seq<int>>, i: int, j: int)
    requires Square(matrix) && 0 <= j <= i < |matrix|
    requires BuiltEdges(edges, matrix, i, j)
    ensures j < i ==> (j, i) in edges
    ensures BuiltEdges(edges, matrix, i, j + 1)
  {
    var n := |matrix|;
    forall k
      ensures k in edges <==> 0 <= k.0 < k.1 < n && Offered(k, i, j + 1)
    {
      assert Offered(k, i, j + 1) && k.0 < k.1 ==> Offered(k, i, j);
    }
  }

  /** The vertex loop of parse_graph: add_vertex(Vertex(i)) for i in 0..n-1. */
  method AddVertices(g: Graph, n: nat)
    requires g.Valid() && g.vertices == [] && g.keys == [] && g.edges == map[]
    modifies g
    ensures g.Valid() && g.vertices == Range(n) && g.keys == [] && g.edges == map[]
  {
    var i := 0;
    while i < n
      invariant 0 <= i <= n
      invariant g.Valid() && g.vertices == Range(i) && g.keys == [] && g.edges == map[]
    {
      assert i !in g.vertices by {
        forall x | 0 <= x < i
          ensures g.vertices[x] != i
        {
        }
      }
      g.AddVertex(i);
      assert g.vertices == Range(i + 1);
      i := i + 1;
    }
  }

  /** One entry of the edge loop of parse_graph: add_edge(Edge(i, j,
      matrix[i][j])), undirected and without loops, so that it is kept
      exactly when the entry lies above the diagonal. */
  method Offer(g: Graph, matrix: seq<seq<int>>, i: int, j: int)
    requires Square(matrix) && 0 <= i < |matrix| && 0 <= j < |matrix| && Built(g, matrix, i, j)
    modifies g
    ensures Built(g, matrix, i, j + 1)
  {
    var e := Edge(i, j, matrix[i][j]);
    assert i in g.vertices && j in g.vertices by {
      assert g.vertices[i] == i && g.vertices[j] == j;
    }
    if i < j {
      OfferAbove(g.keys, g.edges, matrix, i, j);
      ghost var keys := g.keys;
      g.AddEdge(e, false, false);
      assert g.keys == keys + [(i, j)];
    } else {
      OfferBelow(g.edges, matrix, i, j);
      g.AddEdge(e, false, false);
    }
  }

  /** One row of the edge loop of parse_graph. */
  method AddRow(g: Graph, matrix: seq<seq<int>>, i: int)
    requires Square(matrix) && 0 <= i < |matrix| && Built(g, matrix, i, 0)
    modifies g
    ensures Built(g, matrix, i + 1, 0)
  {
    var j := 0;
    while j < |matrix|
      invariant 0 <= j <= |matrix|
      invariant Built(g, matrix, i, j)
    {
      Offer(g, matrix, i, j);
      j := j + 1;
    }
  }

  /** parse_graph: a starting vertex outside 0..n-1 or a matrix that is not
      n by n raises "Input file is broken."; otherwise the result is the
      starting vertex and the undirected, loopless graph on vertices 0..n-1
      holding, for each pair a < b in lexicographic order, the edge (a, b)
      weighted matrix[a][b]. The entries on and below the diagonal are read
      but not kept. */
  method ParseGraph(start: int, matrix: seq<seq<int>>) returns (r: Result<(int, Graph)>)
    ensures r.Err? <==> start < 0 || start >= |matrix| || !Square(matrix)
    ensures r.Err? ==> r.message == Broken
    ensures r.Ok? ==> r.value.0 == start && fresh(r.value.1)
    ensures r.Ok? ==>
      var g, n := r.value.1, |matrix|;
      && g.Valid() && g.Undirected() && g.Loopless() && g.vertices == Range(n)
      && (forall k :: k in g.edges <==> 0 <= k.0 < k.1 < n)
      && (forall k :: k in g.edges ==> g.edges[k] == Edge(k.0, k.1, matrix[k.0][k.1]))
      && (forall a, b :: 0 <= a < b < |g.keys| ==> Before(g.keys[a], g.keys[b]))
  {
    var n := |matrix|;
    if start < 0 || start >= n || !Square(matrix) {
      return Err(Broken);
    }
    var g := new Graph();
    AddVertices(g, n);
    var i := 0;
    while i < n
      invariant 0 <= i <= n && fresh(g)
      invariant Built(g, matrix, i, 0)
    {
      AddRow(g, matrix, i);
      i := i + 1;
    }
    r := Ok((start, g));
  }
}
