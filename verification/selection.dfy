/** The vertex-selection scan of prim, over the distance and visited lists
    indexed by vertex id. */
module Selection {

  /** sys.maxsize on a 64-bit CPython: the "no distance yet" sentinel. */
  const MaxSize: int := 0x7FFF_FFFF_FFFF_FFFF

  /** v is unvisited and has a distance below the sentinel. */
  predicate Candidate(distance: seq<int>, visited: seq<bool>, v: int)
    requires |distance| == |visited|
  {
    0 <= v < |distance| && !visited[v] && distance[v] < MaxSize
  }

  /** The choice prim's scan makes: when some candidate exists, u is the
      first candidate of smallest distance; when none exists, u is 0. */
  ghost predicate Selected(distance: seq<int>, visited: seq<bool>, u: int)
    requires |distance| == |visited|
  {
    && ((exists v :: Candidate(distance, visited, v)) ==>
         && Candidate(distance, visited, u)
         && (forall v :: Candidate(distance, visited, v) ==> distance[u] <= distance[v])
         && (forall v :: Candidate(distance, visited, v) && v < u ==> distance[u] < distance[v]))
    && ((forall v :: !Candidate(distance, visited, v)) ==> u == 0)
  }

  /** The scan of prim: starting from min_index = 0 and min_vert = MaxSize,
      an unvisited v replaces the best so far only with a strictly smaller
      distance. */
  method SelectMin(distance: seq<int>, visited: seq<bool>) returns (u: int)
    requires |distance| == |visited|
    ensures Selected(distance, visited, u)
  {
    u := 0;
    var best := MaxSize;
    ghost var found := false;
    var v := 0;
    while v < |distance|
      invariant 0 <= v <= |distance|
      invariant !found ==> forall w :: Candidate(distance, visited, w) ==> v <= w
      invariant found ==> Candidate(distance, visited, u) && u < v && best == distance[u]
      invariant found ==> forall w :: Candidate(distance, visited, w) && w < v ==> distance[u] <= distance[w]
      invariant found ==> forall w :: Candidate(distance, visited, w) && w < u ==> distance[u] < distance[w]
      invariant !found ==> u == 0 && best == MaxSize
    {
      if distance[v] < best && !visited[v] {
        best := distance[v];
        u := v;
        found := true;
      }
      v := v + 1;
    }
  }
}
