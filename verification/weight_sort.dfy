/** The stable sort kruskal applies to the edge items, keyed by weight
    (Python's sorted with key=WEIGHT). It is given here as an insertion sort;
    its contract is all that the model relies on. */
module WeightSort {
  import opened Edges

  predicate SortedByWeight(s: seq<Edge>)
  {
    forall i, j :: 0 <= i < j < |s| ==> s[i].weight <= s[j].weight
  }

  /** The edges of s with weight w, in the order of s. */
  function WithWeight(s: seq<Edge>, w: int): seq<Edge>
  {
    if s == [] then []
    else (if s[0].weight == w then [s[0]] else []) + WithWeight(s[1..], w)
  }

  /** Place x before the first element that is not lighter than x. */
  function Insert(x: Edge, s: seq<Edge>): seq<Edge>
  {
    if s == [] || x.weight <= s[0].weight then [x] + s
    else [s[0]] + Insert(x, s[1..])
  }

  /** sorted(..., key=weight) as an insertion sort; SortByWeightIsStable
      proves it sorted and stable. */
  function SortByWeight(s: seq<Edge>): (r: seq<Edge>)
    ensures multiset(r) == multiset(s)
  {
    if s == [] then []
    else
      InsertPermutes(s[0], SortByWeight(s[1..]));
      assert s == [s[0]] + s[1..];
      Insert(s[0], SortByWeight(s[1..]))
  }

  lemma {:induction false} InsertPermutes(x: Edge, s: seq<Edge>)
    ensures multiset(Insert(x, s)) == multiset(s) + multiset{x}
  {
    if s != [] && x.weight > s[0].weight {
      InsertPermutes(x, s[1..]);
      assert s == [s[0]] + s[1..];
    }
  }

  /** Every edge of s weighs at least b. */
  predicate AtLeast(s: seq<Edge>, b: int)
  {
    forall k :: 0 <= k < |s| ==> b <= s[k].weight
  }

  lemma ConsSorted(a: Edge, s: seq<Edge>)
    requires SortedByWeight(s) && AtLeast(s, a.weight)
    ensures SortedByWeight([a] + s)
  {
    var r := [a] + s;
    forall i, j | 0 <= i < j < |r|
      ensures r[i].weight <= r[j].weight
    {
      assert r[j] == s[j - 1];
      if i > 0 {
        assert r[i] == s[i - 1];
      }
    }
  }

  lemma {:induction false} InsertAtLeast(x: Edge, s: seq<Edge>, b: int)
    requires AtLeast(s, b) && b <= x.weight
    ensures AtLeast(Insert(x, s), b)
  {
    if s != [] && x.weight > s[0].weight {
      InsertAtLeast(x, s[1..], b);
      var r := Insert(x, s[1..]);
      assert forall k :: 0 < k < 1 + |r| ==> ([s[0]] + r)[k] == r[k - 1];
    }
  }

  lemma {:induction false} InsertSorted(x: Edge, s: seq<Edge>)
    requires SortedByWeight(s)
    ensures SortedByWeight(Insert(x, s))
  {
    if s != [] && x.weight > s[0].weight {
      assert SortedByWeight(s[1..]);
      InsertSorted(x, s[1..]);
      assert AtLeast(s[1..], s[0].weight);
      InsertAtLeast(x, s[1..], s[0].weight);
      ConsSorted(s[0], Insert(x, s[1..]));
    } else if s != [] {
      ConsSorted(x, s);
    }
  }

  lemma WithWeightCons(a: Edge, s: seq<Edge>, w: int)
    ensures WithWeight([a] + s, w) == (if a.weight == w then [a] else []) + WithWeight(s, w)
  {
    assert ([a] + s)[0] == a;
    assert ([a] + s)[1..] == s;
  }

  lemma {:induction false} InsertFiltered(x: Edge, s: seq<Edge>, w: int)
    ensures WithWeight(Insert(x, s), w) == (if x.weight == w then [x] else []) + WithWeight(s, w)
  {
    if s != [] && x.weight > s[0].weight {
      var r := Insert(x, s[1..]);
      InsertFiltered(x, s[1..], w);
      WithWeightCons(s[0], r, w);
      WithWeightCons(s[0], s[1..], w);
      assert s == [s[0]] + s[1..];
      if x.weight == w {
        assert s[0].weight != w;
      }
    } else {
      WithWeightCons(x, s, w);
    }
  }

  /** SortByWeight is a stable sort: the result is sorted by weight, is a
      permutation of the input, and keeps the input order among edges of
      equal weight. */
  lemma {:induction false} SortByWeightIsStable(s: seq<Edge>)
    ensures SortedByWeight(SortByWeight(s))
    ensures multiset(SortByWeight(s)) == multiset(s)
    ensures forall w :: WithWeight(SortByWeight(s), w) == WithWeight(s, w)
  {
    if s != [] {
      SortByWeightIsStable(s[1..]);
      InsertSorted(s[0], SortByWeight(s[1..]));
      InsertPermutes(s[0], SortByWeight(s[1..]));
      assert s == [s[0]] + s[1..];
      forall w
        ensures WithWeight(SortByWeight(s), w) == WithWeight(s, w)
      {
        InsertFiltered(s[0], SortByWeight(s[1..]), w);
      }
    }
  }
}
