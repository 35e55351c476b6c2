/** Small value types and facts about sequences shared by the other modules. */
module Common {

  datatype Option<T> = None | Some(value: T)

  /** The outcome of an operation that can raise an exception. */
  datatype Result<T> = Ok(value: T) | Err(message: string)

  /** No element occurs twice: the key set of a Python dict, listed in order. */
  predicate Distinct<T(==)>(s: seq<T>)
  {
    forall i, j :: 0 <= i < j < |s| ==> s[i] != s[j]
  }

  /** Insertion into an insertion-ordered dict whose key may already be present:
      a present key keeps its place, a new one goes last. */
  function Touch<T(==)>(s: seq<T>, x: T): (r: seq<T>)
    ensures Distinct(s) ==> Distinct(r)
    ensures x in r && forall y :: y in s ==> y in r
    ensures forall y :: y in r ==> y in s || y == x
    ensures |s| <= |r| <= |s| + 1 && r[..|s|] == s
    ensures x in s <==> |r| == |s|
  {
    if x in s then s else s + [x]
  }

  /** A non-empty sequence is its front followed by its last element. */
  lemma SplitLast<T>(s: seq<T>)
    requires s != []
    ensures s == s[..|s| - 1] + [s[|s| - 1]]
  {
  }

  lemma TouchIn<T>(s: seq<T>, x: T, y: T)
    ensures y in Touch(s, x) <==> y in s || y == x
  {
  }

  lemma {:induction false} DistinctCard<T>(s: seq<T>)
    requires Distinct(s)
    ensures |set x | x in s| == |s|
  {
    if s != [] {
      var t := s[..|s| - 1];
      assert Distinct(t);
      DistinctCard(t);
      assert (set x | x in s) == (set x | x in t) + {s[|s| - 1]};
      assert s[|s| - 1] !in t;
    }
  }

  /** The ids 0..n-1 in increasing order. */
  function Range(n: nat): (r: seq<int>)
    ensures |r| == n && forall i :: 0 <= i < n ==> r[i] == i
  {
    seq(n, i => i)
  }

  /** The index of the first occurrence of x in s, or |s| when there is none. */
  function Position<T(==)>(s: seq<T>, x: T): (i: nat)
    ensures i <= |s| && (x in s <==> i < |s|)
    ensures i < |s| ==> s[i] == x && forall j :: 0 <= j < i ==> s[j] != x
  {
    if s == [] then 0
    else if s[0] == x then 0
    else 1 + Position(s[1..], x)
  }

  lemma SubsetCard<T>(a: set<T>, b: set<T>)
    requires a <= b
    ensures |a| <= |b|
  {
    assert b == a + (b - a);
  }

  /** A duplicate-free sequence of n ids drawn from 0..n-1 lists every one of them. */
  lemma DistinctCovers(s: seq<int>, n: nat)
    requires Distinct(s) && |s| == n
    requires forall x :: x in s ==> 0 <= x < n
    ensures forall x :: 0 <= x < n ==> x in s
  {
    var S := set x | x in s;
    var R := set x | x in Range(n);
    DistinctCard(s);
    DistinctCard(Range(n));
    forall x | x in s
      ensures x in R
    {
      assert Range(n)[x] == x;
    }
    forall x | 0 <= x < n
      ensures x in s
    {
      assert Range(n)[x] == x;
      if x !in s {
        SubsetCard(S, R - {x});
      }
    }
  }
}
