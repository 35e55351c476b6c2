/** Connectivity over a list of undirected edges, and the greedy rule that
    kruskal's union-find implements: scan the edges in order and keep an edge
    exactly when its endpoints are not yet connected by the kept ones. */
module Forests {
  import opened Common
  import opened Edges

  /** e joins a and b, in either orientation. */
  predicate Joins(e: Edge, a: int, b: int)
  {
    (e.source == a && e.target == b) || (e.source == b && e.target == a)
  }

  ghost predicate Linked(es: seq<Edge>, a: int, b: int)
  {
    exists e :: e in es && Joins(e, a, b)
  }

  /** p is a walk: consecutive ids are joined by an edge of es. */
  ghost predicate IsWalk(es: seq<Edge>, p: seq<int>)
  {
    |p| > 0 && forall i :: 0 <= i < |p| - 1 ==> Linked(es, p[i], p[i + 1])
  }

  ghost predicate Connected(es: seq<Edge>, x: int, y: int)
  {
    exists p :: IsWalk(es, p) && p[0] == x && p[|p| - 1] == y
  }

  /** Acyclic, stated edge by edge: no edge joins two ids that the edges
      before it already connect. */
  ghost predicate Acyclic(es: seq<Edge>)
  {
    forall i :: 0 <= i < |es| ==> !Connected(es[..i], es[i].source, es[i].target)
  }

  lemma ConnectedRefl(es: seq<Edge>, x: int)
    ensures Connected(es, x, x)
  {
    assert IsWalk(es, [x]);
  }

  lemma ConnectedStep(es: seq<Edge>, x: int, y: int, z: int)
    requires Connected(es, x, y) && Linked(es, y, z)
    ensures Connected(es, x, z)
  {
    var p :| IsWalk(es, p) && p[0] == x && p[|p| - 1] == y;
    var q := p + [z];
    forall i | 0 <= i < |q| - 1
      ensures Linked(es, q[i], q[i + 1])
    {
      if i < |p| - 1 {
        assert q[i] == p[i] && q[i + 1] == p[i + 1];
      }
    }
    assert IsWalk(es, q);
  }

  lemma ConnectedTrans(es: seq<Edge>, x: int, y: int, z: int)
    requires Connected(es, x, y) && Connected(es, y, z)
    ensures Connected(es, x, z)
  {
    var p :| IsWalk(es, p) && p[0] == x && p[|p| - 1] == y;
    var q :| IsWalk(es, q) && q[0] == y && q[|q| - 1] == z;
    var w := p + q[1..];
    forall i | 0 <= i < |w| - 1
      ensures Linked(es, w[i], w[i + 1])
    {
      if i < |p| - 1 {
        assert w[i] == p[i] && w[i + 1] == p[i + 1];
      } else {
        var j := i - |p| + 1;
        assert w[i] == q[j] && w[i + 1] == q[j + 1];
      }
    }
    assert IsWalk(es, w);
  }

  /** A walk stays a walk when an edge is appended to the list. */
  lemma ConnectedGrow(es: seq<Edge>, e: Edge, x: int, y: int)
    requires Connected(es, x, y)
    ensures Connected(es + [e], x, y)
  {
    var p :| IsWalk(es, p) && p[0] == x && p[|p| - 1] == y;
    forall i | 0 <= i < |p| - 1
      ensures Linked(es + [e], p[i], p[i + 1])
    {
      assert Linked(es, p[i], p[i + 1]);
      var f :| f in es && Joins(f, p[i], p[i + 1]);
      assert f in es + [e];
    }
    assert IsWalk(es + [e], p);
  }

  /** With no edges only the trivial walk exists. */
  lemma ConnectedEmpty(x: int, y: int)
    requires Connected([], x, y)
    ensures x == y
  {
    var p :| IsWalk([], p) && p[0] == x && p[|p| - 1] == y;
    if |p| > 1 {
      NothingLinkedInEmpty(p[0], p[1]);
      assert false;
    }
  }

  lemma NothingLinkedInEmpty(a: int, b: int)
    ensures !Linked([], a, b)
  {
  }

  /** The effect of appending e: a walk in es + [e] either avoids e, or
      reaches one end of e and leaves from the other. */
  ghost predicate ConnectedThrough(es: seq<Edge>, e: Edge, x: int, y: int)
  {
    || Connected(es, x, y)
    || (Connected(es, x, e.source) && Connected(es, e.target, y))
    || (Connected(es, x, e.target) && Connected(es, e.source, y))
  }

  lemma {:induction false} WalkSplit(es: seq<Edge>, e: Edge, p: seq<int>)
    requires IsWalk(es + [e], p)
    ensures ConnectedThrough(es, e, p[0], p[|p| - 1])
    decreases |p|
  {
    var x, y := p[0], p[|p| - 1];
    if |p| == 1 {
      ConnectedRefl(es, x);
    } else {
      var q := p[..|p| - 1];
      var y' := q[|q| - 1];
      forall i | 0 <= i < |q| - 1
        ensures Linked(es + [e], q[i], q[i + 1])
      {
        assert q[i] == p[i] && q[i + 1] == p[i + 1];
      }
      assert IsWalk(es + [e], q);
      WalkSplit(es, e, q);
      assert Linked(es + [e], y', y);
      var f :| f in es + [e] && Joins(f, y', y);
      ConnectedRefl(es, y);
      if f in es {
        assert Linked(es, y', y);
        if Connected(es, x, y') {
          ConnectedStep(es, x, y', y);
        } else if Connected(es, x, e.source) && Connected(es, e.target, y') {
          ConnectedStep(es, e.target, y', y);
        } else {
          ConnectedStep(es, e.source, y', y);
        }
      } else {
        assert f == e;
        if Connected(es, x, y') {
          // the walk reaches y' and crosses e
        } else if Connected(es, x, e.source) && Connected(es, e.target, y') {
          if y' == e.source {
            ConnectedTrans(es, x, e.source, y);
          }
        } else {
          if y' == e.target {
            ConnectedTrans(es, x, e.target, y);
          }
        }
      }
    }
  }

  /** Connectivity after appending e, in both directions. */
  lemma ConnectedAppend(es: seq<Edge>, e: Edge, x: int, y: int)
    ensures Connected(es + [e], x, y) <==> ConnectedThrough(es, e, x, y)
  {
    if Connected(es + [e], x, y) {
      var p :| IsWalk(es + [e], p) && p[0] == x && p[|p| - 1] == y;
      WalkSplit(es, e, p);
    }
    if ConnectedThrough(es, e, x, y) {
      var es' := es + [e];
      assert e in es';
      assert Linked(es', e.source, e.target) && Linked(es', e.target, e.source);
      if Connected(es, x, y) {
        ConnectedGrow(es, e, x, y);
      } else if Connected(es, x, e.source) && Connected(es, e.target, y) {
        ConnectedGrow(es, e, x, e.source);
        ConnectedGrow(es, e, e.target, y);
        ConnectedStep(es', x, e.source, e.target);
        ConnectedTrans(es', x, e.target, y);
      } else {
        ConnectedGrow(es, e, x, e.target);
        ConnectedGrow(es, e, e.source, y);
        ConnectedStep(es', x, e.target, e.source);
        ConnectedTrans(es', x, e.source, y);
      }
    }
  }

  /** Edges that point away from roots: the rank R rises along every edge,
      and no id is the target of two edges. */
  ghost predicate Ranked(es: seq<Edge>, R: int -> int)
  {
    && (forall i :: 0 <= i < |es| ==> R(es[i].source) < R(es[i].target))
    && (forall i, j :: 0 <= i < j < |es| ==> es[i].target != es[j].target)
  }

  /** A labelling of the ids by the roots of the first m ranked edges: ids
      they connect share a label, a label never outranks its id, and an id
      that none of them targets is its own label. */
  lemma {:induction false} RankedLabels(es: seq<Edge>, R: int -> int, m: nat) returns (L: int -> int)
    requires Ranked(es, R) && m <= |es|
    ensures forall x, y :: Connected(es[..m], x, y) ==> L(x) == L(y)
    ensures forall x :: R(L(x)) <= R(x)
    ensures forall c :: (forall i :: 0 <= i < m ==> es[i].target != c) ==> L(c) == c
  {
    if m == 0 {
      L := x => x;
      forall x, y | Connected(es[..0], x, y)
        ensures L(x) == L(y)
      {
        assert es[..0] == [];
        ConnectedEmpty(x, y);
      }
    } else {
      var L0 := RankedLabels(es, R, m - 1);
      var e := es[m - 1];
      assert L0(e.target) == e.target by {
        forall i | 0 <= i < m - 1
          ensures es[i].target != e.target
        {
        }
      }
      assert R(L0(e.source)) <= R(e.source) < R(e.target);
      L := x => if L0(x) == e.target then L0(e.source) else L0(x);
      assert es[..m] == es[..m - 1] + [e];
      forall x, y | Connected(es[..m], x, y)
        ensures L(x) == L(y)
      {
        ConnectedAppend(es[..m - 1], e, x, y);
      }
      forall c | forall i :: 0 <= i < m ==> es[i].target != c
        ensures L(c) == c
      {
        assert es[m - 1].target != c;
      }
    }
  }

  /** Ranked edges form a forest. */
  lemma RankedAcyclic(es: seq<Edge>, R: int -> int)
    requires Ranked(es, R)
    ensures Acyclic(es)
  {
    forall i | 0 <= i < |es|
      ensures !Connected(es[..i], es[i].source, es[i].target)
    {
      var L := RankedLabels(es, R, i);
      var e := es[i];
      assert L(e.target) == e.target by {
        forall j | 0 <= j < i
          ensures es[j].target != e.target
        {
        }
      }
      assert Connected(es[..i], e.source, e.target) ==> L(e.source) == L(e.target);
      assert R(L(e.source)) <= R(e.source) < R(e.target);
    }
  }

  /** The greedy filter that kruskal computes on its sorted edge list. */
  ghost function Greedy(q: seq<Edge>): seq<Edge>
  {
    if q == [] then []
    else
      var kept := Greedy(q[..|q| - 1]);
      var e := q[|q| - 1];
      if Connected(kept, e.source, e.target) then kept else kept + [e]
  }

  /** One more input edge: it is kept exactly when the edges kept so far do
      not already connect its endpoints. */
  lemma GreedyPrefix(q: seq<Edge>, i: nat)
    requires i < |q|
    ensures Greedy(q[..i + 1]) ==
      if Connected(Greedy(q[..i]), q[i].source, q[i].target) then Greedy(q[..i]) else Greedy(q[..i]) + [q[i]]
  {
    assert q[..i + 1][..i] == q[..i];
  }

  /** The kept edges form a forest. */
  lemma {:induction false} GreedyAcyclic(q: seq<Edge>)
    ensures Acyclic(Greedy(q))
  {
    if q != [] {
      var kept := Greedy(q[..|q| - 1]);
      GreedyAcyclic(q[..|q| - 1]);
      var e := q[|q| - 1];
      if !Connected(kept, e.source, e.target) {
        var r := kept + [e];
        forall i | 0 <= i < |r|
          ensures !Connected(r[..i], r[i].source, r[i].target)
        {
          if i < |kept| {
            assert r[..i] == kept[..i];
          } else {
            assert r[..i] == kept;
          }
        }
      }
    }
  }

  /** Only edges of the input are kept, each no more often than the input
      lists it. */
  lemma {:induction false} GreedyKeepsInputEdges(q: seq<Edge>)
    ensures forall e :: e in Greedy(q) ==> e in q
    ensures multiset(Greedy(q)) <= multiset(q)
    ensures |Greedy(q)| <= |q|
  {
    if q != [] {
      var front := q[..|q| - 1];
      GreedyKeepsInputEdges(front);
      assert q == front + [q[|q| - 1]];
      assert forall e :: e in front ==> e in q;
    }
  }

  /** Every input edge, kept or not, ends up with its endpoints connected by
      the kept edges: the forest spans what the input connects. */
  lemma {:induction false} GreedySpans(q: seq<Edge>)
    ensures forall e :: e in q ==> Connected(Greedy(q), e.source, e.target)
  {
    if q != [] {
      var q' := q[..|q| - 1];
      var kept := Greedy(q');
      GreedySpans(q');
      var e := q[|q| - 1];
      forall f | f in q
        ensures Connected(Greedy(q), f.source, f.target)
      {
        if !Connected(kept, e.source, e.target) {
          var r := kept + [e];
          if f in q' {
            ConnectedGrow(kept, e, f.source, f.target);
          } else {
            assert f == e;
            assert e in r && Joins(e, e.source, e.target);
            ConnectedRefl(r, e.source);
            ConnectedStep(r, e.source, e.source, e.target);
          }
        } else if f in q' {
        }
      }
    }
  }

  /** The vertices that kruskal adds, source then target of each kept edge,
      each id once in order of first appearance. */
  function Endpoints(es: seq<Edge>): (vs: seq<int>)
    ensures Distinct(vs)
  {
    if es == [] then []
    else
      var e := es[|es| - 1];
      Touch(Touch(Endpoints(es[..|es| - 1]), e.source), e.target)
  }

  ghost predicate Touches(es: seq<Edge>, x: int)
  {
    exists e :: e in es && (x == e.source || x == e.target)
  }

  lemma TouchesSnoc(es: seq<Edge>, e: Edge, x: int)
    ensures Touches(es + [e], x) <==> Touches(es, x) || x == e.source || x == e.target
  {
    if Touches(es, x) {
      var f :| f in es && (x == f.source || x == f.target);
      assert f in es + [e];
    }
    if x == e.source || x == e.target {
      assert e in es + [e];
    }
    if Touches(es + [e], x) {
      var f :| f in es + [e] && (x == f.source || x == f.target);
      if f != e {
        assert f in es;
      }
    }
  }

  lemma {:induction false} EndpointsMembers(es: seq<Edge>, x: int)
    ensures x in Endpoints(es) <==> Touches(es, x)
  {
    if es != [] {
      var es', e := es[..|es| - 1], es[|es| - 1];
      EndpointsMembers(es', x);
      SplitLast(es);
      TouchesSnoc(es', e, x);
      var inner := Touch(Endpoints(es'), e.source);
      assert Endpoints(es) == Touch(inner, e.target);
      TouchIn(Endpoints(es'), e.source, x);
      TouchIn(inner, e.target, x);
    }
  }
}
