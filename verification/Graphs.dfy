/** Directed graphs as sets of edges, with the reachability facts that the
    cycle checks of src/schema, src/observability and src/tree_adapter are
    measured against. */
module Graphs {

  ghost predicate IsPath<T>(g: set<(T, T)>, p: seq<T>) {
    && |p| > 0
    && forall i {:trigger p[i]} :: 0 <= i < |p| - 1 ==> (p[i], p[i + 1]) in g
  }

  ghost predicate PathFromTo<T>(g: set<(T, T)>, p: seq<T>, x: T, y: T) {
    IsPath(g, p) && p[0] == x && p[|p| - 1] == y
  }

  /** `y` can be reached from `x` along zero or more edges. */
  ghost predicate Reach<T(!new)>(g: set<(T, T)>, x: T, y: T) {
    exists p: seq<T> :: PathFromTo(g, p, x, y)
  }

  /** No edge can be closed into a directed cycle. */
  ghost predicate Acyclic<T(!new)>(g: set<(T, T)>) {
    forall e :: e in g ==> !Reach(g, e.1, e.0)
  }

  ghost function Reverse<T>(g: set<(T, T)>): set<(T, T)> {
    set e | e in g :: (e.1, e.0)
  }

  lemma ReachRefl<T(!new)>(g: set<(T, T)>, x: T)
    ensures Reach(g, x, x)
  {
    assert PathFromTo(g, [x], x, x);
  }

  lemma ReachTrans<T(!new)>(g: set<(T, T)>, x: T, y: T, z: T)
    requires Reach(g, x, y) && Reach(g, y, z)
    ensures Reach(g, x, z)
  {
    var p :| PathFromTo(g, p, x, y);
    var q :| PathFromTo(g, q, y, z);
    var r := p + q[1..];
    forall i | 0 <= i < |r| - 1
      ensures (r[i], r[i + 1]) in g
    {
      if i < |p| - 1 {
        assert r[i] == p[i];
      } else {
        assert r[i] == q[i - (|p| - 1)] && r[i + 1] == q[i - (|p| - 1) + 1];
      }
    }
    assert PathFromTo(g, r, x, z);
  }

  lemma ReachEdge<T(!new)>(g: set<(T, T)>, x: T, y: T)
    requires (x, y) in g
    ensures Reach(g, x, y)
  {
    assert PathFromTo(g, [x, y], x, y);
  }

  lemma ReachMono<T(!new)>(g: set<(T, T)>, h: set<(T, T)>, x: T, y: T)
    requires g <= h && Reach(g, x, y)
    ensures Reach(h, x, y)
  {
    var p :| PathFromTo(g, p, x, y);
    assert PathFromTo(h, p, x, y);
  }

  lemma AcyclicMono<T(!new)>(g: set<(T, T)>, h: set<(T, T)>)
    requires g <= h && Acyclic(h)
    ensures Acyclic(g)
  {
    forall e | e in g
      ensures !Reach(g, e.1, e.0)
    {
      if Reach(g, e.1, e.0) {
        ReachMono(g, h, e.1, e.0);
      }
    }
  }

  /** A non-trivial reachability starts with an edge. */
  lemma ReachFirst<T(!new)>(g: set<(T, T)>, x: T, y: T) returns (z: T)
    requires Reach(g, x, y) && x != y
    ensures (x, z) in g && Reach(g, z, y)
  {
    var p :| PathFromTo(g, p, x, y);
    z := p[1];
    assert PathFromTo(g, p[1..], z, y);
  }

  /** A set closed under the edges traps everything reachable from it. */
  lemma {:induction false} ClosedTraps<T(!new)>(g: set<(T, T)>, s: set<T>, x: T, y: T)
    requires forall e :: e in g && e.0 in s ==> e.1 in s
    requires x in s && Reach(g, x, y)
    ensures y in s
  {
    var p :| PathFromTo(g, p, x, y);
    ClosedTrapsPath(g, s, p);
  }

  lemma {:induction false} ClosedTrapsPath<T>(g: set<(T, T)>, s: set<T>, p: seq<T>)
    requires forall e :: e in g && e.0 in s ==> e.1 in s
    requires IsPath(g, p) && p[0] in s
    ensures p[|p| - 1] in s
  {
    if |p| > 1 {
      assert (p[0], p[1]) in g;
      ClosedTrapsPath(g, s, p[1..]);
    }
  }

  /** Edges that leave `u` are not needed to arrive at `u`. */
  lemma {:induction false} ArriveWithoutLeaving<T(!new)>(g: set<(T, T)>, h: set<(T, T)>, x: T, u: T)
    requires forall e :: e in g && e.0 != u ==> e in h
    requires Reach(g, x, u)
    ensures Reach(h, x, u)
  {
    var p :| PathFromTo(g, p, x, u);
    ArriveWithoutLeavingPath(g, h, p);
  }

  lemma {:induction false} ArriveWithoutLeavingPath<T(!new)>(g: set<(T, T)>, h: set<(T, T)>, p: seq<T>)
    requires IsPath(g, p)
    requires forall e :: e in g && e.0 != p[|p| - 1] ==> e in h
    ensures Reach(h, p[0], p[|p| - 1])
  {
    if p[0] == p[|p| - 1] {
      ReachRefl(h, p[0]);
    } else {
      assert (p[0], p[1]) in g;
      ArriveWithoutLeavingPath(g, h, p[1..]);
      ReachEdge(h, p[0], p[1]);
      ReachTrans(h, p[0], p[1], p[|p| - 1]);
    }
  }

  lemma {:induction false} ReversePath<T>(g: set<(T, T)>, p: seq<T>) returns (q: seq<T>)
    requires IsPath(g, p)
    ensures PathFromTo(Reverse(g), q, p[|p| - 1], p[0])
  {
    q := seq(|p|, i requires 0 <= i < |p| => p[|p| - 1 - i]);
    forall i | 0 <= i < |q| - 1
      ensures (q[i], q[i + 1]) in Reverse(g)
    {
      var j := |p| - 2 - i;
      assert (p[j], p[j + 1]) in g;
    }
  }

  lemma ReachReverse<T(!new)>(g: set<(T, T)>, x: T, y: T)
    ensures Reach(Reverse(g), y, x) <==> Reach(g, x, y)
  {
    if Reach(g, x, y) {
      var p :| PathFromTo(g, p, x, y);
      var q := ReversePath(g, p);
    }
    if Reach(Reverse(g), y, x) {
      var p :| PathFromTo(Reverse(g), p, y, x);
      var q := ReversePath(Reverse(g), p);
      assert Reverse(Reverse(g)) == g;
    }
  }

  /** A set closed against the edges holds every ancestor of its members. */
  lemma ClosedUpward<T(!new)>(g: set<(T, T)>, s: set<T>, x: T, y: T)
    requires forall e :: e in g && e.1 in s ==> e.0 in s
    requires y in s
    ensures Reach(g, x, y) ==> x in s
  {
    if Reach(g, x, y) {
      ReachReverse(g, x, y);
      ClosedTraps(Reverse(g), s, y, x);
    }
  }

  /** Edges that enter `u` are not needed to leave `u`. */
  lemma LeaveWithoutArriving<T(!new)>(g: set<(T, T)>, h: set<(T, T)>, u: T, y: T)
    requires forall e :: e in g && e.1 != u ==> e in h
    requires Reach(g, u, y)
    ensures Reach(h, u, y)
  {
    ReachReverse(g, u, y);
    ReachReverse(h, u, y);
    ArriveWithoutLeaving(Reverse(g), Reverse(h), y, u);
  }

  /** The law behind every incremental cycle check. */
  lemma AddEdge<T(!new)>(g: set<(T, T)>, u: T, v: T)
    ensures Acyclic(g + {(u, v)}) <==> Acyclic(g) && !Reach(g, v, u)
  {
    var h := g + {(u, v)};
    if Acyclic(h) {
      AcyclicMono(g, h);
      assert (u, v) in h;
      if Reach(g, v, u) {
        ReachMono(g, h, v, u);
      }
    }
    if Acyclic(g) && !Reach(g, v, u) {
      forall e | e in h
        ensures !Reach(h, e.1, e.0)
      {
        if Reach(h, e.1, e.0) {
          AddEdgeCloses(g, u, v, e);
        }
      }
    }
  }

  lemma AddEdgeCloses<T(!new)>(g: set<(T, T)>, u: T, v: T, e: (T, T))
    requires Acyclic(g) && e in g + {(u, v)}
    requires Reach(g + {(u, v)}, e.1, e.0)
    ensures Reach(g, v, u)
  {
    var h := g + {(u, v)};
    if e == (u, v) {
      ArriveWithoutLeaving(h, g, v, u);
    } else {
      var p :| PathFromTo(h, p, e.1, e.0);
      if i :| 0 <= i < |p| - 1 && (p[i], p[i + 1]) == (u, v) {
        // e.0 -> e.1 ~> u -> v ~> e.0, so v ~> u
        assert PathFromTo(h, p[..i + 1], e.1, u);
        assert PathFromTo(h, p[i + 1..], v, e.0);
        ReachEdge(h, e.0, e.1);
        ReachTrans(h, v, e.0, e.1);
        ReachTrans(h, v, e.1, u);
        ArriveWithoutLeaving(h, g, v, u);
      } else {
        forall i | 0 <= i < |p| - 1
          ensures (p[i], p[i + 1]) in g
        {
          assert (p[i], p[i + 1]) in h;
        }
        assert PathFromTo(g, p, e.1, e.0);
        assert false;
      }
    }
  }

  /** What one more edge makes reachable. */
  lemma ReachAddEdge<T(!new)>(g: set<(T, T)>, u: T, v: T, x: T, y: T)
    ensures Reach(g + {(u, v)}, x, y) <==> Reach(g, x, y) || (Reach(g, x, u) && Reach(g, v, y))
  {
    var h := g + {(u, v)};
    if Reach(g, x, y) {
      ReachMono(g, h, x, y);
    }
    if Reach(g, x, u) && Reach(g, v, y) {
      ReachMono(g, h, x, u);
      ReachEdge(h, u, v);
      ReachMono(g, h, v, y);
      ReachTrans(h, x, u, v);
      ReachTrans(h, x, v, y);
    }
    if Reach(h, x, y) {
      var p :| PathFromTo(h, p, x, y);
      if i :| 0 <= i < |p| - 1 && (p[i], p[i + 1]) == (u, v) {
        assert PathFromTo(h, p[..i + 1], x, u);
        assert PathFromTo(h, p[i + 1..], v, y);
        ArriveWithoutLeaving(h, g, x, u);
        LeaveWithoutArriving(h, g, v, y);
      } else {
        forall i | 0 <= i < |p| - 1
          ensures (p[i], p[i + 1]) in g
        {
          assert (p[i], p[i + 1]) in h;
        }
        assert PathFromTo(g, p, x, y);
      }
    }
  }

  /** Edge `e` leads through `g` to edge `f`. */
  ghost function Feeds<T(!new)>(g: set<(T, T)>, added: set<(T, T)>): set<((T, T), (T, T))> {
    set e, f | e in added && f in added && Reach(g, e.1, f.0) :: (e, f)
  }

  /** Many edges at once: they close a cycle exactly when they feed each other in a
      circle, which no check of one or two of them can tell. */
  lemma AddEdges<T(!new)>(g: set<(T, T)>, added: set<(T, T)>)
    requires Acyclic(g)
    ensures Acyclic(g + added) <==> Acyclic(Feeds(g, added))
  {
    if !Acyclic(Feeds(g, added)) {
      var p :| p in Feeds(g, added) && Reach(Feeds(g, added), p.1, p.0);
      FedCircleCloses(g, added, p.0, p.1);
    }
    if !Acyclic(g + added) {
      var e :| e in g + added && Reach(g + added, e.1, e.0);
      CycleIsFed(g, added, e);
    }
  }

  lemma FedCircleCloses<T(!new)>(g: set<(T, T)>, added: set<(T, T)>, e: (T, T), f: (T, T))
    requires (e, f) in Feeds(g, added) && Reach(Feeds(g, added), f, e)
    ensures !Acyclic(g + added)
  {
    var h := g + added;
    var s := set x | x in added && Reach(h, f.1, x.1);
    ReachRefl(h, f.1);
    forall p | p in Feeds(g, added) && p.0 in s
      ensures p.1 in s
    {
      FeedIsWalk(g, added, p);
      ReachEdge(h, p.1.0, p.1.1);
      ReachTrans(h, p.0.1, p.1.0, p.1.1);
      ReachTrans(h, f.1, p.0.1, p.1.1);
    }
    ClosedTraps(Feeds(g, added), s, f, e);
    FeedIsWalk(g, added, (e, f));
    ReachTrans(h, f.1, e.1, f.0);
    assert f in h;
  }

  lemma FeedIsWalk<T(!new)>(g: set<(T, T)>, added: set<(T, T)>, p: ((T, T), (T, T)))
    requires p in Feeds(g, added)
    ensures p.1 in added && Reach(g + added, p.0.1, p.1.0)
  {
    ReachMono(g, g + added, p.0.1, p.1.0);
  }

  /** A walk over old and new edges stays on the old ones, or goes from a first new
      edge to a last one by way of edges that feed each other. */
  ghost predicate Routed<T(!new)>(g: set<(T, T)>, added: set<(T, T)>, x: T, y: T) {
    Reach(g, x, y) || exists a, b :: Via(g, added, x, a, b, y)
  }

  ghost predicate Via<T(!new)>(g: set<(T, T)>, added: set<(T, T)>, x: T, a: (T, T), b: (T, T), y: T) {
    a in added && b in added && Reach(g, x, a.0) && Reach(Feeds(g, added), a, b) && Reach(g, b.1, y)
  }

  lemma RoutedOn<T(!new)>(g: set<(T, T)>, added: set<(T, T)>, x: T, e: (T, T))
    requires e in g + added && Routed(g, added, x, e.0)
    ensures Routed(g, added, x, e.1)
  {
    if e in g {
      ReachEdge(g, e.0, e.1);
      if Reach(g, x, e.0) {
        ReachTrans(g, x, e.0, e.1);
      } else {
        var a, b :| Via(g, added, x, a, b, e.0);
        ReachTrans(g, b.1, e.0, e.1);
        assert Via(g, added, x, a, b, e.1);
      }
    } else {
      ReachRefl(g, e.1);
      if Reach(g, x, e.0) {
        ReachRefl(Feeds(g, added), e);
        assert Via(g, added, x, e, e, e.1);
      } else {
        var a, b :| Via(g, added, x, a, b, e.0);
        ReachEdge(Feeds(g, added), b, e);
        ReachTrans(Feeds(g, added), a, b, e);
        assert Via(g, added, x, a, e, e.1);
      }
    }
  }

  lemma ReachIsRouted<T(!new)>(g: set<(T, T)>, added: set<(T, T)>, x: T, y: T)
    requires Reach(g + added, x, y)
    ensures Routed(g, added, x, y)
  {
    var ends := {x} + set e | e in g + added :: e.1;
    var s := set z | z in ends && Routed(g, added, x, z);
    ReachRefl(g, x);
    forall e | e in g + added && e.0 in s
      ensures e.1 in s
    {
      RoutedOn(g, added, x, e);
      assert e.1 in ends;
    }
    ClosedTraps(g + added, s, x, y);
  }

  lemma CycleIsFed<T(!new)>(g: set<(T, T)>, added: set<(T, T)>, e: (T, T))
    requires Acyclic(g) && e in g + added && Reach(g + added, e.1, e.0)
    ensures !Acyclic(Feeds(g, added))
  {
    ReachIsRouted(g, added, e.1, e.0);
    if Reach(g, e.1, e.0) {
      ReachRefl(Feeds(g, added), e);
      assert (e, e) in Feeds(g, added);
    } else {
      var a, b :| Via(g, added, e.1, a, b, e.0);
      if e in g {
        ReachEdge(g, e.0, e.1);
        ReachTrans(g, b.1, e.0, e.1);
        ReachTrans(g, b.1, e.1, a.0);
        assert (b, a) in Feeds(g, added);
      } else {
        ReachEdge(Feeds(g, added), b, e);
        ReachTrans(Feeds(g, added), a, b, e);
        assert (e, a) in Feeds(g, added);
      }
    }
  }

  /** Two edges, neither of which closes a cycle alone. */
  lemma AddTwoEdges<T(!new)>(g: set<(T, T)>, u1: T, v1: T, u2: T, v2: T)
    requires Acyclic(g) && !Reach(g, v1, u1) && !Reach(g, v2, u2)
    ensures Acyclic(g + {(u1, v1)} + {(u2, v2)}) <==> !(Reach(g, v1, u2) && Reach(g, v2, u1))
  {
    AddEdge(g, u1, v1);
    AddEdge(g + {(u1, v1)}, u2, v2);
    ReachAddEdge(g, u1, v1, v2, u2);
  }

  /** Acyclic means: no closed walk of at least one edge. */
  lemma AcyclicIffNoClosedWalk<T(!new)>(g: set<(T, T)>)
    ensures Acyclic(g) <==> !exists p: seq<T> :: IsPath(g, p) && |p| > 1 && p[0] == p[|p| - 1]
  {
    if p: seq<T> :| IsPath(g, p) && |p| > 1 && p[0] == p[|p| - 1] {
      assert (p[0], p[1]) in g;
      assert PathFromTo(g, p[1..], p[1], p[0]);
    }
    if !Acyclic(g) {
      var e :| e in g && Reach(g, e.1, e.0);
      var q :| PathFromTo(g, q, e.1, e.0);
      var p := [e.0] + q;
      forall i | 0 <= i < |p| - 1
        ensures (p[i], p[i + 1]) in g
      {
        if i > 0 {
          assert p[i] == q[i - 1] && p[i + 1] == q[i - 1 + 1];
        }
      }
      assert IsPath(g, p) && |p| > 1 && p[0] == p[|p| - 1];
    }
  }

  ghost predicate Distinct<T>(s: seq<T>) {
    forall i, j :: 0 <= i < j < |s| ==> s[i] != s[j]
  }

  /** `order` lists nodes so that every edge leads to an earlier one. */
  ghost predicate FinishOrder<T>(g: set<(T, T)>, order: seq<T>) {
    && Distinct(order)
    && forall e, i :: e in g && 0 <= i < |order| && order[i] == e.0 ==> e.1 in order[..i]
  }

  lemma FinishOrderAcyclic<T(!new)>(g: set<(T, T)>, order: seq<T>)
    requires FinishOrder(g, order)
    requires forall e :: e in g ==> e.0 in order
    ensures Acyclic(g)
  {
    forall e | e in g
      ensures !Reach(g, e.1, e.0)
    {
      var i :| 0 <= i < |order| && order[i] == e.0;
      var s := set x | x in order[..i];
      forall f | f in g && f.0 in s
        ensures f.1 in s
      {
        var j :| 0 <= j < i && order[j] == f.0;
        assert f.1 in order[..j];
      }
      if Reach(g, e.1, e.0) {
        ClosedTraps(g, s, e.1, e.0);
        assert false;
      }
    }
  }
}
