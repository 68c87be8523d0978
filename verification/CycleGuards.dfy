/** The parent-pointer cycle guard of src/schema/tree.rs. */
module CycleGuards {
  import opened Results
  import opened Graphs
  import opened ParentChains

  datatype CycleError = CycleError(node: string, newParent: string)

  class CycleGuard {
    /** Child to parent; a node without an entry is a root. */
    var parentOf: map<string, string>

    ghost predicate Valid()
      reads this
    {
      Acyclic(Up(parentOf))
    }

    constructor ()
      ensures Valid() && parentOf == map[]
    {
      parentOf := map[];
      new;
      assert Up(parentOf) == {};
    }

    /** On every map on which the upward walk ends: true exactly when `node` is
        `newParent` or above it, which on an acyclic map is when re-pointing `node` at
        `newParent` would close a cycle. */
    method WouldCreateCycle(node: string, newParent: string) returns (r: bool)
      requires WalkEnds(parentOf, node, newParent)
      ensures r <==> Reach(Up(parentOf), newParent, node)
      ensures Valid() ==> (r <==> !Acyclic(Up(parentOf[node := newParent])))
    {
      if Valid() {
        ChainIsReach(parentOf, newParent, node);
        RepointAcyclic(parentOf, node, newParent);
      }
      ReachRefl(Up(parentOf), newParent);
      if node == newParent {
        return true;
      }
      var cur := newParent;
      ghost var i, seen := 0, {newParent};
      ghost var end: nat :| Ends(parentOf, node, newParent, end);
      while true
        invariant Position(parentOf, newParent, i) == Some(cur) && i <= end
        invariant Climbed(parentOf, node, newParent, cur, seen)
        decreases end - i
      {
        if cur == node {
          return true;
        }
        if cur !in parentOf {
          StopsShort(parentOf, node, newParent, cur, seen);
          return false;
        }
        ClimbOn(parentOf, node, newParent, cur, seen);
        cur := parentOf[cur];
        i, seen := i + 1, seen + {cur};
      }
    }

    method ApplyMove(node: string, newParent: string) returns (r: Result<(), CycleError>)
      requires Valid()
      modifies this
      ensures Valid() && parentOf == Moved(old(parentOf), node, newParent)
      ensures r.Ok? <==> Acyclic(Up(old(parentOf)[node := newParent]))
      ensures parentOf == if r.Ok? then old(parentOf)[node := newParent] else old(parentOf)
      ensures r.Err? ==> r.error == CycleError(node, newParent)
    {
      ghost var k := AcyclicWalkEnds(parentOf, newParent);
      assert Ends(parentOf, node, newParent, k);
      ChainIsReach(parentOf, newParent, node);
      var closes := WouldCreateCycle(node, newParent);
      if closes {
        return Err(CycleError(node, newParent));
      }
      parentOf := parentOf[node := newParent];
      return Ok(());
    }

    /** Unchecked binding: keeps the guard acyclic exactly when the move would
        have been accepted. */
    method RecordParentUnchecked(node: string, parent: string)
      modifies this
      ensures parentOf == old(parentOf)[node := parent]
      ensures old(Valid()) ==> (Valid() <==> node !in Chain(old(parentOf), parent))
    {
      if Valid() {
        RepointAcyclic(parentOf, node, parent);
      }
      parentOf := parentOf[node := parent];
    }

    method Detach(node: string)
      modifies this
      ensures parentOf == old(parentOf) - {node}
      ensures old(Valid()) ==> Valid()
    {
      if Valid() {
        UnlinkAcyclic(parentOf, node);
      }
      parentOf := parentOf - {node};
    }
  }

  /** The parent map after a move that the guard accepts or turns away. */
  ghost function Moved(parentOf: map<string, string>, node: string, newParent: string): map<string, string> {
    if node in Chain(parentOf, newParent) then parentOf else parentOf[node := newParent]
  }

  // ---------------------------------------------------------------------
  // When does the upward walk end at all?

  /** Where the walk from `x` stands after `k` steps; None once past a root. */
  ghost function Position(m: map<string, string>, x: string, k: nat): Option<string> {
    if k == 0 then Some(x)
    else match Position(m, x, k - 1)
      case None => None
      case Some(y) => if y in m then Some(m[y]) else None
  }

  ghost predicate Ends(m: map<string, string>, node: string, from: string, k: nat) {
    Position(m, from, k) == None || Position(m, from, k) == Some(node)
  }

  ghost predicate WalkEnds(m: map<string, string>, node: string, from: string) {
    exists k: nat :: Ends(m, node, from, k)
  }

  /** The walk has come from `from` to `cur` through `seen`, past no `node`. */
  ghost predicate Climbed(m: map<string, string>, node: string, from: string, cur: string, seen: set<string>) {
    && from in seen && cur in seen && Reach(Up(m), from, cur)
    && forall x :: x in seen && x != cur ==> x != node && x in m && m[x] in seen
  }

  lemma ClimbOn(m: map<string, string>, node: string, from: string, cur: string, seen: set<string>)
    requires Climbed(m, node, from, cur, seen) && cur in m && cur != node
    ensures Climbed(m, node, from, m[cur], seen + {m[cur]})
  {
    ReachEdge(Up(m), cur, m[cur]);
    ReachTrans(Up(m), from, cur, m[cur]);
  }

  lemma StopsShort(m: map<string, string>, node: string, from: string, root: string, seen: set<string>)
    requires Climbed(m, node, from, root, seen) && root !in m && root != node
    ensures !Reach(Up(m), from, node)
  {
    if Reach(Up(m), from, node) {
      ClosedTraps(Up(m), seen, from, node);
    }
  }

  lemma {:induction false} PositionShift(m: map<string, string>, x: string, k: nat)
    requires x in m
    ensures Position(m, x, k + 1) == Position(m, m[x], k)
  {
    if k > 0 {
      PositionShift(m, x, k - 1);
    }
  }

  lemma {:induction false} AcyclicWalkEnds(m: map<string, string>, x: string) returns (k: nat)
    requires Acyclic(Up(m))
    ensures Position(m, x, k) == None
    decreases |Chain(m, x)|
  {
    if x !in m {
      assert Position(m, x, 0) == Some(x);
      k := 1;
    } else {
      ChainUnfold(m, x);
      k := AcyclicWalkEnds(m, m[x]);
      PositionShift(m, x, k);
      k := k + 1;
    }
  }

  lemma {:induction false} ClosedWalkStays(m: map<string, string>, s: set<string>, x: string, k: nat)
    requires x in s && forall y :: y in s ==> y in m && m[y] in s
    ensures Position(m, x, k).Some? && Position(m, x, k).value in s
  {
    if k > 0 {
      ClosedWalkStays(m, s, x, k - 1);
    }
  }

  lemma {:induction false} OutsideString(s: set<string>) returns (x: string, bound: nat)
    ensures x !in s && forall y :: y in s ==> |y| < bound
  {
    if s == {} {
      x, bound := "", 0;
    } else {
      var y :| y in s;
      var _, b := OutsideString(s - {y});
      bound := if |y| < b then b else |y| + 1;
      x := seq(bound, _ => 'x');
      assert forall z :: z in s ==> z == y || z in s - {y};
    }
  }

  /** Every query ends exactly on acyclic parent maps: one unchecked binding that
      closes a cycle makes some later `would_create_cycle` loop for ever. */
  lemma EveryWalkEndsIffAcyclic(m: map<string, string>)
    ensures (forall node, from :: WalkEnds(m, node, from)) <==> Acyclic(Up(m))
  {
    if Acyclic(Up(m)) {
      forall node, from
        ensures WalkEnds(m, node, from)
      {
        var k := AcyclicWalkEnds(m, from);
        assert Ends(m, node, from, k);
      }
    } else {
      var e :| e in Up(m) && Reach(Up(m), e.1, e.0);
      var p :| PathFromTo(Up(m), p, e.1, e.0);
      var s := set y | y in p;
      forall y | y in s
        ensures y in m && m[y] in s
      {
        var i :| 0 <= i < |p| && p[i] == y;
        if i < |p| - 1 {
          assert (p[i], p[i + 1]) in Up(m);
        } else {
          assert m[y] == p[0];
        }
      }
      var node, _ := OutsideString(m.Keys);
      forall k: nat
        ensures !Ends(m, node, e.0, k)
      {
        ClosedWalkStays(m, s, e.0, k);
      }
      assert !WalkEnds(m, node, e.0);
    }
  }

  /** One walk ends exactly when it comes to a root or to the node asked for. */
  lemma WalkEndsIff(m: map<string, string>, node: string, from: string)
    ensures WalkEnds(m, node, from) <==> Reach(Up(m), from, node) || exists r :: r !in m && Reach(Up(m), from, r)
  {
    if k: nat :| Ends(m, node, from, k) {
      WalkReaches(m, node, from, k);
    }
    if Reach(Up(m), from, node) {
      ReachedInTurn(m, from, node, node);
    } else if r :| r !in m && Reach(Up(m), from, r) {
      ReachedInTurn(m, from, r, node);
    }
  }

  lemma {:induction false} WalkReaches(m: map<string, string>, node: string, x: string, k: nat)
    requires Ends(m, node, x, k)
    ensures Reach(Up(m), x, node) || exists r :: r !in m && Reach(Up(m), x, r)
    decreases k
  {
    ReachRefl(Up(m), x);
    if x in m && x != node {
      PositionShift(m, x, k - 1);
      WalkReaches(m, node, m[x], k - 1);
      ReachEdge(Up(m), x, m[x]);
      if Reach(Up(m), m[x], node) {
        ReachTrans(Up(m), x, m[x], node);
      } else {
        var r :| r !in m && Reach(Up(m), m[x], r);
        ReachTrans(Up(m), x, m[x], r);
      }
    }
  }

  lemma ReachedInTurn(m: map<string, string>, x: string, y: string, node: string)
    requires Reach(Up(m), x, y) && (y == node || y !in m)
    ensures WalkEnds(m, node, x)
  {
    var p :| PathFromTo(Up(m), p, x, y);
    PathPositions(m, p, |p| - 1);
    assert y !in m ==> Position(m, x, |p|) == None;
    assert Ends(m, node, x, if y == node then |p| - 1 else |p|);
  }

  lemma {:induction false} PathPositions(m: map<string, string>, p: seq<string>, k: nat)
    requires IsPath(Up(m), p) && k < |p|
    ensures Position(m, p[0], k) == Some(p[k])
  {
    if k > 0 {
      PathPositions(m, p, k - 1);
      assert (p[k - 1], p[k]) in Up(m);
    }
  }

  /** Two unchecked bindings, and a query that never ends. */
  lemma UncheckedCycleLoops()
    ensures var m: map<string, string> := map[]["a" := "b"]["b" := "a"]; !WalkEnds(m, "c", "a")
  {
    var m: map<string, string> := map[]["a" := "b"]["b" := "a"];
    forall k: nat
      ensures !Ends(m, "c", "a", k)
    {
      ClosedWalkStays(m, {"a", "b"}, "a", k);
    }
  }
}
