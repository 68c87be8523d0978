/** Reparenting against the graph store (src/schema/tree.rs): the upward
    breadth-first pre-check, and what accepted moves do to acyclicity. */
module TreeMoves {
  import opened Results
  import opened Graphs

  const TREE_EDGE_LABEL := "CHILD"

  /** Source key, destination key, label. */
  type EdgeKey = (string, string, string)

  datatype Edge = Edge(src: nat, dst: nat, lbl: string)

  type Edges = map<nat, Edge>

  datatype MoveError =
    | UnknownNode(id: nat)
    | UnknownParent(id: nat)
    | CreatesCycle(node: nat, newParent: nat)

  /** Parent-to-child pairs of the edges whose label is among `lbls`; None is all of them. */
  ghost function Links(edges: Edges, lbl: Option<string>): (g: set<(nat, nat)>)
    ensures forall i :: i in edges && Carries(edges[i], lbl) ==> (edges[i].src, edges[i].dst) in g
    ensures forall e :: e in g ==> exists i :: i in edges && Carries(edges[i], lbl) && e == (edges[i].src, edges[i].dst)
  {
    set i | i in edges && Carries(edges[i], lbl) :: (edges[i].src, edges[i].dst)
  }

  ghost predicate Carries(e: Edge, lbl: Option<string>) {
    lbl.None? || e.lbl == lbl.value
  }

  ghost function AllLinks(edges: Edges): set<(nat, nat)> {
    Links(edges, None)
  }

  ghost function ChildLinks(edges: Edges): set<(nat, nat)> {
    Links(edges, Some(TREE_EDGE_LABEL))
  }

  /** The edge an accepted move takes away: some old-parent CHILD edge, if there is one. */
  ghost predicate Dropped(edges: Edges, node: nat, oldParent: nat, drop: set<nat>) {
    var olds := set i | i in edges && edges[i] == Edge(oldParent, node, TREE_EDGE_LABEL);
    if olds == {} then drop == {} else exists i :: i in olds && drop == {i}
  }

  /** `after` is `before` with one old CHILD edge gone and one new CHILD edge under a fresh id. */
  ghost predicate Reparented(before: Edges, after: Edges, node: nat, newParent: nat, drop: set<nat>, id: nat) {
    id !in before && after == (before - drop)[id := Edge(newParent, node, TREE_EDGE_LABEL)]
  }

  ghost predicate MoveDone(before: Edges, after: Edges, node: nat, oldParent: nat, newParent: nat) {
    exists drop, id :: Dropped(before, node, oldParent, drop) && Reparented(before, after, node, newParent, drop, id)
  }

  class Database {
    var nodes: set<nat>
    var edges: Edges
    /** Ids at and above this one have never been handed out. */
    var nextEdge: nat

    ghost predicate Valid()
      reads this
    {
      forall i :: i in edges ==> i < nextEdge
    }

    /** The parents of `cur` over edges of every label, with the edge ids. */
    method Incoming(cur: nat) returns (out: seq<(nat, nat)>)
      ensures forall p :: p in out <==> p.1 in edges && edges[p.1].src == p.0 && edges[p.1].dst == cur
    {
      out := [];
      var rest := edges.Keys;
      while rest != {}
        invariant rest <= edges.Keys
        invariant forall p :: p in out <==> p.1 in edges.Keys - rest && edges[p.1].src == p.0 && edges[p.1].dst == cur
      {
        var i :| i in rest;
        rest := rest - {i};
        if edges[i].dst == cur {
          out := out + [(edges[i].src, i)];
        }
      }
    }

    /** The inner loop: stop at `node`, otherwise queue the parents seen for the first time. */
    method VisitParents(node: nat, cur: nat, queueIn: seq<nat>, visitedIn: set<nat>,
                        ghost g: set<(nat, nat)>)
      returns (found: bool, queue: seq<nat>, visited: set<nat>)
      requires g == AllLinks(edges)
      ensures found <==> (node, cur) in g
      ensures queueIn <= queue && visitedIn <= visited && (visited == visitedIn ==> queue == queueIn)
      ensures forall x :: x in visited ==> x in visitedIn || (x in queue && (x, cur) in g)
      ensures forall x :: x in queue ==> x in queueIn || x in visited
      ensures !found ==> forall e :: e in g && e.1 == cur ==> e.0 in visited
    {
      queue, visited := queueIn, visitedIn;
      var parents := Incoming(cur);
      for k := 0 to |parents|
        invariant queueIn <= queue && visitedIn <= visited && (visited == visitedIn ==> queue == queueIn)
        invariant forall x :: x in visited ==> x in visitedIn || (x in queue && (x, cur) in AllLinks(edges))
        invariant forall x :: x in queue ==> x in queueIn || x in visited
        invariant forall j :: 0 <= j < k ==> parents[j].0 in visited && parents[j].0 != node
      {
        var (parent, id) := parents[k];
        assert parents[k] in parents && Carries(edges[id], None);
        if parent == node {
          return true, queue, visited;
        }
        if parent !in visited {
          visited := visited + {parent};
          queue := queue + [parent];
        }
      }
      forall e | e in AllLinks(edges) && e.1 == cur
        ensures e.0 in visited && e.0 != node
      {
        var i :| i in edges && Carries(edges[i], None) && e == (edges[i].src, edges[i].dst);
        assert (e.0, i) in parents;
      }
      found := false;
    }

    /** Everything in `visited` leads to `newParent`; what is not queued is done. */
    ghost predicate Explored(g: set<(nat, nat)>, node: nat, newParent: nat, queue: seq<nat>, visited: set<nat>) {
      && newParent in visited && node !in visited
      && (forall x :: x in visited ==> Reach(g, x, newParent))
      && (forall x :: x in queue ==> x in visited)
      && (forall e :: e in g && e.1 in visited && e.1 !in queue ==> e.0 in visited)
    }

    /** One turn: the head of the queue is done, its new parents are queued. */
    lemma ExploredTurn(g: set<(nat, nat)>, node: nat, newParent: nat, queue: seq<nat>, visited: set<nat>,
                       queue': seq<nat>, visited': set<nat>)
      requires queue != [] && Explored(g, node, newParent, queue, visited)
      requires queue[1..] <= queue' && visited <= visited' && (node, queue[0]) !in g
      requires forall x :: x in visited' ==> x in visited || (x in queue' && (x, queue[0]) in g)
      requires forall x :: x in queue' ==> x in queue[1..] || x in visited'
      requires forall e :: e in g && e.1 == queue[0] ==> e.0 in visited'
      ensures Explored(g, node, newParent, queue', visited')
    {
      var cur := queue[0];
      assert cur in queue;
      forall x | x in visited'
        ensures Reach(g, x, newParent)
      {
        if x !in visited {
          ReachEdge(g, x, cur);
          ReachTrans(g, x, cur, newParent);
        }
      }
      forall x | x in visited && x != cur && x !in queue'
        ensures x !in queue
      {
        assert forall k :: 0 <= k < |queue[1..]| ==> queue'[k] == queue[1..][k];
      }
    }

    /** True exactly when `node` is `newParent` or one of its ancestors over all labels. */
    method WouldCreateCycleInTx(node: nat, newParent: nat) returns (r: bool)
      ensures r <==> Reach(AllLinks(edges), node, newParent)
    {
      ghost var g := AllLinks(edges);
      ReachRefl(g, newParent);
      if node == newParent {
        return true;
      }
      var queue := [newParent];
      var visited := {newParent};
      ghost var universe := {newParent} + set e | e in g :: e.0;
      while queue != []
        invariant Explored(g, node, newParent, queue, visited) && visited <= universe
        decreases universe - visited, |queue|
      {
        var cur := queue[0];
        assert cur in queue;
        ghost var visitedWas, queueWas := visited, queue;
        r, queue, visited := VisitParents(node, cur, queue[1..], visited, g);
        if r {
          ReachEdge(g, node, cur);
          ReachTrans(g, node, cur, newParent);
          return true;
        }
        ExploredTurn(g, node, newParent, queueWas, visitedWas, queue, visited);
        assert visited != visitedWas ==> universe - visited < universe - visitedWas;
      }
      ClosedUpward(g, visited, node, newParent);
      return false;
    }

    method SyncTreeMove(node: nat, oldParent: nat, newParent: nat) returns (r: Result<(), MoveError>)
      requires Valid()
      modifies this
      ensures Valid() && nodes == old(nodes)
      ensures r == old(Verdict(nodes, edges, node, oldParent, newParent))
      ensures r == Err(UnknownNode(node)) <==> node !in nodes
      ensures r == Err(UnknownParent(newParent)) <==> node in nodes && newParent !in nodes
      ensures r == Err(CreatesCycle(node, newParent)) <==>
                node in nodes && newParent in nodes && oldParent != newParent && Reach(AllLinks(old(edges)), node, newParent)
      ensures r.Err? ==> r.error in {UnknownNode(node), UnknownParent(newParent), CreatesCycle(node, newParent)}
      ensures r.Err? || oldParent == newParent ==> edges == old(edges)
      ensures r.Ok? && oldParent != newParent ==> MoveDone(old(edges), edges, node, oldParent, newParent)
    {
      if node !in nodes {
        return Err(UnknownNode(node));
      }
      if newParent !in nodes {
        return Err(UnknownParent(newParent));
      }
      if oldParent == newParent {
        return Ok(());
      }
      var closes := WouldCreateCycleInTx(node, newParent);
      if closes {
        return Err(CreatesCycle(node, newParent));
      }
      var olds := set i | i in edges && edges[i] == Edge(oldParent, node, TREE_EDGE_LABEL);
      ghost var drop := {};
      var id := nextEdge;
      if olds != {} {
        var eid :| eid in olds;
        edges := edges - {eid};
        drop := {eid};
      }
      edges := edges[id := Edge(newParent, node, TREE_EDGE_LABEL)];
      nextEdge := nextEdge + 1;
      assert Dropped(old(edges), node, oldParent, drop);
      assert Reparented(old(edges), edges, node, newParent, drop, id);
      return Ok(());
    }
  }

  /** How a move is answered, in the order of the checks. */
  ghost function Verdict(nodes: set<nat>, edges: Edges, node: nat, oldParent: nat, newParent: nat): Result<(), MoveError> {
    if node !in nodes then Err(UnknownNode(node))
    else if newParent !in nodes then Err(UnknownParent(newParent))
    else if oldParent != newParent && Reach(AllLinks(edges), node, newParent) then Err(CreatesCycle(node, newParent))
    else Ok(())
  }

  lemma ReparentedLinks(before: Edges, after: Edges, node: nat, oldParent: nat, newParent: nat,
                        drop: set<nat>, id: nat, lbl: Option<string>)
    requires lbl.None? || lbl.value == TREE_EDGE_LABEL
    requires Dropped(before, node, oldParent, drop) && Reparented(before, after, node, newParent, drop, id)
    ensures var rest := Links(before - drop, lbl);
            && Links(after, lbl) == rest + {(newParent, node)}
            && rest <= Links(before, lbl)
            && forall e :: e in Links(before, lbl) && e != (oldParent, node) ==> e in rest
  {
    var rest := Links(before - drop, lbl);
    assert after[id] == Edge(newParent, node, TREE_EDGE_LABEL);
    forall e | e in rest + {(newParent, node)}
      ensures e in Links(after, lbl)
    {
      if e in rest {
        var i :| i in before - drop && Carries(before[i], lbl) && e == (before[i].src, before[i].dst);
        assert i in after && after[i] == before[i];
      }
    }
    forall e | e in Links(after, lbl)
      ensures e in rest + {(newParent, node)}
    {
      var i :| i in after && Carries(after[i], lbl) && e == (after[i].src, after[i].dst);
      if i != id {
        assert i in before - drop && (before - drop)[i] == after[i];
      }
    }
    forall e | e in Links(before, lbl) && e != (oldParent, node)
      ensures e in rest
    {
      var i :| i in before && Carries(before[i], lbl) && e == (before[i].src, before[i].dst);
      assert i in before - drop;
    }
    forall e | e in rest
      ensures e in Links(before, lbl)
    {
      var i :| i in before - drop && Carries(before[i], lbl) && e == (before[i].src, before[i].dst);
    }
  }

  /** Carried out on an acyclic graph, a move leaves it acyclic exactly when the
      new parent was not below the node; for all labels together, and for CHILD. */
  lemma MoveKeepsAcyclicIff(before: Edges, after: Edges, node: nat, oldParent: nat, newParent: nat, lbl: Option<string>)
    requires lbl.None? || lbl.value == TREE_EDGE_LABEL
    requires MoveDone(before, after, node, oldParent, newParent) && Acyclic(Links(before, lbl))
    ensures Acyclic(Links(after, lbl)) <==> !Reach(Links(before, lbl), node, newParent)
  {
    var drop, id :| Dropped(before, node, oldParent, drop) && Reparented(before, after, node, newParent, drop, id);
    ReparentedLinks(before, after, node, oldParent, newParent, drop, id, lbl);
    var whole, rest := Links(before, lbl), Links(before - drop, lbl);
    AcyclicMono(rest, whole);
    AddEdge(rest, newParent, node);
    if Reach(whole, node, newParent) {
      LeaveWithoutArriving(whole, rest, node, newParent);
    }
    if Reach(rest, node, newParent) {
      ReachMono(rest, whole, node, newParent);
    }
  }

  lemma ChildReachIsReach(edges: Edges, x: nat, y: nat)
    requires Reach(ChildLinks(edges), x, y)
    ensures Reach(AllLinks(edges), x, y)
  {
    forall e | e in ChildLinks(edges)
      ensures e in AllLinks(edges)
    {
      var i :| i in edges && Carries(edges[i], Some(TREE_EDGE_LABEL)) && e == (edges[i].src, edges[i].dst);
      assert Carries(edges[i], None);
    }
    ReachMono(ChildLinks(edges), AllLinks(edges), x, y);
  }

  /** One call: its arguments, decided on the state it starts from. */
  datatype Call = Call(node: nat, oldParent: nat, newParent: nat)

  ghost predicate SerialStep(nodes: set<nat>, before: Edges, c: Call, after: Edges) {
    if Verdict(nodes, before, c.node, c.oldParent, c.newParent).Ok? && c.oldParent != c.newParent
    then MoveDone(before, after, c.node, c.oldParent, c.newParent)
    else after == before
  }

  ghost predicate SerialRun(nodes: set<nat>, states: seq<Edges>, calls: seq<Call>) {
    && |states| == |calls| + 1
    && forall i :: 0 <= i < |calls| ==> SerialStep(nodes, states[i], calls[i], states[i + 1])
  }

  /** Moves made one after the other never close a cycle, neither of CHILD edges
      nor over all labels. */
  lemma {:induction false} SerialMovesStayAcyclic(nodes: set<nat>, states: seq<Edges>, calls: seq<Call>)
    requires SerialRun(nodes, states, calls)
    ensures Acyclic(ChildLinks(states[0])) ==> Acyclic(ChildLinks(states[|calls|]))
    ensures Acyclic(AllLinks(states[0])) ==> Acyclic(AllLinks(states[|calls|]))
    decreases |calls|
  {
    if calls != [] {
      var c := calls[0];
      assert SerialStep(nodes, states[0], c, states[1]);
      if Verdict(nodes, states[0], c.node, c.oldParent, c.newParent).Ok? && c.oldParent != c.newParent {
        if Reach(ChildLinks(states[0]), c.node, c.newParent) {
          ChildReachIsReach(states[0], c.node, c.newParent);
        }
        if Acyclic(ChildLinks(states[0])) {
          MoveKeepsAcyclicIff(states[0], states[1], c.node, c.oldParent, c.newParent, Some(TREE_EDGE_LABEL));
        }
        if Acyclic(AllLinks(states[0])) {
          MoveKeepsAcyclicIff(states[0], states[1], c.node, c.oldParent, c.newParent, None);
        }
      }
      SerialMovesStayAcyclic(nodes, states[1..], calls[1..]);
    }
  }

  /** A move turned away as a cycle would have left a cycle behind, over all labels. */
  lemma RejectedMoveWouldCycle(nodes: set<nat>, before: Edges, c: Call, after: Edges)
    requires Acyclic(AllLinks(before))
    requires Verdict(nodes, before, c.node, c.oldParent, c.newParent) == Err(CreatesCycle(c.node, c.newParent))
    requires MoveDone(before, after, c.node, c.oldParent, c.newParent)
    ensures !Acyclic(AllLinks(after))
  {
    MoveKeepsAcyclicIff(before, after, c.node, c.oldParent, c.newParent, None);
  }

  /** But the tree alone may have been safe: an edge of another label is enough
      for the pre-check to refuse. */
  lemma RefusedForAnotherLabel(nodes: set<nat>, after: Edges)
    requires 1 in nodes && 2 in nodes
    requires MoveDone(map[0 := Edge(1, 2, "LINK")], after, 1, 3, 2)
    ensures Verdict(nodes, map[0 := Edge(1, 2, "LINK")], 1, 3, 2) == Err(CreatesCycle(1, 2))
    ensures Acyclic(ChildLinks(after))
  {
    var before: Edges := map[0 := Edge(1, 2, "LINK")];
    assert Carries(before[0], None);
    ReachEdge(AllLinks(before), 1, 2);
    assert ChildLinks(before) == {};
    if Reach(ChildLinks(before), 1, 2) {
      var z := ReachFirst(ChildLinks(before), 1, 2);
    }
    MoveKeepsAcyclicIff(before, after, 1, 3, 2, Some(TREE_EDGE_LABEL));
  }
}
