/** What a tree move does to the edges themselves, and when each node keeps a single
    parent (src/schema/tree.rs). */
module SingleParents {
  import Graphs
  import opened TreeMoves

  ghost function Copies(edges: Edges, e: Edge): set<nat> {
    set i | i in edges && edges[i] == e
  }

  /** What goes, what comes, and that nothing else changes. */
  ghost predicate Swap(before: Edges, after: Edges, oldE: Edge, newE: Edge, drop: set<nat>, id: nat) {
    && id !in before && drop <= Copies(before, oldE) && after.Keys == before.Keys - drop + {id}
    && after[id] == newE
    && forall i :: i in before && i !in drop ==> i in after && after[i] == before[i]
  }

  lemma MoveSwaps(before: Edges, after: Edges, node: nat, oldParent: nat, newParent: nat) returns (drop: set<nat>, id: nat)
    requires MoveDone(before, after, node, oldParent, newParent)
    ensures var oldE := Edge(oldParent, node, TREE_EDGE_LABEL);
            && Swap(before, after, oldE, Edge(newParent, node, TREE_EDGE_LABEL), drop, id)
            && |drop| == if Copies(before, oldE) == {} then 0 else 1
  {
    drop, id :| Dropped(before, node, oldParent, drop) && Reparented(before, after, node, newParent, drop, id);
    var oldE := Edge(oldParent, node, TREE_EDGE_LABEL);
    assert Copies(before, oldE) == set i | i in before && before[i] == Edge(oldParent, node, TREE_EDGE_LABEL);
    if Copies(before, oldE) != {} {
      var i :| i in Copies(before, oldE) && drop == {i};
    }
  }

  lemma SwapCounts(before: Edges, after: Edges, oldE: Edge, newE: Edge, drop: set<nat>, id: nat)
    requires Swap(before, after, oldE, newE, drop, id) && oldE != newE
    ensures |Copies(after, oldE)| == |Copies(before, oldE)| - |drop|
    ensures |Copies(after, newE)| == |Copies(before, newE)| + 1
    ensures |after| == |before| - |drop| + 1
  {
    SwapCopies(before, after, oldE, newE, drop, id);
    Less(Copies(before, oldE), drop);
    Less(before.Keys, drop);
    assert |after| == |after.Keys| && |before| == |before.Keys|;
  }

  lemma SwapCopies(before: Edges, after: Edges, oldE: Edge, newE: Edge, drop: set<nat>, id: nat)
    requires Swap(before, after, oldE, newE, drop, id) && oldE != newE
    ensures Copies(after, oldE) == Copies(before, oldE) - drop
    ensures Copies(after, newE) == Copies(before, newE) + {id}
  {
    forall i | i != id
      ensures i in after <==> i in before && i !in drop
    {
      assert i in after.Keys <==> i in before.Keys - drop + {id};
    }
  }

  lemma Less(a: set<nat>, b: set<nat>)
    requires b <= a
    ensures |a - b| == |a| - |b|
  {
    assert a == (a - b) + b;
  }

  /** A move takes one old-parent edge away if there is one, adds one new-parent edge,
      and leaves every other edge where it is. */
  lemma MoveSwapsOneEdge(before: Edges, after: Edges, node: nat, oldParent: nat, newParent: nat)
    requires MoveDone(before, after, node, oldParent, newParent) && oldParent != newParent
    ensures var oldE, newE := Edge(oldParent, node, TREE_EDGE_LABEL), Edge(newParent, node, TREE_EDGE_LABEL);
            var n := |Copies(before, oldE)|;
            && |Copies(after, oldE)| == (if n == 0 then 0 else n - 1)
            && |Copies(after, newE)| == |Copies(before, newE)| + 1
            && |after| == (if n == 0 then |before| + 1 else |before|)
            && (forall i :: i in before && before[i] != oldE ==> i in after && after[i] == before[i])
            && (forall i :: i in after && after[i] != newE ==> i in before && before[i] == after[i])
  {
    var oldE, newE := Edge(oldParent, node, TREE_EDGE_LABEL), Edge(newParent, node, TREE_EDGE_LABEL);
    var drop, id := MoveSwaps(before, after, node, oldParent, newParent);
    SwapCounts(before, after, oldE, newE, drop, id);
  }

  ghost predicate IsChildEdge(edges: Edges, i: nat) {
    i in edges && edges[i].lbl == TREE_EDGE_LABEL
  }

  /** No node has two CHILD edges coming in. */
  ghost predicate SingleParent(edges: Edges) {
    forall i, j :: IsChildEdge(edges, i) && IsChildEdge(edges, j) && edges[i].dst == edges[j].dst ==> i == j
  }

  /** One CHILD edge for each node of `parent`, from its parent, and no others. */
  ghost predicate Tree(edges: Edges, parent: map<nat, nat>) {
    && SingleParent(edges)
    && (forall i :: IsChildEdge(edges, i) ==> edges[i].dst in parent && parent[edges[i].dst] == edges[i].src)
    && (forall x :: x in parent ==> HasParentEdge(edges, x))
  }

  ghost predicate HasParentEdge(edges: Edges, x: nat) {
    exists i :: IsChildEdge(edges, i) && edges[i].dst == x
  }

  /** A move of a tree leaves every node with a single parent exactly when it names
      the current one, or the node has none; the node's parent is then the new one. */
  lemma MoveKeepsTreeIff(before: Edges, after: Edges, parent: map<nat, nat>, node: nat, oldParent: nat, newParent: nat)
    requires Tree(before, parent) && MoveDone(before, after, node, oldParent, newParent)
    ensures SingleParent(after) <==> node !in parent || parent[node] == oldParent
    ensures SingleParent(after) ==> Tree(after, parent[node := newParent])
  {
    var drop, id := MoveSwaps(before, after, node, oldParent, newParent);
    var oldE, newE := Edge(oldParent, node, TREE_EDGE_LABEL), Edge(newParent, node, TREE_EDGE_LABEL);
    if node in parent {
      assert HasParentEdge(before, node);
      var i :| IsChildEdge(before, i) && before[i].dst == node;
      if parent[node] != oldParent {
        assert i in after && IsChildEdge(after, i) && i != id && IsChildEdge(after, id);
      } else {
        assert i in Copies(before, oldE);
        assert forall j :: j in Copies(before, oldE) ==> IsChildEdge(before, j) && j == i;
        OnlyOne(Copies(before, oldE), drop, i);
        SwapKeepsTree(before, after, parent, node, oldE, newE, drop, id);
      }
    } else {
      SwapKeepsTree(before, after, parent, node, oldE, newE, drop, id);
    }
  }

  lemma OnlyOne(all: set<nat>, drop: set<nat>, i: nat)
    requires drop <= all && drop != {} && forall j :: j in all ==> j == i
    ensures i in drop
  {
    var j :| j in drop;
  }

  lemma SwapKeepsTree(before: Edges, after: Edges, parent: map<nat, nat>, node: nat, oldE: Edge, newE: Edge, drop: set<nat>, id: nat)
    requires Tree(before, parent) && Swap(before, after, oldE, newE, drop, id)
    requires oldE.dst == newE.dst == node && newE.lbl == TREE_EDGE_LABEL
    requires forall i :: IsChildEdge(before, i) && before[i].dst == node ==> i in drop
    ensures Tree(after, parent[node := newE.src])
  {
    var p := parent[node := newE.src];
    forall j | IsChildEdge(after, j) && j != id
      ensures IsChildEdge(before, j) && before[j] == after[j] && after[j].dst != node
    {
      assert j in before.Keys - drop;
    }
    forall x | x in p
      ensures HasParentEdge(after, x)
    {
      if x == node {
        assert IsChildEdge(after, id) && after[id].dst == node;
      } else {
        assert HasParentEdge(before, x);
        var j :| IsChildEdge(before, j) && before[j].dst == x;
        assert IsChildEdge(after, j) && after[j].dst == x;
      }
    }
  }

  // ---------------------------------------------------------------------
  // Serial runs

  ghost predicate Moves(nodes: set<nat>, edges: Edges, c: Call) {
    Verdict(nodes, edges, c.node, c.oldParent, c.newParent).Ok? && c.oldParent != c.newParent
  }

  /** The parents after the calls: each accepted move sets one. */
  ghost function ParentsAfter(nodes: set<nat>, states: seq<Edges>, calls: seq<Call>, parent: map<nat, nat>): map<nat, nat>
    requires |states| == |calls| + 1
  {
    if calls == [] then parent
    else
      var k := |calls| - 1;
      var p := ParentsAfter(nodes, states[..k + 1], calls[..k], parent);
      if Moves(nodes, states[k], calls[k]) then p[calls[k].node := calls[k].newParent] else p
  }

  /** Every move names the parent its node has at that moment, if it has one. */
  ghost predicate NamesParents(nodes: set<nat>, states: seq<Edges>, calls: seq<Call>, parent: map<nat, nat>)
    requires |states| == |calls| + 1
  {
    forall k :: 0 <= k < |calls| ==> NamesParent(ParentsAfter(nodes, states[..k + 1], calls[..k], parent), calls[k])
  }

  ghost predicate NamesParent(parent: map<nat, nat>, c: Call) {
    c.node in parent ==> c.oldParent == parent[c.node]
  }

  lemma FewerCalls(nodes: set<nat>, states: seq<Edges>, calls: seq<Call>, parent: map<nat, nat>)
    requires SerialRun(nodes, states, calls) && calls != [] && NamesParents(nodes, states, calls, parent)
    ensures var k := |calls| - 1;
            && SerialRun(nodes, states[..k + 1], calls[..k]) && NamesParents(nodes, states[..k + 1], calls[..k], parent)
            && SerialStep(nodes, states[k], calls[k], states[k + 1])
            && NamesParent(ParentsAfter(nodes, states[..k + 1], calls[..k], parent), calls[k])
  {
    var k := |calls| - 1;
    forall j | 0 <= j < k
      ensures NamesParent(ParentsAfter(nodes, states[..k + 1][..j + 1], calls[..k][..j], parent), calls[..k][j])
    {
      assert states[..k + 1][..j + 1] == states[..j + 1] && calls[..k][..j] == calls[..j];
      assert NamesParent(ParentsAfter(nodes, states[..j + 1], calls[..j], parent), calls[j]);
    }
  }

  /** As long as every move names the parent its node has, each node has at most one,
      the one that the moves so far have set. */
  lemma {:induction false} SerialMovesKeepTree(nodes: set<nat>, states: seq<Edges>, calls: seq<Call>, parent: map<nat, nat>)
    requires SerialRun(nodes, states, calls) && Tree(states[0], parent) && NamesParents(nodes, states, calls, parent)
    ensures Tree(states[|calls|], ParentsAfter(nodes, states, calls, parent))
  {
    if calls != [] {
      var k := |calls| - 1;
      FewerCalls(nodes, states, calls, parent);
      SerialMovesKeepTree(nodes, states[..k + 1], calls[..k], parent);
      var p := ParentsAfter(nodes, states[..k + 1], calls[..k], parent);
      if Moves(nodes, states[k], calls[k]) {
        MoveKeepsTreeIff(states[k], states[k + 1], p, calls[k].node, calls[k].oldParent, calls[k].newParent);
      }
    }
  }

  /** A node's parent is the one it was last moved to. */
  lemma {:induction false} LastMoveCounts(nodes: set<nat>, states: seq<Edges>, calls: seq<Call>, parent: map<nat, nat>, i: nat)
    requires |states| == |calls| + 1 && i < |calls| && Moves(nodes, states[i], calls[i])
    requires forall j :: i < j < |calls| && Moves(nodes, states[j], calls[j]) ==> calls[j].node != calls[i].node
    ensures var p := ParentsAfter(nodes, states, calls, parent); calls[i].node in p && p[calls[i].node] == calls[i].newParent
  {
    var k := |calls| - 1;
    if i < k {
      LastMoveCounts(nodes, states[..k + 1], calls[..k], parent, i);
    }
  }

  /** A call that names another parent leaves the node under both. */
  lemma WrongParentLeavesTwo(nodes: set<nat>, after: Edges)
    requires {1, 2, 3} <= nodes && MoveDone(map[0 := Edge(1, 3, TREE_EDGE_LABEL)], after, 3, 5, 2)
    ensures Moves(nodes, map[0 := Edge(1, 3, TREE_EDGE_LABEL)], Call(3, 5, 2))
    ensures !SingleParent(after)
  {
    var before: Edges := map[0 := Edge(1, 3, TREE_EDGE_LABEL)];
    assert IsChildEdge(before, 0) && HasParentEdge(before, 3);
    assert Tree(before, map[3 := 1]);
    MoveKeepsTreeIff(before, after, map[3 := 1], 3, 5, 2);
    ThreeIsLeaf(before);
  }

  lemma ThreeIsLeaf(before: Edges)
    requires before == map[0 := Edge(1, 3, TREE_EDGE_LABEL)]
    ensures !Graphs.Reach(AllLinks(before), 3, 2)
  {
    assert forall e :: e in AllLinks(before) ==> e.0 == 1;
    if Graphs.Reach(AllLinks(before), 3, 2) {
      var z := Graphs.ReachFirst(AllLinks(before), 3, 2);
    }
  }
}
