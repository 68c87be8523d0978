/** Tree moves that were decided on stale snapshots (src/schema/tree.rs): nothing stops
    them from all being committed, and then they can close a cycle together. */
module ConcurrentMoves {
  import opened Results
  import opened Graphs
  import opened TreeMoves

  /** The pre-check of a call lets it through on the snapshot `s`. */
  ghost predicate Accepted(nodes: set<nat>, s: Edges, c: Call) {
    Verdict(nodes, s, c.node, c.oldParent, c.newParent).Ok? && c.oldParent != c.newParent
  }

  /** What each commit adds, under the id it was given. */
  ghost function Added(edges: Edges, calls: seq<Call>, ids: seq<nat>): Edges
    requires |ids| == |calls|
  {
    if calls == [] then edges
    else
      var k := |calls| - 1;
      Added(edges, calls[..k], ids[..k])[ids[k] := Edge(calls[k].newParent, calls[k].node, TREE_EDGE_LABEL)]
  }

  ghost function AllDropped(drops: seq<set<nat>>): set<nat> {
    if drops == [] then {} else AllDropped(drops[..|drops| - 1]) + drops[|drops| - 1]
  }

  /** All calls found their old edges on the snapshot `s`, and all have committed. */
  ghost predicate Committed(s: Edges, final: Edges, calls: seq<Call>, drops: seq<set<nat>>, ids: seq<nat>) {
    && |drops| == |ids| == |calls|
    && (forall i :: 0 <= i < |calls| ==> Dropped(s, calls[i].node, calls[i].oldParent, drops[i]))
    && Distinct(ids) && (forall i :: 0 <= i < |ids| ==> ids[i] !in s)
    && final == Added(s - AllDropped(drops), calls, ids)
  }

  ghost function NewLinks(calls: seq<Call>): set<(nat, nat)> {
    set c | c in calls :: (c.newParent, c.node)
  }

  ghost predicate TreeLabel(lbl: Option<string>) {
    lbl.None? || lbl.value == TREE_EDGE_LABEL
  }

  lemma AddedLink(edges: Edges, id: nat, e: Edge, lbl: Option<string>)
    requires id !in edges && Carries(e, lbl)
    ensures Links(edges[id := e], lbl) == Links(edges, lbl) + {(e.src, e.dst)}
  {
    var after := edges[id := e];
    assert after[id] == e;
    forall p | p in Links(edges, lbl)
      ensures p in Links(after, lbl)
    {
      var i :| i in edges && Carries(edges[i], lbl) && p == (edges[i].src, edges[i].dst);
      assert after[i] == edges[i];
    }
  }

  lemma {:induction false} AddedKeys(edges: Edges, calls: seq<Call>, ids: seq<nat>)
    requires |ids| == |calls|
    ensures forall i :: i in Added(edges, calls, ids) ==> i in edges || i in ids
  {
    if calls != [] {
      var k := |calls| - 1;
      AddedKeys(edges, calls[..k], ids[..k]);
      assert ids == ids[..k] + [ids[k]];
    }
  }

  lemma NewLinksExtend(calls: seq<Call>, k: nat)
    requires k == |calls| - 1
    ensures NewLinks(calls) == NewLinks(calls[..k]) + {(calls[k].newParent, calls[k].node)}
  {
    assert calls == calls[..k] + [calls[k]];
  }

  lemma {:induction false} AddedLinks(edges: Edges, calls: seq<Call>, ids: seq<nat>, lbl: Option<string>)
    requires |ids| == |calls| && Distinct(ids) && (forall i :: 0 <= i < |ids| ==> ids[i] !in edges) && TreeLabel(lbl)
    ensures Links(Added(edges, calls, ids), lbl) == Links(edges, lbl) + NewLinks(calls)
  {
    if calls == [] {
      assert NewLinks(calls) == {};
    } else {
      var k := |calls| - 1;
      AddedLinks(edges, calls[..k], ids[..k], lbl);
      AddedKeys(edges, calls[..k], ids[..k]);
      AddedLink(Added(edges, calls[..k], ids[..k]), ids[k], Edge(calls[k].newParent, calls[k].node, TREE_EDGE_LABEL), lbl);
      NewLinksExtend(calls, k);
    }
  }

  lemma LinksShrink(edges: Edges, gone: set<nat>, lbl: Option<string>)
    ensures Links(edges - gone, lbl) <= Links(edges, lbl)
  {
    forall e | e in Links(edges - gone, lbl)
      ensures e in Links(edges, lbl)
    {
      var i :| i in edges - gone && Carries((edges - gone)[i], lbl) && e == (edges[i].src, edges[i].dst);
    }
  }

  /** Any number of moves decided on one snapshot: the outcome is acyclic, over all
      labels or over CHILD alone, exactly when the moves do not undercut each other in
      a circle, each putting its node at or below the next one's node in what is left
      of the snapshot. A move stands for its new edge. */
  lemma StaleMovesAcyclicIff(s: Edges, final: Edges, calls: seq<Call>, drops: seq<set<nat>>, ids: seq<nat>, lbl: Option<string>)
    requires Committed(s, final, calls, drops, ids) && TreeLabel(lbl) && Acyclic(Links(s, lbl))
    ensures Acyclic(Links(final, lbl)) <==> Acyclic(Feeds(Links(s - AllDropped(drops), lbl), NewLinks(calls)))
  {
    var rest := s - AllDropped(drops);
    AddedLinks(rest, calls, ids, lbl);
    LinksShrink(s, AllDropped(drops), lbl);
    AcyclicMono(Links(rest, lbl), Links(s, lbl));
    AddEdges(Links(rest, lbl), NewLinks(calls));
  }

  /** One commit on top of any acyclic state, however old the snapshot it was decided
      on and whatever its delete still found: only the state it lands on counts. */
  lemma StaleCommitAcyclicIff(before: Edges, after: Edges, node: nat, newParent: nat, drop: set<nat>, id: nat, lbl: Option<string>)
    requires Reparented(before, after, node, newParent, drop, id) && TreeLabel(lbl) && Acyclic(Links(before, lbl))
    ensures Acyclic(Links(after, lbl)) <==> !Reach(Links(before - drop, lbl), node, newParent)
  {
    LinksShrink(before, drop, lbl);
    AcyclicMono(Links(before - drop, lbl), Links(before, lbl));
    AddedLink(before - drop, id, Edge(newParent, node, TREE_EDGE_LABEL), lbl);
    AddEdge(Links(before - drop, lbl), newParent, node);
  }

  // ---------------------------------------------------------------------
  // Two moves: the snapshot itself decides

  lemma KeptLinks(s: Edges, c1: Call, drop1: set<nat>, c2: Call, drop2: set<nat>, lbl: Option<string>)
    requires Dropped(s, c1.node, c1.oldParent, drop1) && Dropped(s, c2.node, c2.oldParent, drop2)
    ensures forall e :: e in Links(s, lbl) && e != (c1.oldParent, c1.node) && e != (c2.oldParent, c2.node)
              ==> e in Links(s - (drop1 + drop2), lbl)
  {
    forall e | e in Links(s, lbl) && e != (c1.oldParent, c1.node) && e != (c2.oldParent, c2.node)
      ensures e in Links(s - (drop1 + drop2), lbl)
    {
      var i :| i in s && Carries(s[i], lbl) && e == (s[i].src, s[i].dst);
      assert i in s - (drop1 + drop2);
    }
  }

  /** Dropping the other move's old edge takes nothing away that could matter. */
  lemma SnapshotReach(whole: set<(nat, nat)>, g: set<(nat, nat)>, c1: Call, c2: Call)
    requires g <= whole
    requires forall e :: e in whole && e != (c1.oldParent, c1.node) && e != (c2.oldParent, c2.node) ==> e in g
    requires !Reach(whole, c2.node, c2.newParent)
    ensures Reach(whole, c1.node, c2.newParent) <==> Reach(g, c1.node, c2.newParent)
  {
    var u, v := c2.oldParent, c2.node;
    if Reach(whole, c1.node, c2.newParent) {
      LeaveWithoutArriving(whole, g + {(u, v)}, c1.node, c2.newParent);
      ReachAddEdge(g, u, v, c1.node, c2.newParent);
      if Reach(g, v, c2.newParent) {
        ReachMono(g, whole, v, c2.newParent);
      }
    }
    if Reach(g, c1.node, c2.newParent) {
      ReachMono(g, whole, c1.node, c2.newParent);
    }
  }

  lemma AcceptedNotBelow(nodes: set<nat>, s: Edges, c: Call, lbl: Option<string>)
    requires Accepted(nodes, s, c) && TreeLabel(lbl)
    ensures !Reach(Links(s, lbl), c.node, c.newParent)
  {
    if lbl.Some? && Reach(Links(s, lbl), c.node, c.newParent) {
      ChildReachIsReach(s, c.node, c.newParent);
    }
  }

  /** Two accepted moves leave a cycle exactly when on the snapshot each new parent
      is at or below the other's node; over all labels, and over CHILD alone. */
  lemma TwoStaleMovesAcyclicIff(nodes: set<nat>, s: Edges, final: Edges, c1: Call, c2: Call,
                                drops: seq<set<nat>>, ids: seq<nat>, lbl: Option<string>)
    requires Accepted(nodes, s, c1) && Accepted(nodes, s, c2)
    requires Committed(s, final, [c1, c2], drops, ids) && TreeLabel(lbl) && Acyclic(Links(s, lbl))
    ensures Acyclic(Links(final, lbl)) <==>
              !(Reach(Links(s, lbl), c1.node, c2.newParent) && Reach(Links(s, lbl), c2.node, c1.newParent))
  {
    var whole, g := Links(s, lbl), Links(s - AllDropped(drops), lbl);
    BothDropped(drops);
    LinksShrink(s, AllDropped(drops), lbl);
    KeptLinks(s, c1, drops[0], c2, drops[1], lbl);
    AcceptedNotBelow(nodes, s, c1, lbl);
    AcceptedNotBelow(nodes, s, c2, lbl);
    SnapshotReach(whole, g, c1, c2);
    SnapshotReach(whole, g, c2, c1);
    PairOutcome(whole, g, c1, c2);
    AddedLinks(s - AllDropped(drops), [c1, c2], ids, lbl);
    PairLinks(g, c1, c2);
  }

  lemma PairLinks(g: set<(nat, nat)>, c1: Call, c2: Call)
    ensures g + NewLinks([c1, c2]) == g + {(c1.newParent, c1.node)} + {(c2.newParent, c2.node)}
  {
    assert c1 in [c1, c2] && c2 in [c1, c2];
    assert NewLinks([c1, c2]) == {(c1.newParent, c1.node)} + {(c2.newParent, c2.node)};
  }

  lemma BothDropped(drops: seq<set<nat>>)
    requires |drops| == 2
    ensures AllDropped(drops) == drops[0] + drops[1]
  {
    assert drops[..1] == [drops[0]] && AllDropped(drops[..1]) == AllDropped([]) + drops[0];
  }

  lemma PairOutcome(whole: set<(nat, nat)>, g: set<(nat, nat)>, c1: Call, c2: Call)
    requires g <= whole && Acyclic(whole)
    requires !Reach(whole, c1.node, c1.newParent) && !Reach(whole, c2.node, c2.newParent)
    ensures Acyclic(g + {(c1.newParent, c1.node)} + {(c2.newParent, c2.node)})
            <==> !(Reach(g, c1.node, c2.newParent) && Reach(g, c2.node, c1.newParent))
  {
    AcyclicMono(g, whole);
    if Reach(g, c1.node, c1.newParent) { ReachMono(g, whole, c1.node, c1.newParent); }
    if Reach(g, c2.node, c2.newParent) { ReachMono(g, whole, c2.node, c2.newParent); }
    AddTwoEdges(g, c1.newParent, c1.node, c2.newParent, c2.node);
  }

  // ---------------------------------------------------------------------
  // Examples, from a graph without edges

  lemma NothingBelow(x: nat, y: nat, lbl: Option<string>)
    ensures Links(map[], lbl) == {} && Acyclic(Links(map[], lbl)) && (Reach(Links(map[], lbl), x, y) <==> x == y)
  {
    ReachRefl(Links(map[], lbl), x);
    if x != y && Reach(Links(map[], lbl), x, y) {
      var z := ReachFirst(Links(map[], lbl), x, y);
    }
  }

  lemma AcceptedOnEmpty(nodes: set<nat>, c: Call)
    requires c.node in nodes && c.newParent in nodes && c.node != c.newParent && c.oldParent != c.newParent
    ensures Accepted(nodes, map[], c)
  {
    NothingBelow(c.node, c.newParent, None);
  }

  lemma {:induction false} NothingDropped(calls: seq<Call>, drops: seq<set<nat>>)
    requires |drops| == |calls| && forall i :: 0 <= i < |calls| ==> Dropped(map[], calls[i].node, calls[i].oldParent, drops[i])
    ensures AllDropped(drops) == {}
  {
    if drops != [] {
      var k := |drops| - 1;
      NothingDropped(calls[..k], drops[..k]);
      assert Dropped(map[], calls[k].node, calls[k].oldParent, drops[k]);
    }
  }

  /** The cycle the comments rule out: 1 under 2 and 2 under 1. */
  lemma StaleMovesCanCycle(nodes: set<nat>, final: Edges, drops: seq<set<nat>>, ids: seq<nat>)
    requires 1 in nodes && 2 in nodes && Committed(map[], final, [Call(1, 0, 2), Call(2, 0, 1)], drops, ids)
    ensures Accepted(nodes, map[], Call(1, 0, 2)) && Accepted(nodes, map[], Call(2, 0, 1))
    ensures !Acyclic(ChildLinks(final))
  {
    AcceptedOnEmpty(nodes, Call(1, 0, 2));
    AcceptedOnEmpty(nodes, Call(2, 0, 1));
    NothingBelow(1, 1, Some(TREE_EDGE_LABEL));
    NothingBelow(2, 2, Some(TREE_EDGE_LABEL));
    TwoStaleMovesAcyclicIff(nodes, map[], final, Call(1, 0, 2), Call(2, 0, 1), drops, ids, Some(TREE_EDGE_LABEL));
  }

  /** Three moves, any two of which are harmless, close a cycle together. */
  lemma ThreeStaleMovesCanCycle(nodes: set<nat>, final: Edges, drops: seq<set<nat>>, ids: seq<nat>)
    requires {1, 2, 3} <= nodes && Committed(map[], final, [Call(1, 0, 2), Call(2, 0, 3), Call(3, 0, 1)], drops, ids)
    ensures Accepted(nodes, map[], Call(1, 0, 2)) && Accepted(nodes, map[], Call(2, 0, 3)) && Accepted(nodes, map[], Call(3, 0, 1))
    ensures Harmless(nodes, Call(1, 0, 2), Call(2, 0, 3)) && Harmless(nodes, Call(2, 0, 3), Call(3, 0, 1))
            && Harmless(nodes, Call(3, 0, 1), Call(1, 0, 2))
    ensures !Acyclic(ChildLinks(final))
  {
    var calls := [Call(1, 0, 2), Call(2, 0, 3), Call(3, 0, 1)];
    AcceptedOnEmpty(nodes, calls[0]);
    AcceptedOnEmpty(nodes, calls[1]);
    AcceptedOnEmpty(nodes, calls[2]);
    PairHarmless(nodes, calls[0], calls[1]);
    PairHarmless(nodes, calls[1], calls[2]);
    PairHarmless(nodes, calls[2], calls[0]);
    NothingDropped(calls, drops);
    var none: Edges := map[];
    assert none - AllDropped(drops) == none;
    AddedLinks(none, calls, ids, Some(TREE_EDGE_LABEL));
    var g := ChildLinks(final);
    assert calls[0] in calls && calls[1] in calls && calls[2] in calls;
    assert NewLinks(calls) <= g && (2, 1) in g && (3, 2) in g && (1, 3) in g;
    ReachEdge(g, 1, 3);
    ReachEdge(g, 3, 2);
    ReachTrans(g, 1, 3, 2);
  }

  /** Committed as a pair, and alone, the two leave no cycle. */
  ghost predicate Harmless(nodes: set<nat>, c1: Call, c2: Call) {
    forall final, drops, ids :: Committed(map[], final, [c1, c2], drops, ids) ==> Acyclic(AllLinks(final))
  }

  lemma PairHarmless(nodes: set<nat>, c1: Call, c2: Call)
    requires Accepted(nodes, map[], c1) && Accepted(nodes, map[], c2) && !(c1.node == c2.newParent && c2.node == c1.newParent)
    ensures Harmless(nodes, c1, c2)
  {
    forall final, drops, ids | Committed(map[], final, [c1, c2], drops, ids)
      ensures Acyclic(AllLinks(final))
    {
      NothingBelow(c1.node, c2.newParent, None);
      NothingBelow(c2.node, c1.newParent, None);
      TwoStaleMovesAcyclicIff(nodes, map[], final, c1, c2, drops, ids, None);
    }
  }
}
