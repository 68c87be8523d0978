/** What a batch leaves behind that is refused half-way (src/bridge/batcher.rs,
    src/bridge/grafeo_tx.rs): the session goes back to where it was, the maps do not. */
module FailedBatches {
  import opened TreeMoves
  import opened Bridge
  import Replay

  /** Keys bound, and those among them bound to ids made by the batch; read off the
      operations alone. */
  datatype Books = Books(nodes: set<string>, newNodes: set<string>, edges: set<EdgeKey>, newEdges: set<EdgeKey>) {

    ghost function Link(k: EdgeKey): Books {
      if k in edges then this else this.(edges := edges + {k}, newEdges := newEdges + {k})
    }

    ghost function Unlink(k: EdgeKey): Books {
      this.(edges := edges - {k}, newEdges := newEdges - {k})
    }

    ghost function After(op: LoroOp): Books {
      match op
      case UpsertNode(k, _, _) => if k in nodes then this else this.(nodes := nodes + {k}, newNodes := newNodes + {k})
      case DeleteNode(k) => this.(nodes := nodes - {k}, newNodes := newNodes - {k})
      case UpsertEdge(src, dst, lbl, _) => if src in nodes && dst in nodes then Link((src, dst, lbl)) else this
      case DeleteEdge(src, dst, lbl) => Unlink((src, dst, lbl))
      case TreeMove(node, oldParent, newParent) =>
        if node in nodes && newParent in nodes
        then Unlink((oldParent, node, TREE_EDGE_LABEL)).Link((newParent, node, TREE_EDGE_LABEL))
        else this
    }

    ghost function AfterAll(ops: seq<LoroOp>): Books
      decreases |ops|
    {
      if ops == [] then this else After(ops[0]).AfterAll(ops[1..])
    }
  }

  /** At the start of a batch. */
  ghost function BooksOf(w: World): Books {
    Books(w.maps.idOf.Keys, {}, w.maps.edgeIdOf.Keys, {})
  }

  /** Bindings the books call new hold new ids, all others are as they were. */
  ghost predicate NodesSince(start: World, b: Books, w: World) {
    && w.NodesConsistent() && start.issuedNodes <= w.issuedNodes
    && b.newNodes <= b.nodes == w.maps.idOf.Keys
    && forall k :: k in w.maps.idOf ==>
         if k in b.newNodes then w.maps.idOf[k] !in start.issuedNodes
         else k in start.maps.idOf && w.maps.idOf[k] == start.maps.idOf[k]
  }

  ghost predicate EdgesSince(start: World, b: Books, w: World) {
    && w.EdgesConsistent() && start.issuedEdges <= w.issuedEdges
    && b.newEdges <= b.edges == w.maps.edgeIdOf.Keys
    && forall k :: k in w.maps.edgeIdOf ==>
         if k in b.newEdges then w.maps.edgeIdOf[k] !in start.issuedEdges
         else k in start.maps.edgeIdOf && w.maps.edgeIdOf[k] == start.maps.edgeIdOf[k]
  }

  /** What an operation does to the node bindings. */
  lemma BindingsAfter(w: World, op: LoroOp, w': World) returns (id: nat)
    requires w.Consistent() && Step(w, op, true, w')
    ensures w'.maps.idOf ==
              if op.UpsertNode? && op.key !in w.maps.idOf then w.maps.idOf[op.key := id]
              else if op.DeleteNode? then w.maps.idOf - {op.key}
              else w.maps.idOf
    ensures op.UpsertNode? && op.key !in w.maps.idOf ==> id !in w.issuedNodes
  {
    var made, gone :| StepWith(w, op, true, w', made, gone);
    id := made;
    if op.UpsertNode? && op.key in w.maps.idOf {
      LiveWhenConsistent(w);
    }
    if op.DeleteNode? && op.key !in w.maps.idOf {
      assert w.maps.idOf - {op.key} == w.maps.idOf;
    }
  }

  lemma NodesStep(start: World, b: Books, w: World, op: LoroOp, w': World, id: nat)
    requires NodesSince(start, b, w) && w'.NodesConsistent() && w.issuedNodes <= w'.issuedNodes
    requires w'.maps.idOf ==
               if op.UpsertNode? && op.key !in w.maps.idOf then w.maps.idOf[op.key := id]
               else if op.DeleteNode? then w.maps.idOf - {op.key}
               else w.maps.idOf
    requires op.UpsertNode? && op.key !in w.maps.idOf ==> id !in w.issuedNodes
    ensures NodesSince(start, b.After(op), w')
  {
    assert b.After(op).nodes == w'.maps.idOf.Keys;
  }

  lemma LinkSince(start: World, b: Books, w: World, k: EdgeKey, id: nat, e: EdgeRec)
    requires EdgesSince(start, b, w) && k !in w.maps.edgeIdOf && id !in w.issuedEdges
    ensures EdgesSince(start, b.Link(k), w.AddEdge(k, id, e))
  {
    assert w.AddEdge(k, id, e).EdgesConsistent();
  }

  lemma UnlinkSince(start: World, b: Books, w: World, k: EdgeKey)
    requires EdgesSince(start, b, w)
    ensures EdgesSince(start, b.Unlink(k), w.Unlink(k))
  {
    assert w.Unlink(k).EdgesConsistent();
  }

  lemma EdgesStep(start: World, b: Books, w: World, op: LoroOp, w': World)
    requires EdgesSince(start, b, w) && b.nodes == w.maps.idOf.Keys && Step(w, op, true, w')
    requires w'.EdgesConsistent()
    ensures EdgesSince(start, b.After(op), w')
  {
    var id, gone :| StepWith(w, op, true, w', id, gone);
    match op {
      case UpsertEdge(src, dst, lbl, props) =>
        if (src, dst, lbl) !in w.maps.edgeIdOf {
          LinkSince(start, b, w, (src, dst, lbl), id, EdgeRec(w.maps.idOf[src], w.maps.idOf[dst], lbl, Stored(props)));
        }
      case DeleteEdge(src, dst, lbl) =>
        UnlinkSince(start, b, w, (src, dst, lbl));
      case TreeMove(node, oldParent, newParent) =>
        if node in b.nodes && newParent in b.nodes {
          var k0, k := (oldParent, node, TREE_EDGE_LABEL), (newParent, node, TREE_EDGE_LABEL);
          UnlinkSince(start, b, w, k0);
          if k !in w.Unlink(k0).maps.edgeIdOf {
            LinkSince(start, b.Unlink(k0), w.Unlink(k0), k, id,
                      EdgeRec(w.maps.idOf[newParent], w.maps.idOf[node], TREE_EDGE_LABEL, map[]));
          }
        }
      case _ =>
    }
  }

  lemma {:induction false} BooksTrack(start: World, b: Books, ws: seq<World>, ops: seq<LoroOp>)
    requires Run(ws, ops) && ws[0].Consistent() && NodesSince(start, b, ws[0]) && EdgesSince(start, b, ws[0])
    ensures NodesSince(start, b.AfterAll(ops), ws[|ops|]) && EdgesSince(start, b.AfterAll(ops), ws[|ops|])
    decreases |ops|
  {
    if ops != [] {
      RunTail(ws, ops);
      StepKeeps(ws[0], ops[0], true, ws[1]);
      var id := BindingsAfter(ws[0], ops[0], ws[1]);
      NodesStep(start, b, ws[0], ops[0], ws[1], id);
      EdgesStep(start, b, ws[0], ops[0], ws[1]);
      BooksTrack(start, b.After(ops[0]), ws[1..], ops[1..]);
    }
  }

  lemma BatchBooks(ws: seq<World>, applied: seq<LoroOp>) returns (b: Books)
    requires Run(ws, applied) && ws[0].Consistent()
    ensures b == BooksOf(ws[0]).AfterAll(applied)
    ensures NodesSince(ws[0], b, ws[|applied|]) && EdgesSince(ws[0], b, ws[|applied|])
  {
    b := BooksOf(ws[0]).AfterAll(applied);
    BooksTrack(ws[0], BooksOf(ws[0]), ws, applied);
  }

  // ---------------------------------------------------------------------
  // What a caller finds after the roll-back

  /** Every bound node id is live exactly when no key was left bound to a node made
      by the batch. */
  lemma FailedBatchLiveIff(ws: seq<World>, applied: seq<LoroOp>)
    requires Run(ws, applied) && ws[0].Consistent()
    ensures RolledBack(ws[0], ws[|applied|]).BoundLive() <==> BooksOf(ws[0]).AfterAll(applied).newNodes == {}
  {
    var b := BatchBooks(ws, applied);
    var after := RolledBack(ws[0], ws[|applied|]);
    if b.newNodes != {} {
      var k :| k in b.newNodes;
      assert k in after.maps.idOf && after.maps.idOf[k] !in after.nodes;
    }
  }

  /** Every stored node has a key. */
  ghost predicate NodesNamed(w: World) {
    w.nodes.Keys == w.maps.keyOf.Keys
  }

  /** Nodes and names still agree exactly when, besides, every key bound at the start
      is still bound: else the store keeps a node that no key leads to. */
  lemma FailedBatchNodesNamedIff(ws: seq<World>, applied: seq<LoroOp>)
    requires Run(ws, applied) && ws[0].Consistent() && NodesNamed(ws[0])
    ensures var b := BooksOf(ws[0]).AfterAll(applied);
            NodesNamed(RolledBack(ws[0], ws[|applied|])) <==> b.newNodes == {} && ws[0].maps.idOf.Keys <= b.nodes
  {
    var b := BatchBooks(ws, applied);
    NodesNamedIff(ws[0], b, ws[|applied|]);
  }

  lemma NodesNamedIff(start: World, b: Books, w: World)
    requires start.NodesConsistent() && NodesNamed(start) && NodesSince(start, b, w)
    ensures start.nodes.Keys == w.maps.keyOf.Keys <==> b.newNodes == {} && start.maps.idOf.Keys <= b.nodes
  {
    assert forall k :: k in b.newNodes ==> w.maps.idOf[k] in w.maps.keyOf && w.maps.idOf[k] !in start.nodes;
    if start.nodes.Keys == w.maps.keyOf.Keys {
      forall k | k in start.maps.idOf
        ensures k in b.nodes
      {
        var n := start.maps.idOf[k];
        assert n in w.maps.keyOf && start.maps.keyOf[n] == k;
        assert w.maps.idOf[w.maps.keyOf[n]] == n && w.maps.keyOf[n] !in b.newNodes;
      }
    }
    if b.newNodes == {} && start.maps.idOf.Keys <= b.nodes {
      forall n
        ensures n in start.nodes <==> n in w.maps.keyOf
      {
        if n in start.nodes {
          assert start.maps.keyOf[n] in b.nodes;
        }
      }
    }
  }

  ghost predicate EdgeLive(w: World, k: EdgeKey) {
    k in w.maps.edgeIdOf && w.maps.edgeIdOf[k] in w.edges
  }

  /** Every bound edge id is live exactly when no edge key was left bound to an edge
      made by the batch, and those left were live at the start. */
  lemma FailedBatchEdgesLiveIff(ws: seq<World>, applied: seq<LoroOp>)
    requires Run(ws, applied) && ws[0].Consistent()
    ensures var b := BooksOf(ws[0]).AfterAll(applied);
            Replay.EdgesLive(RolledBack(ws[0], ws[|applied|]))
            <==> b.newEdges == {} && forall k :: k in b.edges ==> EdgeLive(ws[0], k)
  {
    var b := BatchBooks(ws, applied);
    EdgesLiveIff(ws[0], b, ws[|applied|]);
  }

  lemma EdgesLiveIff(start: World, b: Books, w: World)
    requires start.EdgesConsistent() && EdgesSince(start, b, w)
    ensures Replay.EdgesLive(RolledBack(start, w)) <==> b.newEdges == {} && forall k :: k in b.edges ==> EdgeLive(start, k)
  {
    assert forall k :: k in b.newEdges ==> k in w.maps.edgeIdOf && w.maps.edgeIdOf[k] !in start.edges;
  }

  /** Every stored edge has a key. */
  ghost predicate EdgesNamed(w: World) {
    w.edges.Keys <= w.maps.edgeKeyOf.Keys
  }

  /** Every stored edge still has a key exactly when the batch unlinked no edge that
      was live at the start, not even to link its key again. */
  lemma FailedBatchEdgesNamedIff(ws: seq<World>, applied: seq<LoroOp>)
    requires Run(ws, applied) && ws[0].Consistent() && EdgesNamed(ws[0])
    ensures var b := BooksOf(ws[0]).AfterAll(applied);
            EdgesNamed(RolledBack(ws[0], ws[|applied|])) <==> forall k :: EdgeLive(ws[0], k) ==> k in b.edges - b.newEdges
  {
    var b := BatchBooks(ws, applied);
    EdgesNamedIff(ws[0], b, ws[|applied|]);
  }

  lemma EdgesNamedIff(start: World, b: Books, w: World)
    requires start.EdgesConsistent() && EdgesNamed(start) && EdgesSince(start, b, w)
    ensures start.edges.Keys <= w.maps.edgeKeyOf.Keys <==> forall k :: EdgeLive(start, k) ==> k in b.edges - b.newEdges
  {
    if start.edges.Keys <= w.maps.edgeKeyOf.Keys {
      forall k | EdgeLive(start, k)
        ensures k in b.edges - b.newEdges
      {
        var e := start.maps.edgeIdOf[k];
        var l := w.maps.edgeKeyOf[e];
        assert w.maps.edgeIdOf[l] == e && l !in b.newEdges;
        assert start.maps.edgeKeyOf[e] == k && start.maps.edgeKeyOf[start.maps.edgeIdOf[l]] == l;
      }
    }
    if forall k :: EdgeLive(start, k) ==> k in b.edges - b.newEdges {
      forall e | e in start.edges
        ensures e in w.maps.edgeKeyOf
      {
        var k := start.maps.edgeKeyOf[e];
        assert EdgeLive(start, k);
        assert w.maps.edgeIdOf[k] == e;
      }
    }
  }

  /** The maps are as before the batch exactly when the books are. */
  lemma FailedBatchHarmlessIff(ws: seq<World>, applied: seq<LoroOp>)
    requires Run(ws, applied) && ws[0].Consistent()
    ensures RolledBack(ws[0], ws[|applied|]).maps == ws[0].maps <==> BooksOf(ws[0]).AfterAll(applied) == BooksOf(ws[0])
  {
    var b := BatchBooks(ws, applied);
    SameMapsIff(ws[0], b, ws[|applied|]);
  }

  lemma SameMapsIff(start: World, b: Books, w: World)
    requires start.Consistent() && NodesSince(start, b, w) && EdgesSince(start, b, w)
    ensures w.maps == start.maps <==> b == BooksOf(start)
  {
    assert forall k :: k in b.newNodes ==> w.maps.idOf[k] !in start.maps.keyOf;
    assert forall k :: k in b.newEdges ==> w.maps.edgeIdOf[k] !in start.maps.edgeKeyOf;
    if b == BooksOf(start) {
      assert w.maps.idOf == start.maps.idOf && w.maps.edgeIdOf == start.maps.edgeIdOf;
      SameInverse(start.maps.idOf, start.maps.keyOf, w.maps.keyOf);
      SameInverse(start.maps.edgeIdOf, start.maps.edgeKeyOf, w.maps.edgeKeyOf);
    }
  }

  /** A map has one inverse. */
  lemma SameInverse<K, V>(m: map<K, V>, a: map<V, K>, b: map<V, K>)
    requires forall k :: k in m ==> m[k] in a && a[m[k]] == k && m[k] in b && b[m[k]] == k
    requires forall v :: v in a ==> a[v] in m && m[a[v]] == v
    requires forall v :: v in b ==> b[v] in m && m[b[v]] == v
    ensures a == b
  {
    assert forall v :: v in a ==> v in b && b[v] == a[v];
    assert forall v :: v in b ==> v in a;
  }

  // ---------------------------------------------------------------------
  // Examples, each ending in an edge that is refused because "b" is unknown

  const BARE := NodeRec([], map[])

  const REFUSED := UpsertEdge("a", "b", "x", map[])

  ghost function WithA(id: nat): World {
    EMPTY_WORLD.AddNode("a", id, BARE)
  }

  lemma UpsertA(w: World, id: nat)
    requires "a" !in w.maps.idOf && id !in w.issuedNodes
    ensures Step(w, UpsertNode("a", [], map[]), true, w.AddNode("a", id, BARE))
  {
    assert Stored(map[]) == map[];
    assert StepWith(w, UpsertNode("a", [], map[]), true, w.AddNode("a", id, BARE), id, {});
  }

  lemma EdgeRefused(w: World)
    requires "b" !in w.maps.idOf
    ensures Step(w, REFUSED, false, w)
  {
    assert StepWith(w, REFUSED, false, w, 0, {});
  }

  /** A node made and rolled back stays bound, to an id the store does not know. */
  lemma FailedUpsertLeavesDeadBinding()
    ensures Step(EMPTY_WORLD, UpsertNode("a", [], map[]), true, WithA(0)) && Step(WithA(0), REFUSED, false, WithA(0))
    ensures !RolledBack(EMPTY_WORLD, WithA(0)).BoundLive()
  {
    UpsertA(EMPTY_WORLD, 0);
    EdgeRefused(WithA(0));
    assert "a" in WithA(0).maps.idOf;
  }

  /** A node deleted and rolled back stays in the store without a key; bound ids are
      all live, yet the next upsert makes a second node for the same key. */
  lemma FailedDeleteLeavesNamelessNode()
    ensures var dropped := WithA(0).DropNode("a", {});
            var after := RolledBack(WithA(0), dropped);
            && Step(WithA(0), DeleteNode("a"), true, dropped) && Step(dropped, REFUSED, false, dropped)
            && NodesNamed(WithA(0)) && after.BoundLive() && !NodesNamed(after)
            && Step(after, UpsertNode("a", [], map[]), true, after.AddNode("a", 1, BARE))
            && |after.AddNode("a", 1, BARE).nodes| == 2 && |after.AddNode("a", 1, BARE).maps.idOf| == 1
  {
    var dropped := WithA(0).DropNode("a", {});
    var after := RolledBack(WithA(0), dropped);
    assert StepWith(WithA(0), DeleteNode("a"), true, dropped, 0, {});
    EdgeRefused(dropped);
    UpsertA(after, 1);
    assert 0 in after.nodes && 0 !in after.maps.keyOf;
    assert after.AddNode("a", 1, BARE).nodes == map[0 := BARE, 1 := BARE];
    assert after.AddNode("a", 1, BARE).maps.idOf == map["a" := 1];
  }

  const LINK := ("a", "c", "y")

  /** Nodes "a" and "c", without edges. */
  ghost function TwoNodes(): World {
    WithA(0).AddNode("c", 1, BARE)
  }

  /** The same with an edge from "a" to "c". */
  ghost function Linked(): World {
    TwoNodes().AddEdge(LINK, 0, EdgeRec(0, 1, "y", map[]))
  }

  /** An edge made and rolled back stays bound, to an id the store does not know. */
  lemma FailedLinkLeavesDeadEdge()
    ensures TwoNodes().Consistent() && Replay.EdgesLive(TwoNodes())
    ensures Step(TwoNodes(), UpsertEdge("a", "c", "y", map[]), true, Linked()) && Step(Linked(), REFUSED, false, Linked())
    ensures !Replay.EdgesLive(RolledBack(TwoNodes(), Linked()))
  {
    assert Stored(map[]) == map[];
    assert StepWith(TwoNodes(), UpsertEdge("a", "c", "y", map[]), true, Linked(), 0, {});
    EdgeRefused(Linked());
    assert LINK in RolledBack(TwoNodes(), Linked()).maps.edgeIdOf;
  }

  /** An edge deleted and rolled back stays in the store without a key; bound edges are
      all live, yet the next upsert makes a second edge between the same nodes. */
  lemma FailedUnlinkLeavesNamelessEdge()
    ensures var cut := Linked().Unlink(LINK);
            var after := RolledBack(Linked(), cut);
            && Linked().Consistent() && EdgesNamed(Linked())
            && Step(Linked(), DeleteEdge("a", "c", "y"), true, cut) && Step(cut, REFUSED, false, cut)
            && Replay.EdgesLive(after) && !EdgesNamed(after)
            && Step(after, UpsertEdge("a", "c", "y", map[]), true, after.AddEdge(LINK, 1, EdgeRec(0, 1, "y", map[])))
            && after.AddEdge(LINK, 1, EdgeRec(0, 1, "y", map[])).edges == map[0 := EdgeRec(0, 1, "y", map[]), 1 := EdgeRec(0, 1, "y", map[])]
  {
    var cut := Linked().Unlink(LINK);
    var after := RolledBack(Linked(), cut);
    assert Stored(map[]) == map[];
    assert StepWith(Linked(), DeleteEdge("a", "c", "y"), true, cut, 0, {});
    EdgeRefused(cut);
    assert 0 in after.edges && 0 !in after.maps.edgeKeyOf;
    assert StepWith(after, UpsertEdge("a", "c", "y", map[]), true, after.AddEdge(LINK, 1, EdgeRec(0, 1, "y", map[])), 1, {});
  }
}
