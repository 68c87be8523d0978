/** Applying operations through a session, one after the other
    (src/bridge/grafeo_tx.rs), and a batch of them in one transaction
    (src/bridge/batcher.rs). */
module BridgeApply {
  import opened Values
  import opened TreeMoves
  import opened Bridge

  /** A graph session: ids are handed out in increasing order and never again. */
  class Session {
    var nodes: map<nat, NodeRec>
    var edges: map<nat, EdgeRec>
    var nextNode: nat
    var nextEdge: nat
    ghost var issuedNodes: set<nat>
    ghost var issuedEdges: set<nat>

    ghost predicate Valid()
      reads this
    {
      && (forall n :: n in issuedNodes ==> n < nextNode)
      && (forall e :: e in issuedEdges ==> e < nextEdge)
    }

    constructor ()
      ensures Valid() && nodes == map[] && edges == map[] && issuedNodes == {} && issuedEdges == {}
    {
      nodes, edges, nextNode, nextEdge := map[], map[], 0, 0;
      issuedNodes, issuedEdges := {}, {};
    }

    method CreateNode(rec: NodeRec) returns (id: nat)
      requires Valid()
      modifies this
      ensures Valid() && id !in old(issuedNodes) && issuedNodes == old(issuedNodes) + {id}
      ensures nodes == old(nodes)[id := rec] && edges == old(edges) && issuedEdges == old(issuedEdges)
    {
      id := nextNode;
      nextNode := nextNode + 1;
      issuedNodes := issuedNodes + {id};
      nodes := nodes[id := rec];
    }

    method CreateEdge(rec: EdgeRec) returns (id: nat)
      requires Valid()
      modifies this
      ensures Valid() && id !in old(issuedEdges) && issuedEdges == old(issuedEdges) + {id}
      ensures edges == old(edges)[id := rec] && nodes == old(nodes) && issuedNodes == old(issuedNodes)
    {
      id := nextEdge;
      nextEdge := nextEdge + 1;
      issuedEdges := issuedEdges + {id};
      edges := edges[id := rec];
    }

    /** One property after the other; refused if the node does not exist. */
    method SetNodeProperties(id: nat, props: Props) returns (ok: bool)
      requires Valid()
      modifies this`nodes
      ensures id in old(nodes) ==> ok && nodes == old(nodes)[id := old(nodes)[id].(props := old(nodes)[id].props + Stored(props))]
      ensures id !in old(nodes) ==> nodes == old(nodes)
    {
      if id !in nodes {
        return props == map[];
      }
      var base := nodes[id];
      var acc := base.props;
      var rest := props.Keys;
      while rest != {}
        invariant rest <= props.Keys
        invariant acc == base.props + Stored(map k | k in props && k !in rest :: props[k])
      {
        var k :| k in rest;
        rest := rest - {k};
        acc := acc[k := GvalToStore(props[k])];
      }
      assert (map k | k in props && k !in rest :: props[k]) == props;
      nodes := nodes[id := base.(props := acc)];
      return true;
    }

    method SetEdgeProperties(id: nat, props: Props) returns (ok: bool)
      requires Valid()
      modifies this`edges
      ensures id in old(edges) ==> ok && edges == old(edges)[id := old(edges)[id].(props := old(edges)[id].props + Stored(props))]
      ensures id !in old(edges) ==> edges == old(edges)
    {
      if id !in edges {
        return props == map[];
      }
      var base := edges[id];
      var acc := base.props;
      var rest := props.Keys;
      while rest != {}
        invariant rest <= props.Keys
        invariant acc == base.props + Stored(map k | k in props && k !in rest :: props[k])
      {
        var k :| k in rest;
        rest := rest - {k};
        acc := acc[k := GvalToStore(props[k])];
      }
      assert (map k | k in props && k !in rest :: props[k]) == props;
      edges := edges[id := base.(props := acc)];
      return true;
    }

    /** The node, and the incident edges that the session takes along. */
    method DeleteNode(id: nat) returns (ghost gone: set<nat>)
      requires Valid()
      modifies this`nodes, this`edges
      ensures forall e :: e in gone ==> e in old(edges) && (old(edges)[e].src == id || old(edges)[e].dst == id)
      ensures nodes == old(nodes) - {id} && edges == old(edges) - gone
    {
      nodes := nodes - {id};
      var incident := set e | e in edges && (edges[e].src == id || edges[e].dst == id);
      edges := edges - incident;
      gone := incident;
    }

    method DeleteEdge(id: nat)
      modifies this`edges
      ensures edges == old(edges) - {id}
    {
      edges := edges - {id};
    }
  }

  ghost function WorldOf(s: Session, m: BridgeMaps): World
    reads s, m
  {
    World(s.nodes, s.edges, s.issuedNodes, s.issuedEdges, m.View())
  }

  method ApplyUpsertNode(s: Session, key: string, lbls: seq<string>, props: Props, m: BridgeMaps) returns (ok: bool)
    requires s.Valid()
    modifies s, m
    ensures s.Valid() && Step(old(WorldOf(s, m)), UpsertNode(key, lbls, props), ok, WorldOf(s, m))
  {
    ghost var w := WorldOf(s, m);
    if key in m.idOf {
      ok := s.SetNodeProperties(m.idOf[key], props);
      assert StepWith(w, UpsertNode(key, lbls, props), ok, WorldOf(s, m), 0, {});
      return;
    }
    var id := s.CreateNode(NodeRec(lbls, Stored(props)));
    m.InsertNode(key, id);
    ok := true;
    assert StepWith(w, UpsertNode(key, lbls, props), ok, WorldOf(s, m), id, {});
  }

  method ApplyUpsertEdge(s: Session, src: string, dst: string, lbl: string, props: Props, m: BridgeMaps) returns (ok: bool)
    requires s.Valid()
    modifies s, m
    ensures s.Valid() && Step(old(WorldOf(s, m)), UpsertEdge(src, dst, lbl, props), ok, WorldOf(s, m))
  {
    ghost var w := WorldOf(s, m);
    if src !in m.idOf || dst !in m.idOf {
      ok := false;
      assert StepWith(w, UpsertEdge(src, dst, lbl, props), ok, WorldOf(s, m), 0, {});
      return;
    }
    var key := (src, dst, lbl);
    if key in m.edgeIdOf {
      ok := s.SetEdgeProperties(m.edgeIdOf[key], props);
      assert StepWith(w, UpsertEdge(src, dst, lbl, props), ok, WorldOf(s, m), 0, {});
      return;
    }
    var id := s.CreateEdge(EdgeRec(m.idOf[src], m.idOf[dst], lbl, Stored(props)));
    m.InsertEdge(key, id);
    ok := true;
    assert StepWith(w, UpsertEdge(src, dst, lbl, props), ok, WorldOf(s, m), id, {});
  }

  method ApplyTreeMove(s: Session, node: string, oldParent: string, newParent: string, m: BridgeMaps) returns (ok: bool)
    requires s.Valid()
    modifies s, m
    ensures s.Valid() && Step(old(WorldOf(s, m)), TreeMove(node, oldParent, newParent), ok, WorldOf(s, m))
  {
    ghost var w := WorldOf(s, m);
    ok := true;
    if node !in m.idOf || newParent !in m.idOf {
      assert StepWith(w, TreeMove(node, oldParent, newParent), ok, WorldOf(s, m), 0, {});
      return;
    }
    var nodeId, parentId := m.idOf[node], m.idOf[newParent];
    Unlink(s, (oldParent, node, TREE_EDGE_LABEL), m);
    ghost var mid := WorldOf(s, m);
    var key := (newParent, node, TREE_EDGE_LABEL);
    if key !in m.edgeIdOf {
      var id := s.CreateEdge(EdgeRec(parentId, nodeId, TREE_EDGE_LABEL, map[]));
      m.InsertEdge(key, id);
      assert StepWith(w, TreeMove(node, oldParent, newParent), ok, WorldOf(s, m), id, {});
    } else {
      assert StepWith(w, TreeMove(node, oldParent, newParent), ok, WorldOf(s, m), 0, {});
    }
  }

  method Unlink(s: Session, key: EdgeKey, m: BridgeMaps)
    requires s.Valid()
    modifies s, m
    ensures s.Valid() && WorldOf(s, m) == old(WorldOf(s, m)).Unlink(key)
  {
    var id := m.RemoveEdge(key);
    if id.Some? {
      s.DeleteEdge(id.value);
    }
  }

  method ApplyLoroOp(s: Session, op: LoroOp, m: BridgeMaps) returns (ok: bool)
    requires s.Valid()
    modifies s, m
    ensures s.Valid() && Step(old(WorldOf(s, m)), op, ok, WorldOf(s, m))
  {
    ghost var w := WorldOf(s, m);
    match op
    case UpsertNode(key, lbls, props) =>
      ok := ApplyUpsertNode(s, key, lbls, props, m);
    case UpsertEdge(src, dst, lbl, props) =>
      ok := ApplyUpsertEdge(s, src, dst, lbl, props, m);
    case DeleteNode(key) =>
      var id := m.RemoveNode(key);
      ok := true;
      if id.Some? {
        ghost var gone := s.DeleteNode(id.value);
        assert StepWith(w, op, ok, WorldOf(s, m), 0, gone);
      } else {
        assert StepWith(w, op, ok, WorldOf(s, m), 0, {});
      }
    case DeleteEdge(src, dst, lbl) =>
      Unlink(s, (src, dst, lbl), m);
      ok := true;
      assert StepWith(w, op, ok, WorldOf(s, m), 0, {});
    case TreeMove(node, oldParent, newParent) =>
      ok := ApplyTreeMove(s, node, oldParent, newParent, m);
  }

  /** From `start` the batch gets to `reached`, and there its next operation is refused. */
  ghost predicate RefusedBatch(start: World, ops: seq<LoroOp>, reached: World) {
    exists ws :: RefusedAfter(ws, start, ops, reached)
  }

  ghost predicate RefusedAfter(ws: seq<World>, start: World, ops: seq<LoroOp>, reached: World) {
    && 0 < |ws| <= |ops| && Run(ws, ops[..|ws| - 1]) && ws[0] == start && ws[|ws| - 1] == reached
    && Step(reached, ops[|ws| - 1], false, reached)
  }

  /** One transaction: apply in order, stop at the first refusal and roll the
      session back, but not the maps. */
  method FlushBatch(s: Session, ops: seq<LoroOp>, m: BridgeMaps) returns (ok: bool, ghost ws: seq<World>)
    requires s.Valid()
    modifies s, m
    ensures s.Valid() && 0 < |ws| <= |ops| + 1 && ws[0] == old(WorldOf(s, m))
    ensures Run(ws, ops[..|ws| - 1])
    ensures ok <==> |ws| == |ops| + 1
    ensures ok ==> WorldOf(s, m) == ws[|ops|]
    ensures !ok ==> WorldOf(s, m) == RolledBack(ws[0], ws[|ws| - 1])
    ensures !ok ==> RefusedAfter(ws, old(WorldOf(s, m)), ops, ws[|ws| - 1])
  {
    var nodes0, edges0 := s.nodes, s.edges;
    ws := [WorldOf(s, m)];
    for i := 0 to |ops|
      invariant s.Valid() && |ws| == i + 1 && ws[0] == old(WorldOf(s, m)) && ws[i] == WorldOf(s, m)
      invariant Run(ws, ops[..i])
    {
      ghost var before := WorldOf(s, m);
      var done := ApplyLoroOp(s, ops[i], m);
      if !done {
        Refused(before, ops[i], WorldOf(s, m));
        s.nodes, s.edges := nodes0, edges0;
        return false, ws;
      }
      assert ops[..i + 1] == ops[..i] + [ops[i]];
      ws := ws + [WorldOf(s, m)];
    }
    assert ops[..|ops|] == ops;
    return true, ws;
  }

  /** A refused operation leaves maps and id counters as they were. */
  lemma Refused(w: World, op: LoroOp, w': World)
    requires Step(w, op, false, w')
    ensures w' == w
  {
    var id, gone :| StepWith(w, op, false, w', id, gone);
  }
}
