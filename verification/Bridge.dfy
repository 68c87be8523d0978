/** Id maps and the inbound apply path of src/bridge/grafeo_tx.rs over an abstract
    graph session that never hands out an id twice. */
module Bridge {
  import opened Results
  import opened Values
  import opened TreeMoves

  type Props = map<string, GraphValue>

  datatype LoroOp =
    | UpsertNode(key: string, lbls: seq<string>, props: Props)
    | UpsertEdge(src: string, dst: string, lbl: string, props: Props)
    | DeleteNode(key: string)
    | DeleteEdge(src: string, dst: string, lbl: string)
    | TreeMove(node: string, oldParent: string, newParent: string)

  datatype NodeRec = NodeRec(lbls: seq<string>, props: map<string, StoreValue>)

  datatype EdgeRec = EdgeRec(src: nat, dst: nat, lbl: string, props: map<string, StoreValue>)

  function Stored(props: Props): (r: map<string, StoreValue>)
    ensures r.Keys == props.Keys
  {
    map k | k in props :: GvalToStore(props[k])
  }

  /** Properties that came out of the document read back from the store as they were. */
  lemma StoredReadsBack(values: map<string, LoroValue>, props: Props)
    requires props.Keys == values.Keys && forall k :: k in values ==> LvalToGval(values[k]) == Ok(props[k])
    ensures forall k :: k in values ==> StoreToLval(Stored(props)[k]) == values[k]
  {
    forall k | k in values
      ensures StoreToLval(Stored(props)[k]) == values[k]
    {
      FailsIffOpaque(values[k]);
      RoundTrip(values[k]);
    }
  }

  // ---------------------------------------------------------------------
  // The four id maps

  datatype Maps = Maps(idOf: map<string, nat>, keyOf: map<nat, string>,
                       edgeIdOf: map<EdgeKey, nat>, edgeKeyOf: map<nat, EdgeKey>) {

    ghost predicate NodesInverse() {
      && (forall k :: k in idOf ==> idOf[k] in keyOf && keyOf[idOf[k]] == k)
      && (forall n :: n in keyOf ==> keyOf[n] in idOf && idOf[keyOf[n]] == n)
    }

    ghost predicate EdgesInverse() {
      && (forall k :: k in edgeIdOf ==> edgeIdOf[k] in edgeKeyOf && edgeKeyOf[edgeIdOf[k]] == k)
      && (forall e :: e in edgeKeyOf ==> edgeKeyOf[e] in edgeIdOf && edgeIdOf[edgeKeyOf[e]] == e)
    }

    function InsertNode(key: string, id: nat): Maps {
      this.(idOf := idOf[key := id], keyOf := keyOf[id := key])
    }

    function RemoveNode(key: string): Maps {
      if key in idOf then this.(idOf := idOf - {key}, keyOf := keyOf - {idOf[key]}) else this
    }

    function InsertEdge(key: EdgeKey, id: nat): Maps {
      this.(edgeIdOf := edgeIdOf[key := id], edgeKeyOf := edgeKeyOf[id := key])
    }

    function RemoveEdge(key: EdgeKey): Maps {
      if key in edgeIdOf then this.(edgeIdOf := edgeIdOf - {key}, edgeKeyOf := edgeKeyOf - {edgeIdOf[key]}) else this
    }
  }

  datatype BijectionError =
    | MissingInverse(key: string, id: nat)
    | MissingForward(key: string, id: nat)
    | DuplicateId(id: nat, keyA: string, keyB: string)
    | DuplicateKey(key: string, idA: nat, idB: nat)
  {
    /** The error names a real disagreement between the two node maps. */
    ghost predicate Real(m: Maps) {
      match this
      case MissingInverse(k, n) => k in m.idOf && m.idOf[k] == n && n !in m.keyOf
      case MissingForward(k, n) => n in m.keyOf && m.keyOf[n] == k && k !in m.idOf
      case DuplicateId(n, a, b) => a in m.idOf && m.idOf[a] == n && n in m.keyOf && m.keyOf[n] == b && a != b
      case DuplicateKey(k, a, b) => a in m.keyOf && m.keyOf[a] == k && k in m.idOf && m.idOf[k] == b && a != b
    }
  }

  class BridgeMaps {
    var idOf: map<string, nat>
    var keyOf: map<nat, string>
    var edgeIdOf: map<EdgeKey, nat>
    var edgeKeyOf: map<nat, EdgeKey>

    function View(): Maps
      reads this
    {
      Maps(idOf, keyOf, edgeIdOf, edgeKeyOf)
    }

    constructor ()
      ensures View() == Maps(map[], map[], map[], map[])
    {
      idOf, keyOf, edgeIdOf, edgeKeyOf := map[], map[], map[], map[];
    }

    method InsertNode(key: string, id: nat)
      modifies this
      ensures View() == old(View()).InsertNode(key, id)
    {
      idOf := idOf[key := id];
      keyOf := keyOf[id := key];
    }

    method RemoveNode(key: string) returns (id: Option<nat>)
      modifies this
      ensures View() == old(View()).RemoveNode(key)
      ensures id == if key in old(idOf) then Some(old(idOf)[key]) else None
    {
      if key !in idOf {
        return None;
      }
      id := Some(idOf[key]);
      idOf := idOf - {key};
      keyOf := keyOf - {id.value};
    }

    method InsertEdge(key: EdgeKey, id: nat)
      modifies this
      ensures View() == old(View()).InsertEdge(key, id)
    {
      edgeIdOf := edgeIdOf[key := id];
      edgeKeyOf := edgeKeyOf[id := key];
    }

    method RemoveEdge(key: EdgeKey) returns (id: Option<nat>)
      modifies this
      ensures View() == old(View()).RemoveEdge(key)
      ensures id == if key in old(edgeIdOf) then Some(old(edgeIdOf)[key]) else None
    {
      if key !in edgeIdOf {
        return None;
      }
      id := Some(edgeIdOf[key]);
      edgeIdOf := edgeIdOf - {key};
      edgeKeyOf := edgeKeyOf - {id.value};
    }

    /** Accepts exactly the mutually inverse node maps, and otherwise names a real fault. */
    method ValidateTextBijection() returns (r: Result<(), BijectionError>)
      ensures r.Ok? <==> View().NodesInverse()
      ensures r.Err? ==> r.error.Real(View())
    {
      var keys := idOf.Keys;
      while keys != {}
        invariant keys <= idOf.Keys
        invariant forall k :: k in idOf && k !in keys ==> idOf[k] in keyOf && keyOf[idOf[k]] == k
      {
        var k :| k in keys;
        keys := keys - {k};
        var id := idOf[k];
        if id !in keyOf {
          return Err(MissingInverse(k, id));
        }
        if keyOf[id] != k {
          return Err(DuplicateId(id, k, keyOf[id]));
        }
      }
      var ids := keyOf.Keys;
      while ids != {}
        invariant ids <= keyOf.Keys
        invariant forall n :: n in keyOf && n !in ids ==> keyOf[n] in idOf && idOf[keyOf[n]] == n
      {
        var n :| n in ids;
        ids := ids - {n};
        var k := keyOf[n];
        if k !in idOf {
          return Err(MissingForward(k, n));
        }
        if idOf[k] != n {
          return Err(DuplicateKey(k, n, idOf[k]));
        }
      }
      return Ok(());
    }
  }

  // ---------------------------------------------------------------------
  // What one operation does to session and maps

  /** Session contents, every id ever handed out, and the maps. */
  datatype World = World(nodes: map<nat, NodeRec>, edges: map<nat, EdgeRec>,
                         issuedNodes: set<nat>, issuedEdges: set<nat>, maps: Maps) {

    ghost predicate Consistent() {
      NodesConsistent() && EdgesConsistent()
    }

    ghost predicate NodesConsistent() {
      && maps.NodesInverse() && nodes.Keys <= issuedNodes
      && forall n :: n in maps.keyOf ==> n in nodes
    }

    ghost predicate EdgesConsistent() {
      && maps.EdgesInverse() && edges.Keys <= issuedEdges
      && maps.edgeKeyOf.Keys <= issuedEdges
    }

    // The changes operations are made of

    function AddNode(key: string, id: nat, rec: NodeRec): World {
      this.(nodes := nodes[id := rec], issuedNodes := issuedNodes + {id}, maps := maps.InsertNode(key, id))
    }

    function SetNodeProps(id: nat, props: map<string, StoreValue>): World
      requires id in nodes
    {
      this.(nodes := nodes[id := nodes[id].(props := nodes[id].props + props)])
    }

    function AddEdge(key: EdgeKey, id: nat, rec: EdgeRec): World {
      this.(edges := edges[id := rec], issuedEdges := issuedEdges + {id}, maps := maps.InsertEdge(key, id))
    }

    function SetEdgeProps(id: nat, props: map<string, StoreValue>): World
      requires id in edges
    {
      this.(edges := edges[id := edges[id].(props := edges[id].props + props)])
    }

    /** Binding and node go, and with them the edges in `gone`. */
    function DropNode(key: string, gone: set<nat>): World
      requires key in maps.idOf
    {
      this.(nodes := nodes - {maps.idOf[key]}, edges := edges - gone, maps := maps.RemoveNode(key))
    }

    /** Edge binding and edge go, if there is a binding. */
    function Unlink(key: EdgeKey): World {
      if key in maps.edgeIdOf then this.(edges := edges - {maps.edgeIdOf[key]}, maps := maps.RemoveEdge(key)) else this
    }

    lemma AddNodeKeeps(key: string, id: nat, rec: NodeRec)
      requires Consistent() && key !in maps.idOf && id !in issuedNodes
      ensures AddNode(key, id, rec).Consistent()
      ensures EndpointsAgree() ==> AddNode(key, id, rec).EndpointsAgree()
    {
      assert AddNode(key, id, rec).NodesConsistent();
    }

    lemma SetNodePropsKeeps(id: nat, props: map<string, StoreValue>)
      requires Consistent() && id in nodes
      ensures SetNodeProps(id, props).Consistent()
      ensures EndpointsAgree() ==> SetNodeProps(id, props).EndpointsAgree()
    {
      assert SetNodeProps(id, props).nodes.Keys == nodes.Keys;
    }

    lemma AddEdgeKeeps(key: EdgeKey, id: nat, rec: EdgeRec)
      requires Consistent() && key !in maps.edgeIdOf && id !in issuedEdges
      ensures AddEdge(key, id, rec).Consistent()
      ensures EndpointsAgree() && key.0 in maps.idOf && key.1 in maps.idOf && rec.src == maps.idOf[key.0] && rec.dst == maps.idOf[key.1]
              ==> AddEdge(key, id, rec).EndpointsAgree()
    {
      assert AddEdge(key, id, rec).EdgesConsistent();
    }

    lemma SetEdgePropsKeeps(id: nat, props: map<string, StoreValue>)
      requires Consistent() && id in edges
      ensures SetEdgeProps(id, props).Consistent()
      ensures EndpointsAgree() ==> SetEdgeProps(id, props).EndpointsAgree()
    {
      assert SetEdgeProps(id, props).edges.Keys == edges.Keys;
    }

    lemma DropNodeKeeps(key: string, gone: set<nat>)
      requires Consistent() && key in maps.idOf
      ensures DropNode(key, gone).Consistent()
      ensures EndpointsAgree() ==>
                (DropNode(key, gone).EndpointsAgree() <==> !exists k :: k in maps.edgeIdOf && (k.0 == key || k.1 == key))
    {
      var w' := DropNode(key, gone);
      assert w'.NodesConsistent();
      forall k | k in maps.edgeIdOf && (k.0 == key || k.1 == key)
        ensures !w'.EndpointsAgree()
      {
        assert k in w'.maps.edgeIdOf;
      }
    }

    lemma UnlinkKeeps(key: EdgeKey)
      requires Consistent()
      ensures Unlink(key).Consistent()
      ensures EndpointsAgree() ==> Unlink(key).EndpointsAgree()
    {
      assert Unlink(key).EdgesConsistent();
    }

    /** Every bound node id is a node of the session. */
    ghost predicate BoundLive() {
      forall k :: k in maps.idOf ==> maps.idOf[k] in nodes
    }

    /** Every bound edge joins the nodes that its key names. */
    ghost predicate EndpointsAgree() {
      forall k :: k in maps.edgeIdOf ==>
        && k.0 in maps.idOf && k.1 in maps.idOf
        && (maps.edgeIdOf[k] in edges ==>
              edges[maps.edgeIdOf[k]].src == maps.idOf[k.0] && edges[maps.edgeIdOf[k]].dst == maps.idOf[k.1])
    }
  }

  const EMPTY_WORLD := World(map[], map[], {}, {}, Maps(map[], map[], map[], map[]))

  /** `id` is what the session hands out if it creates something; `gone` are the
      incident edges that go with a deleted node, which is the session's choice. */
  ghost predicate StepWith(w: World, op: LoroOp, ok: bool, w': World, id: nat, gone: set<nat>) {
    match op
    case UpsertNode(key, lbls, props) =>
      if key !in w.maps.idOf then ok && id !in w.issuedNodes && w' == w.AddNode(key, id, NodeRec(lbls, Stored(props)))
      else if w.maps.idOf[key] in w.nodes then ok && w' == w.SetNodeProps(w.maps.idOf[key], Stored(props))
      else w' == w
    case UpsertEdge(src, dst, lbl, props) =>
      if src !in w.maps.idOf || dst !in w.maps.idOf then !ok && w' == w
      else if (src, dst, lbl) !in w.maps.edgeIdOf then
        && ok && id !in w.issuedEdges
        && w' == w.AddEdge((src, dst, lbl), id, EdgeRec(w.maps.idOf[src], w.maps.idOf[dst], lbl, Stored(props)))
      else if w.maps.edgeIdOf[(src, dst, lbl)] in w.edges then
        ok && w' == w.SetEdgeProps(w.maps.edgeIdOf[(src, dst, lbl)], Stored(props))
      else w' == w
    case DeleteNode(key) =>
      if key !in w.maps.idOf then ok && w' == w
      else ok && Incident(w, w.maps.idOf[key], gone) && w' == w.DropNode(key, gone)
    case DeleteEdge(src, dst, lbl) =>
      ok && w' == w.Unlink((src, dst, lbl))
    case TreeMove(node, oldParent, newParent) =>
      if node !in w.maps.idOf || newParent !in w.maps.idOf then ok && w' == w
      else
        var mid := w.Unlink((oldParent, node, TREE_EDGE_LABEL));
        var key := (newParent, node, TREE_EDGE_LABEL);
        if key in mid.maps.edgeIdOf then ok && w' == mid
        else
          && ok && id !in w.issuedEdges
          && w' == mid.AddEdge(key, id, EdgeRec(w.maps.idOf[newParent], w.maps.idOf[node], TREE_EDGE_LABEL, map[]))
  }

  ghost predicate Incident(w: World, n: nat, gone: set<nat>) {
    forall e :: e in gone ==> e in w.edges && (w.edges[e].src == n || w.edges[e].dst == n)
  }

  ghost predicate Step(w: World, op: LoroOp, ok: bool, w': World) {
    exists id, gone :: StepWith(w, op, ok, w', id, gone)
  }

  /** A node is deleted that some bound edge still names. */
  ghost predicate Orphans(w: World, op: LoroOp) {
    op.DeleteNode? && op.key in w.maps.idOf && exists k :: k in w.maps.edgeIdOf && (k.0 == op.key || k.1 == op.key)
  }

  /** Maps stay mutually inverse and bound nodes live, whatever the operation; only
      an edge can be refused, and then nothing changes. Deleting a node does not touch
      the edge maps, so bound edges keep joining the nodes their keys name except
      exactly when the operation deletes a node that a bound edge still names. */
  lemma StepKeeps(w: World, op: LoroOp, ok: bool, w': World)
    requires w.Consistent() && Step(w, op, ok, w')
    ensures w'.Consistent() && w'.BoundLive()
    ensures w.issuedNodes <= w'.issuedNodes && w.issuedEdges <= w'.issuedEdges
    ensures !ok ==> op.UpsertEdge? && w' == w
    ensures w.EndpointsAgree() ==> (w'.EndpointsAgree() <==> !Orphans(w, op))
  {
    var id, gone :| StepWith(w, op, ok, w', id, gone);
    match op {
      case UpsertNode(key, lbls, props) =>
        if key !in w.maps.idOf {
          w.AddNodeKeeps(key, id, NodeRec(lbls, Stored(props)));
        } else {
          w.SetNodePropsKeeps(w.maps.idOf[key], Stored(props));
        }
      case UpsertEdge(src, dst, lbl, props) =>
        if src in w.maps.idOf && dst in w.maps.idOf {
          if (src, dst, lbl) !in w.maps.edgeIdOf {
            w.AddEdgeKeeps((src, dst, lbl), id, EdgeRec(w.maps.idOf[src], w.maps.idOf[dst], lbl, Stored(props)));
          } else if w.maps.edgeIdOf[(src, dst, lbl)] in w.edges {
            w.SetEdgePropsKeeps(w.maps.edgeIdOf[(src, dst, lbl)], Stored(props));
          }
        }
      case DeleteNode(key) =>
        if key in w.maps.idOf {
          w.DropNodeKeeps(key, gone);
        }
      case DeleteEdge(src, dst, lbl) =>
        w.UnlinkKeeps((src, dst, lbl));
      case TreeMove(node, oldParent, newParent) =>
        if node in w.maps.idOf && newParent in w.maps.idOf {
          var mid := w.Unlink((oldParent, node, TREE_EDGE_LABEL));
          var key := (newParent, node, TREE_EDGE_LABEL);
          w.UnlinkKeeps((oldParent, node, TREE_EDGE_LABEL));
          if key !in mid.maps.edgeIdOf {
            mid.AddEdgeKeeps(key, id, EdgeRec(w.maps.idOf[newParent], w.maps.idOf[node], TREE_EDGE_LABEL, map[]));
          }
        }
    }
    LiveWhenConsistent(w');
  }

  lemma LiveWhenConsistent(w: World)
    requires w.Consistent()
    ensures w.BoundLive()
  {
  }

  ghost predicate Run(ws: seq<World>, ops: seq<LoroOp>) {
    && |ws| == |ops| + 1
    && forall i :: 0 <= i < |ops| ==> Step(ws[i], ops[i], true, ws[i + 1])
  }

  lemma RunTail(ws: seq<World>, ops: seq<LoroOp>)
    requires Run(ws, ops) && ops != []
    ensures Run(ws[1..], ops[1..]) && Step(ws[0], ops[0], true, ws[1]) && ws[1..][|ops[1..]|] == ws[|ops|]
  {
    forall i | 0 <= i < |ops[1..]|
      ensures Step(ws[1..][i], ops[1..][i], true, ws[1..][i + 1])
    {
      assert Step(ws[i + 1], ops[i + 1], true, ws[i + 2]);
    }
  }

  /** One operation, whether it succeeds or is refused. */
  ghost predicate Attempt(w: World, op: LoroOp, w': World) {
    exists ok :: Step(w, op, ok, w')
  }

  /** A run in which operations may be refused. */
  ghost predicate Trace(ws: seq<World>, ops: seq<LoroOp>) {
    && |ws| == |ops| + 1
    && forall i :: 0 <= i < |ops| ==> Attempt(ws[i], ops[i], ws[i + 1])
  }

  lemma RunIsTrace(ws: seq<World>, ops: seq<LoroOp>)
    requires Run(ws, ops)
    ensures Trace(ws, ops)
  {
    forall i | 0 <= i < |ops|
      ensures Attempt(ws[i], ops[i], ws[i + 1])
    {
      assert Step(ws[i], ops[i], true, ws[i + 1]);
    }
  }

  lemma TraceTail(ws: seq<World>, ops: seq<LoroOp>)
    requires Trace(ws, ops) && ops != []
    ensures Trace(ws[1..], ops[1..]) && Attempt(ws[0], ops[0], ws[1]) && ws[1..][|ops[1..]|] == ws[|ops|]
  {
    forall i | 0 <= i < |ops[1..]|
      ensures Attempt(ws[1..][i], ops[1..][i], ws[1..][i + 1])
    {
      assert Attempt(ws[i + 1], ops[i + 1], ws[i + 2]);
    }
  }

  lemma {:induction false} RunKeepsConsistent(ws: seq<World>, ops: seq<LoroOp>)
    requires Trace(ws, ops) && ws[0].Consistent()
    ensures ws[|ops|].Consistent() && ws[|ops|].BoundLive()
    ensures ws[0].issuedNodes <= ws[|ops|].issuedNodes && ws[0].issuedEdges <= ws[|ops|].issuedEdges
    decreases |ops|
  {
    if ops == [] {
      LiveWhenConsistent(ws[0]);
    } else {
      TraceTail(ws, ops);
      var ok :| Step(ws[0], ops[0], ok, ws[1]);
      StepKeeps(ws[0], ops[0], ok, ws[1]);
      RunKeepsConsistent(ws[1..], ops[1..]);
    }
  }

  /** From nothing, every sequence of operations, refused ones among them, leaves both
      pairs of maps mutually inverse and every bound node live. */
  lemma RunsFromEmpty(ws: seq<World>, ops: seq<LoroOp>)
    requires Trace(ws, ops) && ws[0] == EMPTY_WORLD
    ensures ws[|ops|].maps.NodesInverse() && ws[|ops|].maps.EdgesInverse() && ws[|ops|].BoundLive()
  {
    RunKeepsConsistent(ws, ops);
  }

  /** After a refusal: the session as at the start, maps and ids as reached. */
  ghost function RolledBack(start: World, reached: World): World {
    start.(maps := reached.maps, issuedNodes := reached.issuedNodes, issuedEdges := reached.issuedEdges)
  }

  // ---------------------------------------------------------------------
  // Examples

  /** A node is deleted, the edge that names it stays bound. */
  lemma DeletedNodeOrphansEdge(gone: set<nat>)
    requires gone <= {0}
    ensures var node, ab := NodeRec([], map[]), ("a", "b", "x");
            var w1 := EMPTY_WORLD.AddNode("a", 0, node);
            var w2 := w1.AddNode("b", 1, node);
            var w3 := w2.AddEdge(ab, 0, EdgeRec(0, 1, "x", map[]));
            var w4 := w3.DropNode("a", gone);
            && Run([EMPTY_WORLD, w1, w2, w3, w4],
                   [UpsertNode("a", [], map[]), UpsertNode("b", [], map[]), UpsertEdge("a", "b", "x", map[]), DeleteNode("a")])
            && w3.EndpointsAgree() && !w4.EndpointsAgree() && ab in w4.maps.edgeIdOf
  {
    assert Stored(map[]) == map[];
    var node, ab := NodeRec([], map[]), ("a", "b", "x");
    var w1 := EMPTY_WORLD.AddNode("a", 0, node);
    var w2 := w1.AddNode("b", 1, node);
    var w3 := w2.AddEdge(ab, 0, EdgeRec(0, 1, "x", map[]));
    var w4 := w3.DropNode("a", gone);
    assert StepWith(EMPTY_WORLD, UpsertNode("a", [], map[]), true, w1, 0, {});
    assert StepWith(w1, UpsertNode("b", [], map[]), true, w2, 1, {});
    assert StepWith(w2, UpsertEdge("a", "b", "x", map[]), true, w3, 0, {});
    assert StepWith(w3, DeleteNode("a"), true, w4, 0, gone);
    assert ab in w4.maps.edgeIdOf && "a" !in w4.maps.idOf;
  }

  /** A move onto the parent the node already has takes the edge away and makes a new
      one: same end points, another id, no properties. */
  lemma MoveToSameParentRenews(w: World, node: string, parent: string, w': World)
    requires w.Consistent() && node in w.maps.idOf && parent in w.maps.idOf
    requires (parent, node, TREE_EDGE_LABEL) in w.maps.edgeIdOf
    requires Step(w, TreeMove(node, parent, parent), true, w')
    ensures var k := (parent, node, TREE_EDGE_LABEL);
            var was, renewed := w.maps.edgeIdOf[k], w'.maps.edgeIdOf[k];
            && renewed != was && renewed !in w.issuedEdges && was !in w'.edges
            && w'.edges == (w.edges - {was})[renewed := EdgeRec(w.maps.idOf[parent], w.maps.idOf[node], TREE_EDGE_LABEL, map[])]
  {
    var id, gone :| StepWith(w, TreeMove(node, parent, parent), true, w', id, gone);
  }

  /** Such a move is the no-op it is said to be only if one of the two is unknown. */
  lemma MoveToSameParentNoopIff(w: World, node: string, parent: string, ok: bool, w': World)
    requires w.Consistent() && Step(w, TreeMove(node, parent, parent), ok, w')
    ensures w' == w <==> node !in w.maps.idOf || parent !in w.maps.idOf
  {
    var id, gone :| StepWith(w, TreeMove(node, parent, parent), ok, w', id, gone);
    if node in w.maps.idOf && parent in w.maps.idOf {
      assert id in w'.issuedEdges && id !in w.issuedEdges;
    }
  }
}
