/** What a sequence of operations means: a document of keyed nodes and edges, which
    the graph store mirrors through the id maps (src/bridge/grafeo_tx.rs). */
module Replay {
  import opened Results
  import opened Values
  import opened TreeMoves
  import opened Bridge

  type Nodes = map<string, NodeRec>

  /** Properties by edge key; the key holds end points and label. */
  type KeyedEdges = map<EdgeKey, map<string, StoreValue>>

  datatype Doc = Doc(nodes: Nodes, edges: KeyedEdges)

  const EMPTY_DOC := Doc(map[], map[])

  /** No ids, no maps: keys alone. */
  ghost function After(doc: Doc, op: LoroOp): Doc {
    match op
    case UpsertNode(k, lbls, props) =>
      doc.(nodes := doc.nodes[k := if k in doc.nodes then doc.nodes[k].(props := doc.nodes[k].props + Stored(props))
                                   else NodeRec(lbls, Stored(props))])
    case UpsertEdge(src, dst, lbl, props) =>
      if src !in doc.nodes || dst !in doc.nodes then doc else doc.(edges := Upserted(doc.edges, (src, dst, lbl), Stored(props)))
    case DeleteNode(k) => doc.(nodes := doc.nodes - {k})
    case DeleteEdge(src, dst, lbl) => doc.(edges := doc.edges - {(src, dst, lbl)})
    case TreeMove(node, oldParent, newParent) =>
      if node !in doc.nodes || newParent !in doc.nodes then doc
      else doc.(edges := Upserted(doc.edges - {(oldParent, node, TREE_EDGE_LABEL)}, (newParent, node, TREE_EDGE_LABEL), map[]))
  }

  ghost function Upserted(edges: KeyedEdges, k: EdgeKey, props: map<string, StoreValue>): KeyedEdges {
    edges[k := (if k in edges then edges[k] else map[]) + props]
  }

  ghost function Replayed(doc: Doc, ops: seq<LoroOp>): Doc
    decreases |ops|
  {
    if ops == [] then doc else Replayed(After(doc, ops[0]), ops[1..])
  }

  /** The store's nodes are the document's, one for each key, and no others. */
  ghost predicate MirrorsNodes(w: World, nodes: Nodes) {
    && w.maps.idOf.Keys == nodes.Keys && w.nodes.Keys == w.maps.keyOf.Keys
    && forall k :: k in nodes ==> w.maps.idOf[k] in w.nodes && w.nodes[w.maps.idOf[k]] == nodes[k]
  }

  /** Every stored edge is one of the document's, with its label and properties;
      those that went with a deleted node may be missing. */
  ghost predicate MirrorsEdges(w: World, edges: KeyedEdges) {
    && w.maps.edgeIdOf.Keys == edges.Keys && w.edges.Keys <= w.maps.edgeKeyOf.Keys
    && forall k :: k in edges && w.maps.edgeIdOf[k] in w.edges ==> Holds(w.edges[w.maps.edgeIdOf[k]], k, edges[k])
  }

  ghost predicate Holds(e: EdgeRec, k: EdgeKey, props: map<string, StoreValue>) {
    e.lbl == k.2 && e.props == props
  }

  ghost predicate Mirrors(w: World, doc: Doc) {
    w.Consistent() && MirrorsNodes(w, doc.nodes) && MirrorsEdges(w, doc.edges)
  }

  // One lemma for each change an operation is made of

  lemma AddNodeMirrors(w: World, nodes: Nodes, k: string, id: nat, rec: NodeRec)
    requires w.NodesConsistent() && MirrorsNodes(w, nodes) && k !in nodes && id !in w.issuedNodes
    ensures MirrorsNodes(w.AddNode(k, id, rec), nodes[k := rec])
  {
    assert forall l :: l in nodes ==> w.maps.idOf[l] != id;
  }

  lemma SetPropsMirrors(w: World, nodes: Nodes, k: string, props: map<string, StoreValue>)
    requires w.NodesConsistent() && MirrorsNodes(w, nodes) && k in nodes
    ensures MirrorsNodes(w.SetNodeProps(w.maps.idOf[k], props), nodes[k := nodes[k].(props := nodes[k].props + props)])
  {
    assert forall l :: l in nodes && w.maps.idOf[l] == w.maps.idOf[k] ==> l == k;
  }

  lemma DropNodeMirrors(w: World, nodes: Nodes, k: string, gone: set<nat>)
    requires w.NodesConsistent() && MirrorsNodes(w, nodes) && k in nodes
    ensures MirrorsNodes(w.DropNode(k, gone), nodes - {k})
  {
    assert forall l :: l in nodes && w.maps.idOf[l] == w.maps.idOf[k] ==> l == k;
  }

  lemma AddEdgeMirrors(w: World, edges: KeyedEdges, k: EdgeKey, id: nat, e: EdgeRec)
    requires w.EdgesConsistent() && MirrorsEdges(w, edges) && k !in edges && id !in w.issuedEdges && e.lbl == k.2
    ensures MirrorsEdges(w.AddEdge(k, id, e), Upserted(edges, k, e.props))
  {
    var w' := w.AddEdge(k, id, e);
    assert map[] + e.props == e.props;
    forall l | l in Upserted(edges, k, e.props) && w'.maps.edgeIdOf[l] in w'.edges
      ensures Holds(w'.edges[w'.maps.edgeIdOf[l]], l, Upserted(edges, k, e.props)[l])
    {
      if l != k {
        assert w.maps.edgeIdOf[l] in w.maps.edgeKeyOf && w.maps.edgeIdOf[l] != id;
      }
    }
  }

  lemma SetEdgePropsMirrors(w: World, edges: KeyedEdges, k: EdgeKey, props: map<string, StoreValue>)
    requires w.EdgesConsistent() && MirrorsEdges(w, edges) && k in edges && w.maps.edgeIdOf[k] in w.edges
    ensures MirrorsEdges(w.SetEdgeProps(w.maps.edgeIdOf[k], props), Upserted(edges, k, props))
  {
    assert forall l :: l in edges && w.maps.edgeIdOf[l] == w.maps.edgeIdOf[k] ==> l == k;
  }

  lemma UnlinkMirrors(w: World, edges: KeyedEdges, k: EdgeKey)
    requires w.EdgesConsistent() && MirrorsEdges(w, edges)
    ensures MirrorsEdges(w.Unlink(k), edges - {k})
  {
    if k in edges {
      assert forall l :: l in edges && w.maps.edgeIdOf[l] == w.maps.edgeIdOf[k] ==> l == k;
    } else {
      assert edges - {k} == edges;
    }
  }

  lemma StepMirrorsNodes(w: World, doc: Doc, op: LoroOp, ok: bool, w': World, id: nat, gone: set<nat>)
    requires w.NodesConsistent() && MirrorsNodes(w, doc.nodes) && StepWith(w, op, ok, w', id, gone)
    ensures MirrorsNodes(w', After(doc, op).nodes)
  {
    match op {
      case UpsertNode(k, lbls, props) =>
        if k in doc.nodes {
          SetPropsMirrors(w, doc.nodes, k, Stored(props));
        } else {
          AddNodeMirrors(w, doc.nodes, k, id, NodeRec(lbls, Stored(props)));
        }
      case DeleteNode(k) =>
        if k in doc.nodes {
          DropNodeMirrors(w, doc.nodes, k, gone);
        } else {
          assert doc.nodes - {k} == doc.nodes;
        }
      case _ =>
    }
  }

  lemma StepMirrorsEdges(w: World, doc: Doc, op: LoroOp, ok: bool, w': World, id: nat, gone: set<nat>)
    requires w.Consistent() && w.maps.idOf.Keys == doc.nodes.Keys && MirrorsEdges(w, doc.edges)
    requires StepWith(w, op, ok, w', id, gone)
    ensures MirrorsEdges(w', After(doc, op).edges)
  {
    match op {
      case UpsertEdge(src, dst, lbl, props) =>
        var k := (src, dst, lbl);
        if src !in doc.nodes || dst !in doc.nodes {
        } else if k !in doc.edges {
          AddEdgeMirrors(w, doc.edges, k, id, EdgeRec(w.maps.idOf[src], w.maps.idOf[dst], lbl, Stored(props)));
        } else if w.maps.edgeIdOf[k] in w.edges {
          SetEdgePropsMirrors(w, doc.edges, k, Stored(props));
        }
      case DeleteEdge(src, dst, lbl) =>
        UnlinkMirrors(w, doc.edges, (src, dst, lbl));
      case TreeMove(node, oldParent, newParent) =>
        if node in doc.nodes && newParent in doc.nodes {
          var k0, k := (oldParent, node, TREE_EDGE_LABEL), (newParent, node, TREE_EDGE_LABEL);
          RelinkMirrors(w, doc.edges, k0, k, id, EdgeRec(w.maps.idOf[newParent], w.maps.idOf[node], TREE_EDGE_LABEL, map[]));
        }
      case _ =>
    }
  }

  /** Unlinking one key and linking another, unless that one is linked already. */
  lemma RelinkMirrors(w: World, edges: KeyedEdges, k0: EdgeKey, k: EdgeKey, id: nat, e: EdgeRec)
    requires w.Consistent() && MirrorsEdges(w, edges) && e.lbl == k.2 && e.props == map[]
    requires k !in w.Unlink(k0).maps.edgeIdOf ==> id !in w.issuedEdges
    ensures var mid := w.Unlink(k0);
            MirrorsEdges(if k in mid.maps.edgeIdOf then mid else mid.AddEdge(k, id, e), Upserted(edges - {k0}, k, map[]))
  {
    var mid, left := w.Unlink(k0), edges - {k0};
    UnlinkMirrors(w, edges, k0);
    w.UnlinkKeeps(k0);
    if k in left {
      assert left[k] + map[] == left[k];
      assert Upserted(left, k, map[]) == left;
    } else {
      AddEdgeMirrors(mid, left, k, id, e);
    }
  }

  lemma StepMirrors(w: World, doc: Doc, op: LoroOp, w': World)
    requires Mirrors(w, doc) && Attempt(w, op, w')
    ensures Mirrors(w', After(doc, op))
  {
    var ok :| Step(w, op, ok, w');
    StepKeeps(w, op, ok, w');
    var id, gone :| StepWith(w, op, ok, w', id, gone);
    StepMirrorsNodes(w, doc, op, ok, w', id, gone);
    StepMirrorsEdges(w, doc, op, ok, w', id, gone);
  }

  /** In every run, refused operations included, the store mirrors the replayed
      document: ids and maps are an implementation detail. */
  lemma {:induction false} RunMirrors(ws: seq<World>, ops: seq<LoroOp>, doc: Doc)
    requires Trace(ws, ops) && Mirrors(ws[0], doc)
    ensures Mirrors(ws[|ops|], Replayed(doc, ops))
    decreases |ops|
  {
    if ops != [] {
      TraceTail(ws, ops);
      StepMirrors(ws[0], doc, ops[0], ws[1]);
      RunMirrors(ws[1..], ops[1..], After(doc, ops[0]));
    }
  }

  ghost predicate EdgesLive(w: World) {
    forall k :: k in w.maps.edgeIdOf ==> w.maps.edgeIdOf[k] in w.edges
  }

  /** Every bound edge is there, and joins the nodes its key names. */
  ghost predicate Faithful(w: World) {
    w.EndpointsAgree() && EdgesLive(w)
  }

  lemma UnlinkLive(w: World, k: EdgeKey)
    requires w.EdgesConsistent() && EdgesLive(w)
    ensures EdgesLive(w.Unlink(k))
  {
    forall l | l in w.Unlink(k).maps.edgeIdOf
      ensures w.maps.edgeIdOf[l] in w.Unlink(k).edges
    {
      assert w.maps.edgeKeyOf[w.maps.edgeIdOf[l]] == l;
    }
  }

  lemma AddEdgeLive(w: World, k: EdgeKey, id: nat, e: EdgeRec)
    requires EdgesLive(w)
    ensures EdgesLive(w.AddEdge(k, id, e))
  {
  }

  lemma StepLive(w: World, op: LoroOp, ok: bool, w': World, id: nat, gone: set<nat>)
    requires w.EdgesConsistent() && EdgesLive(w) && StepWith(w, op, ok, w', id, gone)
    requires op.DeleteNode? && op.key in w.maps.idOf ==> gone == {}
    ensures EdgesLive(w')
  {
    match op {
      case UpsertEdge(src, dst, lbl, props) =>
        var k := (src, dst, lbl);
        if src in w.maps.idOf && dst in w.maps.idOf && k !in w.maps.edgeIdOf {
          AddEdgeLive(w, k, id, EdgeRec(w.maps.idOf[src], w.maps.idOf[dst], lbl, Stored(props)));
        }
      case DeleteEdge(src, dst, lbl) =>
        UnlinkLive(w, (src, dst, lbl));
      case TreeMove(node, oldParent, newParent) =>
        if node in w.maps.idOf && newParent in w.maps.idOf {
          UnlinkLive(w, (oldParent, node, TREE_EDGE_LABEL));
          AddEdgeLive(w.Unlink((oldParent, node, TREE_EDGE_LABEL)), (newParent, node, TREE_EDGE_LABEL), id,
                      EdgeRec(w.maps.idOf[newParent], w.maps.idOf[node], TREE_EDGE_LABEL, map[]));
        }
      case _ =>
    }
  }

  /** Edges that go with a deleted node are edges some key still names. */
  lemma GoneWereNamed(w: World, edges: KeyedEdges, key: string, gone: set<nat>)
    requires w.Consistent() && MirrorsEdges(w, edges) && Faithful(w) && key in w.maps.idOf
    requires Incident(w, w.maps.idOf[key], gone) && gone != {}
    ensures exists k :: k in w.maps.edgeIdOf && (k.0 == key || k.1 == key)
  {
    var e :| e in gone;
    var k := w.maps.edgeKeyOf[e];
    assert w.edges[e].src == w.maps.idOf[k.0] && w.edges[e].dst == w.maps.idOf[k.1];
    assert k.0 == key || k.1 == key;
  }

  lemma StepFaithful(w: World, edges: KeyedEdges, op: LoroOp, w': World)
    requires w.Consistent() && MirrorsEdges(w, edges) && Faithful(w)
    requires Attempt(w, op, w') && !Orphans(w, op)
    ensures Faithful(w')
  {
    var ok :| Step(w, op, ok, w');
    var id, gone :| StepWith(w, op, ok, w', id, gone);
    StepKeeps(w, op, ok, w');
    if op.DeleteNode? && op.key in w.maps.idOf && gone != {} {
      GoneWereNamed(w, edges, op.key, gone);
    }
    StepLive(w, op, ok, w', id, gone);
  }

  /** As long as no node is deleted that a bound edge still names, the store is the
      document's graph exactly: every edge present, between the right nodes. */
  lemma {:induction false} TidyRunFaithful(ws: seq<World>, ops: seq<LoroOp>, doc: Doc)
    requires Trace(ws, ops) && Mirrors(ws[0], doc) && Faithful(ws[0])
    requires forall i :: 0 <= i < |ops| ==> !Orphans(ws[i], ops[i])
    ensures Mirrors(ws[|ops|], Replayed(doc, ops)) && Faithful(ws[|ops|])
    decreases |ops|
  {
    if ops != [] {
      TraceTail(ws, ops);
      StepMirrors(ws[0], doc, ops[0], ws[1]);
      StepFaithful(ws[0], doc.edges, ops[0], ws[1]);
      forall i | 0 <= i < |ops[1..]|
        ensures !Orphans(ws[1..][i], ops[1..][i])
      {
        assert !Orphans(ws[i + 1], ops[i + 1]);
      }
      TidyRunFaithful(ws[1..], ops[1..], After(doc, ops[0]));
    }
  }

  /** Two stores that were sent the same operations, from nothing, hold the same
      nodes under the same keys, and edges under the same keys, whatever their ids. */
  lemma SameOpsSameGraph(ws: seq<World>, vs: seq<World>, ops: seq<LoroOp>)
    requires Trace(ws, ops) && Trace(vs, ops) && ws[0] == vs[0] == EMPTY_WORLD
    ensures var w, v := ws[|ops|], vs[|ops|];
            && w.maps.idOf.Keys == v.maps.idOf.Keys && w.maps.edgeIdOf.Keys == v.maps.edgeIdOf.Keys
            && |w.nodes| == |v.nodes|
            && forall k :: k in w.maps.idOf ==> NodeOf(w, k) == NodeOf(v, k) && NodeOf(w, k).Some?
  {
    RunMirrors(ws, ops, EMPTY_DOC);
    RunMirrors(vs, ops, EMPTY_DOC);
    var w, v := ws[|ops|], vs[|ops|];
    NodeCount(w, Replayed(EMPTY_DOC, ops).nodes);
    NodeCount(v, Replayed(EMPTY_DOC, ops).nodes);
  }

  ghost function NodeOf(w: World, k: string): Option<NodeRec> {
    if k in w.maps.idOf && w.maps.idOf[k] in w.nodes then Some(w.nodes[w.maps.idOf[k]]) else None
  }

  lemma {:induction false} NodeCount(w: World, nodes: Nodes)
    requires w.NodesConsistent() && MirrorsNodes(w, nodes)
    ensures |w.nodes| == |nodes|
    decreases |nodes|
  {
    assert |w.nodes| == |w.nodes.Keys| && |nodes| == |nodes.Keys|;
    if nodes == map[] {
      assert w.nodes.Keys == {};
    } else {
      var k :| k in nodes;
      DropNodeMirrors(w, nodes, k, {});
      assert w.DropNode(k, {}).NodesConsistent();
      assert nodes.Keys == (nodes - {k}).Keys + {k};
      assert w.nodes.Keys == w.DropNode(k, {}).nodes.Keys + {w.maps.idOf[k]};
      NodeCount(w.DropNode(k, {}), nodes - {k});
    }
  }

  /** `f` renames nodes and `g` edges, and carries one store over into the other. */
  ghost predicate Isomorphic(f: map<nat, nat>, g: map<nat, nat>, w: World, v: World) {
    SameNodes(f, w, v) && SameEdges(f, g, w, v)
  }

  ghost predicate SameNodes(f: map<nat, nat>, w: World, v: World) {
    && f.Keys == w.nodes.Keys && f.Values == v.nodes.Keys && OneToOne(f)
    && forall n :: n in f ==> n in w.nodes && f[n] in v.nodes && v.nodes[f[n]] == w.nodes[n]
  }

  ghost predicate SameEdges(f: map<nat, nat>, g: map<nat, nat>, w: World, v: World) {
    && g.Keys == w.edges.Keys && g.Values == v.edges.Keys && OneToOne(g)
    && forall e :: e in g ==> e in w.edges && g[e] in v.edges && Carried(f, w.edges[e], v.edges[g[e]])
  }

  ghost predicate OneToOne(f: map<nat, nat>) {
    forall m, n :: m in f && n in f && f[m] == f[n] ==> m == n
  }

  /** The same edge between the renamed end points. */
  ghost predicate Carried(f: map<nat, nat>, a: EdgeRec, b: EdgeRec) {
    && a.src in f && a.dst in f && f[a.src] == b.src && f[a.dst] == b.dst
    && a.lbl == b.lbl && a.props == b.props
  }

  lemma NodeFound(w: World, v: World, nodes: Nodes, n: nat)
    requires w.NodesConsistent() && MirrorsNodes(w, nodes) && v.NodesConsistent() && MirrorsNodes(v, nodes) && n in w.nodes
    ensures n in w.maps.keyOf && w.maps.keyOf[n] in v.maps.idOf
    ensures var m := v.maps.idOf[w.maps.keyOf[n]]; m in v.nodes && v.nodes[m] == w.nodes[n] && v.maps.keyOf[m] == w.maps.keyOf[n]
  {
    assert w.maps.keyOf[n] in nodes;
  }

  ghost function NodeRenaming(w: World, v: World, nodes: Nodes): (f: map<nat, nat>)
    requires w.NodesConsistent() && MirrorsNodes(w, nodes) && v.NodesConsistent() && MirrorsNodes(v, nodes)
  {
    map n | n in w.nodes :: v.maps.idOf[w.maps.keyOf[n]]
  }

  lemma NodesRenamed(w: World, v: World, nodes: Nodes)
    requires w.NodesConsistent() && MirrorsNodes(w, nodes) && v.NodesConsistent() && MirrorsNodes(v, nodes)
    ensures var f := NodeRenaming(w, v, nodes);
            SameNodes(f, w, v) && forall k :: k in nodes ==> w.maps.idOf[k] in f && f[w.maps.idOf[k]] == v.maps.idOf[k]
  {
    var f := NodeRenaming(w, v, nodes);
    forall n | n in f
      ensures f[n] in v.nodes && v.nodes[f[n]] == w.nodes[n] && n in w.maps.keyOf && v.maps.keyOf[f[n]] == w.maps.keyOf[n]
    {
      NodeFound(w, v, nodes, n);
    }
    forall m | m in v.nodes
      ensures m in f.Values
    {
      NodeFound(v, w, nodes, m);
      assert w.maps.idOf[v.maps.keyOf[m]] in f && f[w.maps.idOf[v.maps.keyOf[m]]] == m;
    }
    assert forall n :: n in f ==> w.maps.idOf[w.maps.keyOf[n]] == n;
  }

  lemma EdgeFound(w: World, v: World, doc: Doc, f: map<nat, nat>, e: nat)
    requires Mirrors(w, doc) && Faithful(w) && Mirrors(v, doc) && Faithful(v) && e in w.edges
    requires forall k :: k in doc.nodes ==> w.maps.idOf[k] in f && f[w.maps.idOf[k]] == v.maps.idOf[k]
    ensures e in w.maps.edgeKeyOf && w.maps.edgeKeyOf[e] in v.maps.edgeIdOf
    ensures var m := v.maps.edgeIdOf[w.maps.edgeKeyOf[e]];
            m in v.edges && Carried(f, w.edges[e], v.edges[m]) && v.maps.edgeKeyOf[m] == w.maps.edgeKeyOf[e]
  {
    var k := w.maps.edgeKeyOf[e];
    assert k in doc.edges && w.maps.edgeIdOf[k] == e;
    var m := v.maps.edgeIdOf[k];
    assert Holds(w.edges[e], k, doc.edges[k]) && Holds(v.edges[m], k, doc.edges[k]);
    assert k.0 in doc.nodes && k.1 in doc.nodes;
  }

  ghost function EdgeRenaming(w: World, v: World, edges: KeyedEdges): (g: map<nat, nat>)
    requires w.EdgesConsistent() && MirrorsEdges(w, edges) && MirrorsEdges(v, edges)
  {
    map e | e in w.edges :: v.maps.edgeIdOf[w.maps.edgeKeyOf[e]]
  }

  lemma EdgesOnto(w: World, v: World, edges: KeyedEdges)
    requires w.EdgesConsistent() && MirrorsEdges(w, edges) && EdgesLive(w)
    requires v.EdgesConsistent() && MirrorsEdges(v, edges) && EdgesLive(v)
    ensures EdgeRenaming(w, v, edges).Values == v.edges.Keys
  {
    var g := EdgeRenaming(w, v, edges);
    forall e | e in g
      ensures g[e] in v.edges
    {
      assert w.maps.edgeKeyOf[e] in v.maps.edgeIdOf;
    }
    forall m | m in v.edges
      ensures m in g.Values
    {
      var k := v.maps.edgeKeyOf[m];
      assert k in edges && w.maps.edgeIdOf[k] in g && g[w.maps.edgeIdOf[k]] == m;
    }
  }

  lemma EdgesRenamed(w: World, v: World, doc: Doc, f: map<nat, nat>)
    requires Mirrors(w, doc) && Faithful(w) && Mirrors(v, doc) && Faithful(v)
    requires forall k :: k in doc.nodes ==> w.maps.idOf[k] in f && f[w.maps.idOf[k]] == v.maps.idOf[k]
    ensures SameEdges(f, EdgeRenaming(w, v, doc.edges), w, v)
  {
    var g := EdgeRenaming(w, v, doc.edges);
    EdgesOnto(w, v, doc.edges);
    forall e | e in g
      ensures g[e] in v.edges && Carried(f, w.edges[e], v.edges[g[e]])
    {
      EdgeFound(w, v, doc, f, e);
    }
    EdgesOneToOne(w, v, doc.edges);
  }

  lemma EdgesOneToOne(w: World, v: World, edges: KeyedEdges)
    requires w.EdgesConsistent() && MirrorsEdges(w, edges) && v.EdgesConsistent() && MirrorsEdges(v, edges)
    ensures OneToOne(EdgeRenaming(w, v, edges))
  {
    var g := EdgeRenaming(w, v, edges);
    forall e | e in g
      ensures v.maps.edgeKeyOf[g[e]] == w.maps.edgeKeyOf[e] && w.maps.edgeIdOf[w.maps.edgeKeyOf[e]] == e
    {
      assert w.maps.edgeKeyOf[e] in edges;
    }
  }

  /** Two stores that mirror one document faithfully are the same graph up to ids. */
  lemma MirrorsIsomorphic(w: World, v: World, doc: Doc)
    requires Mirrors(w, doc) && Faithful(w) && Mirrors(v, doc) && Faithful(v)
    ensures exists f, g :: Isomorphic(f, g, w, v)
  {
    NodesRenamed(w, v, doc.nodes);
    var f := NodeRenaming(w, v, doc.nodes);
    EdgesRenamed(w, v, doc, f);
    assert Isomorphic(f, EdgeRenaming(w, v, doc.edges), w, v);
  }

  /** So two stores sent the same operations from nothing are isomorphic graphs, edges
      with labels, properties and end points included, as long as neither deletes a
      node that a bound edge still names. */
  lemma TidyRunsIsomorphic(ws: seq<World>, vs: seq<World>, ops: seq<LoroOp>)
    requires Trace(ws, ops) && Trace(vs, ops) && ws[0] == vs[0] == EMPTY_WORLD
    requires forall i :: 0 <= i < |ops| ==> !Orphans(ws[i], ops[i]) && !Orphans(vs[i], ops[i])
    ensures exists f, g :: Isomorphic(f, g, ws[|ops|], vs[|ops|])
  {
    TidyRunFaithful(ws, ops, EMPTY_DOC);
    TidyRunFaithful(vs, ops, EMPTY_DOC);
    MirrorsIsomorphic(ws[|ops|], vs[|ops|], Replayed(EMPTY_DOC, ops));
  }

  /** Sending the same node again changes nothing. */
  lemma UpsertNodeTwice(doc: Doc, k: string, lbls: seq<string>, props: Props)
    ensures var op := UpsertNode(k, lbls, props); After(After(doc, op), op) == After(doc, op)
  {
    var p := Stored(props);
    assert p + p == p;
    if k in doc.nodes {
      assert (doc.nodes[k].props + p) + p == doc.nodes[k].props + p;
    }
  }
}
