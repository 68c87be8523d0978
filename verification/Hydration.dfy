/** Cold-boot hydration, one vertex after the other (src/hydration/serial.rs) and by
    concurrent chunks on shared maps (src/hydration/parallel.rs). */
module Hydration {
  import opened Results
  import opened Graphs
  import opened Values
  import opened Bridge
  import opened BridgeApply

  const DEFAULT_CHUNK_SIZE: nat := 256

  /** A vertex as read from the document. */
  datatype Vertex = Vertex(lbls: seq<string>, props: Props) {
    function Rec(): NodeRec {
      NodeRec(lbls, Stored(props))
    }
  }

  type Doc = map<string, Vertex>

  /** Node maps and node store. */
  datatype Index = Index(idOf: map<string, nat>, keyOf: map<nat, string>, nodes: map<nat, NodeRec>)

  /** One node per vertex with its labels and properties, nothing else, and maps that
      are each other's inverse. */
  ghost predicate Hydrated(doc: Doc, x: Index) {
    && x.idOf.Keys == doc.Keys
    && (forall k :: k in x.idOf ==> x.idOf[k] in x.keyOf && x.keyOf[x.idOf[k]] == k)
    && (forall n :: n in x.keyOf ==> x.keyOf[n] in x.idOf && x.idOf[x.keyOf[n]] == n)
    && x.nodes.Keys == x.keyOf.Keys
    && (forall k :: k in doc ==> x.idOf[k] in x.nodes && x.nodes[x.idOf[k]] == doc[k].Rec())
  }

  /** Labels and properties are the vertex's own, and no two vertices share a node. */
  lemma HydratedNodes(doc: Doc, x: Index, k: string)
    requires Hydrated(doc, x) && k in doc
    ensures x.idOf[k] in x.nodes && x.nodes[x.idOf[k]].lbls == doc[k].lbls
    ensures x.nodes[x.idOf[k]].props.Keys == doc[k].props.Keys
    ensures forall p :: p in doc[k].props ==> x.nodes[x.idOf[k]].props[p] == GvalToStore(doc[k].props[p])
    ensures forall l :: l in doc && x.idOf[l] == x.idOf[k] ==> l == k
  {
  }

  /** `f` carries one index over into the other. */
  ghost predicate Renames(f: map<nat, nat>, a: Index, b: Index) {
    && f.Keys == a.nodes.Keys && f.Values == b.nodes.Keys
    && (forall m, n :: m in f && n in f && f[m] == f[n] ==> m == n)
    && (forall n :: n in f ==> n in a.nodes && f[n] in b.nodes && b.nodes[f[n]] == a.nodes[n])
    && a.idOf.Keys == b.idOf.Keys
    && (forall k :: k in a.idOf ==> a.idOf[k] in f && b.idOf[k] == f[a.idOf[k]])
    && (forall n :: n in f ==> n in a.keyOf && f[n] in b.keyOf && b.keyOf[f[n]] == a.keyOf[n])
  }

  /** Two hydrations of one document differ in nothing but the ids. */
  lemma SameUpToIds(doc: Doc, a: Index, b: Index)
    requires Hydrated(doc, a) && Hydrated(doc, b)
    ensures exists f :: Renames(f, a, b)
  {
    var f := map n | n in a.nodes :: b.idOf[a.keyOf[n]];
    forall n | n in f
      ensures f[n] in b.nodes && f[n] in b.keyOf && b.keyOf[f[n]] == a.keyOf[n] && b.nodes[f[n]] == a.nodes[n]
    {
      SameNode(doc, a, b, n);
    }
    forall n | n in b.nodes
      ensures n in f.Values
    {
      SameNode(doc, b, a, n);
      var m := a.idOf[b.keyOf[n]];
      assert m in f && f[m] == n;
    }
    assert Renames(f, a, b);
  }

  lemma SameNode(doc: Doc, a: Index, b: Index, n: nat)
    requires Hydrated(doc, a) && Hydrated(doc, b) && n in a.nodes
    ensures n in a.keyOf && a.keyOf[n] in b.idOf
    ensures var m := b.idOf[a.keyOf[n]];
            && m in b.nodes && m in b.keyOf && b.keyOf[m] == a.keyOf[n] && b.nodes[m] == a.nodes[n]
  {
    assert a.keyOf[n] in doc;
  }

  // ---------------------------------------------------------------------
  // Serial

  ghost function IndexOf(w: World): Index {
    Index(w.maps.idOf, w.maps.keyOf, w.nodes)
  }

  ghost function Part(doc: Doc, keys: seq<string>): Doc {
    map k | k in doc && k in keys :: doc[k]
  }

  lemma AddNodeHydrates(doc: Doc, w: World, key: string, v: Vertex, id: nat)
    requires Hydrated(doc, IndexOf(w)) && key !in doc && id !in w.nodes
    ensures Hydrated(doc[key := v], IndexOf(w.AddNode(key, id, v.Rec())))
  {
  }

  lemma UpsertHydrates(doc: Doc, w: World, key: string, v: Vertex, ok: bool, w': World)
    requires Hydrated(doc, IndexOf(w)) && w.Consistent() && key !in doc
    requires Step(w, UpsertNode(key, v.lbls, v.props), ok, w')
    ensures ok && w'.Consistent() && Hydrated(doc[key := v], IndexOf(w'))
  {
    var op := UpsertNode(key, v.lbls, v.props);
    var id, gone :| StepWith(w, op, ok, w', id, gone);
    StepKeeps(w, op, ok, w');
    assert w' == w.AddNode(key, id, v.Rec());
    AddNodeHydrates(doc, w, key, v, id);
  }

  ghost function Readable(vertices: map<string, Option<Vertex>>): Doc {
    map k | k in vertices && vertices[k].Some? :: vertices[k].value
  }

  /** The first `n` keys are in the index, and nothing else. */
  ghost predicate Loaded(vertices: map<string, Option<Vertex>>, keys: seq<string>, n: nat, w: World)
    requires n <= |keys|
  {
    && w.Consistent() && Hydrated(Part(Readable(vertices), keys[..n]), IndexOf(w))
    && forall j :: 0 <= j < n ==> keys[j] in vertices && vertices[keys[j]].Some?
  }

  /** One chunk in its own transaction; a vertex that cannot be read stops the call. */
  method HydrateChunk(s: Session, vertices: map<string, Option<Vertex>>, keys: seq<string>, start: nat, end: nat, m: BridgeMaps)
    returns (ok: bool)
    requires s.Valid() && start <= end <= |keys| && Distinct(keys) && forall k :: k in keys ==> k in vertices
    requires Loaded(vertices, keys, start, WorldOf(s, m))
    modifies s, m
    ensures s.Valid()
    ensures ok ==> Loaded(vertices, keys, end, WorldOf(s, m))
    ensures !ok ==> exists k :: k in vertices && vertices[k].None?
  {
    for i := start to end
      invariant s.Valid() && Loaded(vertices, keys, i, WorldOf(s, m))
    {
      var key := keys[i];
      assert key in keys;
      if vertices[key].None? {
        return false;
      }
      ok := HydrateNext(s, vertices, keys, i, m);
    }
    return true;
  }

  /** Succeeds exactly if every vertex can be read, and then has hydrated all. */
  method HydrateSerial(s: Session, vertices: map<string, Option<Vertex>>, keys: seq<string>, m: BridgeMaps) returns (ok: bool)
    requires s.Valid() && WorldOf(s, m) == EMPTY_WORLD
    requires Distinct(keys) && forall k :: k in vertices <==> k in keys
    modifies s, m
    ensures ok <==> forall k :: k in vertices ==> vertices[k].Some?
    ensures ok ==> Hydrated(Readable(vertices), IndexOf(WorldOf(s, m)))
  {
    assert Part(Readable(vertices), keys[..0]) == map[];
    var start := 0;
    while start < |keys|
      invariant 0 <= start <= |keys| && s.Valid() && Loaded(vertices, keys, start, WorldOf(s, m))
    {
      var end := if start + DEFAULT_CHUNK_SIZE < |keys| then start + DEFAULT_CHUNK_SIZE else |keys|;
      ok := HydrateChunk(s, vertices, keys, start, end, m);
      if !ok {
        return false;
      }
      start := end;
    }
    AllLoaded(vertices, keys, WorldOf(s, m));
    return true;
  }

  lemma AllLoaded(vertices: map<string, Option<Vertex>>, keys: seq<string>, w: World)
    requires Loaded(vertices, keys, |keys|, w) && forall k :: k in vertices <==> k in keys
    ensures Hydrated(Readable(vertices), IndexOf(w)) && forall k :: k in vertices ==> vertices[k].Some?
  {
    assert keys[..|keys|] == keys;
    forall k | k in vertices
      ensures vertices[k].Some?
    {
      var j :| 0 <= j < |keys| && keys[j] == k;
    }
    assert Part(Readable(vertices), keys) == Readable(vertices);
  }

  method HydrateNext(s: Session, vertices: map<string, Option<Vertex>>, keys: seq<string>, i: nat, m: BridgeMaps) returns (ok: bool)
    requires s.Valid() && i < |keys| && Distinct(keys) && keys[i] in vertices && vertices[keys[i]].Some?
    requires Loaded(vertices, keys, i, WorldOf(s, m))
    modifies s, m
    ensures ok && s.Valid() && Loaded(vertices, keys, i + 1, WorldOf(s, m))
  {
    PartExtends(Readable(vertices), keys, i);
    ok := HydrateOne(s, keys[i], vertices[keys[i]].value, m, Part(Readable(vertices), keys[..i]));
  }

  method HydrateOne(s: Session, key: string, v: Vertex, m: BridgeMaps, ghost part: Doc) returns (ok: bool)
    requires s.Valid() && WorldOf(s, m).Consistent() && Hydrated(part, IndexOf(WorldOf(s, m))) && key !in part
    modifies s, m
    ensures ok && s.Valid() && WorldOf(s, m).Consistent() && Hydrated(part[key := v], IndexOf(WorldOf(s, m)))
  {
    ghost var w := WorldOf(s, m);
    ok := ApplyLoroOp(s, UpsertNode(key, v.lbls, v.props), m);
    UpsertHydrates(part, w, key, v, ok, WorldOf(s, m));
  }

  lemma PartExtends(doc: Doc, keys: seq<string>, i: nat)
    requires Distinct(keys) && i < |keys| && keys[i] in doc
    ensures keys[i] !in Part(doc, keys[..i])
    ensures Part(doc, keys[..i + 1]) == Part(doc, keys[..i])[keys[i] := doc[keys[i]]]
  {
    assert keys[..i + 1] == keys[..i] + [keys[i]];
  }

  // ---------------------------------------------------------------------
  // Parallel: every worker handles its chunk key by key, in small steps

  /** Where a worker is with its current key: before the lookup, after a miss, with a
      node but no binding, with the forward binding only; or past its commit. */
  datatype Phase = Lookup | Make | Forward(id: nat) | Inverse(id: nat) | Committed

  datatype Worker = Worker(chunk: seq<string>, pos: nat, phase: Phase)

  /** How far a key has come; kept for the proof alone. */
  datatype Status = Waiting | Made(id: nat) | Bound(id: nat) | Finished(id: nat)

  datatype State = State(workers: seq<Worker>, x: Index, issued: set<nat>, status: map<string, Status>)

  /** A step of worker `i`; the store never hands out an id twice. */
  ghost predicate Enabled(s: State, i: nat, id: nat) {
    i < |s.workers| && s.workers[i].phase != Committed && id !in s.issued
  }

  ghost function With(s: State, i: nat, phase: Phase): seq<Worker>
    requires i < |s.workers|
  {
    s.workers[i := s.workers[i].(phase := phase)]
  }

  ghost function NextKey(s: State, i: nat): seq<Worker>
    requires i < |s.workers|
  {
    s.workers[i := Worker(s.workers[i].chunk, s.workers[i].pos + 1, Lookup)]
  }

  /** Worker `i` has a key of the document before it. */
  ghost predicate At(s: State, doc: Doc, i: nat) {
    && i < |s.workers| && s.workers[i].pos < |s.workers[i].chunk|
    && s.workers[i].chunk[s.workers[i].pos] in doc
  }

  ghost function KeyAt(s: State, doc: Doc, i: nat): (k: string)
    requires At(s, doc, i)
    ensures k in doc
  {
    s.workers[i].chunk[s.workers[i].pos]
  }

  /** A key already bound has its node's properties set again. */
  ghost function LookedUp(s: State, doc: Doc, i: nat): State
    requires At(s, doc, i)
  {
    var k := KeyAt(s, doc, i);
    if k !in s.x.idOf then s.(workers := With(s, i, Make))
    else
      var n, nodes := s.x.idOf[k], s.x.nodes;
      State(NextKey(s, i),
            if n in nodes then s.x.(nodes := nodes[n := nodes[n].(props := nodes[n].props + Stored(doc[k].props))]) else s.x,
            s.issued, s.status)
  }

  ghost function NodeMade(s: State, doc: Doc, i: nat, id: nat): State
    requires At(s, doc, i)
  {
    var k := KeyAt(s, doc, i);
    State(With(s, i, Forward(id)), s.x.(nodes := s.x.nodes[id := doc[k].Rec()]), s.issued + {id}, s.status[k := Made(id)])
  }

  ghost function ForwardBound(s: State, doc: Doc, i: nat, n: nat): State
    requires At(s, doc, i)
  {
    var k := KeyAt(s, doc, i);
    State(With(s, i, Inverse(n)), s.x.(idOf := s.x.idOf[k := n]), s.issued, s.status[k := Bound(n)])
  }

  ghost function InverseBound(s: State, doc: Doc, i: nat, n: nat): State
    requires At(s, doc, i)
  {
    var k := KeyAt(s, doc, i);
    State(NextKey(s, i), s.x.(keyOf := s.x.keyOf[n := k]), s.issued, s.status[k := Finished(n)])
  }

  /** Worker `i` takes its next small step; `id` is what the store would hand out. */
  ghost function Next(s: State, doc: Doc, i: nat, id: nat): State
    requires i < |s.workers|
  {
    if s.workers[i].pos >= |s.workers[i].chunk| then s.(workers := With(s, i, Committed))
    else if !At(s, doc, i) then s
    else match s.workers[i].phase
         case Lookup => LookedUp(s, doc, i)
         case Make => NodeMade(s, doc, i, id)
         case Forward(n) => ForwardBound(s, doc, i, n)
         case Inverse(n) => InverseBound(s, doc, i, n)
         case Committed => s
  }

  /** What maps and store hold for a key, by how far it has come. */
  ghost predicate KeyOk(doc: Doc, x: Index, issued: set<nat>, k: string, st: Status) {
    && k in doc
    && (st.Waiting? || st.Made? <==> k !in x.idOf)
    && (!st.Waiting? ==> st.id in issued && st.id in x.nodes && x.nodes[st.id] == doc[k].Rec())
    && (st.Bound? || st.Finished? ==> k in x.idOf && x.idOf[k] == st.id)
    && (st.Finished? ==> st.id in x.keyOf && x.keyOf[st.id] == k)
    && (st.Made? || st.Bound? ==> st.id !in x.keyOf)
  }

  ghost predicate Owns(status: map<string, Status>, n: nat, k: string) {
    k in status && !status[k].Waiting? && status[k].id == n
  }

  ghost predicate Owned(status: map<string, Status>, n: nat) {
    exists k :: Owns(status, n, k)
  }

  ghost predicate KeysOk(doc: Doc, x: Index, issued: set<nat>, status: map<string, Status>) {
    forall k :: k in status ==> KeyOk(doc, x, issued, k, status[k])
  }

  ghost predicate OwnersUnique(status: map<string, Status>) {
    forall k, l, n :: Owns(status, n, k) && Owns(status, n, l) ==> k == l
  }

  /** Nothing is bound or stored that no key accounts for. */
  ghost predicate MapsOk(x: Index, issued: set<nat>, status: map<string, Status>) {
    && (forall k :: k in x.idOf ==> k in status)
    && (forall n :: n in x.keyOf ==> n in x.nodes && x.keyOf[n] in status && status[x.keyOf[n]] == Finished(n))
    && (forall n :: n in x.nodes ==> n in issued && Owned(status, n))
  }

  ghost predicate SharedOk(doc: Doc, x: Index, issued: set<nat>, status: map<string, Status>) {
    KeysOk(doc, x, issued, status) && OwnersUnique(status) && MapsOk(x, issued, status)
  }

  lemma SameOwners(status: map<string, Status>, status': map<string, Status>, k: string)
    requires k in status && !status[k].Waiting? && status'.Keys == status.Keys
    requires !status'[k].Waiting? && status'[k].id == status[k].id
    requires forall l :: l in status && l != k ==> status'[l] == status[l]
    ensures OwnersUnique(status) ==> OwnersUnique(status')
    ensures forall n :: Owned(status, n) ==> Owned(status', n)
  {
    assert forall n, l :: Owns(status', n, l) <==> Owns(status, n, l);
  }

  lemma NewOwner(issued: set<nat>, status: map<string, Status>, k: string, id: nat)
    requires k in status && status[k] == Waiting && OwnersUnique(status)
    requires forall l :: l in status && !status[l].Waiting? ==> status[l].id != id
    ensures OwnersUnique(status[k := Made(id)]) && Owned(status[k := Made(id)], id)
    ensures forall n :: Owned(status, n) ==> Owned(status[k := Made(id)], n)
  {
    var status' := status[k := Made(id)];
    assert Owns(status', id, k);
    assert forall n, l :: Owns(status', n, l) <==> Owns(status, n, l) || (n == id && l == k);
  }

  lemma MakeKeeps(doc: Doc, x: Index, issued: set<nat>, status: map<string, Status>, k: string, id: nat)
    requires SharedOk(doc, x, issued, status) && k in status && status[k] == Waiting && id !in issued
    ensures SharedOk(doc, x.(nodes := x.nodes[id := doc[k].Rec()]), issued + {id}, status[k := Made(id)])
  {
    assert forall l :: l in status ==> KeyOk(doc, x, issued, l, status[l]);
    NewOwner(issued, status, k, id);
  }

  lemma BindKeeps(doc: Doc, x: Index, issued: set<nat>, status: map<string, Status>, k: string, id: nat)
    requires SharedOk(doc, x, issued, status) && k in status && status[k] == Made(id)
    ensures SharedOk(doc, x.(idOf := x.idOf[k := id]), issued, status[k := Bound(id)])
  {
    assert KeyOk(doc, x, issued, k, status[k]);
    SameOwners(status, status[k := Bound(id)], k);
  }

  lemma FinishKeeps(doc: Doc, x: Index, issued: set<nat>, status: map<string, Status>, k: string, id: nat)
    requires SharedOk(doc, x, issued, status) && k in status && status[k] == Bound(id)
    ensures SharedOk(doc, x.(keyOf := x.keyOf[id := k]), issued, status[k := Finished(id)])
  {
    var x', status' := x.(keyOf := x.keyOf[id := k]), status[k := Finished(id)];
    assert KeyOk(doc, x, issued, k, status[k]);
    SameOwners(status, status', k);
    assert Owns(status, id, k);
    forall l | l in status'
      ensures KeyOk(doc, x', issued, l, status'[l])
    {
      assert KeyOk(doc, x, issued, l, status[l]);
      assert l != k && !status[l].Waiting? ==> Owns(status, status[l].id, l);
    }
    assert MapsOk(x', issued, status');
  }

  /** A worker's own place agrees with the status of its keys. */
  ghost predicate Follows(w: Worker, status: map<string, Status>) {
    && w.pos <= |w.chunk|
    && (w.phase == Committed ==> w.pos == |w.chunk|)
    && (w.phase == Make || w.phase.Forward? || w.phase.Inverse? ==> w.pos < |w.chunk|)
    && forall a :: 0 <= a < |w.chunk| ==> w.chunk[a] in status && StatusAt(w, a, status[w.chunk[a]])
  }

  ghost predicate StatusAt(w: Worker, a: nat, st: Status) {
    if a < w.pos then st.Finished?
    else if a > w.pos then st.Waiting?
    else match w.phase
      case Forward(id) => st == Made(id)
      case Inverse(id) => st == Bound(id)
      case _ => st.Waiting?
  }

  /** No key occurs twice, in one chunk or in two. */
  ghost predicate Disjoint(ws: seq<Worker>) {
    && (forall i :: 0 <= i < |ws| ==> Distinct(ws[i].chunk))
    && (forall i, j :: 0 <= i < |ws| && 0 <= j < |ws| && i != j ==> Apart(ws[i].chunk, ws[j].chunk))
  }

  ghost predicate Apart(a: seq<string>, b: seq<string>) {
    forall k :: k in a ==> k !in b
  }

  ghost predicate Holds(ws: seq<Worker>, k: string) {
    exists i :: 0 <= i < |ws| && k in ws[i].chunk
  }

  /** The chunks between them hold every key of the document exactly once. */
  ghost predicate Chunked(doc: Doc, ws: seq<Worker>) {
    Disjoint(ws) && forall k :: k in doc ==> Holds(ws, k)
  }

  ghost predicate AllFollow(ws: seq<Worker>, status: map<string, Status>) {
    forall i :: 0 <= i < |ws| ==> Follows(ws[i], status)
  }

  ghost predicate WorkersOk(doc: Doc, ws: seq<Worker>, status: map<string, Status>) {
    Chunked(doc, ws) && AllFollow(ws, status) && status.Keys == doc.Keys
  }

  ghost predicate Invariant(doc: Doc, s: State) {
    SharedOk(doc, s.x, s.issued, s.status) && WorkersOk(doc, s.workers, s.status)
  }

  /** Nothing is done yet. */
  ghost predicate Init(doc: Doc, s: State) {
    && s.x == Index(map[], map[], map[]) && s.status.Keys == doc.Keys
    && (forall k :: k in s.status ==> s.status[k] == Waiting)
    && Chunked(doc, s.workers)
    && (forall i :: 0 <= i < |s.workers| ==> s.workers[i].pos == 0 && s.workers[i].phase == Lookup)
    && (forall i, a :: 0 <= i < |s.workers| && 0 <= a < |s.workers[i].chunk| ==> s.workers[i].chunk[a] in doc)
  }

  lemma InitInvariant(doc: Doc, s: State)
    requires Init(doc, s)
    ensures Invariant(doc, s)
  {
  }

  lemma OthersFollow(ws: seq<Worker>, i: nat, j: nat, status: map<string, Status>, status': map<string, Status>, k: string)
    requires i < |ws| && j < |ws| && i != j && Disjoint(ws) && k in ws[i].chunk
    requires Follows(ws[j], status) && status'.Keys == status.Keys
    requires forall l :: l in status && l != k ==> status'[l] == status[l]
    ensures Follows(ws[j], status')
  {
    assert Apart(ws[i].chunk, ws[j].chunk);
    forall a | 0 <= a < |ws[j].chunk|
      ensures ws[j].chunk[a] != k
    {
      assert ws[j].chunk[a] in ws[j].chunk;
    }
  }

  /** The next phase of the same key, or the next key once this one is finished. */
  ghost predicate Advances(w: Worker, w': Worker, st: Status) {
    && w'.chunk == w.chunk
    && ((w'.pos == w.pos && w'.phase != Committed && StatusAt(w', w.pos, st))
        || (w'.pos == w.pos + 1 && w'.phase == Lookup && st.Finished?))
  }

  lemma SelfFollows(w: Worker, w': Worker, status: map<string, Status>, st: Status)
    requires Follows(w, status) && w.pos < |w.chunk| && Distinct(w.chunk) && Advances(w, w', st)
    ensures Follows(w', status[w.chunk[w.pos] := st])
  {
    var k := w.chunk[w.pos];
    forall a | 0 <= a < |w.chunk|
      ensures w'.chunk[a] in status[k := st] && StatusAt(w', a, status[k := st][w'.chunk[a]])
    {
      if a != w.pos {
        assert w.chunk[a] != k;
      }
    }
  }

  lemma ChunkedStays(doc: Doc, ws: seq<Worker>, i: nat, w': Worker)
    requires Chunked(doc, ws) && i < |ws| && w'.chunk == ws[i].chunk
    ensures Chunked(doc, ws[i := w'])
  {
    var ws' := ws[i := w'];
    assert forall j :: 0 <= j < |ws'| ==> ws'[j].chunk == ws[j].chunk;
    forall k | k in doc
      ensures Holds(ws', k)
    {
      assert Holds(ws, k);
      var j :| 0 <= j < |ws| && k in ws[j].chunk;
      assert k in ws'[j].chunk;
    }
  }

  /** Worker `i` moves to `w'` and sets the status of its current key to `st`. */
  lemma WorkersFollow(ws: seq<Worker>, status: map<string, Status>, i: nat, w': Worker, st: Status)
    requires Disjoint(ws) && AllFollow(ws, status) && i < |ws| && ws[i].pos < |ws[i].chunk|
    requires Advances(ws[i], w', st)
    ensures AllFollow(ws[i := w'], status[ws[i].chunk[ws[i].pos] := st])
    ensures status[ws[i].chunk[ws[i].pos] := st].Keys == status.Keys
  {
    var w, k := ws[i], ws[i].chunk[ws[i].pos];
    assert Follows(w, status) && k in status && k in w.chunk;
    var status' := status[k := st];
    var ws' := ws[i := w'];
    forall j | 0 <= j < |ws'|
      ensures Follows(ws'[j], status')
    {
      if j == i {
        SelfFollows(w, w', status, st);
      } else {
        OthersFollow(ws, i, j, status, status', k);
      }
    }
  }

  /** A lookup always misses: no other worker has this key. */
  lemma LookupMisses(doc: Doc, s: State, i: nat)
    requires Invariant(doc, s) && At(s, doc, i) && s.workers[i].phase == Lookup
    ensures KeyAt(s, doc, i) !in s.x.idOf && s.status[KeyAt(s, doc, i)] == Waiting
  {
    CurrentStatus(doc, s, i);
    assert KeyOk(doc, s.x, s.issued, KeyAt(s, doc, i), s.status[KeyAt(s, doc, i)]);
  }

  lemma StepKeepsShared(doc: Doc, s: State, i: nat, id: nat, t: State)
    requires Invariant(doc, s) && Enabled(s, i, id) && At(s, doc, i) && t == Next(s, doc, i, id)
    ensures SharedOk(doc, t.x, t.issued, t.status)
  {
    var k := KeyAt(s, doc, i);
    CurrentStatus(doc, s, i);
    match s.workers[i].phase
    case Lookup => LookupMisses(doc, s, i);
    case Make => MakeKeeps(doc, s.x, s.issued, s.status, k, id);
    case Forward(n) => BindKeeps(doc, s.x, s.issued, s.status, k, n);
    case Inverse(n) => FinishKeeps(doc, s.x, s.issued, s.status, k, n);
  }

  /** What one step does to the worker and to the status of its key. */
  lemma NextWorker(doc: Doc, s: State, i: nat, id: nat) returns (w': Worker, st: Status)
    requires Enabled(s, i, id) && At(s, doc, i) && KeyAt(s, doc, i) in s.status
    requires StatusAt(s.workers[i], s.workers[i].pos, s.status[KeyAt(s, doc, i)])
    requires s.workers[i].phase == Lookup ==> KeyAt(s, doc, i) !in s.x.idOf
    ensures Next(s, doc, i, id).workers == s.workers[i := w']
    ensures Next(s, doc, i, id).status == s.status[KeyAt(s, doc, i) := st]
    ensures Advances(s.workers[i], w', st)
  {
    var w := s.workers[i];
    match w.phase
    case Lookup =>
      w', st := w.(phase := Make), Waiting;
      assert s.status[KeyAt(s, doc, i) := Waiting] == s.status;
    case Make => w', st := w.(phase := Forward(id)), Made(id);
    case Forward(n) => w', st := w.(phase := Inverse(n)), Bound(n);
    case Inverse(n) => w', st := Worker(w.chunk, w.pos + 1, Lookup), Finished(n);
  }

  lemma StepKeepsWorkers(doc: Doc, s: State, i: nat, id: nat)
    requires WorkersOk(doc, s.workers, s.status) && Enabled(s, i, id) && At(s, doc, i)
    requires s.workers[i].phase == Lookup ==> KeyAt(s, doc, i) !in s.x.idOf
    ensures var t := Next(s, doc, i, id); WorkersOk(doc, t.workers, t.status)
  {
    CurrentStatus(doc, s, i);
    var w', st := NextWorker(doc, s, i, id);
    WorkersFollow(s.workers, s.status, i, w', st);
    ChunkedStays(doc, s.workers, i, w');
  }

  lemma StepKeepsInvariant(doc: Doc, s: State, i: nat, id: nat)
    requires Invariant(doc, s) && Enabled(s, i, id)
    ensures Invariant(doc, Next(s, doc, i, id))
  {
    if s.workers[i].pos >= |s.workers[i].chunk| {
      CommitKeeps(doc, s, i);
    } else if At(s, doc, i) {
      if s.workers[i].phase == Lookup {
        LookupMisses(doc, s, i);
      }
      StepKeepsShared(doc, s, i, id, Next(s, doc, i, id));
      StepKeepsWorkers(doc, s, i, id);
    }
  }

  lemma CurrentStatus(doc: Doc, s: State, i: nat)
    requires WorkersOk(doc, s.workers, s.status) && At(s, doc, i)
    ensures KeyAt(s, doc, i) in s.status && KeyAt(s, doc, i) in s.workers[i].chunk
    ensures StatusAt(s.workers[i], s.workers[i].pos, s.status[KeyAt(s, doc, i)])
  {
    assert Follows(s.workers[i], s.status);
  }

  lemma CommitKeeps(doc: Doc, s: State, i: nat)
    requires Invariant(doc, s) && i < |s.workers| && s.workers[i].pos == |s.workers[i].chunk|
    ensures Invariant(doc, s.(workers := With(s, i, Committed)))
  {
    var ws := With(s, i, Committed);
    assert Follows(s.workers[i], s.status);
    ChunkedStays(doc, s.workers, i, ws[i]);
    forall j | 0 <= j < |ws|
      ensures Follows(ws[j], s.status)
    {
      assert Follows(s.workers[j], s.status);
    }
  }

  /** One interleaving: which worker moves when, and the ids handed out. */
  ghost predicate Run(doc: Doc, ss: seq<State>, sched: seq<(nat, nat)>) {
    && |ss| == |sched| + 1 && Init(doc, ss[0])
    && forall t :: 0 <= t < |sched| ==>
         Enabled(ss[t], sched[t].0, sched[t].1) && ss[t + 1] == Next(ss[t], doc, sched[t].0, sched[t].1)
  }

  lemma {:induction false} RunInvariant(doc: Doc, ss: seq<State>, sched: seq<(nat, nat)>, t: nat)
    requires Run(doc, ss, sched) && t <= |sched|
    ensures Invariant(doc, ss[t])
  {
    if t == 0 {
      InitInvariant(doc, ss[0]);
    } else {
      RunInvariant(doc, ss, sched, t - 1);
      StepKeepsInvariant(doc, ss[t - 1], sched[t - 1].0, sched[t - 1].1);
    }
  }

  lemma CommittedKey(doc: Doc, s: State, k: string)
    requires Invariant(doc, s) && k in doc && forall w :: w in s.workers ==> w.phase == Committed
    ensures s.status[k].Finished? && KeyOk(doc, s.x, s.issued, k, s.status[k])
  {
    assert Holds(s.workers, k);
    var i :| 0 <= i < |s.workers| && k in s.workers[i].chunk;
    var w := s.workers[i];
    assert w in s.workers && Follows(w, s.status);
    var a :| 0 <= a < |w.chunk| && w.chunk[a] == k;
    assert StatusAt(w, a, s.status[w.chunk[a]]);
  }

  lemma FinishedHydrated(doc: Doc, x: Index, issued: set<nat>, status: map<string, Status>)
    requires SharedOk(doc, x, issued, status) && status.Keys == doc.Keys
    requires forall k :: k in doc ==> status[k].Finished? && KeyOk(doc, x, issued, k, status[k])
    ensures Hydrated(doc, x)
  {
    forall n | n in x.nodes
      ensures n in x.keyOf
    {
      var k :| Owns(status, n, k);
    }
  }

  lemma AllCommittedHydrated(doc: Doc, s: State)
    requires Invariant(doc, s) && forall w :: w in s.workers ==> w.phase == Committed
    ensures Hydrated(doc, s.x)
  {
    forall k | k in doc
      ensures s.status[k].Finished? && KeyOk(doc, s.x, s.issued, k, s.status[k])
    {
      CommittedKey(doc, s, k);
    }
    FinishedHydrated(doc, s.x, s.issued, s.status);
  }

  /** However the chunks interleave, once all have committed the index is a
      hydration of the document, so it is the serial result up to the ids. */
  lemma ParallelIsSerial(doc: Doc, ss: seq<State>, sched: seq<(nat, nat)>, serial: Index)
    requires Run(doc, ss, sched) && forall w :: w in ss[|sched|].workers ==> w.phase == Committed
    requires Hydrated(doc, serial)
    ensures Hydrated(doc, ss[|sched|].x) && exists f :: Renames(f, ss[|sched|].x, serial)
  {
    RunInvariant(doc, ss, sched, |sched|);
    AllCommittedHydrated(doc, ss[|sched|]);
    SameUpToIds(doc, ss[|sched|].x, serial);
  }

  // ---------------------------------------------------------------------
  // Every schedule comes to its end, after the same number of steps

  /** Steps a worker has still to take: four for each key, one to commit. */
  ghost function StepsLeft(w: Worker): int {
    match w.phase
    case Committed => 0
    case Lookup => 4 * (|w.chunk| - w.pos) + 1
    case Make => 4 * (|w.chunk| - w.pos)
    case Forward(_) => 4 * (|w.chunk| - w.pos) - 1
    case Inverse(_) => 4 * (|w.chunk| - w.pos) - 2
  }

  ghost function AllStepsLeft(ws: seq<Worker>): int {
    if ws == [] then 0 else AllStepsLeft(ws[..|ws| - 1]) + StepsLeft(ws[|ws| - 1])
  }

  lemma {:induction false} StepsLeftUpdate(ws: seq<Worker>, i: nat, w': Worker)
    requires i < |ws|
    ensures AllStepsLeft(ws[i := w']) == AllStepsLeft(ws) - StepsLeft(ws[i]) + StepsLeft(w')
  {
    var k := |ws| - 1;
    if i == k {
      assert ws[i := w'][..k] == ws[..k];
    } else {
      assert ws[i := w'][..k] == ws[..k][i := w'];
      StepsLeftUpdate(ws[..k], i, w');
    }
  }

  lemma {:induction false} NothingLeftIff(ws: seq<Worker>, status: map<string, Status>)
    requires AllFollow(ws, status)
    ensures AllStepsLeft(ws) >= 0
    ensures AllStepsLeft(ws) == 0 <==> forall w :: w in ws ==> w.phase == Committed
  {
    if ws != [] {
      var k := |ws| - 1;
      assert AllFollow(ws[..k], status);
      assert Follows(ws[k], status);
      NothingLeftIff(ws[..k], status);
      assert forall w :: w in ws <==> w in ws[..k] || w == ws[k];
    }
  }

  /** Each step of an uncommitted worker is one step less to take. */
  lemma StepCounts(doc: Doc, s: State, i: nat, id: nat)
    requires Invariant(doc, s) && Enabled(s, i, id)
    ensures AllStepsLeft(Next(s, doc, i, id).workers) == AllStepsLeft(s.workers) - 1
  {
    var w := s.workers[i];
    assert Follows(w, s.status);
    if w.pos >= |w.chunk| {
      StepsLeftUpdate(s.workers, i, w.(phase := Committed));
    } else {
      assert w.chunk[w.pos] in s.status && At(s, doc, i);
      CurrentStatus(doc, s, i);
      if w.phase == Lookup {
        LookupMisses(doc, s, i);
      }
      var w', st := NextWorker(doc, s, i, id);
      StepsLeftUpdate(s.workers, i, w');
      NextStepsLeft(doc, s, i, id);
    }
  }

  lemma NextStepsLeft(doc: Doc, s: State, i: nat, id: nat)
    requires Enabled(s, i, id) && At(s, doc, i)
    requires s.workers[i].phase == Lookup ==> KeyAt(s, doc, i) !in s.x.idOf
    ensures StepsLeft(Next(s, doc, i, id).workers[i]) == StepsLeft(s.workers[i]) - 1
  {
  }

  /** As long as some worker has not committed there is a step to take. */
  lemma CanAlwaysMove(s: State) returns (i: nat, id: nat)
    requires exists w :: w in s.workers && w.phase != Committed
    ensures Enabled(s, i, id)
  {
    var w :| w in s.workers && w.phase != Committed;
    i :| 0 <= i < |s.workers| && s.workers[i] == w;
    id := Above(s.issued);
  }

  lemma {:induction false} Above(ids: set<nat>) returns (id: nat)
    ensures forall n :: n in ids ==> n < id
  {
    if ids == {} {
      id := 0;
    } else {
      var m :| m in ids;
      var bound := Above(ids - {m});
      assert forall n :: n in ids ==> n == m || n in ids - {m};
      id := if bound <= m then m + 1 else bound;
    }
  }

  ghost function KeysOf(ws: seq<Worker>): set<string> {
    set i, k | 0 <= i < |ws| && k in ws[i].chunk :: k
  }

  lemma {:induction false} DistinctSize(keys: seq<string>)
    requires Distinct(keys)
    ensures |set k | k in keys| == |keys|
  {
    if keys != [] {
      var n := |keys| - 1;
      DistinctSize(keys[..n]);
      assert (set k | k in keys) == (set k | k in keys[..n]) + {keys[n]};
    }
  }

  ghost predicate Unstarted(ws: seq<Worker>) {
    forall i :: 0 <= i < |ws| ==> ws[i].pos == 0 && ws[i].phase == Lookup
  }

  lemma FewerDisjoint(ws: seq<Worker>, n: nat)
    requires Disjoint(ws) && Unstarted(ws) && n <= |ws|
    ensures Disjoint(ws[..n]) && Unstarted(ws[..n])
  {
  }

  /** Chunks that share no key are together as large as the keys they hold. */
  lemma {:induction false} StartSteps(ws: seq<Worker>)
    requires Disjoint(ws) && Unstarted(ws)
    ensures AllStepsLeft(ws) == 4 * |KeysOf(ws)| + |ws|
  {
    if ws == [] {
      assert KeysOf(ws) == {};
    } else {
      var n := |ws| - 1;
      var last := set k | k in ws[n].chunk;
      FewerDisjoint(ws, n);
      StartSteps(ws[..n]);
      DistinctSize(ws[n].chunk);
      KeysOfExtend(ws, n);
      assert |KeysOf(ws)| == |KeysOf(ws[..n])| + |last|;
    }
  }

  lemma KeysOfExtend(ws: seq<Worker>, n: nat)
    requires Disjoint(ws) && n == |ws| - 1
    ensures KeysOf(ws) == KeysOf(ws[..n]) + set k | k in ws[n].chunk
    ensures KeysOf(ws[..n]) !! set k | k in ws[n].chunk
  {
    forall k | k in KeysOf(ws[..n])
      ensures k !in ws[n].chunk && k in KeysOf(ws)
    {
      var i :| 0 <= i < n && k in ws[..n][i].chunk;
      assert Apart(ws[i].chunk, ws[n].chunk);
    }
  }

  lemma {:induction false} StepsCounted(doc: Doc, ss: seq<State>, sched: seq<(nat, nat)>, t: nat)
    requires Run(doc, ss, sched) && t <= |sched|
    ensures AllStepsLeft(ss[t].workers) + t == AllStepsLeft(ss[0].workers)
  {
    if t > 0 {
      StepsCounted(doc, ss, sched, t - 1);
      RunInvariant(doc, ss, sched, t - 1);
      StepCounts(doc, ss[t - 1], sched[t - 1].0, sched[t - 1].1);
    }
  }

  /** No schedule is longer than four steps for each vertex and one for each worker,
      and those of exactly that length are the ones in which all have committed. */
  lemma ScheduleLength(doc: Doc, ss: seq<State>, sched: seq<(nat, nat)>)
    requires Run(doc, ss, sched)
    ensures var bound := 4 * |doc| + |ss[0].workers|;
            && |sched| <= bound
            && (|sched| == bound <==> forall w :: w in ss[|sched|].workers ==> w.phase == Committed)
  {
    var ws := ss[0].workers;
    StepsCounted(doc, ss, sched, |sched|);
    RunInvariant(doc, ss, sched, |sched|);
    NothingLeftIff(ss[|sched|].workers, ss[|sched|].status);
    StartSteps(ws);
    forall k | k in doc
      ensures k in KeysOf(ws)
    {
      assert Holds(ws, k);
    }
    assert KeysOf(ws) == doc.Keys;
  }
}
