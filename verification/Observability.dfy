/** The runtime invariant checks of src/observability/mod.rs. */
module Observability {
  import opened Results
  import opened Graphs
  import opened ThreeColourDfs
  import EdgeBatch

  /** A node in progress and the index of the child it looks at next. */
  datatype Mark = Mark(node: string, idx: nat)

  ghost function PairsOf(edges: seq<(string, string)>): set<(string, string)> {
    set e | e in edges
  }

  function ChildrenOf(adj: map<string, seq<string>>, x: string): seq<string> {
    if x in adj then adj[x] else []
  }

  /** The index frames read as frames that hold the children still to do. */
  ghost predicate Reads(adj: map<string, seq<string>>, stack: seq<Mark>, frames: seq<Frame<string>>) {
    && |frames| == |stack|
    && forall i :: 0 <= i < |stack| ==>
         && frames[i].node == stack[i].node
         && stack[i].idx <= |ChildrenOf(adj, stack[i].node)|
         && frames[i].todo == ChildrenOf(adj, stack[i].node)[stack[i].idx..]
  }

  /** The top frame is exhausted, or advancing the index takes its next child. */
  lemma ReadsTop(adj: map<string, seq<string>>, stack: seq<Mark>, frames: seq<Frame<string>>)
    requires Reads(adj, stack, frames) && stack != []
    ensures var Mark(node, idx) := stack[|stack| - 1];
            var top := frames[|frames| - 1];
            var children := ChildrenOf(adj, node);
            && top.node == node && Reads(adj, stack[..|stack| - 1], frames[..|frames| - 1])
            && (idx >= |children| ==> top.todo == [])
            && (idx < |children| ==>
                  && top.todo != [] && top.todo[0] == children[idx]
                  && Reads(adj, stack[|stack| - 1 := Mark(node, idx + 1)], Advanced(frames)))
  {
    var n := |stack| - 1;
    assert frames[n].todo == ChildrenOf(adj, stack[n].node)[stack[n].idx..];
  }

  lemma ReadsPush(adj: map<string, seq<string>>, stack: seq<Mark>, frames: seq<Frame<string>>, child: string)
    requires Reads(adj, stack, frames)
    ensures Reads(adj, stack + [Mark(child, 0)], frames + [Frame(child, ChildrenOf(adj, child))])
  {
  }

  ghost predicate Represents(adj: map<string, seq<string>>, nodes: set<string>, g: set<(string, string)>) {
    && (forall x {:trigger Enumerates(g, x, ChildrenOf(adj, x))} :: Enumerates(g, x, ChildrenOf(adj, x)))
    && (forall e :: e in g ==> e.0 in nodes && e.1 in nodes)
  }

  /** The first loop: adjacency lists, and every endpoint painted white. */
  method BuildAdjacency(edges: seq<(string, string)>)
    returns (adj: map<string, seq<string>>, colour: map<string, Colour>)
    ensures Represents(adj, colour.Keys, PairsOf(edges))
    ensures forall x :: x in colour ==> colour[x] == White
  {
    adj, colour := map[], map[];
    for i := 0 to |edges|
      invariant Represents(adj, colour.Keys, PairsOf(edges[..i]))
      invariant forall x :: x in colour ==> colour[x] == White
    {
      var (p, c) := edges[i];
      ghost var was := adj;
      adj := adj[p := ChildrenOf(adj, p) + [c]];
      colour := colour[p := White][c := White];
      assert edges[..i + 1] == edges[..i] + [(p, c)];
      assert PairsOf(edges[..i + 1]) == PairsOf(edges[..i]) + {(p, c)};
      forall x
        ensures Enumerates(PairsOf(edges[..i + 1]), x, ChildrenOf(adj, x))
      {
        assert Enumerates(PairsOf(edges[..i]), x, ChildrenOf(was, x));
        assert x != p ==> ChildrenOf(adj, x) == ChildrenOf(was, x);
      }
    }
    assert edges[..|edges|] == edges;
  }

  ghost predicate State(adj: map<string, seq<string>>, g: set<(string, string)>, stack: seq<Mark>,
                        frames: seq<Frame<string>>, colour: map<string, Colour>, order: seq<string>) {
    Reads(adj, stack, frames) && Searching(g, frames, order) && Coloured(colour, frames, order)
  }

  lemma Finishes(adj: map<string, seq<string>>, g: set<(string, string)>, stack: seq<Mark>,
                 frames: seq<Frame<string>>, colour: map<string, Colour>, order: seq<string>)
    requires stack != [] && State(adj, g, stack, frames, colour, order)
    requires var Mark(node, idx) := stack[|stack| - 1]; idx >= |ChildrenOf(adj, node)|
    ensures var n, node := |stack| - 1, stack[|stack| - 1].node;
            && |frames| == |stack| && ColourOf(colour, node) == Gray
            && State(adj, g, stack[..n], frames[..n], colour[node := Black], order + [node])
  {
    ReadsTop(adj, stack, frames);
    Finish(g, frames, order, colour);
    assert OnStack(frames, stack[|stack| - 1].node) by { assert frames[|stack| - 1].node == stack[|stack| - 1].node; }
  }

  lemma Descends(adj: map<string, seq<string>>, nodes: set<string>, g: set<(string, string)>, stack: seq<Mark>,
                 frames: seq<Frame<string>>, colour: map<string, Colour>, order: seq<string>)
    requires stack != [] && State(adj, g, stack, frames, colour, order) && Represents(adj, nodes, g)
    requires var Mark(node, idx) := stack[|stack| - 1];
             idx < |ChildrenOf(adj, node)| && ColourOf(colour, ChildrenOf(adj, node)[idx]) == White
    ensures var Mark(node, idx) := stack[|stack| - 1];
            var child := ChildrenOf(adj, node)[idx];
            var more := ChildrenOf(adj, child);
            && child in nodes && CanDescend(frames, child)
            && State(adj, g, stack[|stack| - 1 := Mark(node, idx + 1)] + [Mark(child, 0)],
                     Descended(frames, child, more), colour[child := Gray], order)
  {
    var Mark(node, idx) := stack[|stack| - 1];
    var child := ChildrenOf(adj, node)[idx];
    ReadsTop(adj, stack, frames);
    assert Enumerates(g, node, ChildrenOf(adj, node)) && (node, child) in g;
    assert Enumerates(g, child, ChildrenOf(adj, child));
    Descend(g, frames, order, colour, child, ChildrenOf(adj, child));
    ReadsPush(adj, stack[|stack| - 1 := Mark(node, idx + 1)], Advanced(frames), child);
  }

  /** One turn of the while loop: finish the top node, or look at its next child. */
  method Turn(adj: map<string, seq<string>>, ghost nodes: set<string>, ghost g: set<(string, string)>,
              stackIn: seq<Mark>, ghost framesIn: seq<Frame<string>>,
              colourIn: map<string, Colour>, ghost orderIn: seq<string>)
    returns (found: bool, stack: seq<Mark>, ghost frames: seq<Frame<string>>,
             colour: map<string, Colour>, ghost order: seq<string>)
    requires Represents(adj, nodes, g) && stackIn != []
    requires State(adj, g, stackIn, framesIn, colourIn, orderIn)
    ensures found ==> !Acyclic(g)
    ensures !found ==> State(adj, g, stack, frames, colour, order)
    ensures !found ==> orderIn <= order && forall x :: ColourOf(colourIn, x) != White ==> ColourOf(colour, x) != White
    ensures !found ==>
      || WhiteIn(nodes, colour) < WhiteIn(nodes, colourIn)
      || (WhiteIn(nodes, colour) == WhiteIn(nodes, colourIn) && |frames| < |framesIn|)
      || (WhiteIn(nodes, colour) == WhiteIn(nodes, colourIn) && |frames| == |framesIn| && TopTodo(frames) < TopTodo(framesIn))
  {
    found, stack, frames, colour, order := false, stackIn, framesIn, colourIn, orderIn;
    var n := |stack| - 1;
    var Mark(node, idx) := stack[n];
    var children := ChildrenOf(adj, node);
    if idx >= |children| {
      Finishes(adj, g, stack, frames, colour, order);
      colour, order := colour[node := Black], order + [node];
      stack, frames := stack[..n], frames[..n];
      return;
    }
    ReadsTop(adj, stack, frames);
    stack := stack[n := Mark(node, idx + 1)];
    var child := children[idx];
    match ColourOf(colour, child)
    case Gray =>
      BackEdge(g, framesIn, order, colour, child);
      found := true;
    case Black =>
      Skip(g, framesIn, order, colour);
      frames := Advanced(framesIn);
    case White =>
      Descends(adj, nodes, g, stackIn, framesIn, colour, order);
      assert child in WhiteIn(nodes, colour);
      colour := colour[child := Gray];
      stack, frames := stack + [Mark(child, 0)], Descended(framesIn, child, ChildrenOf(adj, child));
  }

  /** The while loop of the search from one white start node. */
  method Explore(adj: map<string, seq<string>>, ghost nodes: set<string>, ghost g: set<(string, string)>,
                 start: string, colourIn: map<string, Colour>, ghost orderIn: seq<string>)
    returns (found: bool, colour: map<string, Colour>, ghost order: seq<string>)
    requires Represents(adj, nodes, g) && start in nodes
    requires Searching(g, [], orderIn) && Coloured(colourIn, [], orderIn)
    requires ColourOf(colourIn, start) == White
    ensures found ==> !Acyclic(g)
    ensures !found ==> Searching(g, [], order) && Coloured(colour, [], order)
    ensures !found ==> start in order && orderIn <= order
  {
    colour, order, found := colourIn, orderIn, false;
    var stack := [Mark(start, 0)];
    ghost var frames := Descended([], start, ChildrenOf(adj, start));
    assert Enumerates(g, start, ChildrenOf(adj, start));
    Descend(g, [], order, colour, start, ChildrenOf(adj, start));
    colour := colour[start := Gray];
    while stack != []
      invariant State(adj, g, stack, frames, colour, order)
      invariant ColourOf(colour, start) != White && orderIn <= order
      decreases WhiteIn(nodes, colour), |frames|, TopTodo(frames)
    {
      found, stack, frames, colour, order := Turn(adj, nodes, g, stack, frames, colour, order);
      if found {
        return;
      }
    }
    assert !OnStack<string>([], start);
  }

  method HasCycle(edges: seq<(string, string)>) returns (found: bool)
    ensures found <==> !Acyclic(PairsOf(edges))
  {
    ghost var g := PairsOf(edges);
    var adj, colour := BuildAdjacency(edges);
    var nodes := colour.Keys;
    ghost var order: seq<string> := [];
    var starts := nodes;
    while starts != {}
      invariant starts <= nodes
      invariant Searching(g, [], order) && Coloured(colour, [], order)
      invariant forall x :: x in nodes && x !in starts ==> x in order
    {
      var start :| start in starts;
      starts := starts - {start};
      assert !OnStack<string>([], start);
      if ColourOf(colour, start) != White {
        continue;
      }
      found, colour, order := Explore(adj, nodes, g, start, colour, order);
      if found {
        return;
      }
    }
    FinishOrderAcyclic(g, order);
    return false;
  }

  /** The batch check judges the very same graph, so the two never disagree. */
  lemma SameGraph(edges: seq<EdgeBatch.EdgeSpec>)
    ensures EdgeBatch.EdgesOf(edges) == PairsOf(seq(|edges|, i requires 0 <= i < |edges| => (edges[i].src, edges[i].dst)))
  {
    var pairs := seq(|edges|, i requires 0 <= i < |edges| => (edges[i].src, edges[i].dst));
    forall e | e in edges
      ensures (e.src, e.dst) in pairs
    {
      var i :| 0 <= i < |edges| && edges[i] == e;
      assert pairs[i] == (e.src, e.dst);
    }
    forall p | p in pairs
      ensures p in EdgeBatch.EdgesOf(edges)
    {
      var i :| 0 <= i < |pairs| && pairs[i] == p;
      assert edges[i] in edges;
    }
  }

  datatype Violation = Uniqueness | Monotonicity | BridgeBijection | EpochOrdering | TreeAcyclicity

  datatype CheckInput = CheckInput(
    nodeKeys: seq<string>, epochs: seq<(string, nat)>, parentChildPairs: seq<(string, string)>,
    grafeoNodes: seq<string>, loroContainers: seq<string>, parentChildEpochs: seq<(nat, nat)>)
  {
    ghost predicate Unique() {
      Distinct(nodeKeys)
    }

    ghost predicate Monotone() {
      forall i, j :: 0 <= i < j < |epochs| ==> epochs[i].1 <= epochs[j].1
    }

    ghost predicate Paired() {
      |grafeoNodes| == |loroContainers| && Distinct(grafeoNodes)
    }

    ghost predicate Ordered() {
      forall i :: 0 <= i < |parentChildEpochs| ==> parentChildEpochs[i].0 <= parentChildEpochs[i].1
    }

    /** The first invariant that fails, in the order of the checks. */
    ghost function FirstViolation(): Option<Violation> {
      if !Unique() then Some(Uniqueness)
      else if !Monotone() then Some(Monotonicity)
      else if !Paired() then Some(BridgeBijection)
      else if !Ordered() then Some(EpochOrdering)
      else if !Acyclic(PairsOf(parentChildPairs)) then Some(TreeAcyclicity)
      else None
    }
  }

  /** Each violation by what fails, and what the checks before it found in order. */
  lemma FirstViolationIff(s: CheckInput)
    ensures var unique, rising, paired, ordered, tree := s.Unique(), s.Monotone(), s.Paired(), s.Ordered(), Acyclic(PairsOf(s.parentChildPairs));
            && (s.FirstViolation() == Some(Uniqueness) <==> !unique)
            && (s.FirstViolation() == Some(Monotonicity) <==> unique && !rising)
            && (s.FirstViolation() == Some(BridgeBijection) <==> unique && rising && !paired)
            && (s.FirstViolation() == Some(EpochOrdering) <==> unique && rising && paired && !ordered)
            && (s.FirstViolation() == Some(TreeAcyclicity) <==> unique && rising && paired && ordered && !tree)
            && (s.FirstViolation() == None <==> unique && rising && paired && ordered && tree)
  {
  }

  /** What each check looks at. */
  lemma ChecksMean(s: CheckInput)
    ensures s.Unique() <==> forall i, j :: 0 <= i < j < |s.nodeKeys| ==> s.nodeKeys[i] != s.nodeKeys[j]
    ensures s.Monotone() <==> forall i, j :: 0 <= i < j < |s.epochs| ==> s.epochs[i].1 <= s.epochs[j].1
    ensures s.Paired() <==> |s.grafeoNodes| == |s.loroContainers|
                            && forall i, j :: 0 <= i < j < |s.grafeoNodes| ==> s.grafeoNodes[i] != s.grafeoNodes[j]
    ensures s.Ordered() <==> forall i :: 0 <= i < |s.parentChildEpochs| ==> s.parentChildEpochs[i].0 <= s.parentChildEpochs[i].1
  {
  }

  /** The `seen` loop: are the keys pairwise different? */
  method AllDistinct(keys: seq<string>) returns (ok: bool)
    ensures ok <==> Distinct(keys)
  {
    var seen: set<string> := {};
    for i := 0 to |keys|
      invariant forall x :: x in seen <==> x in keys[..i]
      invariant Distinct(keys[..i])
    {
      assert keys[..i + 1] == keys[..i] + [keys[i]];
      if keys[i] in seen {
        var j :| 0 <= j < i && keys[j] == keys[i];
        return false;
      }
      seen := seen + {keys[i]};
    }
    assert keys[..|keys|] == keys;
    return true;
  }

  method CheckInvariants(state: CheckInput) returns (r: Result<(), Violation>)
    ensures r == match state.FirstViolation() { case None => Ok(()) case Some(v) => Err(v) }
  {
    var unique := AllDistinct(state.nodeKeys);
    if !unique {
      return Err(Uniqueness);
    }
    for w := 0 to |state.epochs| - (if |state.epochs| > 0 then 1 else 0)
      invariant forall i, j :: 0 <= i < j <= w && j < |state.epochs| ==> state.epochs[i].1 <= state.epochs[j].1
    {
      if state.epochs[w + 1].1 < state.epochs[w].1 {
        return Err(Monotonicity);
      }
    }
    if state.grafeoNodes != [] || state.loroContainers != [] {
      if |state.grafeoNodes| != |state.loroContainers| {
        return Err(BridgeBijection);
      }
      unique := AllDistinct(state.grafeoNodes);
      if !unique {
        return Err(BridgeBijection);
      }
    }
    for i := 0 to |state.parentChildEpochs|
      invariant forall k :: 0 <= k < i ==> state.parentChildEpochs[k].0 <= state.parentChildEpochs[k].1
    {
      if state.parentChildEpochs[i].0 > state.parentChildEpochs[i].1 {
        return Err(EpochOrdering);
      }
    }
    if state.parentChildPairs != [] {
      var cyclic := HasCycle(state.parentChildPairs);
      if cyclic {
        return Err(TreeAcyclicity);
      }
    } else {
      assert PairsOf(state.parentChildPairs) == {};
    }
    return Ok(());
  }
}
