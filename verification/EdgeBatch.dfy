/** The pre-commit acyclicity check for a batch of edges (src/schema/edge.rs). */
module EdgeBatch {
  import opened Results
  import opened Graphs
  import opened ThreeColourDfs
  import opened CycleGuards

  datatype EdgeSpec = EdgeSpec(src: string, dst: string, lbl: string)

  /** The directed graph of a batch; labels play no part in it. */
  ghost function EdgesOf(edges: seq<EdgeSpec>): (g: set<(string, string)>)
    ensures forall e :: e in edges ==> (e.src, e.dst) in g
    ensures forall p :: p in g ==> exists e :: e in edges && p == (e.src, e.dst)
  {
    set e | e in edges :: (e.src, e.dst)
  }

  /** The adjacency map and the node set are those of `g`. */
  ghost predicate Represents(adj: map<string, set<string>>, nodes: set<string>, g: set<(string, string)>) {
    && (forall x, y :: x in adj && y in adj[x] ==> (x, y) in g)
    && (forall e :: e in g ==> e.0 in adj && e.1 in adj[e.0] && e.0 in nodes && e.1 in nodes)
  }

  /** The neighbours of `x` as a list, in an order the hash set chooses. */
  method Neighbours(adj: map<string, set<string>>, x: string) returns (out: seq<string>)
    ensures x in adj ==> forall y :: y in out <==> y in adj[x]
    ensures x !in adj ==> out == []
  {
    var rest := if x in adj then adj[x] else {};
    out := [];
    while rest != {}
      invariant x in adj ==> rest <= adj[x] && forall y :: y in adj[x] <==> y in out || y in rest
      invariant x !in adj ==> out == [] && rest == {}
    {
      var y :| y in rest;
      rest := rest - {y};
      out := out + [y];
    }
  }

  /** The first loop: the adjacency map, unless an edge is a self-loop. */
  method BuildAdjacency(edges: seq<EdgeSpec>)
    returns (r: Result<(), CycleError>, adj: map<string, set<string>>, nodes: set<string>)
    ensures r.Ok? ==> Represents(adj, nodes, EdgesOf(edges))
    ensures r.Err? ==> r.error.node == r.error.newParent && (r.error.node, r.error.node) in EdgesOf(edges)
  {
    adj, nodes := map[], {};
    for i := 0 to |edges|
      invariant Represents(adj, nodes, EdgesOf(edges[..i]))
    {
      var e := edges[i];
      assert (e.src, e.dst) in EdgesOf(edges);
      if e.src == e.dst {
        return Err(CycleError(e.dst, e.src)), adj, nodes;
      }
      assert edges[..i + 1] == edges[..i] + [e];
      assert EdgesOf(edges[..i + 1]) == EdgesOf(edges[..i]) + {(e.src, e.dst)};
      adj := adj[e.src := (if e.src in adj then adj[e.src] else {}) + {e.dst}];
      nodes := nodes + {e.src, e.dst};
    }
    assert edges[..|edges|] == edges;
    return Ok(()), adj, nodes;
  }

  /** One turn of the while loop: finish the top node, or take its next neighbour. */
  method Turn(adj: map<string, set<string>>, ghost nodes: set<string>, ghost g: set<(string, string)>,
              stackIn: seq<Frame<string>>, colourIn: map<string, Colour>, ghost orderIn: seq<string>)
    returns (r: Result<(), CycleError>, stack: seq<Frame<string>>, colour: map<string, Colour>, ghost order: seq<string>)
    requires Represents(adj, nodes, g) && stackIn != []
    requires Searching(g, stackIn, orderIn) && Coloured(colourIn, stackIn, orderIn)
    ensures r.Ok? ==> Searching(g, stack, order) && Coloured(colour, stack, order)
    ensures r.Ok? ==> orderIn <= order && forall x :: ColourOf(colourIn, x) != White ==> ColourOf(colour, x) != White
    ensures r.Ok? ==>
      || WhiteIn(nodes, colour) < WhiteIn(nodes, colourIn)
      || (WhiteIn(nodes, colour) == WhiteIn(nodes, colourIn) && |stack| < |stackIn|)
      || (WhiteIn(nodes, colour) == WhiteIn(nodes, colourIn) && |stack| == |stackIn| && TopTodo(stack) < TopTodo(stackIn))
    ensures r.Err? ==>
      && !Acyclic(g)
      && (r.error.newParent, r.error.node) in g && Reach(g, r.error.node, r.error.newParent)
  {
    colour, order := colourIn, orderIn;
    var frame := stackIn[|stackIn| - 1];
    stack := stackIn[..|stackIn| - 1];
    r := Ok(());
    if frame.todo == [] {
      Finish(g, stackIn, order, colour);
      assert OnStack(stackIn, frame.node);
      colour := colour[frame.node := Black];
      order := order + [frame.node];
      return;
    }
    var next := frame.todo[0];
    stack := stack + [Frame(frame.node, frame.todo[1..])];
    assert stack == Advanced(stackIn) && (frame.node, next) in g;
    match ColourOf(colour, next)
    case White =>
      var more := Neighbours(adj, next);
      Descend(g, stackIn, order, colour, next, more);
      assert next in WhiteIn(nodes, colour);
      colour := colour[next := Gray];
      stack := stack + [Frame(next, more)];
    case Gray =>
      BackEdge(g, stackIn, order, colour, next);
      r := Err(CycleError(next, frame.node));
    case Black =>
      Skip(g, stackIn, order, colour);
  }

  /** The while loop of the search: everything reachable from a white root. */
  method Explore(adj: map<string, set<string>>, ghost nodes: set<string>, ghost g: set<(string, string)>,
                 root: string, colourIn: map<string, Colour>, ghost orderIn: seq<string>)
    returns (r: Result<(), CycleError>, colour: map<string, Colour>, ghost order: seq<string>)
    requires Represents(adj, nodes, g) && root in nodes
    requires Searching(g, [], orderIn) && Coloured(colourIn, [], orderIn)
    requires ColourOf(colourIn, root) == White
    ensures r.Ok? ==> Searching(g, [], order) && Coloured(colour, [], order)
    ensures r.Ok? ==> root in order && orderIn <= order
    ensures r.Err? ==>
      && !Acyclic(g)
      && (r.error.newParent, r.error.node) in g && Reach(g, r.error.node, r.error.newParent)
  {
    colour, order, r := colourIn, orderIn, Ok(());
    var neighbours := Neighbours(adj, root);
    Descend(g, [], order, colour, root, neighbours);
    var stack := [] + [Frame(root, neighbours)];
    colour := colour[root := Gray];
    while stack != []
      invariant Searching(g, stack, order) && Coloured(colour, stack, order)
      invariant ColourOf(colour, root) != White && orderIn <= order
      decreases WhiteIn(nodes, colour), |stack|, TopTodo(stack)
    {
      r, stack, colour, order := Turn(adj, nodes, g, stack, colour, order);
      if r.Err? {
        return;
      }
    }
    assert !OnStack<string>([], root);
    return Ok(()), colour, order;
  }

  method ValidateAcyclic(edges: seq<EdgeSpec>) returns (r: Result<(), CycleError>)
    ensures r.Ok? <==> Acyclic(EdgesOf(edges))
    ensures r.Err? ==>
      && (r.error.newParent, r.error.node) in EdgesOf(edges)
      && Reach(EdgesOf(edges), r.error.node, r.error.newParent)
  {
    if edges == [] {
      return Ok(());
    }
    ghost var g := EdgesOf(edges);
    var built, adj, nodes := BuildAdjacency(edges);
    if built.Err? {
      ReachRefl(g, built.error.node);
      return built;
    }
    var colour: map<string, Colour> := map[];
    ghost var order: seq<string> := [];
    var roots := nodes;
    while roots != {}
      invariant roots <= nodes
      invariant Searching(g, [], order) && Coloured(colour, [], order)
      invariant forall x :: x in nodes && x !in roots ==> x in order
    {
      var root :| root in roots;
      roots := roots - {root};
      assert !OnStack<string>([], root);
      if ColourOf(colour, root) != White {
        continue;
      }
      r, colour, order := Explore(adj, nodes, g, root, colour, order);
      if r.Err? {
        return r;
      }
    }
    FinishOrderAcyclic(g, order);
    return Ok(());
  }
}
