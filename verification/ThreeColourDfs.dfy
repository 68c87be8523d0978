/** What both iterative depth-first cycle checks keep true between two turns
    of their loops, whatever they store in a stack frame. */
module ThreeColourDfs {
  import opened Graphs

  datatype Colour = White | Gray | Black

  /** A node in progress and the neighbours it has still to look at. */
  datatype Frame<T> = Frame(node: T, todo: seq<T>)

  function ColourOf<T(==)>(colour: map<T, Colour>, x: T): Colour {
    if x in colour then colour[x] else White
  }

  ghost predicate OnStack<T>(stack: seq<Frame<T>>, x: T) {
    exists i :: 0 <= i < |stack| && stack[i].node == x
  }

  /** `succs` lists the successors of `x`, in any order, repetitions allowed. */
  ghost predicate Enumerates<T>(g: set<(T, T)>, x: T, succs: seq<T>) {
    && (forall y :: y in succs ==> (x, y) in g)
    && (forall e :: e in g && e.0 == x ==> e.1 in succs)
  }

  /** The stack is a path of nodes in progress; each has finished all its
      successors except those still to do and the one above it. */
  ghost predicate Searching<T>(g: set<(T, T)>, stack: seq<Frame<T>>, order: seq<T>) {
    && FinishOrder(g, order)
    && (forall i, j :: 0 <= i < j < |stack| ==> stack[i].node != stack[j].node)
    && (forall i :: 0 <= i < |stack| ==> stack[i].node !in order)
    && (forall i, j :: 0 <= i && j == i + 1 && j < |stack| ==> (stack[i].node, stack[j].node) in g)
    && (forall i, y :: 0 <= i < |stack| && y in stack[i].todo ==> (stack[i].node, y) in g)
    && (forall i, e :: 0 <= i < |stack| && e in g && e.0 == stack[i].node ==> Handled(stack, order, i, e.1))
  }

  ghost predicate Handled<T>(stack: seq<Frame<T>>, order: seq<T>, i: nat, y: T)
    requires i < |stack|
  {
    y in order || y in stack[i].todo || (i + 1 < |stack| && y == stack[i + 1].node)
  }

  ghost predicate Coloured<T(!new)>(colour: map<T, Colour>, stack: seq<Frame<T>>, order: seq<T>) {
    forall x ::
      && (ColourOf(colour, x) == Gray <==> OnStack(stack, x))
      && (ColourOf(colour, x) == Black <==> x in order)
  }

  ghost function WhiteIn<T>(nodes: set<T>, colour: map<T, Colour>): set<T> {
    set x | x in nodes && ColourOf(colour, x) == White
  }

  /** Neighbours still to look at in the top frame. */
  ghost function TopTodo<T>(stack: seq<Frame<T>>): nat {
    if stack == [] then 0 else |stack[|stack| - 1].todo|
  }

  ghost predicate CanDescend<T>(stack: seq<Frame<T>>, next: T) {
    stack != [] ==> var top := stack[|stack| - 1]; top.todo != [] && top.todo[0] == next
  }

  ghost function Descended<T>(stack: seq<Frame<T>>, next: T, succs: seq<T>): seq<Frame<T>>
    requires CanDescend(stack, next)
  {
    (if stack == [] then [] else Advanced(stack)) + [Frame(next, succs)]
  }

  lemma Descend<T(!new)>(g: set<(T, T)>, stack: seq<Frame<T>>, order: seq<T>, colour: map<T, Colour>,
                         next: T, succs: seq<T>)
    requires Searching(g, stack, order) && Coloured(colour, stack, order)
    requires ColourOf(colour, next) == White && Enumerates(g, next, succs) && CanDescend(stack, next)
    ensures Searching(g, Descended(stack, next, succs), order)
    ensures Coloured(colour[next := Gray], Descended(stack, next, succs), order)
  {
    assert !OnStack(stack, next) && next !in order;
    DescendSearching(g, stack, order, next, succs);
    DescendColoured(colour, stack, order, next, succs);
  }

  lemma DescendSearching<T(!new)>(g: set<(T, T)>, stack: seq<Frame<T>>, order: seq<T>, next: T, succs: seq<T>)
    requires Searching(g, stack, order) && !OnStack(stack, next) && next !in order
    requires Enumerates(g, next, succs) && CanDescend(stack, next)
    ensures Searching(g, Descended(stack, next, succs), order)
  {
    var result := Descended(stack, next, succs);
    assert |result| == |stack| + 1 && result[|stack|] == Frame(next, succs);
    assert forall i :: 0 <= i < |stack| ==> result[i].node == stack[i].node && stack[i].node != next;
    assert forall i, y :: 0 <= i < |stack| && y in result[i].todo ==> y in stack[i].todo;
    forall i, e | 0 <= i < |result| && e in g && e.0 == result[i].node
      ensures Handled(result, order, i, e.1)
    {
      if i < |stack| {
        assert Handled(stack, order, i, e.1);
      }
    }
  }

  lemma DescendColoured<T(!new)>(colour: map<T, Colour>, stack: seq<Frame<T>>, order: seq<T>, next: T, succs: seq<T>)
    requires Coloured(colour, stack, order) && ColourOf(colour, next) == White && CanDescend(stack, next)
    ensures Coloured(colour[next := Gray], Descended(stack, next, succs), order)
  {
    var result := Descended(stack, next, succs);
    forall x
      ensures OnStack(result, x) <==> OnStack(stack, x) || x == next
    {
      if OnStack(stack, x) {
        var i :| 0 <= i < |stack| && stack[i].node == x;
        assert result[i].node == x;
      }
      assert result[|result| - 1].node == next;
    }
    assert forall x :: ColourOf(colour[next := Gray], x) == if x == next then Gray else ColourOf(colour, x);
  }

  /** The stack once its top frame has taken its next neighbour. */
  function Advanced<T>(stack: seq<Frame<T>>): seq<Frame<T>>
    requires stack != [] && stack[|stack| - 1].todo != []
  {
    var top := stack[|stack| - 1];
    stack[..|stack| - 1] + [Frame(top.node, top.todo[1..])]
  }

  lemma Skip<T(!new)>(g: set<(T, T)>, stack: seq<Frame<T>>, order: seq<T>, colour: map<T, Colour>)
    requires Searching(g, stack, order) && Coloured(colour, stack, order)
    requires stack != [] && stack[|stack| - 1].todo != []
    requires ColourOf(colour, stack[|stack| - 1].todo[0]) == Black
    ensures Searching(g, Advanced(stack), order) && Coloured(colour, Advanced(stack), order)
  {
    var result := Advanced(stack);
    forall i, e | 0 <= i < |result| && e in g && e.0 == result[i].node
      ensures Handled(result, order, i, e.1)
    {
      assert Handled(stack, order, i, e.1);
    }
    forall x
      ensures OnStack(result, x) <==> OnStack(stack, x)
    {
      if OnStack(stack, x) {
        var i :| 0 <= i < |stack| && stack[i].node == x;
        assert result[i].node == x;
      }
    }
  }

  lemma Finish<T(!new)>(g: set<(T, T)>, stack: seq<Frame<T>>, order: seq<T>, colour: map<T, Colour>)
    requires Searching(g, stack, order) && Coloured(colour, stack, order)
    requires stack != [] && stack[|stack| - 1].todo == []
    ensures var top := stack[|stack| - 1].node;
            && Searching(g, stack[..|stack| - 1], order + [top])
            && Coloured(colour[top := Black], stack[..|stack| - 1], order + [top])
  {
    var n := |stack| - 1;
    var top := stack[n].node;
    var rest, done := stack[..n], order + [top];
    forall e, i | e in g && 0 <= i < |done| && done[i] == e.0
      ensures e.1 in done[..i]
    {
      if i < |order| {
        assert done[..i] == order[..i];
      } else {
        assert Handled(stack, order, n, e.1);
        assert done[..i] == order;
      }
    }
    forall i, e | 0 <= i < |rest| && e in g && e.0 == rest[i].node
      ensures Handled(rest, done, i, e.1)
    {
      assert Handled(stack, order, i, e.1);
    }
    forall x
      ensures OnStack(stack, x) <==> OnStack(rest, x) || x == top
    {
      if OnStack(rest, x) {
        var i :| 0 <= i < |rest| && rest[i].node == x;
        assert stack[i].node == x;
      }
      if OnStack(stack, x) && x != top {
        var i :| 0 <= i < |stack| && stack[i].node == x;
        assert rest[i].node == x;
      }
    }
    assert !OnStack(rest, top);
    assert forall x :: ColourOf(colour[top := Black], x) == if x == top then Black else ColourOf(colour, x);
  }

  /** Meeting a gray node closes a cycle through the top of the stack. */
  lemma BackEdge<T(!new)>(g: set<(T, T)>, stack: seq<Frame<T>>, order: seq<T>, colour: map<T, Colour>, next: T)
    requires Searching(g, stack, order) && Coloured(colour, stack, order)
    requires stack != [] && next in stack[|stack| - 1].todo && ColourOf(colour, next) == Gray
    ensures (stack[|stack| - 1].node, next) in g && Reach(g, next, stack[|stack| - 1].node)
    ensures !Acyclic(g)
  {
    assert OnStack(stack, next);
    var i :| 0 <= i < |stack| && stack[i].node == next;
    StackIsPath(g, stack, order, i);
    assert (stack[|stack| - 1].node, next) in g;
  }

  lemma {:induction false} StackIsPath<T(!new)>(g: set<(T, T)>, stack: seq<Frame<T>>, order: seq<T>, i: nat)
    requires Searching(g, stack, order) && i < |stack|
    ensures Reach(g, stack[i].node, stack[|stack| - 1].node)
    decreases |stack| - i
  {
    if i == |stack| - 1 {
      ReachRefl(g, stack[i].node);
    } else {
      StackIsPath(g, stack, order, i + 1);
      ReachEdge(g, stack[i].node, stack[i + 1].node);
      ReachTrans(g, stack[i].node, stack[i + 1].node, stack[|stack| - 1].node);
    }
  }
}
