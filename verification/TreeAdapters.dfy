/** Tree operations over the bridge's CHILD edges (src/tree_adapter/mod.rs). */
module TreeAdapters {
  import opened Results
  import opened Graphs
  import opened ParentChains
  import opened TreeMoves

  function Rev<T>(s: seq<T>): (r: seq<T>) {
    seq(|s|, i requires 0 <= i < |s| => s[|s| - 1 - i])
  }

  ghost function Elems<T>(s: seq<T>): set<T> {
    set x | x in s
  }

  lemma DistinctConcat<T>(a: seq<T>, b: seq<T>)
    requires Distinct(a) && Distinct(b) && forall x :: x in a ==> x !in b
    ensures Distinct(a + b)
  {
    var s := a + b;
    forall i, j | 0 <= i < j < |s|
      ensures s[i] != s[j]
    {
      if i < |a| <= j {
        assert s[i] == a[i] && s[j] == b[j - |a|];
        assert a[i] in a && b[j - |a|] in b;
      }
    }
  }

  /** The id maps as an adapter reads them. `order` is the order in which the
      edge map enumerates its keys, the same for every call on unchanged maps. */
  datatype TreeAdapter = TreeAdapter(keyOf: map<nat, string>, idOf: map<string, nat>, order: seq<EdgeKey>) {

    /** Source key of the first CHILD edge into `key`. */
    function FindParentKey(keys: seq<EdgeKey>, key: string): (r: Option<string>)
      ensures r.Some? ==> (r.value, key, TREE_EDGE_LABEL) in keys
      ensures r.None? ==> forall src :: (src, key, TREE_EDGE_LABEL) !in keys
    {
      if keys == [] then None
      else if keys[0].2 == TREE_EDGE_LABEL && keys[0].1 == key then Some(keys[0].0)
      else FindParentKey(keys[1..], key)
    }

    /** Errors carry the unknown id or key. */
    function Parent(node: nat): Result<Option<nat>, string> {
      if node !in keyOf then Err("unknown node id")
      else match FindParentKey(order, keyOf[node])
        case None => Ok(None)
        case Some(p) => if p in idOf then Ok(Some(idOf[p])) else Err(p)
    }

    /** `order[i]` is the first CHILD edge into `key`. */
    ghost predicate FirstInto(key: string, i: nat) {
      && i < |order| && order[i].1 == key && order[i].2 == TREE_EDGE_LABEL
      && forall j :: 0 <= j < i ==> order[j].1 != key || order[j].2 != TREE_EDGE_LABEL
    }

    lemma {:induction false} FoundIsFirst(keys: seq<EdgeKey>, key: string) returns (i: nat)
      requires FindParentKey(keys, key).Some?
      ensures i < |keys| && keys[i] == (FindParentKey(keys, key).value, key, TREE_EDGE_LABEL)
      ensures forall j :: 0 <= j < i ==> keys[j].1 != key || keys[j].2 != TREE_EDGE_LABEL
    {
      if keys[0].2 == TREE_EDGE_LABEL && keys[0].1 == key {
        i := 0;
      } else {
        i := FoundIsFirst(keys[1..], key);
        i := i + 1;
      }
    }

    /** Without a CHILD edge into the node, and only then, the answer is None. */
    lemma ParentNoneIff(node: nat)
      ensures Parent(node) == Ok(None) <==> node in keyOf && forall src :: (src, keyOf[node], TREE_EDGE_LABEL) !in order
    {
    }

    /** Otherwise it follows the first such edge; it is an error exactly for an unknown
        node or an unbound source. */
    lemma ParentFollowsFirst(node: nat, i: nat)
      requires node in keyOf && FirstInto(keyOf[node], i)
      ensures Parent(node) == if order[i].0 in idOf then Ok(Some(idOf[order[i].0])) else Err(order[i].0)
    {
      assert order[i] == (order[i].0, keyOf[node], TREE_EDGE_LABEL) && order[i] in order;
      var f := FoundIsFirst(order, keyOf[node]);
      assert f == i;
    }

    /** Ids of the bound children along `keys`. */
    ghost function Kids(keys: seq<EdgeKey>, key: string): (r: seq<nat>)
      ensures forall y :: y in r ==> y in idOf.Values
    {
      if keys == [] then []
      else if keys[0].2 == TREE_EDGE_LABEL && keys[0].0 == key && keys[0].1 in idOf then
        [idOf[keys[0].1]] + Kids(keys[1..], key)
      else Kids(keys[1..], key)
    }

    ghost function ChildList(node: nat): (r: seq<nat>)
      ensures forall y :: y in r ==> y in idOf.Values
    {
      if node in keyOf then Kids(order, keyOf[node]) else []
    }

    ghost predicate Binds(k: EdgeKey, key: string, y: nat) {
      k.0 == key && k.2 == TREE_EDGE_LABEL && k.1 in idOf && idOf[k.1] == y
    }

    lemma {:induction false} KidsMember(keys: seq<EdgeKey>, key: string, y: nat)
      ensures y in Kids(keys, key) <==> exists k :: k in keys && Binds(k, key, y)
    {
      if keys != [] {
        KidsMember(keys[1..], key, y);
        assert forall k :: k in keys <==> k == keys[0] || k in keys[1..];
        if Binds(keys[0], key, y) {
          assert Kids(keys, key)[0] == y;
        }
        if y in Kids(keys[1..], key) {
          var k :| k in keys[1..] && Binds(k, key, y);
          assert k in keys;
        }
      }
    }

    lemma {:induction false} KidsAppend(a: seq<EdgeKey>, b: seq<EdgeKey>, key: string)
      ensures Kids(a + b, key) == Kids(a, key) + Kids(b, key)
      decreases |a|
    {
      if a == [] {
        assert a + b == b;
      } else {
        assert (a + b)[1..] == a[1..] + b;
        KidsAppend(a[1..], b, key);
      }
    }

    /** Filter the edge keys, then translate them; unbound children are skipped. */
    method Children(node: nat) returns (r: Result<seq<nat>, string>)
      ensures r.Ok? <==> node in keyOf
      ensures r.Ok? ==> r.value == ChildList(node)
    {
      if node !in keyOf {
        return Err("unknown node id");
      }
      var out: seq<nat> := [];
      for i := 0 to |order|
        invariant out == Kids(order[..i], keyOf[node])
      {
        KidsAppend(order[..i], [order[i]], keyOf[node]);
        assert order[..i + 1] == order[..i] + [order[i]];
        var (src, dst, lbl) := order[i];
        if lbl == TREE_EDGE_LABEL && src == keyOf[node] && dst in idOf {
          out := out + [idOf[dst]];
        }
      }
      assert order[..|order|] == order;
      return Ok(out);
    }

    /** The recursive pre-order walk: each node not seen before, then everything
        below it, then its siblings. */
    ghost function Visit(todo: seq<nat>, seen: set<nat>): (out: seq<nat>)
      requires forall x :: x in todo ==> x in idOf.Values
      ensures forall x :: x in out ==> x in idOf.Values
      decreases idOf.Values - seen, |todo|
    {
      if todo == [] then []
      else if todo[0] in seen then Visit(todo[1..], seen)
      else
        var here := [todo[0]] + Visit(ChildList(todo[0]), seen + {todo[0]});
        assert here[0] == todo[0] && todo[0] in Elems(here);
        here + Visit(todo[1..], seen + Elems(here))
    }

    lemma {:induction false} VisitAppend(a: seq<nat>, b: seq<nat>, seen: set<nat>)
      requires forall x :: x in a + b ==> x in idOf.Values
      ensures (forall x :: x in a ==> x in a + b) && (forall x :: x in b ==> x in a + b)
      ensures Visit(a + b, seen) == Visit(a, seen) + Visit(b, seen + Elems(Visit(a, seen)))
      decreases idOf.Values - seen, |a|
    {
      assert forall x :: x in a || x in b ==> x in a + b;
      if a == [] {
        assert a + b == b && seen + Elems(Visit(a, seen)) == seen;
      } else {
        assert (a + b)[1..] == a[1..] + b && (a + b)[0] == a[0];
        if a[0] in seen {
          VisitAppend(a[1..], b, seen);
        } else {
          var here := [a[0]] + Visit(ChildList(a[0]), seen + {a[0]});
          assert here[0] == a[0] && a[0] in Elems(here);
          VisitAppend(a[1..], b, seen + Elems(here));
          var after := Visit(a[1..], seen + Elems(here));
          ElemsConcat(seen, here, after);
          assert here + (after + Visit(b, seen + Elems(here + after))) == (here + after) + Visit(b, seen + Elems(here + after));
        }
      }
    }

    static lemma ElemsConcat(seen: set<nat>, a: seq<nat>, b: seq<nat>)
      ensures seen + Elems(a) + Elems(b) == seen + Elems(a + b)
    {
    }

    /** The walk comes from above: each node is on the work list, or a child of a node
        listed before it. */
    lemma {:induction false} VisitFromAbove(todo: seq<nat>, seen: set<nat>, i: nat)
      requires (forall x :: x in todo ==> x in idOf.Values) && i < |Visit(todo, seen)|
      ensures var out := Visit(todo, seen); out[i] in todo || ChildOfEarlier(out, i)
      decreases idOf.Values - seen, |todo|
    {
      var out := Visit(todo, seen);
      if todo[0] in seen {
        VisitFromAbove(todo[1..], seen, i);
      } else {
        var n := todo[0];
        var deep := Visit(ChildList(n), seen + {n});
        var here := [n] + deep;
        assert here[0] == n && n in Elems(here);
        var rest := Visit(todo[1..], seen + Elems(here));
        assert out == [n] + deep + rest;
        if 0 < i < |here| {
          VisitFromAbove(ChildList(n), seen + {n}, i - 1);
          ShiftEarlier([n], deep, rest, i - 1);
        } else if i >= |here| {
          VisitFromAbove(todo[1..], seen + Elems(here), i - |here|);
          assert out == here + rest + [];
          ShiftEarlier(here, rest, [], i - |here|);
        }
      }
    }

    ghost predicate ChildOfEarlier(out: seq<nat>, i: nat)
      requires i < |out|
    {
      exists j :: 0 <= j < i && out[i] in ChildList(out[j])
    }

    lemma ShiftEarlier(pre: seq<nat>, part: seq<nat>, post: seq<nat>, k: nat)
      requires pre != [] && k < |part|
      ensures (pre + part + post)[|pre| + k] == part[k]
      ensures part[k] in ChildList(pre[0]) || ChildOfEarlier(part, k) ==> ChildOfEarlier(pre + part + post, |pre| + k)
    {
      var out := pre + part + post;
      assert forall j :: 0 <= j < |part| ==> out[|pre| + j] == part[j];
      assert out[0] == pre[0];
      if ChildOfEarlier(part, k) {
        var j :| 0 <= j < k && part[k] in ChildList(part[j]);
        assert out[|pre| + k] in ChildList(out[|pre| + j]);
      }
    }

    lemma VisitNew(n: nat, rest: seq<nat>, seen: set<nat>)
      requires n !in seen && n in idOf.Values && forall x :: x in rest ==> x in idOf.Values
      ensures Visit([n] + rest, seen) == [n] + Visit(ChildList(n) + rest, seen + {n})
    {
      var deep := Visit(ChildList(n), seen + {n});
      VisitAppend(ChildList(n), rest, seen + {n});
      assert ([n] + rest)[1..] == rest;
      assert Elems([n] + deep) == {n} + Elems(deep);
      assert seen + Elems([n] + deep) == seen + {n} + Elems(deep);
    }

    /** Push the children of a popped node in reverse. */
    method PushChildren(n: nat, below: seq<nat>) returns (stack: seq<nat>)
      ensures Rev(stack) == ChildList(n) + Rev(below)
    {
      stack := below;
      var cs := Children(n);
      if cs.Ok? {
        for i := |cs.value| downto 0
          invariant stack == below + Rev(cs.value[i..])
        {
          stack := stack + [cs.value[i]];
        }
        assert cs.value[0..] == cs.value;
      }
      PushedChildren(below, ChildList(n), stack);
    }

    /** What is listed, and what the recursive walk would still list from the stack,
        are together the recursive walk from `node`. */
    ghost predicate Walking(node: nat, out: seq<nat>, todo: seq<nat>, visited: set<nat>) {
      && (forall x :: x in todo ==> x in idOf.Values)
      && Visit(ChildList(node), {node}) == out + Visit(todo, visited)
    }

    lemma WalkSkips(node: nat, out: seq<nat>, todo: seq<nat>, visited: set<nat>)
      requires todo != [] && Walking(node, out, todo, visited) && todo[0] in visited
      ensures Walking(node, out, todo[1..], visited)
    {
    }

    lemma WalkLists(node: nat, out: seq<nat>, todo: seq<nat>, visited: set<nat>)
      requires todo != [] && Walking(node, out, todo, visited) && todo[0] !in visited
      ensures todo[0] in idOf.Values
      ensures Walking(node, out + [todo[0]], ChildList(todo[0]) + todo[1..], visited + {todo[0]})
    {
      var n, rest := todo[0], todo[1..];
      assert todo == [n] + rest && n in todo;
      VisitNew(n, rest, visited);
      assert out + ([n] + Visit(ChildList(n) + rest, visited + {n})) == (out + [n]) + Visit(ChildList(n) + rest, visited + {n});
    }

    lemma PoppedStack(stack: seq<nat>)
      requires stack != []
      ensures Rev(stack) == [stack[|stack| - 1]] + Rev(stack[..|stack| - 1])
      ensures Rev(stack)[0] == stack[|stack| - 1] && Rev(stack)[1..] == Rev(stack[..|stack| - 1])
    {
    }

    /** The stack-based walk lists what the recursive one does, in the same order. */
    method Descendants(node: nat) returns (out: seq<nat>)
      ensures out == Visit(ChildList(node), {node})
    {
      out := [];
      var visited := {node};
      var first := Children(node);
      if first.Err? {
        return;
      }
      var stack := Rev(first.value);
      assert Rev(stack) == ChildList(node);
      while stack != []
        invariant Walking(node, out, Rev(stack), visited)
        decreases idOf.Values - visited, |stack|
      {
        ghost var todo := Rev(stack);
        PoppedStack(stack);
        var n := stack[|stack| - 1];
        stack := stack[..|stack| - 1];
        if n in visited {
          WalkSkips(node, out, todo, visited);
          continue;
        }
        WalkLists(node, out, todo, visited);
        visited := visited + {n};
        out := out + [n];
        stack := PushChildren(n, stack);
      }
      assert Rev(stack) == [];
    }

    lemma PushedChildren(below: seq<nat>, children: seq<nat>, stack: seq<nat>)
      requires stack == below + Rev(children)
      ensures Rev(stack) == children + Rev(below)
    {
    }

    ghost function Below(): (g: set<(nat, nat)>)
      ensures forall e {:trigger e in g} :: e in g <==> e.0 in keyOf && e.1 in ChildList(e.0)
    {
      set x, y | x in keyOf && y in ChildList(x) :: (x, y)
    }

    ghost predicate Complete(todo: seq<nat>, seen: set<nat>, out: seq<nat>) {
      && Distinct(out)
      && (forall x :: x in out ==> x !in seen && exists r :: r in todo && Reach(Below(), r, x))
      && (forall x :: x in todo ==> x in seen || x in out)
      && (forall x, y :: x in out && y in ChildList(x) ==> y in seen || y in out)
    }

    lemma {:induction false} VisitComplete(todo: seq<nat>, seen: set<nat>)
      requires forall x :: x in todo ==> x in idOf.Values
      ensures Complete(todo, seen, Visit(todo, seen))
      decreases idOf.Values - seen, |todo|
    {
      if todo == [] {
      } else if todo[0] in seen {
        VisitComplete(todo[1..], seen);
        forall x | x in Visit(todo, seen)
          ensures exists r :: r in todo && Reach(Below(), r, x)
        {
          var r :| r in todo[1..] && Reach(Below(), r, x);
          assert r in todo;
        }
      } else {
        var n := todo[0];
        var deep := Visit(ChildList(n), seen + {n});
        var here := [n] + deep;
        assert here[0] == n;
        var rest := Visit(todo[1..], seen + Elems(here));
        VisitComplete(ChildList(n), seen + {n});
        VisitComplete(todo[1..], seen + Elems(here));
        VisitCompleteStep(todo, seen, n, deep, rest);
      }
    }

    lemma VisitCompleteStep(todo: seq<nat>, seen: set<nat>, n: nat, deep: seq<nat>, rest: seq<nat>)
      requires todo != [] && n == todo[0] && n !in seen
      requires Complete(ChildList(n), seen + {n}, deep)
      requires Complete(todo[1..], seen + Elems([n] + deep), rest)
      ensures Complete(todo, seen, [n] + deep + rest)
    {
      var out := [n] + deep + rest;
      assert forall x :: x in out <==> x == n || x in deep || x in rest;
      assert forall x :: x in Elems([n] + deep) <==> x == n || x in deep;
      DistinctConcat([n], deep);
      DistinctConcat([n] + deep, rest);
      forall x | x in out
        ensures exists r :: r in todo && Reach(Below(), r, x)
      {
        if x == n {
          ReachRefl(Below(), n);
        } else if x in deep {
          var r :| r in ChildList(n) && Reach(Below(), r, x);
          ReachEdge(Below(), n, r);
          ReachTrans(Below(), n, r, x);
        } else {
          var r :| r in todo[1..] && Reach(Below(), r, x);
        }
      }
    }

    /** Exactly the nodes below `node`, each once, on cyclic maps too. */
    lemma DescendantsAreReachable(node: nat)
      ensures Distinct(Visit(ChildList(node), {node}))
      ensures forall m :: m in Visit(ChildList(node), {node}) <==> m != node && Reach(Below(), node, m)
    {
      var out := Visit(ChildList(node), {node});
      VisitComplete(ChildList(node), {node});
      forall m | m in out
        ensures m != node && Reach(Below(), node, m)
      {
        var r :| r in ChildList(node) && Reach(Below(), r, m);
        ChildStep(node, r, m);
      }
      forall m | m != node && Reach(Below(), node, m)
        ensures m in out
      {
        TrappedBelow(node, out, m);
      }
    }

    lemma ChildStep(node: nat, child: nat, m: nat)
      requires child in ChildList(node) && Reach(Below(), child, m)
      ensures Reach(Below(), node, m)
    {
      ReachEdge(Below(), node, child);
      ReachTrans(Below(), node, child, m);
    }

    lemma TrappedBelow(node: nat, out: seq<nat>, m: nat)
      requires Complete(ChildList(node), {node}, out)
      requires m != node && Reach(Below(), node, m)
      ensures m in out
    {
      ClosedTraps(Below(), {node} + Elems(out), node, m);
    }

    ghost function ParentMap(): map<nat, nat> {
      map x | x in keyOf && Parent(x).Ok? && Parent(x).value.Some? :: Parent(x).value.value
    }

    ghost predicate IsAncestor(a: nat, node: nat) {
      a != node && Reach(Up(ParentMap()), node, a)
    }

    ghost predicate ParentIs(x: nat, p: nat) {
      Parent(x) == Ok(Some(p))
    }

    /** Each element of `out` is the parent of the one before it, starting above `node`. */
    ghost predicate ClimbsFrom(node: nat, out: seq<nat>) {
      && (out != [] ==> ParentIs(node, out[0]))
      && (forall i, j :: 0 <= i && j == i + 1 && j < |out| ==> ParentIs(out[i], out[j]))
    }

    ghost function Current(node: nat, out: seq<nat>): nat {
      if out == [] then node else out[|out| - 1]
    }

    /** How far a climb has come: `visited` is `node` and all in `out`. */
    ghost predicate Climbing(node: nat, out: seq<nat>, visited: set<nat>) {
      var g, current := Up(ParentMap()), Current(node, out);
      && Distinct(out) && node !in out && visited == {node} + Elems(out)
      && ClimbsFrom(node, out)
      && (forall x :: x in visited ==> Reach(g, node, x))
      && (forall x :: x in visited && x != current && x in ParentMap() ==> ParentMap()[x] in visited)
    }

    lemma ClimbTurn(node: nat, out: seq<nat>, visited: set<nat>, p: nat)
      requires Climbing(node, out, visited) && ParentIs(Current(node, out), p) && p !in visited
      ensures Climbing(node, out + [p], visited + {p})
    {
      var g, current := Up(ParentMap()), Current(node, out);
      assert current in visited && current in ParentMap() && ParentMap()[current] == p;
      ReachEdge(g, current, p);
      ReachTrans(g, node, current, p);
      DistinctConcat(out, [p]);
      assert Elems(out + [p]) == Elems(out) + {p};
    }

    lemma ClimbDone(node: nat, out: seq<nat>, visited: set<nat>)
      requires Climbing(node, out, visited)
      requires Current(node, out) in ParentMap() ==> ParentMap()[Current(node, out)] in visited
      ensures forall a :: a in out <==> IsAncestor(a, node)
    {
      forall a | Reach(Up(ParentMap()), node, a)
        ensures a in visited
      {
        ClosedTraps(Up(ParentMap()), visited, node, a);
      }
    }

    /** The parent chain, nearest first, until a root, a broken link or a repeat. */
    method Ancestors(node: nat) returns (out: seq<nat>)
      ensures Distinct(out)
      ensures ClimbsFrom(node, out)
      ensures forall a :: a in out <==> IsAncestor(a, node)
    {
      out := [];
      var visited := {node};
      var current := node;
      ReachRefl(Up(ParentMap()), node);
      while true
        invariant current == Current(node, out) && Climbing(node, out, visited)
        decreases idOf.Values - visited
      {
        var parent := Parent(current);
        if parent.Err? || parent.value.None? {
          assert current !in ParentMap();
          break;
        }
        var p := parent.value.value;
        assert current in ParentMap() && ParentMap()[current] == p;
        if p in visited {
          break;
        }
        ClimbTurn(node, out, visited, p);
        visited := visited + {p};
        out := out + [p];
        current := p;
      }
      ClimbDone(node, out, visited);
    }

    ghost predicate Bijective() {
      && (forall k :: k in idOf ==> idOf[k] in keyOf && keyOf[idOf[k]] == k)
      && (forall n :: n in keyOf ==> keyOf[n] in idOf && idOf[keyOf[n]] == n)
    }

    ghost predicate OneParentEach() {
      forall a, b :: a in order && b in order && a.2 == b.2 == TREE_EDGE_LABEL && a.1 == b.1 ==> a.0 == b.0
    }

    lemma UpIsReversedBelow()
      requires Bijective() && OneParentEach()
      ensures Up(ParentMap()) == Reverse(Below())
    {
      forall e: (nat, nat)
        ensures e in Up(ParentMap()) <==> (e.1, e.0) in Below()
      {
        if e in Up(ParentMap()) {
          var p := FindParentKey(order, keyOf[e.0]).value;
          var k := (p, keyOf[e.0], TREE_EDGE_LABEL);
          assert k in order && Binds(k, keyOf[e.1], e.0);
          KidsMember(order, keyOf[e.1], e.0);
        }
        if (e.1, e.0) in Below() {
          KidsMember(order, keyOf[e.1], e.0);
          var k :| k in order && Binds(k, keyOf[e.1], e.0);
          assert k == (k.0, keyOf[e.0], TREE_EDGE_LABEL);
          assert FindParentKey(order, keyOf[e.0]) == Some(k.0);
        }
      }
      forall e | e in Up(ParentMap())
        ensures e in Reverse(Below())
      {
        var back := (e.1, e.0);
        assert back in Below() && e == (back.1, back.0);
      }
    }

    /** On tree-shaped, consistent maps the two walks are each other's inverse. */
    lemma DescendantIffAncestor(n: nat, m: nat)
      requires Bijective() && OneParentEach()
      ensures m in Visit(ChildList(n), {n}) <==> IsAncestor(n, m)
    {
      DescendantsAreReachable(n);
      UpIsReversedBelow();
      ReachReverse(Below(), n, m);
    }
  }
}
