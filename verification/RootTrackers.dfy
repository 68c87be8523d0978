/** The incremental root set of src/schema/mod.rs, and its agreement with the
    cycle guard it accompanies. */
module RootTrackers {
  import opened Graphs
  import opened ParentChains
  import opened CycleGuards

  /** The tracker's two sets, with what each hook does to them. */
  datatype Roots = Roots(hasParent: set<string>, roots: set<string>) {
    function Register(node: string): Roots {
      if node in hasParent then this else this.(roots := roots + {node})
    }

    function Unregister(node: string): Roots {
      Roots(hasParent - {node}, roots - {node})
    }

    function EdgeInserted(child: string): Roots {
      Roots(hasParent + {child}, roots - {child})
    }

    function EdgeRemoved(child: string): Roots {
      Roots(hasParent - {child}, roots + {child})
    }
  }

  class RootTracker {
    var hasParent: set<string>
    var roots: set<string>

    function View(): Roots
      reads this
    {
      Roots(hasParent, roots)
    }

    constructor ()
      ensures View() == Roots({}, {})
    {
      hasParent, roots := {}, {};
    }

    method RegisterNode(node: string)
      modifies this
      ensures View() == old(View()).Register(node)
    {
      if node !in hasParent {
        roots := roots + {node};
      }
    }

    method UnregisterNode(node: string)
      modifies this
      ensures View() == old(View()).Unregister(node)
    {
      roots := roots - {node};
      hasParent := hasParent - {node};
    }

    method OnEdgeInserted(child: string, parent: string)
      modifies this
      ensures View() == old(View()).EdgeInserted(child)
    {
      hasParent := hasParent + {child};
      roots := roots - {child};
    }

    method OnEdgeRemoved(child: string, parent: string)
      modifies this
      ensures View() == old(View()).EdgeRemoved(child)
    {
      hasParent := hasParent - {child};
      roots := roots + {child};
    }
  }

  /** What happens to a tree while a guard and a tracker follow it. */
  datatype TreeOp =
    | Register(node: string)
    | Unregister(node: string)
    | Move(node: string, newParent: string)
    | Detach(node: string)

  /** `registered`: registered and not unregistered since. `uprooted`: lost a
      parent edge and not unregistered since. */
  datatype Forest = Forest(parentOf: map<string, string>, tracker: Roots, registered: set<string>, uprooted: set<string>)

  const EMPTY_FOREST := Forest(map[], Roots({}, {}), {}, {})

  /** Guard and tracker are fed the same edge removals and insertions. */
  ghost function Feed(f: Forest, op: TreeOp): Forest {
    match op
    case Register(n) =>
      f.(tracker := f.tracker.Register(n), registered := f.registered + {n})
    case Unregister(n) =>
      Forest(f.parentOf - {n}, f.tracker.Unregister(n), f.registered - {n}, f.uprooted - {n})
    case Move(n, p) =>
      var after := Moved(f.parentOf, n, p);
      if n in Chain(f.parentOf, p) then f
      else if n in f.parentOf then
        Forest(after, f.tracker.EdgeRemoved(n).EdgeInserted(n), f.registered, f.uprooted + {n})
      else f.(parentOf := after, tracker := f.tracker.EdgeInserted(n))
    case Detach(n) =>
      if n in f.parentOf then
        Forest(f.parentOf - {n}, f.tracker.EdgeRemoved(n), f.registered, f.uprooted + {n})
      else f
  }

  ghost function Run(f: Forest, ops: seq<TreeOp>): Forest
    decreases |ops|
  {
    if ops == [] then f else Run(Feed(f, ops[0]), ops[1..])
  }

  ghost predicate InStep(f: Forest) {
    && Acyclic(Up(f.parentOf))
    && f.tracker.hasParent == f.parentOf.Keys
    && f.tracker.roots == (f.registered + f.uprooted) - f.parentOf.Keys
  }

  lemma {:induction false} RunInStep(f: Forest, ops: seq<TreeOp>)
    requires InStep(f)
    ensures InStep(Run(f, ops))
    decreases |ops|
  {
    if ops != [] {
      match ops[0] {
        case Register(_) =>
        case Unregister(n) => UnlinkAcyclic(f.parentOf, n);
        case Move(n, p) => RepointAcyclic(f.parentOf, n, p);
        case Detach(n) => UnlinkAcyclic(f.parentOf, n);
      }
      RunInStep(Feed(f, ops[0]), ops[1..]);
    }
  }

  /** From the empty state: the parent map never has a cycle, and the tracker
      reports exactly the registered nodes without a parent iff no node that
      lost its parent edge is now parentless without having been registered. */
  lemma TrackerFollowsGuard(ops: seq<TreeOp>)
    ensures var f := Run(EMPTY_FOREST, ops);
            && Acyclic(Up(f.parentOf))
            && f.tracker.hasParent == f.parentOf.Keys
            && (f.tracker.roots == f.registered - f.parentOf.Keys
                <==> f.uprooted - f.parentOf.Keys <= f.registered)
  {
    assert Up(EMPTY_FOREST.parentOf) == {};
    RunInStep(EMPTY_FOREST, ops);
    var f := Run(EMPTY_FOREST, ops);
    var free := f.uprooted - f.parentOf.Keys;
    assert f.tracker.roots == (f.registered - f.parentOf.Keys) + free;
    if free <= f.registered {
      assert f.tracker.roots == f.registered - f.parentOf.Keys;
    }
  }

  /** Moves are only made of nodes registered at that moment. */
  ghost predicate Disciplined(registered: set<string>, ops: seq<TreeOp>)
    decreases |ops|
  {
    ops == [] || (
      && (ops[0].Move? ==> ops[0].node in registered)
      && Disciplined(match ops[0]
                     case Register(n) => registered + {n}
                     case Unregister(n) => registered - {n}
                     case _ => registered, ops[1..]))
  }

  lemma {:induction false} DisciplinedRun(f: Forest, ops: seq<TreeOp>)
    requires Disciplined(f.registered, ops)
    requires f.uprooted + f.parentOf.Keys <= f.registered
    ensures Run(f, ops).uprooted <= Run(f, ops).registered
    decreases |ops|
  {
    if ops != [] {
      DisciplinedRun(Feed(f, ops[0]), ops[1..]);
    }
  }

  /** Callers that register before they move always read the true root set. */
  lemma DisciplinedRootsExact(ops: seq<TreeOp>)
    requires Disciplined({}, ops)
    ensures var f := Run(EMPTY_FOREST, ops); f.tracker.roots == f.registered - f.parentOf.Keys
  {
    TrackerFollowsGuard(ops);
    DisciplinedRun(EMPTY_FOREST, ops);
  }

  /** An unregistered node that is moved and detached shows up as a root. */
  lemma UndisciplinedRootAppears(n: string, p: string)
    requires n != p
    ensures var f := Run(EMPTY_FOREST, [Move(n, p), Detach(n)]);
            n in f.tracker.roots && n !in f.registered
  {
    var ops := [Move(n, p), Detach(n)];
    var one := Feed(EMPTY_FOREST, ops[0]);
    assert ops[1..] == [Detach(n)] && [Detach(n)][1..] == [];
    assert Chain(map[], p) == [p];
    assert n in one.parentOf;
    assert Run(EMPTY_FOREST, ops) == Run(one, [Detach(n)]);
    assert Run(one, [Detach(n)]) == Run(Feed(one, Detach(n)), []);
  }
}
