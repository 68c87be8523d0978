/** Maps that give each key at most one successor: the parent map of a tree
    guard, the first-parent map of a commit store. */
module ParentChains {
  import opened Graphs

  /** The links of `m` as a graph pointing from child to parent. */
  ghost function Up<T(!new)>(m: map<T, T>): (g: set<(T, T)>)
    ensures forall e :: e in g <==> e.0 in m && m[e.0] == e.1
  {
    set k | k in m :: (k, m[k])
  }

  /** `x`, then its parent, and so on until a key without parent, or until the
      walk would take the same link twice. */
  ghost function Chain<T>(m: map<T, T>, x: T): (c: seq<T>)
    ensures |c| > 0 && c[0] == x
    decreases |m|
  {
    if x in m then
      assert |m - {x}| < |m| by { assert m.Keys == (m - {x}).Keys + {x}; }
      [x] + Chain(m - {x}, m[x])
    else [x]
  }

  lemma {:induction false} ChainSound<T(!new)>(m: map<T, T>, x: T, y: T)
    requires y in Chain(m, x)
    ensures Reach(Up(m), x, y)
    decreases |m|
  {
    if y == x {
      ReachRefl(Up(m), x);
    } else {
      assert |m - {x}| < |m| by { assert m.Keys == (m - {x}).Keys + {x}; }
      ChainSound(m - {x}, m[x], y);
      ReachMono(Up(m - {x}), Up(m), m[x], y);
      ReachEdge(Up(m), x, m[x]);
      ReachTrans(Up(m), x, m[x], y);
    }
  }

  lemma {:induction false} ChainComplete<T(!new)>(m: map<T, T>, x: T, y: T)
    requires Reach(Up(m), x, y)
    ensures y in Chain(m, x)
    decreases |m|
  {
    if y != x {
      var z := ReachFirst(Up(m), x, y);
      assert |m - {x}| < |m| by { assert m.Keys == (m - {x}).Keys + {x}; }
      AvoidSource(m, x, y);
      ChainComplete(m - {x}, m[x], y);
    }
  }

  /** Walking on from `x` to another node, the link out of `x` is used once. */
  lemma {:induction false} AvoidSource<T(!new)>(m: map<T, T>, x: T, y: T)
    requires x in m && y != x && Reach(Up(m), x, y)
    ensures Reach(Up(m - {x}), m[x], y)
  {
    var p :| PathFromTo(Up(m), p, x, y);
    AvoidSourcePath(m, x, p);
  }

  lemma {:induction false} AvoidSourcePath<T(!new)>(m: map<T, T>, x: T, p: seq<T>)
    requires x in m && IsPath(Up(m), p) && p[0] == x && p[|p| - 1] != x
    ensures Reach(Up(m - {x}), m[x], p[|p| - 1])
    decreases |p|
  {
    if i :| 0 < i < |p| && p[i] == x {
      AvoidSourcePath(m, x, p[i..]);
    } else {
      var q := p[1..];
      assert (p[0], p[1]) in Up(m);
      forall i | 0 <= i < |q| - 1
        ensures (q[i], q[i + 1]) in Up(m - {x})
      {
        assert q[i] == p[i + 1] && (p[i + 1], p[i + 2]) in Up(m);
        assert q[i] != x;
      }
      assert PathFromTo(Up(m - {x}), q, m[x], p[|p| - 1]);
    }
  }

  /** The chain holds exactly what is reachable through the links. */
  lemma ChainIsReach<T(!new)>(m: map<T, T>, x: T, y: T)
    ensures y in Chain(m, x) <==> Reach(Up(m), x, y)
  {
    if y in Chain(m, x) { ChainSound(m, x, y); }
    if Reach(Up(m), x, y) { ChainComplete(m, x, y); }
  }

  /** Without cycles a chain is the node followed by its parent's chain. */
  lemma ChainUnfold<T(!new)>(m: map<T, T>, x: T)
    requires Acyclic(Up(m)) && x in m
    ensures Chain(m, x) == [x] + Chain(m, m[x])
    ensures x !in Chain(m, m[x])
  {
    assert (x, m[x]) in Up(m);
    ChainIsReach(m, m[x], x);
    ChainIgnores(m, x, m[x]);
  }

  /** A link out of a node the chain never meets does not matter. */
  lemma {:induction false} ChainIgnores<T>(m: map<T, T>, x: T, z: T)
    requires x !in Chain(m, z)
    ensures Chain(m - {x}, z) == Chain(m, z)
    decreases |m|
  {
    if z in m {
      assert |m - {z}| < |m| by { assert m.Keys == (m - {z}).Keys + {z}; }
      assert x != z by { assert Chain(m, z)[0] == z; }
      forall y | y in Chain(m - {z}, m[z])
        ensures y in Chain(m, z)
      {
        var i :| 0 <= i < |Chain(m - {z}, m[z])| && Chain(m - {z}, m[z])[i] == y;
        assert Chain(m, z)[i + 1] == y;
      }
      ChainIgnores(m - {z}, x, m[z]);
      assert m - {z} - {x} == m - {x} - {z};
    }
  }

  lemma {:induction false} ChainDistinct<T(!new)>(m: map<T, T>, x: T)
    requires Acyclic(Up(m))
    ensures Distinct(Chain(m, x))
    decreases |m|
  {
    if x in m {
      assert |m - {x}| < |m| by { assert m.Keys == (m - {x}).Keys + {x}; }
      AcyclicMono(Up(m - {x}), Up(m));
      ChainDistinct(m - {x}, m[x]);
      ChainUnfold(m, x);
      ChainIgnores(m, x, m[x]);
    }
  }

  /** Re-pointing `x` at `y` closes a cycle exactly when `y` already leads to `x`. */
  lemma RepointAcyclic<T(!new)>(m: map<T, T>, x: T, y: T)
    requires Acyclic(Up(m))
    ensures Acyclic(Up(m[x := y])) <==> x !in Chain(m, y)
  {
    var rest := Up(m - {x});
    assert Up(m[x := y]) == rest + {(x, y)};
    AcyclicMono(rest, Up(m));
    AddEdge(rest, x, y);
    ChainIsReach(m, y, x);
    if Reach(Up(m), y, x) {
      ArriveWithoutLeaving(Up(m), rest, y, x);
    }
    if Reach(rest, y, x) {
      ReachMono(rest, Up(m), y, x);
    }
  }

  lemma UnlinkAcyclic<T(!new)>(m: map<T, T>, x: T)
    requires Acyclic(Up(m))
    ensures Acyclic(Up(m - {x}))
  {
    AcyclicMono(Up(m - {x}), Up(m));
  }

  /** From a node met on the way, the rest of the chain is its own chain. */
  lemma {:induction false} ChainSuffix<T(!new)>(m: map<T, T>, x: T, i: nat)
    requires Acyclic(Up(m)) && i < |Chain(m, x)|
    ensures Chain(m, Chain(m, x)[i]) == Chain(m, x)[i..]
    decreases i
  {
    if i > 0 {
      ChainUnfold(m, x);
      ChainSuffix(m, m[x], i - 1);
      assert Chain(m, x)[i] == Chain(m, m[x])[i - 1] && Chain(m, x)[i..] == Chain(m, m[x])[i - 1..];
    }
  }

  /** Chains stay inside a set that the links do not leave. */
  lemma {:induction false} ChainWithin<T(!new)>(m: map<T, T>, s: set<T>, x: T)
    requires x in s && forall k :: k in m && k in s ==> m[k] in s
    ensures forall y :: y in Chain(m, x) ==> y in s
    decreases |m|
  {
    if x in m {
      assert |m - {x}| < |m| by { assert m.Keys == (m - {x}).Keys + {x}; }
      ChainWithin(m - {x}, s, m[x]);
    }
  }
}
