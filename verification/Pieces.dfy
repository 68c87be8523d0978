/** Texts assembled from consecutive pieces, and what holds of the whole because
    it holds piece by piece. */
module Pieces {
  import opened Lines

  ghost function Flat<T>(p: seq<seq<T>>): seq<T> {
    if p == [] then [] else Flat(p[..|p| - 1]) + p[|p| - 1]
  }

  lemma FlatExtend<T>(p: seq<seq<T>>, k: nat)
    requires k < |p|
    ensures Flat(p[..k + 1]) == Flat(p[..k]) + p[k]
  {
    assert p[..k + 1][..k] == p[..k];
  }

  lemma {:induction false} FlatMember<T>(p: seq<seq<T>>, x: T)
    requires x in Flat(p)
    ensures exists b :: 0 <= b < |p| && x in p[b]
  {
    var k := |p| - 1;
    if x !in p[k] {
      FlatMember(p[..k], x);
      var b :| 0 <= b < k && x in p[..k][b];
      assert x in p[b];
    }
  }

  lemma {:induction false} FlatHolds<T>(p: seq<seq<T>>, b: nat, x: T)
    requires b < |p| && x in p[b]
    ensures x in Flat(p)
  {
    if b < |p| - 1 {
      FlatHolds(p[..|p| - 1], b, x);
    }
  }

  lemma {:induction false} FlatSubseq<T>(p: seq<seq<T>>, q: seq<seq<T>>)
    requires |p| == |q| && forall b :: 0 <= b < |p| ==> Subseq(p[b], q[b])
    ensures Subseq(Flat(p), Flat(q))
  {
    if p != [] {
      var k := |p| - 1;
      FlatSubseq(p[..k], q[..k]);
      SubseqAppend(Flat(p[..k]), Flat(q[..k]), p[k], q[k]);
    }
  }

  /** Two texts hold, line for line and count for count, what three others do. */
  ghost predicate Balanced<T>(p: seq<T>, w: seq<T>, a: seq<T>, c: seq<T>, m: seq<T>) {
    multiset(p) + multiset(w) == multiset(a) + multiset(c) + multiset(m)
  }

  /** Texts that balance in every piece balance as a whole. */
  lemma {:induction false} FlatBalanced<T>(p: seq<seq<T>>, w: seq<seq<T>>, a: seq<seq<T>>, c: seq<seq<T>>, m: seq<seq<T>>)
    requires |p| == |w| == |a| == |c| == |m|
    requires forall b :: 0 <= b < |p| ==> Balanced(p[b], w[b], a[b], c[b], m[b])
    ensures Balanced(Flat(p), Flat(w), Flat(a), Flat(c), Flat(m))
  {
    if p != [] {
      var k := |p| - 1;
      FlatBalanced(p[..k], w[..k], a[..k], c[..k], m[..k]);
      AppendBalanced(Flat(p[..k]), Flat(w[..k]), Flat(a[..k]), Flat(c[..k]), Flat(m[..k]), p[k], w[k], a[k], c[k], m[k]);
    }
  }

  lemma AppendBalanced<T>(p: seq<T>, w: seq<T>, a: seq<T>, c: seq<T>, m: seq<T>,
                          p': seq<T>, w': seq<T>, a': seq<T>, c': seq<T>, m': seq<T>)
    requires Balanced(p, w, a, c, m) && Balanced(p', w', a', c', m')
    ensures Balanced(p + p', w + w', a + a', c + c', m + m')
  {
    calc {
      multiset(p + p') + multiset(w + w');
      (multiset(p) + multiset(w)) + (multiset(p') + multiset(w'));
      (multiset(a) + multiset(c) + multiset(m)) + (multiset(a') + multiset(c') + multiset(m'));
      multiset(a + a') + multiset(c + c') + multiset(m + m');
    }
  }

  /** Nothing but empty pieces make an empty text. */
  lemma {:induction false} FlatEmpty<T>(p: seq<seq<T>>)
    ensures Flat(p) == [] <==> forall b :: 0 <= b < |p| ==> p[b] == []
  {
    if p != [] {
      FlatEmpty(p[..|p| - 1]);
    }
  }
}
