/** Strictly sorted sequences of ids and of words: they are determined by their
    elements. */
module Sorted {

  /** Lexicographic order by character. */
  predicate Less(a: string, b: string) {
    b != "" && (a == "" || a[0] < b[0] || (a[0] == b[0] && Less(a[1..], b[1..])))
  }

  lemma {:induction false} LessTrans(a: string, b: string, c: string)
    requires Less(a, b) && Less(b, c)
    ensures Less(a, c)
  {
    if a != "" && a[0] == b[0] == c[0] {
      LessTrans(a[1..], b[1..], c[1..]);
    }
  }

  lemma {:induction false} LessTotal(a: string, b: string)
    ensures Less(a, b) || a == b || Less(b, a)
    ensures !(Less(a, b) && Less(b, a)) && !Less(a, a)
  {
    if a != "" && b != "" {
      LessTotal(a[1..], b[1..]);
      assert a == [a[0]] + a[1..] && b == [b[0]] + b[1..];
    }
    if a != "" {
      LessTotal(a[1..], a[1..]);
    }
  }

  ghost predicate Words(q: seq<string>) {
    forall i, j :: 0 <= i < j < |q| ==> Less(q[i], q[j])
  }

  ghost predicate Ids(q: seq<nat>) {
    forall i, j :: 0 <= i < j < |q| ==> q[i] < q[j]
  }

  function InsertWord(w: string, q: seq<string>): seq<string> {
    if q == [] || Less(w, q[0]) then [w] + q
    else if w == q[0] then q
    else [q[0]] + InsertWord(w, q[1..])
  }

  lemma {:induction false} InsertWordSorted(w: string, q: seq<string>)
    requires Words(q)
    ensures Words(InsertWord(w, q))
    ensures forall x :: x in InsertWord(w, q) <==> x == w || x in q
  {
    if q != [] {
      LessTotal(w, q[0]);
      if Less(w, q[0]) {
        forall j | 0 < j < |q|
          ensures Less(w, q[j])
        {
          LessTrans(w, q[0], q[j]);
        }
      } else if w != q[0] {
        InsertWordSorted(w, q[1..]);
        var r := InsertWord(w, q[1..]);
        forall j | 0 <= j < |r|
          ensures Less(q[0], r[j])
        {
          assert r[j] in r;
        }
        assert q == [q[0]] + q[1..];
      }
    }
  }

  lemma BothEmpty<T>(a: seq<T>, b: seq<T>)
    requires forall x :: x in a <==> x in b
    ensures a == [] <==> b == []
  {
    if a != [] { assert a[0] in b; }
    if b != [] { assert b[0] in a; }
  }

  lemma {:induction false} WordsDetermined(a: seq<string>, b: seq<string>)
    requires Words(a) && Words(b) && forall x :: x in a <==> x in b
    ensures a == b
  {
    BothEmpty(a, b);
    if a != [] {
      assert a[0] in a;
      var j :| 0 <= j < |b| && b[j] == a[0];
      assert b[0] in a;
      var i :| 0 <= i < |a| && a[i] == b[0];
      LessTotal(a[0], b[0]);
      forall x
        ensures x in a[1..] <==> x in b[1..]
      {
        LessTotal(a[0], a[0]);
        assert x in a <==> x == a[0] || x in a[1..];
        assert x in b <==> x == b[0] || x in b[1..];
      }
      WordsDetermined(a[1..], b[1..]);
    }
  }

  lemma {:induction false} IdsDetermined(a: seq<nat>, b: seq<nat>)
    requires Ids(a) && Ids(b) && forall x :: x in a <==> x in b
    ensures a == b
  {
    BothEmpty(a, b);
    if a != [] {
      assert a[0] in a;
      var j :| 0 <= j < |b| && b[j] == a[0];
      assert b[0] in a;
      var i :| 0 <= i < |a| && a[i] == b[0];
      forall x
        ensures x in a[1..] <==> x in b[1..]
      {
        assert x in a <==> x == a[0] || x in a[1..];
        assert x in b <==> x == b[0] || x in b[1..];
      }
      IdsDetermined(a[1..], b[1..]);
    }
  }

  /** Where a binary search for `d` ends: the number of smaller ids. */
  function Position(q: seq<nat>, d: nat): (p: nat)
    ensures p <= |q|
  {
    if q == [] || d <= q[0] then 0 else 1 + Position(q[1..], d)
  }

  lemma {:induction false} PositionSplits(q: seq<nat>, d: nat)
    requires Ids(q)
    ensures forall i :: 0 <= i < Position(q, d) ==> q[i] < d
    ensures forall i :: Position(q, d) <= i < |q| ==> d <= q[i]
    ensures d in q <==> Position(q, d) < |q| && q[Position(q, d)] == d
  {
    if q != [] && q[0] < d {
      PositionSplits(q[1..], d);
      assert q == [q[0]] + q[1..];
    }
  }

  /** A sorted insert at the search position. */
  function InsertId(q: seq<nat>, d: nat): seq<nat> {
    var p := Position(q, d);
    if p == |q| || q[p] != d then q[..p] + [d] + q[p..] else q
  }

  function RemoveId(q: seq<nat>, d: nat): seq<nat> {
    var p := Position(q, d);
    if p < |q| && q[p] == d then q[..p] + q[p + 1..] else q
  }

  lemma InsertIdSorted(q: seq<nat>, d: nat)
    requires Ids(q)
    ensures Ids(InsertId(q, d))
    ensures forall x :: x in InsertId(q, d) <==> x == d || x in q
    ensures d !in q ==> |InsertId(q, d)| == |q| + 1
  {
    PositionSplits(q, d);
    var p := Position(q, d);
    if p == |q| || q[p] != d {
      PutOne(q, p, d);
    }
  }

  lemma PutOne(q: seq<nat>, p: nat, d: nat)
    requires Ids(q) && p <= |q|
    requires (forall i :: 0 <= i < p ==> q[i] < d) && (forall i :: p <= i < |q| ==> d < q[i])
    ensures Ids(q[..p] + [d] + q[p..])
    ensures forall x :: x in q[..p] + [d] + q[p..] <==> x == d || x in q
  {
    var r := q[..p] + [d] + q[p..];
    assert r[p] == d;
    forall x | x in r
      ensures x == d || x in q
    {
      var i :| 0 <= i < |r| && r[i] == x;
      assert i != p ==> r[i] == if i < p then q[i] else q[i - 1];
    }
    forall x | x in q
      ensures x in r
    {
      var i :| 0 <= i < |q| && q[i] == x;
      assert r[if i < p then i else i + 1] == x;
    }
  }

  lemma RemoveIdSorted(q: seq<nat>, d: nat)
    requires Ids(q)
    ensures Ids(RemoveId(q, d))
    ensures forall x :: x in RemoveId(q, d) <==> x != d && x in q
    ensures d in q ==> |RemoveId(q, d)| == |q| - 1
  {
    PositionSplits(q, d);
    if d in q {
      var p := Position(q, d);
      DropOne(q, p);
      assert q[p] == d && RemoveId(q, d) == q[..p] + q[p + 1..];
    }
  }

  lemma DropOne(q: seq<nat>, p: nat)
    requires Ids(q) && p < |q|
    ensures Ids(q[..p] + q[p + 1..])
    ensures forall x :: x in q[..p] + q[p + 1..] <==> x != q[p] && x in q
  {
    var r := q[..p] + q[p + 1..];
    forall x | x in r
      ensures x != q[p] && x in q
    {
      var i :| 0 <= i < |r| && r[i] == x;
      assert r[i] == if i < p then q[i] else q[i + 1];
    }
    forall x | x != q[p] && x in q
      ensures x in r
    {
      var i :| 0 <= i < |q| && q[i] == x;
      assert r[if i < p then i else i - 1] == x;
    }
  }

  /** Distinct ids drawn from a set are no more than the set holds. */
  lemma {:induction false} IdsBounded(q: seq<nat>, s: set<nat>)
    requires Ids(q) && forall x :: x in q ==> x in s
    ensures |q| <= |s|
  {
    if q != [] {
      assert q[0] in q;
      forall x | x in q[1..]
        ensures x in s - {q[0]}
      {
        var i :| 0 < i < |q| && q[i] == x;
        assert x in q;
      }
      IdsBounded(q[1..], s - {q[0]});
    }
  }
}
