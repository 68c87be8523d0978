/** The dynamic-programming line matcher of src/ffi/mod.rs. */
module Lcs {
  import opened Lines

  /** Length of a longest common subsequence of `a[i..]` and `b[j..]`. */
  ghost function Len(a: seq<string>, b: seq<string>, i: nat, j: nat): nat
    requires i <= |a| && j <= |b|
    decreases |a| - i + |b| - j
  {
    if i == |a| || j == |b| then 0
    else if a[i] == b[j] then Len(a, b, i + 1, j + 1) + 1
    else Max(Len(a, b, i + 1, j), Len(a, b, i, j + 1))
  }

  function Max(x: nat, y: nat): nat {
    if x >= y then x else y
  }

  /** The pairs the forward walk over the table picks up from `(i, j)` on. */
  ghost function Walk(a: seq<string>, b: seq<string>, i: nat, j: nat): (p: seq<(nat, nat)>)
    requires i <= |a| && j <= |b|
    ensures |p| == Len(a, b, i, j)
    decreases |a| - i + |b| - j
  {
    if i == |a| || j == |b| then []
    else if a[i] == b[j] then [(i, j)] + Walk(a, b, i + 1, j + 1)
    else if Len(a, b, i + 1, j) >= Len(a, b, i, j + 1) then Walk(a, b, i + 1, j)
    else Walk(a, b, i, j + 1)
  }

  /** Pairs of equal lines, strictly increasing on both sides, none before `(i, j)`. */
  ghost predicate Matching(a: seq<string>, b: seq<string>, p: seq<(nat, nat)>, i: nat, j: nat) {
    && (forall k :: 0 <= k < |p| ==> i <= p[k].0 < |a| && j <= p[k].1 < |b| && a[p[k].0] == b[p[k].1])
    && (forall k, l :: 0 <= k < l < |p| ==> p[k].0 < p[l].0 && p[k].1 < p[l].1)
  }

  ghost function Left(a: seq<string>, p: seq<(nat, nat)>): seq<string>
    requires forall k :: 0 <= k < |p| ==> p[k].0 < |a|
  {
    seq(|p|, k requires 0 <= k < |p| => a[p[k].0])
  }

  lemma {:induction false} WalkMatches(a: seq<string>, b: seq<string>, i: nat, j: nat)
    requires i <= |a| && j <= |b|
    ensures Matching(a, b, Walk(a, b, i, j), i, j)
    decreases |a| - i + |b| - j
  {
    if i < |a| && j < |b| {
      if a[i] == b[j] {
        WalkMatches(a, b, i + 1, j + 1);
      } else if Len(a, b, i + 1, j) >= Len(a, b, i, j + 1) {
        WalkMatches(a, b, i + 1, j);
      } else {
        WalkMatches(a, b, i, j + 1);
      }
    }
  }

  /** No common subsequence is longer. */
  lemma {:induction false} LenIsUpperBound(a: seq<string>, b: seq<string>, i: nat, j: nat, c: seq<string>)
    requires i <= |a| && j <= |b| && Subseq(c, a[i..]) && Subseq(c, b[j..])
    ensures |c| <= Len(a, b, i, j)
    decreases |a| - i + |b| - j
  {
    if c != [] {
      assert a[i..][1..] == a[i + 1..] && b[j..][1..] == b[j + 1..];
      if a[i] == b[j] {
        SubseqTail(c, a[i..]);
        SubseqTail(c, b[j..]);
        LenIsUpperBound(a, b, i + 1, j + 1, c[1..]);
      } else if c[0] != a[i] {
        LenIsUpperBound(a, b, i + 1, j, c);
      } else {
        LenIsUpperBound(a, b, i, j + 1, c);
      }
    }
  }

  /** The matched lines are a common subsequence themselves. */
  lemma {:induction false} WalkIsCommon(a: seq<string>, b: seq<string>, i: nat, j: nat)
    requires i <= |a| && j <= |b|
    ensures Matching(a, b, Walk(a, b, i, j), i, j)
    ensures var c := Left(a, Walk(a, b, i, j)); Subseq(c, a[i..]) && Subseq(c, b[j..])
    decreases |a| - i + |b| - j
  {
    WalkMatches(a, b, i, j);
    if i < |a| && j < |b| {
      assert a[i..][1..] == a[i + 1..] && b[j..][1..] == b[j + 1..];
      var c := Left(a, Walk(a, b, i, j));
      if a[i] == b[j] {
        WalkIsCommon(a, b, i + 1, j + 1);
        assert c[1..] == Left(a, Walk(a, b, i + 1, j + 1));
      } else if Len(a, b, i + 1, j) >= Len(a, b, i, j + 1) {
        WalkIsCommon(a, b, i + 1, j);
      } else {
        WalkIsCommon(a, b, i, j + 1);
      }
    }
  }

  ghost predicate Filled(a: seq<string>, b: seq<string>, dp: array2<nat>, i: nat, j: nat)
    reads dp
    requires dp.Length0 == |a| + 1 && dp.Length1 == |b| + 1
  {
    forall x, y :: 0 <= x <= |a| && 0 <= y <= |b| && (x > i || (x == i && y >= j) || x == |a| || y == |b|)
      ==> dp[x, y] == Len(a, b, x, y)
  }

  method FillTable(a: seq<string>, b: seq<string>) returns (dp: array2<nat>)
    ensures fresh(dp) && dp.Length0 == |a| + 1 && dp.Length1 == |b| + 1
    ensures Filled(a, b, dp, 0, 0)
  {
    dp := new nat[|a| + 1, |b| + 1]((_, _) => 0);
    for i := |a| downto 0
      invariant Filled(a, b, dp, i, 0)
    {
      for j := |b| downto 0
        invariant Filled(a, b, dp, i, j)
      {
        if a[i] == b[j] {
          dp[i, j] := dp[i + 1, j + 1] + 1;
        } else {
          dp[i, j] := Max(dp[i + 1, j], dp[i, j + 1]);
        }
      }
    }
  }

  /** Strictly increasing pairs of equal lines, as many as any common
      subsequence has. */
  method LcsMatches(a: seq<string>, b: seq<string>) returns (pairs: seq<(nat, nat)>)
    ensures pairs == Walk(a, b, 0, 0)
    ensures Matching(a, b, pairs, 0, 0)
    ensures forall c :: Subseq(c, a) && Subseq(c, b) ==> |c| <= |pairs|
  {
    forall c | Subseq(c, a) && Subseq(c, b)
      ensures |c| <= Len(a, b, 0, 0)
    {
      assert a[0..] == a && b[0..] == b;
      LenIsUpperBound(a, b, 0, 0, c);
    }
    WalkMatches(a, b, 0, 0);
    if |a| == 0 || |b| == 0 {
      return [];
    }
    var dp := FillTable(a, b);
    pairs := [];
    var i, j := 0, 0;
    while i < |a| && j < |b|
      invariant 0 <= i <= |a| && 0 <= j <= |b|
      invariant Walk(a, b, 0, 0) == pairs + Walk(a, b, i, j)
      decreases |a| - i + |b| - j
    {
      if a[i] == b[j] {
        pairs := pairs + [(i, j)];
        i, j := i + 1, j + 1;
      } else if dp[i + 1, j] >= dp[i, j + 1] {
        i := i + 1;
      } else {
        j := j + 1;
      }
    }
  }
}
