/** How each side of a merge lines up with the base text (src/ffi/mod.rs). */
module Alignments {
  import opened Results
  import opened Lcs
  import opened Pieces

  ghost function MatchAt(pairs: seq<(nat, nat)>, n: nat): (at: seq<Option<nat>>)
    requires forall k :: 0 <= k < |pairs| ==> pairs[k].0 < n
    ensures |at| == n
  {
    if pairs == [] then seq(n, _ => None)
    else
      var k := |pairs| - 1;
      MatchAt(pairs[..k], n)[pairs[k].0 := Some(pairs[k].1)]
  }

  /** The lines inserted before a base line, and whether that line was kept. */
  datatype Gap = Gap(ins: seq<string>, kept: bool)

  ghost predicate Aligned(base: seq<string>, g: seq<Gap>) {
    |g| == |base| + 1
  }

  ghost function KeptLine(base: seq<string>, g: seq<Gap>, b: nat): seq<string>
    requires Aligned(base, g) && b <= |base|
  {
    if b < |base| && g[b].kept then [base[b]] else []
  }

  ghost function BothKept(base: seq<string>, ours: seq<Gap>, theirs: seq<Gap>, b: nat): seq<string>
    requires Aligned(base, ours) && Aligned(base, theirs) && b <= |base|
  {
    if b < |base| && ours[b].kept && theirs[b].kept then [base[b]] else []
  }

  datatype Side = Side(lines: seq<string>, at: seq<Option<nat>>) {

    ghost predicate Valid(base: seq<string>) {
      && |at| == |base|
      && (forall b :: 0 <= b < |at| && at[b].Some? ==> at[b].value < |lines| && lines[at[b].value] == base[b])
      && (forall b, c :: 0 <= b < c < |at| && at[b].Some? && at[c].Some? ==> at[b].value < at[c].value)
    }

    /** First line after the partner of the last matched base line below `k`. */
    ghost function Prev(k: nat): nat
      requires k <= |at|
    {
      if k == 0 then 0
      else if at[k - 1].Some? then at[k - 1].value + 1
      else Prev(k - 1)
    }

    /** The lines this side inserted just before base line `b`, as a range. */
    ghost function Range(b: nat): (nat, nat)
      requires b <= |at|
    {
      if b == |at| then (Prev(b), |lines|)
      else if at[b].Some? then (Prev(b), at[b].value)
      else (0, 0)
    }

    lemma {:induction false} PrevBound(base: seq<string>, k: nat, b: nat)
      requires Valid(base) && k <= |at|
      ensures Prev(k) <= |lines|
      ensures k <= b < |at| && at[b].Some? ==> Prev(k) <= at[b].value
      ensures forall c :: 0 <= c < k && at[c].Some? ==> at[c].value < Prev(k)
    {
      if k > 0 && at[k - 1].None? {
        PrevBound(base, k - 1, b);
      }
    }

    ghost function Inserted(base: seq<string>, b: nat): seq<string>
      requires Valid(base) && b <= |at|
    {
      PrevBound(base, b, b);
      lines[Range(b).0..Range(b).1]
    }

    /** The side as gaps: before each base line, and after the last. */
    ghost function Gaps(base: seq<string>): (g: seq<Gap>)
      requires Valid(base)
      ensures |g| == |base| + 1
    {
      seq(|base| + 1, b requires 0 <= b <= |base| => Gap(Inserted(base, b), b < |base| && at[b].Some?))
    }

    /** How far into this side's lines the first `k` slots reach. */
    ghost function Reached(k: nat): nat
      requires k <= |at| + 1
    {
      if k == |at| + 1 then |lines| else Prev(k)
    }

    /** Slot by slot, insertions and kept base lines make up the side. */
    lemma SlotExtends(base: seq<string>, k: nat)
      requires Valid(base) && k <= |at|
      ensures Reached(k) <= Reached(k + 1) <= |lines|
      ensures lines[..Reached(k + 1)] == lines[..Reached(k)] + Gaps(base)[k].ins + KeptLine(base, Gaps(base), k)
    {
      PrevBound(base, k, k);
      if k < |at| {
        PrevBound(base, k + 1, k + 1);
      }
    }

    /** Line `o` is a base line that `other` deleted. */
    ghost predicate DeletedBy(other: Side, o: nat)
      requires |other.at| == |at|
    {
      exists b :: 0 <= b < |at| && at[b] == Some(o) && other.at[b].None?
    }

    /** The first `n` lines without those that `other` deleted. */
    ghost function Survivors(other: Side, n: nat): seq<string>
      requires |other.at| == |at| && n <= |lines|
    {
      if n == 0 then []
      else Survivors(other, n - 1) + (if DeletedBy(other, n - 1) then [] else [lines[n - 1]])
    }

    lemma {:induction false} InsertedSurvive(base: seq<string>, other: Side, lo: nat, hi: nat)
      requires Valid(base) && |other.at| == |at| && lo <= hi <= |lines|
      requires forall b :: 0 <= b < |at| && at[b].Some? ==> !(lo <= at[b].value < hi)
      ensures Survivors(other, hi) == Survivors(other, lo) + lines[lo..hi]
    {
      if lo == hi {
        assert lines[lo..hi] == [];
      } else {
        InsertedSurvive(base, other, lo, hi - 1);
        assert !DeletedBy(other, hi - 1);
        assert lines[lo..hi] == lines[lo..hi - 1] + [lines[hi - 1]];
      }
    }

    lemma SurvivorsSlot(base: seq<string>, other: Side, k: nat)
      requires Valid(base) && other.Valid(base) && k <= |at|
      ensures Reached(k) <= Reached(k + 1) <= |lines|
      ensures Survivors(other, Reached(k + 1)) ==
              Survivors(other, Reached(k)) + Gaps(base)[k].ins + BothKept(base, Gaps(base), other.Gaps(base), k)
    {
      SlotExtends(base, k);
      PrevBound(base, k, k);
      if k == |at| {
        forall b | 0 <= b < |at| && at[b].Some?
          ensures !(Prev(k) <= at[b].value < |lines|)
        {
          PrevBound(base, k, b);
        }
        InsertedSurvive(base, other, Prev(k), |lines|);
      } else if at[k].Some? {
        var o := at[k].value;
        forall b | 0 <= b < |at| && at[b].Some?
          ensures !(Prev(k) <= at[b].value < o)
        {
          PrevBound(base, k, b);
        }
        InsertedSurvive(base, other, Prev(k), o);
        assert DeletedBy(other, o) <==> other.at[k].None? by {
          if other.at[k].None? { assert at[k] == Some(o) && other.at[k].None?; }
        }
      }
    }
  }

  ghost function SideOf(base: seq<string>, lines: seq<string>): (s: Side)
    ensures s.lines == lines && s.Valid(base)
  {
    WalkMatches(base, lines, 0, 0);
    MatchAtValid(base, lines, Walk(base, lines, 0, 0));
    Side(lines, MatchAt(Walk(base, lines, 0, 0), |base|))
  }

  /** How `lines` aligns with `base`, by their longest common subsequence. */
  ghost function Align(base: seq<string>, lines: seq<string>): (g: seq<Gap>)
    ensures Aligned(base, g)
  {
    SideOf(base, lines).Gaps(base)
  }

  lemma {:induction false} MatchAtMembers(pairs: seq<(nat, nat)>, n: nat, b: nat, o: nat)
    requires forall k :: 0 <= k < |pairs| ==> pairs[k].0 < n
    requires forall k, l :: 0 <= k < l < |pairs| ==> pairs[k].0 < pairs[l].0
    requires b < n
    ensures MatchAt(pairs, n)[b] == Some(o) <==> (b, o) in pairs
  {
    if pairs != [] {
      var k := |pairs| - 1;
      MatchAtMembers(pairs[..k], n, b, o);
      assert pairs == pairs[..k] + [pairs[k]];
      assert forall x :: x in pairs[..k] ==> x.0 < pairs[k].0;
    }
  }

  lemma MatchAtValid(base: seq<string>, lines: seq<string>, pairs: seq<(nat, nat)>)
    requires Matching(base, lines, pairs, 0, 0)
    ensures Side(lines, MatchAt(pairs, |base|)).Valid(base)
  {
    var at := MatchAt(pairs, |base|);
    forall b | 0 <= b < |base| && at[b].Some?
      ensures at[b].value < |lines| && lines[at[b].value] == base[b]
    {
      MatchAtMembers(pairs, |base|, b, at[b].value);
    }
    forall b, c | 0 <= b < c < |base| && at[b].Some? && at[c].Some?
      ensures at[b].value < at[c].value
    {
      MatchAtMembers(pairs, |base|, b, at[b].value);
      MatchAtMembers(pairs, |base|, c, at[c].value);
      MatchingOrdered(base, lines, pairs, (b, at[b].value), (c, at[c].value));
    }
  }

  lemma MatchingOrdered(base: seq<string>, lines: seq<string>, pairs: seq<(nat, nat)>, x: (nat, nat), y: (nat, nat))
    requires Matching(base, lines, pairs, 0, 0) && x in pairs && y in pairs && x.0 < y.0
    ensures x.1 < y.1
  {
    var k :| 0 <= k < |pairs| && pairs[k] == x;
    var l :| 0 <= l < |pairs| && pairs[l] == y;
    assert k < l;
  }

  /** One side, gap by gap. */
  ghost function LinePieces(base: seq<string>, g: seq<Gap>): (p: seq<seq<string>>)
    requires Aligned(base, g)
    ensures |p| == |base| + 1
  {
    seq(|base| + 1, b requires 0 <= b <= |base| => g[b].ins + KeptLine(base, g, b))
  }

  lemma {:induction false} Rebuild(base: seq<string>, s: Side, k: nat)
    requires s.Valid(base) && k <= |base| + 1
    ensures s.Reached(k) <= |s.lines| && Flat(LinePieces(base, s.Gaps(base))[..k]) == s.lines[..s.Reached(k)]
  {
    if k > 0 {
      Rebuild(base, s, k - 1);
      s.SlotExtends(base, k - 1);
      FlatExtend(LinePieces(base, s.Gaps(base)), k - 1);
    }
  }

  lemma RebuildAll(base: seq<string>, s: Side)
    requires s.Valid(base)
    ensures Flat(LinePieces(base, s.Gaps(base))) == s.lines
  {
    Rebuild(base, s, |base| + 1);
    var p := LinePieces(base, s.Gaps(base));
    assert p[..|base| + 1] == p;
    assert s.lines[..|s.lines|] == s.lines;
  }

  /** An alignment loses nothing of the side it describes. */
  lemma AlignRebuilds(base: seq<string>, lines: seq<string>)
    ensures Flat(LinePieces(base, Align(base, lines))) == lines
  {
    RebuildAll(base, SideOf(base, lines));
  }

  lemma {:induction false} WalkDiagonal(a: seq<string>, i: nat)
    requires i <= |a|
    ensures |Walk(a, a, i, i)| == |a| - i && forall k :: 0 <= k < |a| - i ==> Walk(a, a, i, i)[k] == (i + k, i + k)
    decreases |a| - i
  {
    if i < |a| {
      WalkDiagonal(a, i + 1);
      assert Walk(a, a, i, i) == [(i, i)] + Walk(a, a, i + 1, i + 1);
    }
  }

  lemma IdentityPartners(base: seq<string>)
    ensures forall c :: 0 <= c < |base| ==> SideOf(base, base).at[c] == Some(c)
  {
    WalkDiagonal(base, 0);
    WalkMatches(base, base, 0, 0);
    forall c | 0 <= c < |base|
      ensures SideOf(base, base).at[c] == Some(c)
    {
      assert Walk(base, base, 0, 0)[c] == (c, c);
      MatchAtMembers(Walk(base, base, 0, 0), |base|, c, c);
    }
  }

  /** An unchanged side keeps every base line and inserts nothing. */
  lemma AlignUnchanged(base: seq<string>)
    ensures forall b :: 0 <= b <= |base| ==> Align(base, base)[b] == Gap([], b < |base|)
  {
    var s := SideOf(base, base);
    IdentityPartners(base);
    forall b | 0 <= b <= |base|
      ensures Align(base, base)[b] == Gap([], b < |base|)
    {
      assert s.Prev(b) == b;
    }
  }

  /** One side without the base lines that the other deleted, gap by gap. */
  ghost function RemainingPieces(base: seq<string>, mine: seq<Gap>, other: seq<Gap>): (p: seq<seq<string>>)
    requires Aligned(base, mine) && Aligned(base, other)
    ensures |p| == |base| + 1
  {
    seq(|base| + 1, b requires 0 <= b <= |base| => mine[b].ins + BothKept(base, mine, other, b))
  }

  lemma {:induction false} RemainingAreSurvivors(base: seq<string>, mine: Side, other: Side, k: nat)
    requires mine.Valid(base) && other.Valid(base) && k <= |base| + 1
    ensures mine.Reached(k) <= |mine.lines|
    ensures Flat(RemainingPieces(base, mine.Gaps(base), other.Gaps(base))[..k]) == mine.Survivors(other, mine.Reached(k))
  {
    if k > 0 {
      RemainingAreSurvivors(base, mine, other, k - 1);
      mine.SurvivorsSlot(base, other, k - 1);
      FlatExtend(RemainingPieces(base, mine.Gaps(base), other.Gaps(base)), k - 1);
    }
  }
}
