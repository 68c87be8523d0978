/** The line-level three-way text merge of src/ffi/mod.rs. */
module TextMerge {
  import opened Results
  import opened Lines
  import opened Lcs
  import opened Pieces
  import opened Alignments

  datatype Resolution = ManualRequired | Merged | OursWins | TheirsWins

  const OURS_MARK := "<<<<<<< ours"
  const SPLIT_MARK := "======="
  const THEIRS_MARK := ">>>>>>> theirs"

  // ---------------------------------------------------------------------
  // The merge as a function of the two alignments

  predicate Clash(ours: seq<string>, theirs: seq<string>) {
    ours != [] && theirs != [] && ours != theirs
  }

  /** What goes out for two insertions at the same place. */
  function Slot(ours: seq<string>, theirs: seq<string>): seq<string> {
    if ours == [] then theirs
    else if theirs == [] then ours
    else if ours == theirs then ours
    else [OURS_MARK] + ours + [SPLIT_MARK] + theirs + [THEIRS_MARK]
  }

  /** The output, slot by slot. */
  ghost function MergedPieces(base: seq<string>, ours: seq<Gap>, theirs: seq<Gap>): (p: seq<seq<string>>)
    requires Aligned(base, ours) && Aligned(base, theirs)
    ensures |p| == |base| + 1
  {
    seq(|base| + 1, b requires 0 <= b <= |base| =>
      Slot(ours[b].ins, theirs[b].ins) + BothKept(base, ours, theirs, b))
  }

  ghost function MergedLines(base: seq<string>, ours: seq<string>, theirs: seq<string>): seq<string> {
    Flat(MergedPieces(base, Align(base, ours), Align(base, theirs)))
  }

  ghost predicate Conflicting(ours: seq<Gap>, theirs: seq<Gap>) {
    exists b :: 0 <= b < |ours| && b < |theirs| && Clash(ours[b].ins, theirs[b].ins)
  }

  /** Some slot holds two non-empty, different insertions. */
  ghost predicate HasConflict(base: seq<string>, ours: seq<string>, theirs: seq<string>) {
    Conflicting(Align(base, ours), Align(base, theirs))
  }

  ghost function MergeText(base: string, ours: string, theirs: string): (string, Resolution) {
    (Join(MergedLines(Split(base), Split(ours), Split(theirs))),
     if HasConflict(Split(base), Split(ours), Split(theirs)) then ManualRequired
     else if ours == theirs then Merged
     else if base == ours then TheirsWins
     else if base == theirs then OursWins
     else Merged)
  }

  // ---------------------------------------------------------------------
  // Merge laws

  /** If ours is the base, theirs comes out, to the letter. */
  lemma OursUnchanged(base: string, theirs: string)
    ensures MergeText(base, base, theirs) == (theirs, if base == theirs then Merged else TheirsWins)
  {
    var b, t := Split(base), Split(theirs);
    AlignUnchanged(b);
    assert MergedPieces(b, Align(b, b), Align(b, t)) == LinePieces(b, Align(b, t));
    AlignRebuilds(b, t);
    JoinSplit(theirs);
  }

  /** If theirs is the base, ours comes out, to the letter. */
  lemma TheirsUnchanged(base: string, ours: string)
    ensures MergeText(base, ours, base) == (ours, if base == ours then Merged else OursWins)
  {
    var b, o := Split(base), Split(ours);
    AlignUnchanged(b);
    assert MergedPieces(b, Align(b, o), Align(b, b)) == LinePieces(b, Align(b, o));
    AlignRebuilds(b, o);
    JoinSplit(ours);
  }

  /** The same edit on both sides comes out once, without conflict. */
  lemma SameEdit(base: string, ours: string)
    ensures MergeText(base, ours, ours) == (ours, Merged)
  {
    var b, o := Split(base), Split(ours);
    assert MergedPieces(b, Align(b, o), Align(b, o)) == LinePieces(b, Align(b, o));
    AlignRebuilds(b, o);
    JoinSplit(ours);
  }

  function Swapped(r: Resolution): Resolution {
    match r
    case OursWins => TheirsWins
    case TheirsWins => OursWins
    case _ => r
  }

  lemma ConflictSymmetric(ours: seq<Gap>, theirs: seq<Gap>)
    requires Conflicting(ours, theirs)
    ensures Conflicting(theirs, ours)
  {
    var b :| 0 <= b < |ours| && b < |theirs| && Clash(ours[b].ins, theirs[b].ins);
    assert Clash(theirs[b].ins, ours[b].ins);
  }

  lemma SwapPieces(base: seq<string>, ours: seq<Gap>, theirs: seq<Gap>)
    requires Aligned(base, ours) && Aligned(base, theirs) && !Conflicting(ours, theirs)
    ensures MergedPieces(base, theirs, ours) == MergedPieces(base, ours, theirs)
  {
    forall b | 0 <= b <= |base|
      ensures MergedPieces(base, theirs, ours)[b] == MergedPieces(base, ours, theirs)[b]
    {
      assert !Clash(ours[b].ins, theirs[b].ins);
    }
  }

  /** Which side is called ours matters only for the name of the winner and for
      the layout of conflicts. */
  lemma SwapSides(base: string, ours: string, theirs: string)
    ensures var (text, res) := MergeText(base, ours, theirs);
            var (text', res') := MergeText(base, theirs, ours);
            res' == Swapped(res) && (res != ManualRequired ==> text' == text)
  {
    var b := Split(base);
    var o, t := Align(b, Split(ours)), Align(b, Split(theirs));
    if Conflicting(o, t) {
      ConflictSymmetric(o, t);
    } else {
      if Conflicting(t, o) {
        ConflictSymmetric(t, o);
      }
      SwapPieces(b, o, t);
    }
  }

  /** The base line slot at which both sides inserted, and not the same lines. */
  ghost predicate ClashAt(base: seq<string>, ours: seq<string>, theirs: seq<string>, b: nat) {
    && b <= |base| && Align(base, ours)[b].ins != [] && Align(base, theirs)[b].ins != []
    && Align(base, ours)[b].ins != Align(base, theirs)[b].ins
  }

  ghost predicate Clashing(base: seq<string>, ours: seq<string>, theirs: seq<string>) {
    exists b: nat :: ClashAt(base, ours, theirs, b)
  }

  /** Every resolution by when it is given: a manual one exactly for two non-empty
      different insertions in some slot, Merged exactly for a clean merge of sides that
      agree or that both differ from the base. */
  lemma ResolutionIff(base: string, ours: string, theirs: string)
    ensures var res := MergeText(base, ours, theirs).1;
            var clash := Clashing(Split(base), Split(ours), Split(theirs));
            && (res == ManualRequired <==> clash)
            && (res == Merged <==> !clash && (ours == theirs || (base != ours && base != theirs)))
            && (res == OursWins <==> base == theirs && base != ours)
            && (res == TheirsWins <==> base == ours && base != theirs)
  {
    ConflictIsClash(Split(base), Split(ours), Split(theirs));
    ResolutionMeans(base, ours, theirs);
  }

  lemma ConflictIsClash(base: seq<string>, ours: seq<string>, theirs: seq<string>)
    ensures HasConflict(base, ours, theirs) <==> Clashing(base, ours, theirs)
  {
    var o, t := Align(base, ours), Align(base, theirs);
    if b: nat :| ClashAt(base, ours, theirs, b) {
      assert Clash(o[b].ins, t[b].ins);
    }
    if b: nat :| b < |o| && b < |t| && Clash(o[b].ins, t[b].ins) {
      assert ClashAt(base, ours, theirs, b);
    }
  }

  /** A side is named winner exactly when only it differs from the base, and then
      its text is the result; a manual conflict needs three different texts. */
  lemma ResolutionMeans(base: string, ours: string, theirs: string)
    ensures var (text, res) := MergeText(base, ours, theirs);
            && (res == OursWins <==> base == theirs && base != ours)
            && (res == TheirsWins <==> base == ours && base != theirs)
            && (res == OursWins ==> text == ours)
            && (res == TheirsWins ==> text == theirs)
            && (res == ManualRequired ==> base != ours && base != theirs && ours != theirs)
  {
    if base == ours { OursUnchanged(base, theirs); }
    if base == theirs { TheirsUnchanged(base, ours); }
    if ours == theirs { SameEdit(base, ours); }
  }

  // ---------------------------------------------------------------------
  // Nothing is lost, nothing is made up

  /** Where the lines of a clashing slot stand. */
  lemma ClashLayout(ours: seq<string>, theirs: seq<string>)
    requires Clash(ours, theirs)
    ensures var s, n, m := Slot(ours, theirs), |ours|, |theirs|;
            && |s| == n + m + 3
            && s[0] == "<<<<<<< ours" && s[1..n + 1] == ours
            && s[n + 1] == "=======" && s[n + 2..n + m + 2] == theirs
            && s[n + m + 2] == ">>>>>>> theirs"
  {
  }

  /** Any other slot holds the one insertion there is, without markers. */
  lemma CleanLayout(ours: seq<string>, theirs: seq<string>)
    requires !Clash(ours, theirs)
    ensures ours != [] ==> Slot(ours, theirs) == ours
    ensures theirs != [] ==> Slot(ours, theirs) == theirs
    ensures ours == [] && theirs == [] ==> Slot(ours, theirs) == []
  {
  }

  lemma SlotKeepsBoth(ours: seq<string>, theirs: seq<string>)
    ensures Subseq(ours, Slot(ours, theirs)) && Subseq(theirs, Slot(ours, theirs))
  {
    SubseqRefl(ours);
    SubseqRefl(theirs);
    if Clash(ours, theirs) {
      var tail := [SPLIT_MARK] + theirs + [THEIRS_MARK];
      SubseqAppend(ours, ours, [], tail);
      SubseqGrow(ours + [], [OURS_MARK], ours + tail);
      assert ours + [] == ours && [OURS_MARK] + (ours + tail) == Slot(ours, theirs);
      SubseqAppend(theirs, theirs, [], [THEIRS_MARK]);
      SubseqGrow(theirs + [], [OURS_MARK] + ours + [SPLIT_MARK], theirs + [THEIRS_MARK]);
      assert theirs + [] == theirs;
      assert [OURS_MARK] + ours + [SPLIT_MARK] + (theirs + [THEIRS_MARK]) == Slot(ours, theirs);
    }
  }

  lemma RemainingInMerge(base: seq<string>, ours: seq<Gap>, theirs: seq<Gap>)
    requires Aligned(base, ours) && Aligned(base, theirs)
    ensures Subseq(Flat(RemainingPieces(base, ours, theirs)), Flat(MergedPieces(base, ours, theirs)))
    ensures Subseq(Flat(RemainingPieces(base, theirs, ours)), Flat(MergedPieces(base, ours, theirs)))
  {
    var o, t, m := RemainingPieces(base, ours, theirs), RemainingPieces(base, theirs, ours), MergedPieces(base, ours, theirs);
    forall b | 0 <= b <= |base|
      ensures Subseq(o[b], m[b]) && Subseq(t[b], m[b])
    {
      var kept, slot := BothKept(base, ours, theirs, b), Slot(ours[b].ins, theirs[b].ins);
      SubseqRefl(kept);
      SlotKeepsBoth(ours[b].ins, theirs[b].ins);
      SubseqAppend(ours[b].ins, slot, kept, kept);
      SubseqAppend(theirs[b].ins, slot, kept, kept);
    }
    FlatSubseq(o, m);
    FlatSubseq(t, m);
  }

  /** Either side, without the lines the other side deleted, is found in order in
      the merged lines, conflict or not. */
  lemma NoEditLost(base: seq<string>, ours: seq<string>, theirs: seq<string>)
    ensures Subseq(SideOf(base, ours).Survivors(SideOf(base, theirs), |ours|), MergedLines(base, ours, theirs))
    ensures Subseq(SideOf(base, theirs).Survivors(SideOf(base, ours), |theirs|), MergedLines(base, ours, theirs))
  {
    var o, t := SideOf(base, ours), SideOf(base, theirs);
    RemainingInMerge(base, o.Gaps(base), t.Gaps(base));
    RemainingAreSurvivors(base, o, t, |base| + 1);
    RemainingAreSurvivors(base, t, o, |base| + 1);
    var po, pt := RemainingPieces(base, o.Gaps(base), t.Gaps(base)), RemainingPieces(base, t.Gaps(base), o.Gaps(base));
    assert po[..|base| + 1] == po && pt[..|base| + 1] == pt;
  }

  /** What each slot holds back: an insertion that both sides made, and one copy
      of the base line if at least one side kept it. */
  ghost function Withheld(base: seq<string>, ours: seq<Gap>, theirs: seq<Gap>): (p: seq<seq<string>>)
    requires Aligned(base, ours) && Aligned(base, theirs)
    ensures |p| == |base| + 1
  {
    seq(|base| + 1, b requires 0 <= b <= |base| =>
      Shared(ours[b].ins, theirs[b].ins) + EitherKept(base, ours, theirs, b))
  }

  function Shared(ours: seq<string>, theirs: seq<string>): seq<string> {
    if ours == theirs then ours else []
  }

  ghost function EitherKept(base: seq<string>, ours: seq<Gap>, theirs: seq<Gap>, b: nat): seq<string>
    requires Aligned(base, ours) && Aligned(base, theirs) && b <= |base|
  {
    if b < |base| && (ours[b].kept || theirs[b].kept) then [base[b]] else []
  }

  /** The marker lines around two clashing insertions. */
  function Marks(ours: seq<string>, theirs: seq<string>): seq<string> {
    if Clash(ours, theirs) then [OURS_MARK, SPLIT_MARK, THEIRS_MARK] else []
  }

  ghost function AllMarks(base: seq<string>, ours: seq<Gap>, theirs: seq<Gap>): (p: seq<seq<string>>)
    requires Aligned(base, ours) && Aligned(base, theirs)
    ensures |p| == |base| + 1
  {
    seq(|base| + 1, b requires 0 <= b <= |base| => Marks(ours[b].ins, theirs[b].ins))
  }

  lemma SlotBalanced(ours: seq<string>, theirs: seq<string>)
    ensures Balanced(Slot(ours, theirs), Shared(ours, theirs), ours, theirs, Marks(ours, theirs))
  {
    if Clash(ours, theirs) {
      assert multiset(Slot(ours, theirs)) ==
             multiset([OURS_MARK]) + multiset(ours) + multiset([SPLIT_MARK]) + multiset(theirs) + multiset([THEIRS_MARK]);
      assert Marks(ours, theirs) == [OURS_MARK] + [SPLIT_MARK] + [THEIRS_MARK];
    }
  }

  lemma BaseLineBalanced(base: seq<string>, ours: seq<Gap>, theirs: seq<Gap>, b: nat)
    requires Aligned(base, ours) && Aligned(base, theirs) && b <= |base|
    ensures Balanced(BothKept(base, ours, theirs, b), EitherKept(base, ours, theirs, b),
                     KeptLine(base, ours, b), KeptLine(base, theirs, b), [])
  {
  }

  /** In every merge the output and what was held back are, line for line and count
      for count, the lines of the two sides and the marker lines. */
  lemma LinesConserved(base: seq<string>, ours: seq<string>, theirs: seq<string>)
    ensures var o, t := Align(base, ours), Align(base, theirs);
            multiset(MergedLines(base, ours, theirs)) + multiset(Flat(Withheld(base, o, t)))
            == multiset(ours) + multiset(theirs) + multiset(Flat(AllMarks(base, o, t)))
  {
    var o, t := Align(base, ours), Align(base, theirs);
    forall b | 0 <= b <= |base|
      ensures Balanced(MergedPieces(base, o, t)[b], Withheld(base, o, t)[b], LinePieces(base, o)[b], LinePieces(base, t)[b],
                       AllMarks(base, o, t)[b])
    {
      PieceBalanced(base, o, t, b);
    }
    FlatBalanced(MergedPieces(base, o, t), Withheld(base, o, t), LinePieces(base, o), LinePieces(base, t), AllMarks(base, o, t));
    AlignRebuilds(base, ours);
    AlignRebuilds(base, theirs);
  }

  lemma PieceBalanced(base: seq<string>, o: seq<Gap>, t: seq<Gap>, b: nat)
    requires Aligned(base, o) && Aligned(base, t) && b <= |base|
    ensures Balanced(MergedPieces(base, o, t)[b], Withheld(base, o, t)[b], LinePieces(base, o)[b], LinePieces(base, t)[b],
                     AllMarks(base, o, t)[b])
  {
    SlotBalanced(o[b].ins, t[b].ins);
    BaseLineBalanced(base, o, t, b);
    AppendBalanced(Slot(o[b].ins, t[b].ins), Shared(o[b].ins, t[b].ins), o[b].ins, t[b].ins, Marks(o[b].ins, t[b].ins),
                   BothKept(base, o, t, b), EitherKept(base, o, t, b), KeptLine(base, o, b), KeptLine(base, t, b), []);
    assert Marks(o[b].ins, t[b].ins) + [] == Marks(o[b].ins, t[b].ins);
  }

  /** Marker lines are added exactly if there is a conflict. */
  lemma MarkedIffConflict(base: seq<string>, ours: seq<Gap>, theirs: seq<Gap>)
    requires Aligned(base, ours) && Aligned(base, theirs)
    ensures Flat(AllMarks(base, ours, theirs)) != [] <==> Conflicting(ours, theirs)
  {
    FlatEmpty(AllMarks(base, ours, theirs));
    if b :| 0 <= b < |ours| && b < |theirs| && Clash(ours[b].ins, theirs[b].ins) {
      assert AllMarks(base, ours, theirs)[b] != [];
    }
  }

  /** Without a conflict output and held-back lines are just the lines of the two sides. */
  lemma CleanLinesConserved(base: seq<string>, ours: seq<string>, theirs: seq<string>)
    requires !HasConflict(base, ours, theirs)
    ensures multiset(MergedLines(base, ours, theirs)) + multiset(Flat(Withheld(base, Align(base, ours), Align(base, theirs))))
            == multiset(ours) + multiset(theirs)
  {
    LinesConserved(base, ours, theirs);
    MarkedIffConflict(base, Align(base, ours), Align(base, theirs));
  }

  /** A line written for slot `b` is an insertion of one side, or the base line if
      both kept it. */
  ghost predicate Origin(base: seq<string>, ours: seq<Gap>, theirs: seq<Gap>, b: nat, line: string)
    requires Aligned(base, ours) && Aligned(base, theirs)
  {
    b <= |base| && (line in ours[b].ins || line in theirs[b].ins || line in BothKept(base, ours, theirs, b))
  }

  lemma OutputOrigin(base: seq<string>, ours: seq<Gap>, theirs: seq<Gap>, line: string)
    requires Aligned(base, ours) && Aligned(base, theirs)
    requires line in Flat(MergedPieces(base, ours, theirs))
    ensures || (exists b :: Origin(base, ours, theirs, b, line))
            || (Conflicting(ours, theirs) && line in [OURS_MARK, SPLIT_MARK, THEIRS_MARK])
  {
    FlatMember(MergedPieces(base, ours, theirs), line);
    var b :| 0 <= b <= |base| && line in MergedPieces(base, ours, theirs)[b];
    if !Origin(base, ours, theirs, b, line) {
      assert line in Slot(ours[b].ins, theirs[b].ins);
      assert Clash(ours[b].ins, theirs[b].ins);
    }
  }

  lemma OriginIsOneLine(base: seq<string>, ours: seq<string>, theirs: seq<string>, b: nat, line: string)
    requires forall l :: l in base || l in ours || l in theirs ==> OneLine(l)
    requires Origin(base, Align(base, ours), Align(base, theirs), b, line)
    ensures OneLine(line)
  {
    AlignRebuilds(base, ours);
    AlignRebuilds(base, theirs);
    if line in Align(base, ours)[b].ins {
      FlatHolds(LinePieces(base, Align(base, ours)), b, line);
    } else if line in Align(base, theirs)[b].ins {
      FlatHolds(LinePieces(base, Align(base, theirs)), b, line);
    }
  }

  /** No output line holds a newline, so the text splits back into the merged
      lines, unless nothing at all was left. */
  lemma MergedTextSplits(base: string, ours: string, theirs: string)
    ensures var lines := MergedLines(Split(base), Split(ours), Split(theirs));
            Split(MergeText(base, ours, theirs).0) == if lines == [] then [""] else lines
  {
    var lines := MergedLines(Split(base), Split(ours), Split(theirs));
    forall l | l in lines
      ensures OneLine(l)
    {
      MergedLineIsOneLine(Split(base), Split(ours), Split(theirs), l);
    }
    if lines != [] {
      SplitJoin(lines);
    }
  }

  lemma MarkIsOneLine(l: string)
    requires l in [OURS_MARK, SPLIT_MARK, THEIRS_MARK]
    ensures OneLine(l)
  {
  }

  lemma MergedLineIsOneLine(b: seq<string>, o: seq<string>, t: seq<string>, l: string)
    requires l in MergedLines(b, o, t)
    requires forall x :: x in b || x in o || x in t ==> OneLine(x)
    ensures OneLine(l)
  {
    var og, tg := Align(b, o), Align(b, t);
    OutputOrigin(b, og, tg, l);
    if k :| Origin(b, og, tg, k, l) {
      OriginIsOneLine(b, o, t, k, l);
    } else {
      assert l in [OURS_MARK, SPLIT_MARK, THEIRS_MARK];
      MarkIsOneLine(l);
    }
  }

  // ---------------------------------------------------------------------
  // The procedure itself

  method MatchArray(pairs: seq<(nat, nat)>, n: nat) returns (at: array<Option<nat>>)
    requires forall k :: 0 <= k < |pairs| ==> pairs[k].0 < n
    ensures fresh(at) && at[..] == MatchAt(pairs, n)
  {
    at := new Option<nat>[n](_ => None);
    for k := 0 to |pairs|
      invariant at[..] == MatchAt(pairs[..k], n)
    {
      assert pairs[..k + 1][..k] == pairs[..k];
      at[pairs[k].0] := Some(pairs[k].1);
    }
    assert pairs[..|pairs|] == pairs;
  }

  method InsertionRanges(at: array<Option<nat>>, lines: seq<string>) returns (before: array<(nat, nat)>)
    ensures fresh(before) && before.Length == at.Length + 1
    ensures forall b :: 0 <= b <= at.Length ==> before[b] == Side(lines, at[..]).Range(b)
  {
    ghost var s := Side(lines, at[..]);
    before := new (nat, nat)[at.Length + 1](_ => (0, 0));
    var prev := 0;
    for b := 0 to at.Length
      invariant prev == s.Prev(b) && at[..] == s.at
      invariant forall c :: 0 <= c < b ==> before[c] == s.Range(c)
      invariant forall c :: b <= c <= at.Length ==> before[c] == (0, 0)
    {
      if at[b].Some? {
        before[b] := (prev, at[b].value);
        prev := at[b].value + 1;
      }
    }
    before[at.Length] := (prev, |lines|);
  }

  /** What one turn of the assembly loop appends. */
  method EmitPiece(base: seq<string>, b: nat, ours: seq<string>, theirs: seq<string>, both: bool)
    returns (out: seq<string>, clash: bool)
    requires both ==> b < |base|
    ensures out == Slot(ours, theirs) + (if both then [base[b]] else [])
    ensures clash <==> Clash(ours, theirs)
  {
    clash := false;
    if ours == [] {
      out := theirs;
    } else if theirs == [] {
      out := ours;
    } else if ours == theirs {
      out := ours;
    } else {
      clash := true;
      out := [OURS_MARK] + ours + [SPLIT_MARK] + theirs + [THEIRS_MARK];
    }
    if both {
      out := out + [base[b]];
    } else {
      assert out + [] == out;
    }
  }

  lemma ConflictExtend(ours: seq<Gap>, theirs: seq<Gap>, b: nat)
    requires b < |ours| && b < |theirs|
    ensures Conflicting(ours[..b + 1], theirs[..b + 1]) <==> Conflicting(ours[..b], theirs[..b]) || Clash(ours[b].ins, theirs[b].ins)
  {
    var o, t, o', t' := ours[..b], theirs[..b], ours[..b + 1], theirs[..b + 1];
    if Conflicting(o, t) {
      var c :| 0 <= c < |o| && c < |t| && Clash(o[c].ins, t[c].ins);
      assert Clash(o'[c].ins, t'[c].ins);
    }
    if Clash(ours[b].ins, theirs[b].ins) {
      assert Clash(o'[b].ins, t'[b].ins);
    }
    if Conflicting(o', t') {
      var c :| 0 <= c < |o'| && c < |t'| && Clash(o'[c].ins, t'[c].ins);
      assert c < b ==> Clash(o[c].ins, t[c].ins);
    }
  }

  /** Partners and insertion ranges, as the procedure stores an alignment. */
  datatype Table = Table(at: seq<Option<nat>>, before: seq<(nat, nat)>) {
    ghost predicate Describes(base: seq<string>, lines: seq<string>, g: seq<Gap>) {
      && Aligned(base, g) && |at| == |base| && |before| == |base| + 1
      && forall b :: 0 <= b <= |base| ==>
           && before[b].0 <= before[b].1 <= |lines|
           && lines[before[b].0..before[b].1] == g[b].ins
           && (b < |base| ==> (at[b].Some? <==> g[b].kept))
    }
  }

  method Tabulate(base: seq<string>, lines: seq<string>) returns (t: Table)
    ensures t.Describes(base, lines, Align(base, lines))
  {
    var pairs := LcsMatches(base, lines);
    var at := MatchArray(pairs, |base|);
    var before := InsertionRanges(at, lines);
    t := Table(at[..], before[..]);
    ghost var s := SideOf(base, lines);
    assert t.at == s.at && Align(base, lines) == s.Gaps(base);
    forall b | 0 <= b <= |base|
      ensures t.before[b].0 <= t.before[b].1 <= |lines| && lines[t.before[b].0..t.before[b].1] == s.Gaps(base)[b].ins
    {
      s.PrevBound(base, b, b);
      assert t.before[b] == s.Range(b);
    }
  }

  /** One turn of the assembly loop: what it appends, and whether it saw a conflict. */
  method EmitSlot(base: seq<string>, ours: seq<string>, theirs: seq<string>, o: Table, t: Table, b: nat,
                  ghost og: seq<Gap>, ghost tg: seq<Gap>)
    returns (out: seq<string>, clash: bool)
    requires o.Describes(base, ours, og) && t.Describes(base, theirs, tg) && b <= |base|
    ensures out == MergedPieces(base, og, tg)[b]
    ensures clash <==> Clash(og[b].ins, tg[b].ins)
  {
    var ourIns := ours[o.before[b].0..o.before[b].1];
    var theirIns := theirs[t.before[b].0..t.before[b].1];
    assert ourIns == og[b].ins && theirIns == tg[b].ins;
    out, clash := EmitPiece(base, b, ourIns, theirIns, b < |base| && o.at[b].Some? && t.at[b].Some?);
  }

  method MergeSides(base: seq<string>, ours: seq<string>, theirs: seq<string>) returns (result: seq<string>, conflict: bool)
    ensures result == MergedLines(base, ours, theirs)
    ensures conflict <==> HasConflict(base, ours, theirs)
  {
    ghost var og, tg := Align(base, ours), Align(base, theirs);
    ghost var pieces := MergedPieces(base, og, tg);
    var o := Tabulate(base, ours);
    var t := Tabulate(base, theirs);
    result, conflict := [], false;
    for b := 0 to |base| + 1
      invariant result == Flat(pieces[..b])
      invariant conflict <==> Conflicting(og[..b], tg[..b])
    {
      var out, clash := EmitSlot(base, ours, theirs, o, t, b, og, tg);
      FlatExtend(pieces, b);
      ConflictExtend(og, tg, b);
      conflict := conflict || clash;
      result := result + out;
    }
    WholePrefix(pieces, |base| + 1);
    WholePrefix(og, |base| + 1);
    WholePrefix(tg, |base| + 1);
  }

  lemma WholePrefix<T>(s: seq<T>, n: nat)
    requires n == |s|
    ensures s[..n] == s
  {
  }

  method SemanticTextMerge(base: string, ours: string, theirs: string) returns (text: string, resolution: Resolution)
    ensures (text, resolution) == MergeText(base, ours, theirs)
  {
    var baseLines, ourLines, theirLines := Split(base), Split(ours), Split(theirs);
    var result, conflict := MergeSides(baseLines, ourLines, theirLines);
    SplitInjective(ours, theirs);
    SplitInjective(base, ours);
    SplitInjective(base, theirs);
    if conflict {
      resolution := ManualRequired;
    } else if ourLines == theirLines {
      resolution := Merged;
    } else if baseLines == ourLines {
      resolution := TheirsWins;
    } else if baseLines == theirLines {
      resolution := OursWins;
    } else {
      resolution := Merged;
    }
    text := Join(result);
  }
}
