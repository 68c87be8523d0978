/** Ranked search over the inverted index (src/fts/mod.rs), with scores as reals
    and the logarithm a parameter. */
module Search {
  import opened Tokens
  import opened Sorted
  import opened InvertedIndexes

  datatype SearchHit = SearchHit(docId: nat, score: real)

  /** Score descending, then id ascending. */
  predicate Ranks(a: SearchHit, b: SearchHit) {
    a.score > b.score || (a.score == b.score && a.docId < b.docId)
  }

  /** The only property of the logarithm that ranking relies on. */
  ghost predicate LogLike(ln: real -> real) {
    forall x: real :: x >= 1.0 ==> ln(x) >= 0.0
  }

  function Abs(x: real): real {
    if x < 0.0 then -x else x
  }

  const MIN_LOG := 0.000000001

  /** Contribution of term `t` to a document that contains it. */
  function Contribution(ln: real -> real, n: nat, df: nat, dl: nat, avg: real): real {
    var idf := ln((n as real + 1.0) / (df as real + 1.0)) + 1.0;
    var avgDl := if avg > 0.0 then avg else 1.0;
    var off := Abs(ln(dl as real / avgDl));
    1.0 * idf * (1.0 / (1.0 + (if off < MIN_LOG then MIN_LOG else off)))
  }

  lemma ContributionPositive(ln: real -> real, n: nat, df: nat, dl: nat, avg: real)
    requires LogLike(ln) && df <= n
    ensures Contribution(ln, n, df, dl, avg) > 0.0
  {
    var a, b := n as real + 1.0, df as real + 1.0;
    AtLeastOne(a, b);
    assert ln(a / b) >= 0.0;
    var avgDl := if avg > 0.0 then avg else 1.0;
    var off := Abs(ln(dl as real / avgDl));
    var m := 1.0 + (if off < MIN_LOG then MIN_LOG else off);
    ProductPositive(ln(a / b) + 1.0, m);
  }

  ghost predicate Increasing(ln: real -> real) {
    forall x: real, y: real :: 0.0 < x < y ==> ln(x) < ln(y)
  }

  /** How far a length is from the average, on the logarithm's scale. */
  function Offset(ln: real -> real, dl: nat, avg: real): real {
    var off := Abs(ln(dl as real / if avg > 0.0 then avg else 1.0));
    if off < MIN_LOG then MIN_LOG else off
  }

  /** The rarer term weighs more. */
  lemma RarerWeighsMore(ln: real -> real, n: nat, df1: nat, df2: nat, dl: nat, avg: real)
    requires Increasing(ln) && df1 < df2
    ensures Contribution(ln, n, df1, dl, avg) > Contribution(ln, n, df2, dl, avg)
  {
    var a, b1, b2 := n as real + 1.0, df1 as real + 1.0, df2 as real + 1.0;
    Quotients(a, b1, b2);
    var m := 1.0 + Offset(ln, dl, avg);
    ScaledLess(ln(a / b2) + 1.0, ln(a / b1) + 1.0, 1.0 / m);
  }

  lemma Quotients(a: real, b1: real, b2: real)
    requires a > 0.0 && 0.0 < b1 < b2
    ensures 0.0 < a / b2 < a / b1
  {
    assert (a / b2) * b2 == a && (a / b1) * b1 == a;
    if a / b2 >= a / b1 {
      ScaledLess(b1, b2, a / b2);
    }
  }

  lemma ScaledLess(x: real, y: real, m: real)
    requires x < y && m > 0.0
    ensures x * m < y * m
  {
    assert (y - x) * m > 0.0;
  }

  /** For a document that has the term, the length nearer the average weighs more; what
      is nearer than the floor counts as the floor. */
  lemma NearerWeighsMoreIff(ln: real -> real, n: nat, df: nat, dl1: nat, dl2: nat, avg: real)
    requires LogLike(ln) && df <= n
    ensures Contribution(ln, n, df, dl1, avg) > Contribution(ln, n, df, dl2, avg)
            <==> Offset(ln, dl1, avg) < Offset(ln, dl2, avg)
  {
    var idf := ln((n as real + 1.0) / (df as real + 1.0)) + 1.0;
    AtLeastOne(n as real + 1.0, df as real + 1.0);
    var m1, m2 := 1.0 + Offset(ln, dl1, avg), 1.0 + Offset(ln, dl2, avg);
    if m1 < m2 {
      Quotients(1.0, m1, m2);
      ScaledLess(1.0 / m2, 1.0 / m1, idf);
    } else if m2 < m1 {
      Quotients(1.0, m2, m1);
      ScaledLess(1.0 / m1, 1.0 / m2, idf);
    }
  }

  /** At the average length the weight is the smoothed inverse frequency over the floor. */
  lemma WeightAtAverage(ln: real -> real, n: nat, df: nat, dl: nat)
    requires ln(1.0) == 0.0 && dl > 0
    ensures Contribution(ln, n, df, dl, dl as real) * 1.000000001 == ln((n as real + 1.0) / (df as real + 1.0)) + 1.0
  {
    assert dl as real / dl as real == 1.0;
  }

  lemma AtLeastOne(a: real, b: real)
    requires a >= b > 0.0
    ensures a / b >= 1.0
  {
  }

  lemma ProductPositive(x: real, m: real)
    requires x > 0.0 && m > 0.0
    ensures 1.0 * x * (1.0 / m) > 0.0
  {
    assert 1.0 / m > 0.0;
  }

  ghost function Weight(ix: Index, ln: real -> real, t: string, d: nat): real
    requires t in ix.lists.docFreq && d in ix.docLengths
  {
    Contribution(ln, ix.totalDocs, ix.lists.docFreq[t], ix.docLengths[d], ix.avgDocLength)
  }

  /** The sum of the weights of those of `ts` that document `d` has. */
  ghost function Score(ix: Index, ln: real -> real, ts: seq<string>, d: nat): real
    requires ix.Valid()
  {
    if ts == [] then 0.0
    else
      var t := ts[|ts| - 1];
      Score(ix, ln, ts[..|ts| - 1], d) + (if Hit(ix, t, d) then Weight(ix, ln, t, d) else 0.0)
  }

  /** The posting lists hold `d` under `t`, so all its data is there. */
  ghost predicate Hit(ix: Index, t: string, d: nat)
    requires ix.Valid()
    ensures Hit(ix, t, d) ==> t in ix.lists.docFreq && d in ix.docLengths
  {
    assert ix.lists.Has(t, d) <==> ix.Filed(t, d);
    ix.lists.Has(t, d)
  }

  ghost predicate Matches(ix: Index, ts: seq<string>, d: nat) {
    exists t :: t in ts && ix.Filed(t, d)
  }

  ghost function Matching(ix: Index, ts: seq<string>): set<nat> {
    set d | d in ix.indexedDocs && Matches(ix, ts, d)
  }

  lemma {:induction false} ScorePositive(ix: Index, ln: real -> real, ts: seq<string>, d: nat)
    requires ix.Valid() && LogLike(ln)
    ensures Score(ix, ln, ts, d) >= 0.0
    ensures Matches(ix, ts, d) ==> Score(ix, ln, ts, d) > 0.0
  {
    if ts != [] {
      var k := |ts| - 1;
      ScorePositive(ix, ln, ts[..k], d);
      if Hit(ix, ts[k], d) {
        ix.FreqBounded(ts[k]);
        ContributionPositive(ln, ix.totalDocs, ix.lists.docFreq[ts[k]], ix.docLengths[d], ix.avgDocLength);
      } else if Matches(ix, ts, d) {
        var t :| t in ts && ix.Filed(t, d);
        assert ix.lists.Has(ts[k], d) <==> ix.Filed(ts[k], d);
        assert t in ts[..k];
      }
    }
  }

  // ---------------------------------------------------------------------
  // Accumulating scores

  /** `scores` holds exactly the documents that match, each with its score. */
  ghost predicate Tallied(ix: Index, ln: real -> real, ts: seq<string>, scores: map<nat, real>)
    requires ix.Valid()
  {
    && scores.Keys == Matching(ix, ts)
    && forall d :: d in scores ==> scores[d] == Score(ix, ln, ts, d)
  }

  function Bumped(scores: map<nat, real>, d: nat, amount: real): map<nat, real> {
    scores[d := (if d in scores then scores[d] else 0.0) + amount]
  }

  function LengthIn(lengths: map<nat, nat>, d: nat): nat {
    if d in lengths then lengths[d] else 0
  }

  /** `scores` is `before` with each of `ids` raised by its contribution. */
  ghost predicate Raised(before: map<nat, real>, ids: seq<nat>, scores: map<nat, real>,
                         ln: real -> real, total: nat, df: nat, lengths: map<nat, nat>, avg: real)
  {
    && (forall d :: d in scores <==> d in before || d in ids)
    && (forall d :: d in scores ==>
          scores[d] == (if d in before then before[d] else 0.0)
                       + (if d in ids then Contribution(ln, total, df, LengthIn(lengths, d), avg) else 0.0))
  }

  lemma RaiseOne(before: map<nat, real>, ids: seq<nat>, scores: map<nat, real>, d: nat,
                 ln: real -> real, total: nat, df: nat, lengths: map<nat, nat>, avg: real)
    requires Raised(before, ids, scores, ln, total, df, lengths, avg) && d !in ids
    ensures Raised(before, ids + [d], Bumped(scores, d, Contribution(ln, total, df, LengthIn(lengths, d), avg)),
                   ln, total, df, lengths, avg)
  {
    assert forall e :: e in ids + [d] <==> e in ids || e == d;
  }

  /** The inner loop: one term's posting list. */
  method AddTerm(ln: real -> real, postings: seq<nat>, df: nat, total: nat, avg: real,
                 lengths: map<nat, nat>, before: map<nat, real>)
    returns (scores: map<nat, real>)
    requires Ids(postings)
    ensures Raised(before, postings, scores, ln, total, df, lengths, avg)
  {
    scores := before;
    for j := 0 to |postings|
      invariant Raised(before, postings[..j], scores, ln, total, df, lengths, avg)
    {
      var d := postings[j];
      assert postings[..j + 1] == postings[..j] + [d];
      RaiseOne(before, postings[..j], scores, d, ln, total, df, lengths, avg);
      scores := Bumped(scores, d, Contribution(ln, total, df, LengthIn(lengths, d), avg));
    }
    assert postings[..|postings|] == postings;
  }

  lemma AddedTerm(ix: Index, ln: real -> real, ts: seq<string>, k: nat, before: map<nat, real>, scores: map<nat, real>)
    requires ix.Valid() && k < |ts| && Tallied(ix, ln, ts[..k], before) && ts[k] in ix.lists.postings
    requires Raised(before, ix.lists.postings[ts[k]], scores, ln, ix.totalDocs, ix.lists.docFreq[ts[k]], ix.docLengths, ix.avgDocLength)
    ensures Tallied(ix, ln, ts[..k + 1], scores)
  {
    var t, ids := ts[k], ix.lists.postings[ts[k]];
    forall d
      ensures d in scores <==> d in Matching(ix, ts[..k + 1])
    {
      MatchesExtend(ix, ts, k, d);
      assert ix.lists.Has(t, d) <==> ix.Filed(t, d);
    }
    forall d | d in scores
      ensures scores[d] == Score(ix, ln, ts[..k + 1], d)
    {
      AddedScore(ix, ln, ts, k, d, if d in before then before[d] else 0.0);
    }
  }

  lemma AddedScore(ix: Index, ln: real -> real, ts: seq<string>, k: nat, d: nat, before: real)
    requires ix.Valid() && k < |ts| && ts[k] in ix.lists.postings
    requires before == if d in Matching(ix, ts[..k]) then Score(ix, ln, ts[..k], d) else 0.0
    ensures Score(ix, ln, ts[..k + 1], d) == before +
              (if d in ix.lists.postings[ts[k]]
               then Contribution(ln, ix.totalDocs, ix.lists.docFreq[ts[k]], LengthIn(ix.docLengths, d), ix.avgDocLength) else 0.0)
  {
    assert ts[..k + 1][..k] == ts[..k];
    assert Hit(ix, ts[k], d) <==> d in ix.lists.postings[ts[k]];
    if d !in Matching(ix, ts[..k]) {
      assert !Matches(ix, ts[..k], d);
      Unmatched(ix, ln, ts[..k], d);
    }
  }

  lemma MatchesExtend(ix: Index, ts: seq<string>, k: nat, d: nat)
    requires ix.Valid() && k < |ts|
    ensures Matches(ix, ts[..k + 1], d) <==> Matches(ix, ts[..k], d) || ix.lists.Has(ts[k], d)
  {
    assert ix.lists.Has(ts[k], d) <==> ix.Filed(ts[k], d);
    assert ts[..k + 1] == ts[..k] + [ts[k]];
    if Matches(ix, ts[..k], d) {
      var t :| t in ts[..k] && ix.Filed(t, d);
      assert t in ts[..k + 1];
    }
    if ix.Filed(ts[k], d) {
      assert ts[k] in ts[..k + 1];
    }
  }

  lemma {:induction false} Unmatched(ix: Index, ln: real -> real, ts: seq<string>, d: nat)
    requires ix.Valid() && !Matches(ix, ts, d)
    ensures Score(ix, ln, ts, d) == 0.0
  {
    if ts != [] {
      var k := |ts| - 1;
      assert ts[..k + 1] == ts;
      MatchesExtend(ix, ts, k, d);
      Unmatched(ix, ln, ts[..k], d);
    }
  }

  /** A term without postings adds nothing. */
  lemma SkippedTerm(ix: Index, ln: real -> real, ts: seq<string>, k: nat, scores: map<nat, real>)
    requires ix.Valid() && k < |ts| && Tallied(ix, ln, ts[..k], scores) && ts[k] !in ix.lists.postings
    ensures Tallied(ix, ln, ts[..k + 1], scores)
  {
    assert ts[..k + 1][..k] == ts[..k];
    forall d
      ensures Matches(ix, ts[..k + 1], d) <==> Matches(ix, ts[..k], d)
    {
      MatchesExtend(ix, ts, k, d);
    }
    assert Matching(ix, ts[..k + 1]) == Matching(ix, ts[..k]);
  }

  // ---------------------------------------------------------------------
  // Ranking

  ghost predicate Ranked(hits: seq<SearchHit>) {
    forall i, j :: 0 <= i < j < |hits| ==> Ranks(hits[i], hits[j])
  }

  function Place(h: SearchHit, hits: seq<SearchHit>): seq<SearchHit> {
    if hits == [] || Ranks(h, hits[0]) then [h] + hits else [hits[0]] + Place(h, hits[1..])
  }

  lemma {:induction false} PlaceRanked(h: SearchHit, hits: seq<SearchHit>)
    requires Ranked(hits) && forall g :: g in hits ==> g.docId != h.docId
    ensures Ranked(Place(h, hits)) && |Place(h, hits)| == |hits| + 1
    ensures forall g :: g in Place(h, hits) <==> g == h || g in hits
  {
    if hits != [] {
      assert hits == [hits[0]] + hits[1..] && hits[0] in hits;
      if Ranks(h, hits[0]) {
        assert forall j :: 0 <= j < |hits| ==> Ranks(h, hits[j]);
      } else {
        forall g | g in hits[1..]
          ensures g.docId != h.docId
        {
          assert g in hits;
        }
        PlaceRanked(h, hits[1..]);
        var r := Place(h, hits[1..]);
        forall j | 0 <= j < |r|
          ensures Ranks(hits[0], r[j])
        {
          assert r[j] in r;
        }
      }
    }
  }

  /** `hits` lists the scores, best first. */
  ghost predicate RankingOf(hits: seq<SearchHit>, scores: map<nat, real>) {
    && Ranked(hits) && |hits| == |scores|
    && (forall h :: h in hits <==> h.docId in scores && scores[h.docId] == h.score)
  }

  method RankAll(scores: map<nat, real>) returns (hits: seq<SearchHit>)
    ensures RankingOf(hits, scores)
  {
    hits := [];
    var rest := scores.Keys;
    while rest != {}
      invariant rest <= scores.Keys && Ranked(hits) && |hits| + |rest| == |scores.Keys|
      invariant forall h :: h in hits <==> h.docId in scores.Keys - rest && scores[h.docId] == h.score
    {
      var d :| d in rest;
      rest := rest - {d};
      PlaceRanked(SearchHit(d, scores[d]), hits);
      hits := Place(SearchHit(d, scores[d]), hits);
    }
    assert |scores| == |scores.Keys|;
  }

  /** The best `limit` documents: distinct, each matching and with its score, in
      rank order, and none left out that ranks ahead of one listed. */
  ghost predicate ExactTopK(ix: Index, ln: real -> real, ts: seq<string>, limit: nat, hits: seq<SearchHit>)
    requires ix.Valid()
  {
    && Ranked(hits)
    && (forall i, j :: 0 <= i < j < |hits| ==> hits[i].docId != hits[j].docId)
    && (forall h :: h in hits ==> h.docId in Matching(ix, ts) && h.score == Score(ix, ln, ts, h.docId) && h.score > 0.0)
    && |hits| == (if limit < |Matching(ix, ts)| then limit else |Matching(ix, ts)|)
    && (forall d, h :: d in Matching(ix, ts) && h in hits ==>
          SearchHit(d, Score(ix, ln, ts, d)) in hits || Ranks(h, SearchHit(d, Score(ix, ln, ts, d))))
  }

  lemma TruncatedIsTopK(ix: Index, ln: real -> real, ts: seq<string>, limit: nat, scores: map<nat, real>, hits: seq<SearchHit>)
    requires ix.Valid() && LogLike(ln) && Tallied(ix, ln, ts, scores) && RankingOf(hits, scores)
    ensures ExactTopK(ix, ln, ts, limit, hits[..if limit < |hits| then limit else |hits|])
  {
    var top := hits[..if limit < |hits| then limit else |hits|];
    assert |scores| == |scores.Keys|;
    forall i, j | 0 <= i < j < |hits|
      ensures hits[i].docId != hits[j].docId
    {
      assert hits[i] in hits && hits[j] in hits && Ranks(hits[i], hits[j]);
    }
    forall h | h in top
      ensures h.docId in Matching(ix, ts) && h.score == Score(ix, ln, ts, h.docId) && h.score > 0.0
    {
      assert h in hits;
      ScorePositive(ix, ln, ts, h.docId);
    }
    forall d, h | d in Matching(ix, ts) && h in top
      ensures SearchHit(d, Score(ix, ln, ts, d)) in top || Ranks(h, SearchHit(d, Score(ix, ln, ts, d)))
    {
      var g := SearchHit(d, Score(ix, ln, ts, d));
      assert g in hits;
      var i :| 0 <= i < |hits| && hits[i] == g;
      var j :| 0 <= j < |top| && top[j] == h;
      if i >= |top| {
        assert Ranks(hits[j], hits[i]);
      } else {
        assert top[i] == g;
      }
    }
  }

  method Find(index: InvertedIndex, ln: real -> real, query: string, limit: nat) returns (hits: seq<SearchHit>)
    requires index.View().Valid() && LogLike(ln)
    ensures ExactTopK(index.View(), ln, SortDedup(Tokenize(query)), limit, hits)
    ensures forall i, j :: 0 <= i < j < |hits| ==>
              hits[i].score > hits[j].score || (hits[i].score == hits[j].score && hits[i].docId < hits[j].docId)
  {
    ghost var ix := index.View();
    var tokens := Tokenize(query);
    if tokens == [] || index.totalDocs == 0 {
      NothingMatches(ix, SortDedup(tokens));
      return [];
    }
    var ts := SortDedup(tokens);
    var scores: map<nat, real> := map[];
    assert Matching(ix, ts[..0]) == {};
    for k := 0 to |ts|
      invariant Tallied(ix, ln, ts[..k], scores)
    {
      var t := ts[k];
      if t in index.lists.docFreq && t in index.lists.postings {
        ghost var before := scores;
        scores := AddTerm(ln, index.lists.postings[t], index.lists.docFreq[t], index.totalDocs,
                          index.avgDocLength, index.docLengths, scores);
        AddedTerm(ix, ln, ts, k, before, scores);
      } else {
        SkippedTerm(ix, ln, ts, k, scores);
      }
    }
    assert ts[..|ts|] == ts;
    var all := RankAll(scores);
    TruncatedIsTopK(ix, ln, ts, limit, scores, all);
    hits := all[..if limit < |all| then limit else |all|];
  }

  lemma NothingMatches(ix: Index, ts: seq<string>)
    requires ix.Valid() && (ts == [] || ix.totalDocs == 0)
    ensures Matching(ix, ts) == {}
  {
    assert |ix.indexedDocs.Keys| == |ix.indexedDocs|;
  }
}
