/** The two term maps of the inverted index, and what adding or removing one
    document under one term does to them (src/fts/mod.rs). */
module PostingLists {
  import opened Sorted

  datatype Lists = Lists(postings: map<string, seq<nat>>, docFreq: map<string, nat>) {

    ghost predicate Consistent() {
      && docFreq.Keys == postings.Keys
      && (forall t :: t in postings ==> Ids(postings[t]) && postings[t] != [] && docFreq[t] == |postings[t]|)
    }

    ghost predicate Has(t: string, d: nat) {
      t in postings && d in postings[t]
    }

    /** One turn of the loop in `index_doc`. */
    function Add(t: string, d: nat): Lists {
      Lists(postings[t := InsertId(if t in postings then postings[t] else [], d)],
            docFreq[t := (if t in docFreq then docFreq[t] else 0) + 1])
    }

    /** One turn of the loop in `remove_doc`. */
    function Remove(t: string, d: nat): Lists {
      var left := if t in postings then RemoveId(postings[t], d) else [];
      var df := if t in docFreq && docFreq[t] > 0 then docFreq[t] - 1 else 0;
      Lists(if t in postings && left != [] then postings[t := left] else postings - {t},
            if t in docFreq && df != 0 then docFreq[t := df] else docFreq - {t})
    }

    lemma AddOne(t: string, d: nat)
      requires Consistent() && !Has(t, d)
      ensures Add(t, d).Consistent()
      ensures forall u, e :: Add(t, d).Has(u, e) <==> Has(u, e) || (u == t && e == d)
    {
      var was, after := if t in postings then postings[t] else [], Add(t, d);
      InsertIdSorted(was, d);
      assert forall e :: Has(t, e) <==> e in was;
      assert after.postings[t] == InsertId(was, d) && after.docFreq[t] == |was| + 1;
      forall u, e
        ensures after.Has(u, e) <==> Has(u, e) || (u == t && e == d)
      {
        if u == t {
          assert e in InsertId(was, d) <==> e == d || e in was;
        }
      }
    }

    lemma RemoveOne(t: string, d: nat)
      requires Consistent() && Has(t, d)
      ensures Remove(t, d).Consistent()
      ensures forall u, e :: Remove(t, d).Has(u, e) <==> Has(u, e) && !(u == t && e == d)
    {
      RemoveIdSorted(postings[t], d);
      var left := RemoveId(postings[t], d);
      forall e
        ensures Remove(t, d).Has(t, e) <==> e in postings[t] && e != d
      {
        assert e in left <==> e != d && e in postings[t];
      }
    }

    ghost function AddAll(ts: seq<string>, d: nat): Lists {
      if ts == [] then this else AddAll(ts[..|ts| - 1], d).Add(ts[|ts| - 1], d)
    }

    ghost function RemoveAll(ts: seq<string>, d: nat): Lists {
      if ts == [] then this else RemoveAll(ts[..|ts| - 1], d).Remove(ts[|ts| - 1], d)
    }

    lemma {:induction false} AddAllTerms(ts: seq<string>, d: nat)
      requires Consistent() && Words(ts) && forall t :: !Has(t, d)
      ensures AddAll(ts, d).Consistent()
      ensures forall u, e :: AddAll(ts, d).Has(u, e) <==> Has(u, e) || (u in ts && e == d)
    {
      if ts != [] {
        var k := |ts| - 1;
        AddAllTerms(ts[..k], d);
        LastWordNew(ts);
        AddAll(ts[..k], d).AddOne(ts[k], d);
        assert forall u :: u in ts <==> u in ts[..k] || u == ts[k];
      }
    }

    lemma {:induction false} RemoveAllTerms(ts: seq<string>, d: nat)
      requires Consistent() && Words(ts) && forall t :: t in ts ==> Has(t, d)
      ensures RemoveAll(ts, d).Consistent()
      ensures forall u, e :: RemoveAll(ts, d).Has(u, e) <==> Has(u, e) && !(u in ts && e == d)
    {
      if ts != [] {
        var k := |ts| - 1;
        assert forall u :: u in ts <==> u in ts[..k] || u == ts[k];
        RemoveAllTerms(ts[..k], d);
        LastWordNew(ts);
        RemoveAll(ts[..k], d).RemoveOne(ts[k], d);
      }
    }

    /** Consistent lists are determined by which document has which term. */
    lemma Determined(other: Lists)
      requires Consistent() && other.Consistent()
      requires forall t, d :: Has(t, d) <==> other.Has(t, d)
      ensures this == other
    {
      forall t
        ensures t in postings ==> t in other.postings
        ensures t in other.postings ==> t in postings
      {
        if t in postings {
          assert Has(t, postings[t][0]) && other.Has(t, postings[t][0]);
        }
        if t in other.postings {
          assert other.Has(t, other.postings[t][0]) && Has(t, other.postings[t][0]);
        }
      }
      forall t | t in postings
        ensures postings[t] == other.postings[t]
      {
        forall d
          ensures d in postings[t] <==> d in other.postings[t]
        {
          assert Has(t, d) <==> other.Has(t, d);
        }
        IdsDetermined(postings[t], other.postings[t]);
      }
      assert postings == other.postings;
      assert docFreq == other.docFreq;
    }
  }

  lemma LastWordNew(ts: seq<string>)
    requires Words(ts) && ts != []
    ensures Words(ts[..|ts| - 1]) && ts[|ts| - 1] !in ts[..|ts| - 1]
  {
    var k := |ts| - 1;
    LessTotal(ts[k], ts[k]);
    assert forall i :: 0 <= i < k ==> Less(ts[i], ts[k]);
  }
}
