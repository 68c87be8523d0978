/** The full-text index of src/fts/mod.rs against the plain map from documents to
    their terms. */
module InvertedIndexes {
  import opened Tokens
  import opened Sorted
  import opened PostingLists

  const TWO_TO_THE_32: nat := 0x1_0000_0000

  function SortDedup(ts: seq<string>): seq<string> {
    if ts == [] then [] else InsertWord(ts[0], SortDedup(ts[1..]))
  }

  lemma {:induction false} SortDedupWords(ts: seq<string>)
    ensures Words(SortDedup(ts)) && forall t :: t in SortDedup(ts) <==> t in ts
  {
    if ts != [] {
      SortDedupWords(ts[1..]);
      InsertWordSorted(ts[0], SortDedup(ts[1..]));
    }
  }

  /** The stored length: a 32-bit count of tokens. */
  function LengthOf(text: string): nat {
    |Tokenize(text)| % TWO_TO_THE_32
  }

  /** The terms a document is filed under; none if its stored length is zero. */
  function TermsOf(text: string): seq<string> {
    if LengthOf(text) == 0 then [] else SortDedup(Tokenize(text))
  }

  /** They are the tokens of the text, unless the count wrapped to zero. */
  lemma TermsAreTokens(text: string)
    ensures Words(TermsOf(text))
    ensures (forall t :: t in TermsOf(text) <==> t in Tokenize(text))
            <==> (|Tokenize(text)| % TWO_TO_THE_32 != 0 || Tokenize(text) == [])
  {
    SortDedupWords(Tokenize(text));
    if LengthOf(text) == 0 && Tokenize(text) != [] {
      assert Tokenize(text)[0] in Tokenize(text);
    }
  }

  /** A text written with `n` tokens has stored length `n`, cut to 32 bits, and is filed
      under just those tokens unless that is zero. */
  lemma LengthOfSpaced(ws: seq<string>)
    requires forall w :: w in ws ==> IsToken(w)
    ensures LengthOf(Spaced(ws)) == |ws| % TWO_TO_THE_32
    ensures |ws| % TWO_TO_THE_32 != 0 ==> forall t :: t in TermsOf(Spaced(ws)) <==> t in ws
  {
    TokenizeSpaced(ws);
    var text := Spaced(ws);
    assert Tokenize(text) == ws;
    SortDedupWords(ws);
  }

  /** A text of 2^32 words is filed under none of them. */
  lemma WrappedTextHasNoTerms()
    ensures var text := Spaced(seq(TWO_TO_THE_32, _ => "a")); "a" in Tokenize(text) && TermsOf(text) == []
  {
    var words: seq<string> := seq(TWO_TO_THE_32, _ => "a");
    assert forall w :: w in words ==> w == "a";
    assert words[0] == "a";
    TokenizeSpaced(words);
  }

  ghost function Sum(m: map<nat, nat>): nat {
    if m == map[] then 0
    else
      var k :| k in m;
      assert |m - {k}| < |m| by { assert m.Keys == (m - {k}).Keys + {k}; }
      m[k] + Sum(m - {k})
  }

  lemma {:induction false} SumRemove(m: map<nat, nat>, k: nat)
    requires k in m
    ensures Sum(m) == m[k] + Sum(m - {k})
    decreases |m|
  {
    var j :| j in m && Sum(m) == m[j] + Sum(m - {j});
    if j != k {
      assert |m - {j}| < |m| by { assert m.Keys == (m - {j}).Keys + {j}; }
      assert |m - {k}| < |m| by { assert m.Keys == (m - {k}).Keys + {k}; }
      SumRemove(m - {j}, k);
      SumRemove(m - {k}, j);
      assert m - {j} - {k} == m - {k} - {j};
    }
  }

  ghost function Average(lengths: map<nat, nat>): real {
    Quotient(Sum(lengths), |lengths|)
  }

  ghost function Quotient(sum: nat, n: nat): real {
    if n == 0 then 0.0 else sum as real / n as real
  }

  lemma QuotientExact(sum: nat, n: nat)
    ensures n > 0 ==> Quotient(sum, n) * n as real == sum as real
  {
    if n > 0 {
      TimesQuotient(sum as real, n as real);
    }
  }

  lemma TimesQuotient(x: real, n: real)
    requires n > 0.0
    ensures (x / n) * n == x
  {
  }

  /** The index as a value. */
  datatype Index = Index(lists: Lists, docLengths: map<nat, nat>, indexedDocs: map<nat, seq<string>>,
                         totalDocs: nat, avgDocLength: real) {

    /** Everything agrees with `indexedDocs` and `docLengths`. */
    ghost predicate Valid() {
      && lists.Consistent()
      && (forall t, d {:trigger lists.Has(t, d)} :: lists.Has(t, d) <==> Filed(t, d))
      && (forall d :: d in indexedDocs ==> Words(indexedDocs[d]))
      && docLengths.Keys == indexedDocs.Keys
      && (forall d :: d in indexedDocs && docLengths[d] == 0 ==> indexedDocs[d] == [])
      && totalDocs == |indexedDocs|
      && avgDocLength == Average(docLengths)
    }

    /** Document `d` is indexed and has term `t`. */
    ghost predicate Filed(t: string, d: nat) {
      d in indexedDocs && t in indexedDocs[d]
    }

    ghost function Without(doc: nat): Index
      requires doc in indexedDocs
    {
      Index(lists.RemoveAll(indexedDocs[doc], doc), docLengths - {doc}, indexedDocs - {doc},
            if totalDocs > 0 then totalDocs - 1 else 0, Average(docLengths - {doc}))
    }

    ghost function With(doc: nat, terms: seq<string>, count: nat): Index {
      Index(lists.AddAll(terms, doc), docLengths[doc := count], indexedDocs[doc := terms],
            totalDocs + 1, Average(docLengths[doc := count]))
    }

    lemma WithoutValid(doc: nat)
      requires Valid() && doc in indexedDocs
      ensures Without(doc).Valid() && Without(doc).totalDocs == |Without(doc).docLengths|
    {
      var after := Without(doc);
      forall t | t in indexedDocs[doc]
        ensures lists.Has(t, doc)
      {
        assert Filed(t, doc);
      }
      lists.RemoveAllTerms(indexedDocs[doc], doc);
      forall t, d
        ensures after.lists.Has(t, d) <==> after.Filed(t, d)
      {
        assert lists.Has(t, d) <==> Filed(t, d);
      }
      assert indexedDocs.Keys == after.indexedDocs.Keys + {doc};
      assert |after.docLengths.Keys| == |after.indexedDocs.Keys|;
    }

    lemma WithValid(doc: nat, terms: seq<string>, count: nat)
      requires Valid() && doc !in indexedDocs && Words(terms) && (count == 0 ==> terms == [])
      ensures With(doc, terms, count).Valid() && totalDocs + 1 == |docLengths[doc := count]|
    {
      var after := With(doc, terms, count);
      forall t
        ensures !lists.Has(t, doc)
      {
        assert lists.Has(t, doc) <==> Filed(t, doc);
      }
      lists.AddAllTerms(terms, doc);
      forall t, d
        ensures after.lists.Has(t, d) <==> after.Filed(t, d)
      {
        assert lists.Has(t, d) <==> Filed(t, d);
      }
      assert after.indexedDocs.Keys == indexedDocs.Keys + {doc};
      assert |after.docLengths.Keys| == |after.indexedDocs.Keys|;
    }

    /** The whole index follows from the documents' terms and lengths. */
    lemma Determined(other: Index)
      requires Valid() && other.Valid()
      requires indexedDocs == other.indexedDocs && docLengths == other.docLengths
      ensures this == other
    {
      assert forall t, d :: lists.Has(t, d) <==> Filed(t, d);
      assert forall t, d :: other.lists.Has(t, d) <==> other.Filed(t, d);
      assert forall t, d :: Filed(t, d) <==> other.Filed(t, d);
      lists.Determined(other.lists);
    }

    /** A term's document frequency never exceeds the number of documents. */
    lemma FreqBounded(t: string)
      requires Valid() && t in lists.postings
      ensures 1 <= lists.docFreq[t] <= totalDocs
    {
      var q := lists.postings[t];
      forall d | d in q
        ensures d in indexedDocs.Keys
      {
        assert lists.Has(t, d) && Filed(t, d);
      }
      IdsBounded(q, indexedDocs.Keys);
      assert |indexedDocs.Keys| == |indexedDocs|;
    }
  }

  class InvertedIndex {
    var lists: Lists
    var docLengths: map<nat, nat>
    var indexedDocs: map<nat, seq<string>>
    var totalDocs: nat
    var avgDocLength: real

    ghost function View(): Index
      reads this
    {
      Index(lists, docLengths, indexedDocs, totalDocs, avgDocLength)
    }

    constructor ()
      ensures View().Valid() && indexedDocs == map[] && docLengths == map[]
    {
      lists := Lists(map[], map[]);
      docLengths, indexedDocs := map[], map[];
      totalDocs, avgDocLength := 0, 0.0;
    }

    method RecomputeAvg()
      requires totalDocs == |docLengths|
      modifies this`avgDocLength
      ensures avgDocLength == Average(docLengths)
      ensures totalDocs == 0 ==> avgDocLength == 0.0
      ensures totalDocs > 0 ==> avgDocLength * totalDocs as real == Sum(docLengths) as real
    {
      if totalDocs == 0 {
        avgDocLength := 0.0;
        return;
      }
      var total := SumOf(docLengths);
      QuotientExact(total, totalDocs);
      avgDocLength := total as real / totalDocs as real;
    }

    /** Adds the lengths up in whatever order the map gives them. */
    method SumOf(lengths: map<nat, nat>) returns (total: nat)
      ensures total == Sum(lengths)
    {
      total := 0;
      var rest := lengths;
      while rest != map[]
        invariant rest.Keys <= lengths.Keys
        invariant total + Sum(rest) == Sum(lengths)
        decreases rest.Keys
      {
        var d :| d in rest;
        SumRemove(rest, d);
        total := total + rest[d];
        rest := rest - {d};
      }
    }

    /** The distinct tokens in sorted order, by way of the term-frequency map. */
    method DistinctTerms(tokens: seq<string>) returns (terms: seq<string>)
      ensures terms == SortDedup(tokens)
    {
      var tf: map<string, nat> := map[];
      for i := 0 to |tokens|
        invariant forall t :: t in tf <==> t in tokens[..i]
      {
        assert tokens[..i + 1] == tokens[..i] + [tokens[i]];
        tf := tf[tokens[i] := (if tokens[i] in tf then tf[tokens[i]] else 0) + 1];
      }
      terms := [];
      var rest := tf.Keys;
      while rest != {}
        invariant rest <= tf.Keys && Words(terms)
        invariant forall t :: t in terms <==> t in tf.Keys - rest
      {
        var t :| t in rest;
        rest := rest - {t};
        InsertWordSorted(t, terms);
        terms := InsertWord(t, terms);
      }
      assert tokens[..|tokens|] == tokens;
      SortDedupWords(tokens);
      WordsDetermined(terms, SortDedup(tokens));
    }

    /** Takes the document off the list of every one of its terms. */
    method Unfile(doc: nat, terms: seq<string>)
      modifies this`lists
      ensures lists == old(lists).RemoveAll(terms, doc)
    {
      for k := 0 to |terms|
        invariant lists == old(lists).RemoveAll(terms[..k], doc)
      {
        assert terms[..k + 1][..k] == terms[..k];
        lists := lists.Remove(terms[k], doc);
      }
      assert terms[..|terms|] == terms;
    }

    method File(doc: nat, terms: seq<string>)
      modifies this`lists
      ensures lists == old(lists).AddAll(terms, doc)
    {
      for k := 0 to |terms|
        invariant lists == old(lists).AddAll(terms[..k], doc)
      {
        assert terms[..k + 1][..k] == terms[..k];
        lists := lists.Add(terms[k], doc);
      }
      assert terms[..|terms|] == terms;
    }

    method RemoveDoc(doc: nat)
      requires View().Valid()
      modifies this
      ensures View().Valid()
      ensures indexedDocs == old(indexedDocs) - {doc} && docLengths == old(docLengths) - {doc}
    {
      DocKeys(View());
      if doc !in indexedDocs {
        assert indexedDocs - {doc} == indexedDocs && docLengths - {doc} == docLengths;
        return;
      }
      View().WithoutValid(doc);
      RemovePresent(doc);
    }

    /** The rest of `remove_doc`, once the document is known to be indexed. */
    method RemovePresent(doc: nat)
      requires doc in indexedDocs && View().Without(doc).totalDocs == |View().Without(doc).docLengths|
      modifies this
      ensures View() == old(View()).Without(doc)
    {
      ghost var after := View().Without(doc);
      var terms := indexedDocs[doc];
      indexedDocs := indexedDocs - {doc};
      Unfile(doc, terms);
      docLengths := docLengths - {doc};
      if totalDocs > 0 {
        totalDocs := totalDocs - 1;
      }
      assert lists == after.lists && totalDocs == after.totalDocs;
      assert indexedDocs == after.indexedDocs && docLengths == after.docLengths;
      RecomputeAvg();
      assert View() == after;
    }

    method IndexDoc(doc: nat, text: string)
      requires View().Valid()
      modifies this
      ensures View().Valid()
      ensures indexedDocs == old(indexedDocs)[doc := TermsOf(text)]
      ensures docLengths == old(docLengths)[doc := LengthOf(text)]
    {
      DocKeys(View());
      PutAfterRemove(indexedDocs, doc, TermsOf(text));
      PutAfterRemove(docLengths, doc, LengthOf(text));
      if doc in docLengths {
        RemoveDoc(doc);
      }
      AddFresh(doc, text);
    }

    lemma DocKeys(ix: Index)
      requires ix.Valid()
      ensures ix.docLengths.Keys == ix.indexedDocs.Keys
    {
    }

    /** The rest of `index_doc`, once the document is not in the index. */
    method AddFresh(doc: nat, text: string)
      requires View().Valid() && doc !in indexedDocs
      modifies this
      ensures View().Valid()
      ensures View() == old(View()).With(doc, TermsOf(text), LengthOf(text))
    {
      TermsAreTokens(text);
      View().WithValid(doc, TermsOf(text), LengthOf(text));
      var tokens := Tokenize(text);
      var count := |tokens| % TWO_TO_THE_32;
      var terms: seq<string> := [];
      if count != 0 {
        terms := DistinctTerms(tokens);
      }
      FileFresh(doc, terms, count);
    }

    method FileFresh(doc: nat, terms: seq<string>, count: nat)
      requires totalDocs + 1 == |docLengths[doc := count]|
      modifies this
      ensures View() == old(View()).With(doc, terms, count)
    {
      ghost var after := View().With(doc, terms, count);
      File(doc, terms);
      docLengths := docLengths[doc := count];
      indexedDocs := indexedDocs[doc := terms];
      totalDocs := totalDocs + 1;
      assert lists == after.lists && totalDocs == after.totalDocs;
      assert indexedDocs == after.indexedDocs && docLengths == after.docLengths;
      RecomputeAvg();
      assert View() == after;
    }

    /** Indexing a new document and removing it again restores every field. */
    method IndexThenRemove(doc: nat, text: string)
      requires View().Valid() && doc !in indexedDocs
      modifies this
      ensures View() == old(View())
    {
      ghost var was := View();
      DocKeys(was);
      RemoveAfterPut(indexedDocs, doc, TermsOf(text));
      RemoveAfterPut(docLengths, doc, LengthOf(text));
      IndexDoc(doc, text);
      RemoveDoc(doc);
      View().Determined(was);
    }

    method Perform(call: Call, ghost before: map<nat, string>)
      requires View().Valid() && Mirrors(indexedDocs, docLengths, before)
      modifies this
      ensures View().Valid() && Mirrors(indexedDocs, docLengths, call.After(before))
    {
      CallMirrored(indexedDocs, docLengths, before, call);
      match call
      case Put(d, text) => IndexDoc(d, text);
      case Drop(d) => RemoveDoc(d);
    }

    /** Any sequence of calls: the index files each remaining document under
        exactly the terms of its latest text. */
    method Run(calls: seq<Call>)
      requires View().Valid() && indexedDocs == map[] && docLengths == map[]
      modifies this
      ensures View().Valid()
      ensures forall t, d :: lists.Has(t, d) <==> d in Latest(calls) && t in TermsOf(Latest(calls)[d])
      ensures totalDocs == |Latest(calls)|
    {
      for k := 0 to |calls|
        invariant View().Valid() && Mirrors(indexedDocs, docLengths, Latest(calls[..k]))
      {
        assert calls[..k + 1][..k] == calls[..k];
        Perform(calls[k], Latest(calls[..k]));
      }
      assert calls[..|calls|] == calls;
      MirroredHas(View(), Latest(calls));
    }
  }

  lemma PutAfterRemove<V>(m: map<nat, V>, k: nat, v: V)
    ensures (m - {k})[k := v] == m[k := v]
  {
  }

  lemma RemoveAfterPut<V>(m: map<nat, V>, k: nat, v: V)
    requires k !in m
    ensures m[k := v] - {k} == m
  {
  }

  lemma MirroredHas(ix: Index, texts: map<nat, string>)
    requires ix.Valid() && Mirrors(ix.indexedDocs, ix.docLengths, texts)
    ensures forall t, d :: ix.lists.Has(t, d) <==> d in texts && t in TermsOf(texts[d])
    ensures ix.totalDocs == |texts|
  {
    assert forall t, d :: ix.lists.Has(t, d) <==> ix.Filed(t, d);
    assert |ix.indexedDocs.Keys| == |texts.Keys|;
  }

  datatype Call = Put(doc: nat, text: string) | Drop(doc: nat) {
    function After(texts: map<nat, string>): map<nat, string> {
      match this
      case Put(d, text) => texts[d := text]
      case Drop(d) => texts - {d}
    }
  }

  /** The documents that remain after the calls, each with its latest text. */
  ghost function Latest(calls: seq<Call>): map<nat, string> {
    if calls == [] then map[] else calls[|calls| - 1].After(Latest(calls[..|calls| - 1]))
  }

  ghost predicate Mirrors(indexedDocs: map<nat, seq<string>>, docLengths: map<nat, nat>, texts: map<nat, string>) {
    && indexedDocs.Keys == docLengths.Keys == texts.Keys
    && forall d :: d in texts ==> indexedDocs[d] == TermsOf(texts[d]) && docLengths[d] == LengthOf(texts[d])
  }

  lemma CallMirrored(indexedDocs: map<nat, seq<string>>, docLengths: map<nat, nat>, texts: map<nat, string>, call: Call)
    requires Mirrors(indexedDocs, docLengths, texts)
    ensures match call
            case Put(d, text) => Mirrors(indexedDocs[d := TermsOf(text)], docLengths[d := LengthOf(text)], call.After(texts))
            case Drop(d) => Mirrors(indexedDocs - {d}, docLengths - {d}, call.After(texts))
  {
  }
}
