/** The memory budget with least-recently-used eviction (src/runtime/mod.rs), as
    one thread sees it, on machine words of `w` values. */
module MemoryCeilings {

  datatype IdleDoc = IdleDoc(key: nat, size: nat, last: nat)

  function Total(docs: seq<IdleDoc>): nat {
    if docs == [] then 0 else docs[0].size + Total(docs[1..])
  }

  lemma {:induction false} TotalConcat(a: seq<IdleDoc>, b: seq<IdleDoc>)
    ensures Total(a + b) == Total(a) + Total(b)
  {
    if a == [] {
      assert a + b == b;
    } else {
      assert (a + b)[1..] == a[1..] + b;
      TotalConcat(a[1..], b);
    }
  }

  // ---------------------------------------------------------------------
  // The stable sort by last access

  function PlaceByAge(d: IdleDoc, docs: seq<IdleDoc>): seq<IdleDoc> {
    if docs == [] || d.last <= docs[0].last then [d] + docs else [docs[0]] + PlaceByAge(d, docs[1..])
  }

  function ByAge(docs: seq<IdleDoc>): seq<IdleDoc> {
    if docs == [] then [] else PlaceByAge(docs[0], ByAge(docs[1..]))
  }

  ghost predicate OldestFirst(docs: seq<IdleDoc>) {
    forall i, j :: 0 <= i < j < |docs| ==> docs[i].last <= docs[j].last
  }

  ghost function AgedAt(docs: seq<IdleDoc>, last: nat): seq<IdleDoc> {
    if docs == [] then []
    else if docs[0].last == last then [docs[0]] + AgedAt(docs[1..], last)
    else AgedAt(docs[1..], last)
  }

  lemma {:induction false} PlaceByAgeSame(d: IdleDoc, docs: seq<IdleDoc>)
    ensures multiset(PlaceByAge(d, docs)) == multiset{d} + multiset(docs)
    ensures Total(PlaceByAge(d, docs)) == d.size + Total(docs)
  {
    if docs != [] && d.last > docs[0].last {
      PlaceByAgeSame(d, docs[1..]);
      assert docs == [docs[0]] + docs[1..];
    } else {
      assert ([d] + docs)[1..] == docs;
    }
  }

  lemma {:induction false} PlaceByAgeMember(d: IdleDoc, docs: seq<IdleDoc>, x: IdleDoc)
    requires x in PlaceByAge(d, docs)
    ensures x == d || x in docs
  {
    if docs != [] && d.last > docs[0].last && x != docs[0] {
      PlaceByAgeMember(d, docs[1..], x);
    }
  }

  lemma {:induction false} PlaceByAgeSorted(d: IdleDoc, docs: seq<IdleDoc>)
    requires OldestFirst(docs)
    ensures OldestFirst(PlaceByAge(d, docs))
  {
    if docs != [] && d.last > docs[0].last {
      var rest := PlaceByAge(d, docs[1..]);
      PlaceByAgeSorted(d, docs[1..]);
      forall j | 0 <= j < |rest|
        ensures docs[0].last <= rest[j].last
      {
        PlaceByAgeMember(d, docs[1..], rest[j]);
      }
    }
  }

  lemma {:induction false} PlaceByAgeStable(d: IdleDoc, docs: seq<IdleDoc>, a: nat)
    ensures AgedAt(PlaceByAge(d, docs), a) == AgedAt([d] + docs, a)
  {
    assert ([d] + docs)[1..] == docs;
    if docs != [] && d.last > docs[0].last {
      PlaceByAgeStable(d, docs[1..], a);
      var rest := PlaceByAge(d, docs[1..]);
      assert ([docs[0]] + rest)[1..] == rest && ([d] + docs[1..])[1..] == docs[1..];
    }
  }

  /** Sorted by age, the same documents, equal ages in their old order. */
  lemma {:induction false} ByAgeIsStableSort(docs: seq<IdleDoc>)
    ensures OldestFirst(ByAge(docs)) && multiset(ByAge(docs)) == multiset(docs)
    ensures Total(ByAge(docs)) == Total(docs)
    ensures forall a :: AgedAt(ByAge(docs), a) == AgedAt(docs, a)
  {
    if docs != [] {
      ByAgeIsStableSort(docs[1..]);
      var rest := ByAge(docs[1..]);
      PlaceByAgeSorted(docs[0], rest);
      PlaceByAgeSame(docs[0], rest);
      assert docs == [docs[0]] + docs[1..];
      forall a
        ensures AgedAt(ByAge(docs), a) == AgedAt(docs, a)
      {
        PlaceByAgeStable(docs[0], rest, a);
        assert ([docs[0]] + rest)[1..] == rest;
      }
    }
  }

  // ---------------------------------------------------------------------
  // The ceiling as a value

  datatype Ceiling = Ceiling(w: nat, budget: nat, current: nat, idle: seq<IdleDoc>) {

    /** Word-sized fields, and idle documents that are part of the usage. */
    ghost predicate Sound() {
      budget < w && current < w && Total(idle) <= current
    }

    /** Addition and subtraction of two words; the last case needs an operand that
        is no word. */
    function AddW(a: nat, b: nat): nat {
      if a + b < w then a + b else a + b - w
    }

    function SubW(a: nat, b: nat): nat {
      if b <= a then a - b
      else if b <= a + w then a + w - b
      else 0
    }

    function TryAllocInner(bytes: nat): (Ceiling, bool)
    {
      if AddW(current, bytes) <= budget then (this.(current := AddW(current, bytes)), true) else (this, false)
    }

    /** The eviction loop, oldest document first. */
    function EvictLoop(bytes: nat): (c: Ceiling)
      ensures c.w == w && c.budget == budget
      decreases |idle|
    {
      if idle != [] && AddW(current, bytes) > budget
      then this.(current := SubW(current, idle[0].size), idle := idle[1..]).EvictLoop(bytes)
      else this
    }

    function EvictToFit(bytes: nat): (c: Ceiling)
      ensures c.w == w && c.budget == budget
    {
      if idle == [] then this else this.(idle := ByAge(idle)).EvictLoop(bytes)
    }

    function TryAlloc(bytes: nat): (Ceiling, bool)
    {
      if TryAllocInner(bytes).1 then TryAllocInner(bytes) else EvictToFit(bytes).TryAllocInner(bytes)
    }

    function Release(bytes: nat): Ceiling
    {
      this.(current := if current < bytes then 0 else SubW(current, bytes))
    }

    function EvictIdle(): (Ceiling, nat)
    {
      if idle == [] then (this, 0)
      else
        var docs := ByAge(idle);
        PlaceByAgeNonEmpty(idle);
        (this.(current := SubW(current, docs[0].size), idle := docs[1..]),
         if current < docs[0].size then current else docs[0].size)
    }

    static lemma PlaceByAgeNonEmpty(docs: seq<IdleDoc>)
      requires docs != []
      ensures ByAge(docs) != []
    {
    }

    function RegisterIdle(doc: IdleDoc): Ceiling {
      this.(idle := Registered(idle, doc))
    }

    static function Registered(docs: seq<IdleDoc>, doc: IdleDoc): seq<IdleDoc> {
      if docs == [] then [doc]
      else if docs[0].key == doc.key then [doc] + docs[1..]
      else [docs[0]] + Registered(docs[1..], doc)
    }

    // -------------------------------------------------------------------

    /** How many of the oldest documents have to go before `bytes` fit. */
    static ghost function Victims(budget: nat, docs: seq<IdleDoc>, used: int, bytes: nat): nat {
      if docs == [] || used + bytes <= budget then 0
      else 1 + Victims(budget, docs[1..], used - docs[0].size, bytes)
    }

    /** That number is the least that fits, or all of them. */
    static lemma {:induction false} VictimsLeast(budget: nat, docs: seq<IdleDoc>, used: int, bytes: nat)
      ensures Victims(budget, docs, used, bytes) <= |docs|
      ensures forall j :: 0 <= j < Victims(budget, docs, used, bytes) ==> used - Total(docs[..j]) + bytes > budget
      ensures var k := Victims(budget, docs, used, bytes); k == |docs| || used - Total(docs[..k]) + bytes <= budget
    {
      if docs != [] && used + bytes > budget {
        VictimsLeast(budget, docs[1..], used - docs[0].size, bytes);
        var k := Victims(budget, docs[1..], used - docs[0].size, bytes);
        forall j | 0 <= j <= |docs[1..]|
          ensures Total(docs[..j + 1]) == docs[0].size + Total(docs[1..][..j])
        {
          assert docs[..j + 1][1..] == docs[1..][..j];
        }
        forall j | 0 <= j < k + 1
          ensures used - Total(docs[..j]) + bytes > budget
        {
          if j > 0 {
            assert Total(docs[..j - 1 + 1]) == docs[0].size + Total(docs[1..][..j - 1]);
          }
        }
      }
    }

    /** After `j` evictions the sum wraps round to something that fits. */
    ghost predicate WrapsAt(docs: seq<IdleDoc>, j: nat, bytes: nat)
      requires j <= |docs|
    {
      w <= current - Total(docs[..j]) + bytes <= w + budget
    }

    ghost predicate WrapsIn(docs: seq<IdleDoc>, bytes: nat) {
      exists j :: 0 <= j <= |docs| && WrapsAt(docs, j, bytes)
    }

    /** That happens somewhere on the way, oldest document first. */
    ghost predicate Wraps(bytes: nat) {
      WrapsIn(ByAge(idle), bytes)
    }

    /** The ceiling after the oldest idle document has gone. */
    ghost function Without(): Ceiling
      requires idle != [] && idle[0].size <= current
    {
      this.(current := current - idle[0].size, idle := idle[1..])
    }

    lemma TailWraps(bytes: nat, j: nat)
      requires idle != [] && idle[0].size <= current && j < |idle|
      ensures Without().WrapsAt(idle[1..], j, bytes) <==> WrapsAt(idle, j + 1, bytes)
    {
      assert idle[..j + 1][1..] == idle[1..][..j];
    }

    lemma {:induction false} EvictLoopExact(bytes: nat)
      requires Sound() && bytes < w && !WrapsIn(idle, bytes)
      ensures var k := Victims(budget, idle, current, bytes);
              && k <= |idle| && Total(idle[..k]) <= current
              && EvictLoop(bytes) == this.(current := current - Total(idle[..k]), idle := idle[k..])
      decreases |idle|
    {
      assert !WrapsAt(idle, 0, bytes) && idle[..0] == [];
      if idle != [] && current + bytes > budget {
        forall j | 0 <= j <= |idle[1..]|
          ensures !Without().WrapsAt(idle[1..], j, bytes)
        {
          TailWraps(bytes, j);
        }
        Without().EvictLoopExact(bytes);
        var k := Victims(budget, idle[1..], Without().current, bytes);
        assert idle[..k + 1][1..] == idle[1..][..k];
        assert idle[1..][k..] == idle[k + 1..];
      }
    }

    /** The loop stops at the first such wrap, if there is one. */
    lemma {:induction false} EvictLoopWraps(bytes: nat) returns (j: nat)
      requires Sound() && bytes < w && WrapsIn(idle, bytes)
      ensures j <= |idle| && WrapsAt(idle, j, bytes)
      ensures EvictLoop(bytes) == this.(current := current - Total(idle[..j]), idle := idle[j..])
      decreases |idle|
    {
      var i :| 0 <= i <= |idle| && WrapsAt(idle, i, bytes);
      assert idle[..0] == [] && idle[0..] == idle;
      if AddW(current, bytes) <= budget {
        j := 0;
      } else {
        TailWraps(bytes, i - 1);
        j := Without().EvictLoopWraps(bytes);
        TailWraps(bytes, j);
        assert idle[..j + 1][1..] == idle[1..][..j] && idle[1..][j..] == idle[j + 1..];
        j := j + 1;
      }
    }

    /** The eviction takes exactly the least number of oldest documents that makes
        `bytes` fit, or all; room is made exactly if taking all makes it. */
    lemma EvictToFitExact(bytes: nat)
      requires Sound() && bytes < w && !Wraps(bytes)
      ensures var aged := ByAge(idle);
              var k := Victims(budget, aged, current, bytes);
              var after := EvictToFit(bytes);
              && k <= |aged| && Total(aged[..k]) <= current
              && after == this.(current := current - Total(aged[..k]), idle := aged[k..])
              && after.Sound()
              && (after.current + bytes <= budget <==> current - Total(idle) + bytes <= budget)
    {
      var aged := ByAge(idle);
      ByAgeIsStableSort(idle);
      var k := Victims(budget, aged, current, bytes);
      VictimsLeast(budget, aged, current, bytes);
      PrefixTotal(aged, k);
      if idle != [] {
        SortedCeiling(bytes);
        this.(idle := aged).EvictLoopExact(bytes);
      }
    }

    lemma SortedCeiling(bytes: nat)
      ensures this.(idle := ByAge(idle)).WrapsIn(ByAge(idle), bytes) <==> Wraps(bytes)
    {
      assert forall j :: 0 <= j <= |ByAge(idle)| ==>
               (this.(idle := ByAge(idle)).WrapsAt(ByAge(idle), j, bytes) <==> WrapsAt(ByAge(idle), j, bytes));
    }

    static lemma PrefixTotal(docs: seq<IdleDoc>, k: nat)
      requires k <= |docs|
      ensures Total(docs[..k]) + Total(docs[k..]) == Total(docs)
      ensures k == |docs| ==> Total(docs[..k]) == Total(docs)
    {
      assert docs[..k] + docs[k..] == docs;
      TotalConcat(docs[..k], docs[k..]);
    }

    /** What an allocation promises: it succeeds exactly when evicting every idle
        document would make room, evicts exactly the least number of oldest documents,
        subtracts exactly their bytes, and no success ends over budget. */
    ghost predicate Keeps(bytes: nat) {
      var (after, ok) := TryAlloc(bytes);
      && (ok <==> current - Total(idle) + bytes <= budget)
      && after.Sound() && (ok ==> after.current <= budget)
      && Evicted(bytes, after, ok)
    }

    /** For every request it does all that exactly when on the way no sum wraps round
        to something that fits. */
    lemma TryAllocExact(bytes: nat)
      requires Sound() && bytes < w
      ensures Keeps(bytes) <==> !Wraps(bytes)
    {
      if Wraps(bytes) {
        TryAllocWraps(bytes);
      } else {
        TryAllocKeeps(bytes);
      }
    }

    lemma TryAllocKeeps(bytes: nat)
      requires Sound() && bytes < w && !Wraps(bytes)
      ensures Keeps(bytes)
    {
      var aged := ByAge(idle);
      ByAgeIsStableSort(idle);
      VictimsLeast(budget, aged, current, bytes);
      assert !WrapsAt(aged, 0, bytes) && aged[..0] == [];
      if current + bytes > budget {
        EvictToFitExact(bytes);
        LastSum(bytes);
        assert TryAlloc(bytes) == EvictToFit(bytes).TryAllocInner(bytes);
      }
    }

    /** The check after the eviction does not wrap either. */
    lemma LastSum(bytes: nat)
      requires Sound() && bytes < w && !Wraps(bytes)
      ensures var k := Victims(budget, ByAge(idle), current, bytes);
              k <= |ByAge(idle)| && !WrapsAt(ByAge(idle), k, bytes)
    {
      VictimsLeast(budget, ByAge(idle), current, bytes);
    }

    /** Otherwise it succeeds with a usage that is a whole word too small. */
    lemma TryAllocWraps(bytes: nat)
      requires Sound() && bytes < w && Wraps(bytes)
      ensures TryAlloc(bytes).1 && !Keeps(bytes)
      ensures exists j :: 0 <= j <= |ByAge(idle)| && TryAlloc(bytes).0.current == current - Total(ByAge(idle)[..j]) + bytes - w
    {
      var aged := ByAge(idle);
      ByAgeIsStableSort(idle);
      var k := Victims(budget, aged, current, bytes);
      VictimsLeast(budget, aged, current, bytes);
      PrefixTotal(aged, k);
      if AddW(current, bytes) <= budget {
        FirstSumWraps(bytes);
        assert aged[..0] == [];
        assert TryAlloc(bytes).0.current == current - Total(aged[..0]) + bytes - w;
      } else {
        SortedCeiling(bytes);
        var j := this.(idle := aged).EvictLoopWraps(bytes);
        assert EvictToFit(bytes).current == current - Total(aged[..j]);
        assert TryAlloc(bytes).0.current == current - Total(aged[..j]) + bytes - w;
      }
    }

    lemma FirstSumWraps(bytes: nat)
      requires Sound() && bytes < w && Wraps(bytes) && AddW(current, bytes) <= budget
      ensures current + bytes >= w
    {
      var j :| 0 <= j <= |ByAge(idle)| && WrapsAt(ByAge(idle), j, bytes);
    }

    /** A request for all but one value of the word, on top of one byte in use. */
    static lemma HugeRequestAccepted(w: nat, budget: nat)
      requires budget < w && w > 1
      ensures Ceiling(w, budget, 1, []).Sound()
      ensures Ceiling(w, budget, 1, []).TryAlloc(w - 1) == (Ceiling(w, budget, 0, []), true)
    {
    }

    /** Usage and idle list after evicting the least sufficient number of oldest
        documents, and adding `bytes` if that was enough. */
    ghost predicate Evicted(bytes: nat, after: Ceiling, ok: bool) {
      var aged := ByAge(idle);
      var k := Victims(budget, aged, current, bytes);
      && k <= |aged|
      && after.current == current - Total(aged[..k]) + (if ok then bytes else 0)
      && after.idle == (if current + bytes <= budget then idle else aged[k..])
    }

    /** The check is right about the budget except where the sum wraps round to
        something that fits. */
    lemma InnerRightIff(bytes: nat)
      requires budget < w && current < w && bytes < w
      ensures (TryAllocInner(bytes).1 <==> current + bytes <= budget)
              <==> !(w <= current + bytes <= w + budget)
    {
    }

    /** Evicting one document reports the smaller of its size and the usage. It takes
        away what it reports exactly when the oldest document is no larger than the usage; beyond
        that the counter wraps although the report is clamped. */
    lemma EvictIdleExact()
      requires budget < w && current < w && idle != [] && forall d :: d in idle ==> d.size < w
      ensures ByAge(idle) != []
      ensures var (after, freed) := EvictIdle();
              && after.idle == ByAge(idle)[1..]
              && (freed == current || freed == ByAge(idle)[0].size) && freed <= current && freed <= ByAge(idle)[0].size
              && (after.current == current - freed <==> ByAge(idle)[0].size <= current)
              && (Sound() ==> after.Sound())
    {
      ByAgeIsStableSort(idle);
      PlaceByAgeNonEmpty(idle);
      var d := ByAge(idle)[0];
      assert d in multiset(ByAge(idle));
      assert d in idle;
    }

    /** On sound books the document's bytes are given back, all of them: what is in use
        apart from idle documents stays the same. */
    lemma EvictIdleConserves()
      requires Sound() && idle != []
      ensures ByAge(idle) != []
      ensures var (after, freed) := EvictIdle();
              && freed == ByAge(idle)[0].size && after.current == current - freed
              && after.current - Total(after.idle) == current - Total(idle)
    {
      ByAgeIsStableSort(idle);
      PlaceByAgeNonEmpty(idle);
    }

    /** One idle document larger than the usage: nothing is reported as freed beyond
        the usage, and the counter ends near the top of the word. */
    static lemma OversizedIdleDocWraps(w: nat, budget: nat)
      requires budget < w && w > 5
      ensures Ceiling(w, budget, 0, [IdleDoc(1, 5, 0)]).EvictIdle() == (Ceiling(w, budget, w - 5, []), 0)
    {
      assert ByAge([IdleDoc(1, 5, 0)]) == [IdleDoc(1, 5, 0)];
    }

    /** Releasing keeps the books sound exactly when what is left covers the idle
        documents. */
    lemma ReleaseExact(bytes: nat)
      requires Sound() && bytes < w
      ensures Release(bytes).current == (if bytes <= current then current - bytes else 0)
      ensures Release(bytes).Sound() <==> Total(idle) == 0 || Total(idle) + bytes <= current
    {
    }

    /** Registering replaces the document of that key where it stands, or adds it at
        the end, and leaves every other one alone. */
    static lemma {:induction false} RegisterExact(docs: seq<IdleDoc>, doc: IdleDoc, i: nat)
      requires i <= |docs| && forall j :: 0 <= j < i ==> docs[j].key != doc.key
      requires i < |docs| ==> docs[i].key == doc.key
      ensures Registered(docs, doc) == if i < |docs| then docs[i := doc] else docs + [doc]
    {
      if i > 0 {
        RegisterExact(docs[1..], doc, i - 1);
      }
    }

    /** Size of the idle document of that key, if there is one. */
    static function SizeOf(docs: seq<IdleDoc>, key: nat): nat {
      if docs == [] then 0 else if docs[0].key == key then docs[0].size else SizeOf(docs[1..], key)
    }

    static lemma {:induction false} RegisteredTotal(docs: seq<IdleDoc>, doc: IdleDoc)
      ensures SizeOf(docs, doc.key) <= Total(docs)
      ensures Total(Registered(docs, doc)) == Total(docs) - SizeOf(docs, doc.key) + doc.size
    {
      if docs != [] && docs[0].key != doc.key {
        RegisteredTotal(docs[1..], doc);
      }
    }

    /** Registering keeps the books sound exactly when the idle documents, this one in
        place of its old self, are still covered by the usage. */
    lemma RegisterIdleSoundIff(doc: IdleDoc)
      requires Sound()
      ensures RegisterIdle(doc).Sound() <==> Total(idle) - SizeOf(idle, doc.key) + doc.size <= current
    {
      RegisteredTotal(idle, doc);
    }

    static lemma {:induction false} SizesWithinTotal(docs: seq<IdleDoc>, d: IdleDoc)
      requires d in docs
      ensures d.size <= Total(docs)
    {
      if d != docs[0] {
        SizesWithinTotal(docs[1..], d);
      }
    }

    // Any sequence of calls

    function After(call: Call): Ceiling {
      match call
      case Alloc(bytes) => TryAlloc(bytes).0
      case Free(bytes) => Release(bytes)
      case Idle(doc) => RegisterIdle(doc)
      case Evict => EvictIdle().0
    }

    /** What the caller sees to: no request wraps, nothing is released that idle
        documents account for, no document is registered beyond the usage. */
    ghost predicate Fair(call: Call) {
      match call
      case Alloc(bytes) => bytes < w && !Wraps(bytes)
      case Free(bytes) => bytes < w && (Total(idle) == 0 || Total(idle) + bytes <= current)
      case Idle(doc) => Total(idle) - SizeOf(idle, doc.key) + doc.size <= current
      case Evict => true
    }

    ghost predicate AllFair(calls: seq<Call>)
      decreases |calls|
    {
      calls == [] || (Fair(calls[0]) && After(calls[0]).AllFair(calls[1..]))
    }

    ghost function AfterAll(calls: seq<Call>): Ceiling
      decreases |calls|
    {
      if calls == [] then this else After(calls[0]).AfterAll(calls[1..])
    }

    lemma FairCallKeepsSound(call: Call)
      requires Sound() && current <= budget && Fair(call)
      ensures After(call).Sound() && After(call).current <= budget && After(call).w == w && After(call).budget == budget
    {
      match call
      case Alloc(bytes) => TryAllocUnderBudget(bytes);
      case Free(bytes) => ReleaseExact(bytes);
      case Idle(doc) => RegisterIdleSoundIff(doc);
      case Evict =>
        if idle != [] {
          forall d | d in idle
            ensures d.size < w
          {
            SizesWithinTotal(idle, d);
          }
          EvictIdleExact();
          EvictIdleShrinks();
        }
    }

    lemma TryAllocUnderBudget(bytes: nat)
      requires Sound() && current <= budget && bytes < w && !Wraps(bytes)
      ensures var after := TryAlloc(bytes).0; after.Sound() && after.current <= budget && after.w == w && after.budget == budget
    {
      TryAllocKeeps(bytes);
      if !TryAlloc(bytes).1 {
        assert TryAlloc(bytes).0.current <= current;
      }
    }

    lemma EvictIdleShrinks()
      requires Sound() && idle != []
      ensures EvictIdle().0.current <= current
    {
      ByAgeIsStableSort(idle);
      PlaceByAgeNonEmpty(idle);
    }

    /** From a fair start, fair calls keep the books sound and the usage within the
        budget for ever. */
    lemma {:induction false} FairRunStaysSound(calls: seq<Call>)
      requires Sound() && current <= budget && AllFair(calls)
      ensures AfterAll(calls).Sound() && AfterAll(calls).current <= budget && AfterAll(calls).budget == budget
      decreases |calls|
    {
      if calls != [] {
        FairCallKeepsSound(calls[0]);
        After(calls[0]).FairRunStaysSound(calls[1..]);
      }
    }
  }

  datatype Call = Alloc(bytes: nat) | Free(bytes: nat) | Idle(doc: IdleDoc) | Evict

  // ---------------------------------------------------------------------

  class MemoryCeiling {
    const w: nat
    const budgetBytes: nat
    var currentBytes: nat
    var idle: seq<IdleDoc>

    function View(): Ceiling
      reads this
    {
      Ceiling(w, budgetBytes, currentBytes, idle)
    }

    constructor (w: nat, budget: nat)
      requires budget < w
      ensures View() == Ceiling(w, budget, 0, []) && View().Sound()
    {
      this.w, budgetBytes, currentBytes, idle := w, budget, 0, [];
    }

    method TryAllocInner(bytes: nat) returns (ok: bool)
      modifies this`currentBytes
      ensures (View(), ok) == old(View()).TryAllocInner(bytes)
    {
      if View().AddW(currentBytes, bytes) <= budgetBytes {
        currentBytes := View().AddW(currentBytes, bytes);
        return true;
      }
      return false;
    }

    method EvictToFit(bytes: nat)
      modifies this
      ensures View() == old(View()).EvictToFit(bytes)
    {
      if idle == [] {
        return;
      }
      idle := ByAge(idle);
      ghost var start := View();
      while idle != [] && View().AddW(currentBytes, bytes) > budgetBytes
        invariant start.w == w && View().w == w && View().budget == budgetBytes
        invariant View().EvictLoop(bytes) == start.EvictLoop(bytes)
        decreases |idle|
      {
        var evicted := idle[0];
        idle := idle[1..];
        currentBytes := View().SubW(currentBytes, evicted.size);
      }
    }

    method TryAlloc(bytes: nat) returns (ok: bool)
      modifies this
      ensures (View(), ok) == old(View()).TryAlloc(bytes)
    {
      ok := TryAllocInner(bytes);
      if !ok {
        EvictToFit(bytes);
        ok := TryAllocInner(bytes);
      }
    }

    method Release(bytes: nat)
      modifies this`currentBytes
      ensures View() == old(View()).Release(bytes)
    {
      var prev := currentBytes;
      currentBytes := View().SubW(currentBytes, bytes);
      if prev < bytes {
        currentBytes := 0;
      }
    }

    method EvictIdle() returns (freed: nat)
      modifies this
      ensures (View(), freed) == old(View()).EvictIdle()
    {
      if idle == [] {
        return 0;
      }
      Ceiling.PlaceByAgeNonEmpty(idle);
      idle := ByAge(idle);
      var evicted := idle[0];
      idle := idle[1..];
      freed := if currentBytes < evicted.size then currentBytes else evicted.size;
      currentBytes := View().SubW(currentBytes, evicted.size);
    }

    method RegisterIdle(doc: IdleDoc)
      modifies this`idle
      ensures View() == old(View()).RegisterIdle(doc)
    {
      var i := 0;
      while i < |idle| && idle[i].key != doc.key
        invariant 0 <= i <= |idle| && forall j :: 0 <= j < i ==> idle[j].key != doc.key
      {
        i := i + 1;
      }
      Ceiling.RegisterExact(idle, doc, i);
      idle := if i < |idle| then idle[i := doc] else idle + [doc];
    }
  }
}
