/** Keeping the bridge's own commits out of the outbound path
    (src/bridge/sync_engine.rs, src/bridge/batcher.rs): a state machine whose steps
    interleave freely. */
module EchoFilter {

  /** A committed transaction of the graph store and the change events it carries. */
  datatype Commit = Commit(epoch: nat, bridge: bool, payloads: seq<nat>)

  datatype Event = Event(epoch: nat, payload: nat)

  const EPOCH_RETENTION: nat := 10_000

  datatype Poller = Idle | Polling(upTo: nat, pending: seq<Event>) | Stopped

  /** `last` is the poller's position, `epochs` the shared set of bridge epochs,
      `unrecorded` bridge commits whose epoch is not in that set yet, `sent` all that
      was ever put on the outbound channel, `handled` what the worker let through;
      `inherited` stays as it is at startup. */
  datatype State = State(inclusive: bool, start: nat, inherited: set<nat>, log: seq<Commit>, now: nat, epochs: set<nat>, unrecorded: set<nat>,
                         last: nat, poller: Poller, sent: seq<Event>, taken: nat, handled: seq<Event>)

  datatype Step =
    | CommitBridge(epoch: nat, payloads: seq<nat>)
    | Record(epoch: nat)
    | CommitOther(epoch: nat, payloads: seq<nat>)
    | PollStart
    | PollFail
    | Filter
    | SendFail
    | FinishPoll
    | Take

  function Events(c: Commit): seq<Event> {
    seq(|c.payloads|, i requires 0 <= i < |c.payloads| => Event(c.epoch, c.payloads[i]))
  }

  /** What the store returns for a range of epochs; whether the lower end is part
      of it is the store's affair. */
  ghost function Changes(log: seq<Commit>, lo: nat, hi: nat, inclusive: bool): seq<Event> {
    if log == [] then []
    else
      var c := log[|log| - 1];
      Changes(log[..|log| - 1], lo, hi, inclusive)
      + (if (lo < c.epoch || (inclusive && lo == c.epoch)) && c.epoch <= hi then Events(c) else [])
  }

  /** The events of the other commits alone, lower end excluded. */
  ghost function Foreign(log: seq<Commit>, lo: nat, hi: nat): seq<Event> {
    if log == [] then [] else Foreign(log[..|log| - 1], lo, hi) + ForeignOf(log[|log| - 1], lo, hi)
  }

  ghost function ForeignOf(c: Commit, lo: nat, hi: nat): seq<Event> {
    if !c.bridge && lo < c.epoch <= hi then Events(c) else []
  }

  function Pass(events: seq<Event>, epochs: set<nat>): seq<Event> {
    if events == [] then []
    else if events[0].epoch in epochs then Pass(events[1..], epochs)
    else [events[0]] + Pass(events[1..], epochs)
  }

  function Cutoff(last: nat): nat {
    if last < EPOCH_RETENTION then 0 else last - EPOCH_RETENTION
  }

  function Retained(epochs: set<nat>, last: nat): set<nat> {
    set e | e in epochs && e > Cutoff(last)
  }

  ghost predicate Enabled(s: State, t: Step) {
    match t
    case CommitBridge(e, _) => e > s.now
    case CommitOther(e, _) => e > s.now
    case Record(e) => e in s.unrecorded
    case PollStart => s.poller.Idle? && s.now > s.last
    case PollFail => s.poller.Idle?
    case Filter => s.poller.Polling? && s.poller.pending != []
    case SendFail => s.poller.Polling? && s.poller.pending != [] && s.poller.pending[0].epoch !in s.epochs
    case FinishPoll => s.poller.Polling? && s.poller.pending == []
    case Take => s.taken < |s.sent|
  }

  ghost function Next(s: State, t: Step): State
    requires Enabled(s, t)
  {
    match t
    case CommitBridge(e, ps) =>
      s.(log := s.log + [Commit(e, true, ps)], now := e, unrecorded := s.unrecorded + {e})
    case Record(e) =>
      s.(epochs := s.epochs + {e}, unrecorded := s.unrecorded - {e})
    case CommitOther(e, ps) =>
      s.(log := s.log + [Commit(e, false, ps)], now := e)
    case PollStart =>
      s.(poller := Polling(s.now, Changes(s.log, s.last, s.now, s.inclusive)))
    case PollFail => s
    case Filter =>
      s.(poller := Polling(s.poller.upTo, s.poller.pending[1..]), sent := s.sent + Pass([s.poller.pending[0]], s.epochs))
    case SendFail => s.(poller := Stopped)
    case FinishPoll =>
      s.(epochs := Retained(s.epochs, s.last), last := s.poller.upTo, poller := Idle)
    case Take =>
      s.(taken := s.taken + 1, handled := s.handled + Pass([s.sent[s.taken]], s.epochs))
  }

  // ---------------------------------------------------------------------
  // Invariants

  /** At startup the poller stands at the current epoch and nothing is under way. The
      store may be older than the engine, and its last commit a bridge commit that
      this engine knows nothing of; a range with its lower end still returns it. */
  ghost predicate Init(s: State) {
    && LogOk(s) && SetsOk(s)
    && s.now == s.last == s.start && s.poller == Idle
    && s.sent == [] && s.taken == 0 && s.handled == []
    && s.inherited == if s.inclusive && FromBridge(s, s.start) && !Marked(s, s.start) then {s.start} else {}
  }

  ghost predicate InheritedOk(s: State) {
    && (s.inherited != {} ==> s.inclusive)
    && forall e :: e in s.inherited ==> FromBridge(s, e) && !Marked(s, e)
  }

  ghost predicate LogOk(s: State) {
    && (forall i, j :: 0 <= i < j < |s.log| ==> s.log[i].epoch < s.log[j].epoch)
    && (forall c :: c in s.log ==> c.epoch <= s.now)
  }

  ghost predicate Marked(s: State, e: nat) {
    e in s.epochs || e in s.unrecorded
  }

  /** Recorded and unrecorded epochs are past ones, and none is another's commit. */
  ghost predicate SetsOk(s: State) {
    && s.epochs !! s.unrecorded
    && (forall e: nat :: Marked(s, e) ==> e <= s.now)
    && (forall c :: c in s.log && !c.bridge ==> !Marked(s, c.epoch))
    && (forall e :: e in s.unrecorded ==> FromBridge(s, e))
  }

  ghost predicate FromBridge(s: State, e: nat) {
    exists c :: c in s.log && c.bridge && c.epoch == e
  }

  ghost predicate FromOther(s: State, e: nat) {
    exists c :: c in s.log && !c.bridge && c.epoch == e
  }

  /** Bridge commits the next poll can return are marked, or inherited: pruning
      spares them. */
  ghost predicate AheadMarked(s: State) {
    forall c :: c in s.log && c.bridge && (c.epoch > s.last || (s.inclusive && c.epoch == s.last))
      ==> Marked(s, c.epoch) || c.epoch in s.inherited
  }

  ghost predicate PollOk(s: State) {
    && s.start <= s.last <= s.now
    && (s.poller.Polling? ==> s.last < s.poller.upTo <= s.now)
    && (s.poller.Polling? ==> forall ev :: ev in s.poller.pending ==> ev.epoch <= s.poller.upTo)
    && (s.poller.Polling? ==> forall ev :: ev in s.poller.pending ==> Explained(s, ev.epoch))
  }

  /** Another's commit, or one of the bridge that is marked or inherited. */
  ghost predicate Explained(s: State, e: nat) {
    FromOther(s, e) || Marked(s, e) || e in s.inherited
  }

  /** Holds in every reachable state, however commits are recorded. */
  ghost predicate Basic(s: State) {
    LogOk(s) && SetsOk(s) && InheritedOk(s) && AheadMarked(s) && PollOk(s) && s.taken <= |s.sent|
  }

  lemma InitBasic(s: State)
    requires Init(s)
    ensures Basic(s)
  {
  }

  lemma {:induction false} ChangesMember(log: seq<Commit>, lo: nat, hi: nat, inclusive: bool, ev: Event)
    requires ev in Changes(log, lo, hi, inclusive)
    ensures exists c :: c in log && c.epoch == ev.epoch && (lo < c.epoch || (inclusive && lo == c.epoch)) && c.epoch <= hi
  {
    var k := |log| - 1;
    if ev in Changes(log[..k], lo, hi, inclusive) {
      ChangesMember(log[..k], lo, hi, inclusive, ev);
      var c :| c in log[..k] && c.epoch == ev.epoch && (lo < c.epoch || (inclusive && lo == c.epoch)) && c.epoch <= hi;
      assert c in log;
    } else {
      assert log[k] in log;
    }
  }

  lemma LogGrows(s: State, t: Step, e: nat)
    requires Enabled(s, t)
    ensures FromBridge(s, e) ==> FromBridge(Next(s, t), e)
    ensures FromOther(s, e) ==> FromOther(Next(s, t), e)
  {
    var s' := Next(s, t);
    if FromBridge(s, e) {
      var c :| c in s.log && c.bridge && c.epoch == e;
      assert c in s'.log;
    }
    if FromOther(s, e) {
      var c :| c in s.log && !c.bridge && c.epoch == e;
      assert c in s'.log;
    }
  }

  /** A new commit is at a new epoch, and marked if it is the bridge's. */
  lemma CommitMarks(s: State, t: Step)
    requires Basic(s) && Enabled(s, t) && (t.CommitBridge? || t.CommitOther?)
    ensures var s' := Next(s, t);
            var c := s'.log[|s.log|];
            && c.epoch > s.now && !Marked(s, c.epoch) && (forall d :: d in s'.log <==> d in s.log || d == c)
            && forall e: nat :: Marked(s', e) <==> Marked(s, e) || (c.bridge && e == c.epoch)
  {
  }

  lemma CommitKeepsSets(s: State, t: Step)
    requires Basic(s) && Enabled(s, t) && (t.CommitBridge? || t.CommitOther?)
    ensures SetsOk(Next(s, t)) && InheritedOk(Next(s, t))
  {
    var s' := Next(s, t);
    var c := s'.log[|s.log|];
    CommitMarks(s, t);
    forall e | e in s'.unrecorded
      ensures FromBridge(s', e)
    {
      LogGrows(s, t, e);
      if e !in s.unrecorded {
        assert c in s'.log && c.bridge && c.epoch == e;
      }
    }
    forall e | e in s'.inherited
      ensures FromBridge(s', e) && !Marked(s', e)
    {
      LogGrows(s, t, e);
    }
  }

  lemma CommitKeepsBasic(s: State, t: Step)
    requires Basic(s) && Enabled(s, t) && (t.CommitBridge? || t.CommitOther?)
    ensures Basic(Next(s, t))
  {
    var s' := Next(s, t);
    CommitMarks(s, t);
    CommitKeepsSets(s, t);
    if s.poller.Polling? {
      forall ev | ev in s.poller.pending
        ensures Explained(s', ev.epoch)
      {
        LogGrows(s, t, ev.epoch);
      }
    }
  }

  lemma PollStartKeepsBasic(s: State)
    requires Basic(s) && Enabled(s, PollStart)
    ensures Basic(Next(s, PollStart))
  {
    var s' := Next(s, PollStart);
    assert forall e :: Marked(s', e) <==> Marked(s, e);
    forall ev | ev in s'.poller.pending
      ensures ev.epoch <= s.now && Explained(s', ev.epoch)
    {
      ChangesMember(s.log, s.last, s.now, s.inclusive, ev);
      var c :| c in s.log && c.epoch == ev.epoch && (s.last < c.epoch || (s.inclusive && s.last == c.epoch)) && c.epoch <= s.now;
      if !c.bridge {
        assert c in s'.log && !c.bridge && c.epoch == ev.epoch;
      }
    }
    forall e | e in s'.unrecorded || e in s'.inherited
      ensures FromBridge(s', e)
    {
      LogGrows(s, PollStart, e);
    }
  }

  lemma StepKeepsBasic(s: State, t: Step)
    requires Basic(s) && Enabled(s, t)
    ensures Basic(Next(s, t))
    ensures s.sent <= Next(s, t).sent && s.log <= Next(s, t).log
  {
    var s' := Next(s, t);
    if t.CommitBridge? || t.CommitOther? {
      CommitKeepsBasic(s, t);
    } else if t.PollStart? {
      PollStartKeepsBasic(s);
    } else {
      QuietKeepsBasic(s, t);
    }
  }

  /** Steps that leave the log alone and start no poll. */
  lemma QuietKeepsBasic(s: State, t: Step)
    requires Basic(s) && Enabled(s, t) && !t.CommitBridge? && !t.CommitOther? && !t.PollStart?
    ensures Basic(Next(s, t))
  {
    var s' := Next(s, t);
    assert s'.log == s.log;
    assert forall e :: FromBridge(s', e) <==> FromBridge(s, e);
    assert forall e :: FromOther(s', e) <==> FromOther(s, e);
    if t.FinishPoll? {
      assert forall x: nat :: Marked(s', x) ==> Marked(s, x);
      assert forall x: nat :: x > Cutoff(s.last) ==> (Marked(s', x) <==> Marked(s, x));
    } else {
      assert forall x: nat :: Marked(s', x) <==> Marked(s, x);
    }
    if t.Filter? {
      assert forall ev :: ev in s'.poller.pending ==> ev in s.poller.pending;
    }
  }

  // ---------------------------------------------------------------------
  // Runs

  ghost predicate Run(ss: seq<State>, ts: seq<Step>) {
    && |ss| == |ts| + 1 && Init(ss[0])
    && forall i :: 0 <= i < |ts| ==> Enabled(ss[i], ts[i]) && ss[i + 1] == Next(ss[i], ts[i])
  }

  lemma {:induction false} RunBasic(ss: seq<State>, ts: seq<Step>, k: nat)
    requires Run(ss, ts) && k <= |ts|
    ensures Basic(ss[k])
  {
    if k == 0 {
      InitBasic(ss[0]);
    } else {
      RunBasic(ss, ts, k - 1);
      StepKeepsBasic(ss[k - 1], ts[k - 1]);
    }
  }

  /** Pruning never drops a bridge epoch that a later poll can still return. */
  lemma PruningSpares(ss: seq<State>, ts: seq<Step>, k: nat, c: Commit)
    requires Run(ss, ts) && k <= |ts| && c in ss[k].log && c.bridge && c.epoch > ss[k].last
    ensures c.epoch in ss[k].epochs || c.epoch in ss[k].unrecorded
  {
    RunBasic(ss, ts, k);
    InheritedStays(ss, ts, k);
    assert Marked(ss[k], c.epoch);
  }

  /** The poller looks at an event whose commit has not been recorded yet. */
  ghost predicate TooEarly(s: State, t: Step) {
    t.Filter? && Enabled(s, t) && s.poller.pending[0].epoch in s.unrecorded
  }

  /** The poller looks at an event of a bridge commit from before this engine. */
  ghost predicate TooOld(s: State, t: Step) {
    t.Filter? && Enabled(s, t) && s.poller.pending[0].epoch in s.inherited
  }

  ghost predicate Unaware(s: State, t: Step) {
    TooEarly(s, t) || TooOld(s, t)
  }

  lemma {:induction false} InheritedStays(ss: seq<State>, ts: seq<Step>, k: nat)
    requires Run(ss, ts) && k <= |ts|
    ensures ss[k].inherited == ss[0].inherited <= {ss[k].start} && ss[k].inclusive == ss[0].inclusive
  {
    if k > 0 {
      InheritedStays(ss, ts, k - 1);
      assert ss[k] == Next(ss[k - 1], ts[k - 1]);
    }
  }

  ghost predicate EchoSent(s: State) {
    exists ev :: ev in s.sent && FromBridge(s, ev.epoch)
  }

  ghost predicate OnlyForeignSent(s: State) {
    forall ev :: ev in s.sent ==> FromOther(s, ev.epoch) && !Marked(s, ev.epoch)
  }

  lemma SameEpochSameCommit(s: State, b: Commit, c: Commit)
    requires LogOk(s) && b in s.log && c in s.log && b.epoch == c.epoch
    ensures b == c
  {
    var i :| 0 <= i < |s.log| && s.log[i] == b;
    var j :| 0 <= j < |s.log| && s.log[j] == c;
  }

  lemma EpochsApart(s: State, e: nat)
    requires Basic(s)
    ensures !(FromBridge(s, e) && FromOther(s, e))
  {
    if FromBridge(s, e) && FromOther(s, e) {
      var b :| b in s.log && b.bridge && b.epoch == e;
      var o :| o in s.log && !o.bridge && o.epoch == e;
      SameEpochSameCommit(s, b, o);
    }
  }

  lemma PassOne(ev: Event, epochs: set<nat>)
    ensures Pass([ev], epochs) == if ev.epoch in epochs then [] else [ev]
  {
  }

  lemma TimelyStepSendsForeign(s: State, t: Step)
    requires Basic(s) && Enabled(s, t) && !Unaware(s, t) && OnlyForeignSent(s)
    ensures OnlyForeignSent(Next(s, t))
  {
    var s' := Next(s, t);
    StepKeepsBasic(s, t);
    if t.Filter? {
      PassOne(s.poller.pending[0], s.epochs);
    }
    forall ev | ev in s'.sent
      ensures FromOther(s', ev.epoch) && !Marked(s', ev.epoch)
    {
      if ev !in s.sent {
        assert ev == s.poller.pending[0] && ev in s.poller.pending;
        assert Explained(s, ev.epoch) && FromOther(s, ev.epoch);
      }
      LogGrows(s, t, ev.epoch);
      var c :| c in s'.log && !c.bridge && c.epoch == ev.epoch;
    }
  }

  lemma UnawareStepSendsEcho(s: State, t: Step)
    requires Basic(s) && Unaware(s, t)
    ensures EchoSent(Next(s, t))
  {
    var ev := s.poller.pending[0];
    PassOne(ev, s.epochs);
    LogGrows(s, t, ev.epoch);
    assert ev in Next(s, t).sent;
  }

  lemma {:induction false} EchoStays(ss: seq<State>, ts: seq<Step>, i: nat, k: nat)
    requires Run(ss, ts) && i <= k <= |ts| && EchoSent(ss[i])
    ensures EchoSent(ss[k])
    decreases k - i
  {
    if i < k {
      RunBasic(ss, ts, i);
      StepKeepsBasic(ss[i], ts[i]);
      var ev :| ev in ss[i].sent && FromBridge(ss[i], ev.epoch);
      LogGrows(ss[i], ts[i], ev.epoch);
      assert ev in ss[i + 1].sent;
      EchoStays(ss, ts, i + 1, k);
    }
  }

  lemma {:induction false} TimelyRunSendsForeign(ss: seq<State>, ts: seq<Step>, k: nat)
    requires Run(ss, ts) && k <= |ts|
    requires forall i :: 0 <= i < k ==> !Unaware(ss[i], ts[i])
    ensures OnlyForeignSent(ss[k])
  {
    if k > 0 {
      TimelyRunSendsForeign(ss, ts, k - 1);
      RunBasic(ss, ts, k - 1);
      TimelyStepSendsForeign(ss[k - 1], ts[k - 1]);
    }
  }

  /** In every run, an event of a bridge commit goes out exactly if the poller
      looked at one between its commit and its recording, or at one from before this
      engine. */
  lemma EchoIff(ss: seq<State>, ts: seq<Step>)
    requires Run(ss, ts)
    ensures EchoSent(ss[|ts|]) <==> exists i :: 0 <= i < |ts| && (TooEarly(ss[i], ts[i]) || TooOld(ss[i], ts[i]))
  {
    if i :| 0 <= i < |ts| && (TooEarly(ss[i], ts[i]) || TooOld(ss[i], ts[i])) {
      RunBasic(ss, ts, i);
      UnawareStepSendsEcho(ss[i], ts[i]);
      EchoStays(ss, ts, i + 1, |ts|);
    } else {
      TimelyRunSendsForeign(ss, ts, |ts|);
      RunBasic(ss, ts, |ts|);
      if ev :| ev in ss[|ts|].sent && FromBridge(ss[|ts|], ev.epoch) {
        EpochsApart(ss[|ts|], ev.epoch);
      }
    }
  }

  /** Every bridge commit is recorded before anything else happens. */
  ghost predicate RecordedAtOnce(ts: seq<Step>) {
    forall i :: 0 <= i && i + 1 < |ts| && ts[i].CommitBridge? ==> ts[i + 1] == Record(ts[i].epoch)
  }

  /** The only commit that can still be unrecorded is the one just made. */
  ghost predicate JustMade(unrecorded: set<nat>, ts: seq<Step>, k: nat)
    requires k <= |ts|
  {
    unrecorded == if k > 0 && ts[k - 1].CommitBridge? then {ts[k - 1].epoch} else {}
  }

  lemma {:induction false} OnlyJustMade(ss: seq<State>, ts: seq<Step>, k: nat)
    requires Run(ss, ts) && RecordedAtOnce(ts) && ss[0].unrecorded == {} && k <= |ts|
    ensures JustMade(ss[k].unrecorded, ts, k)
  {
    if k > 0 {
      OnlyJustMade(ss, ts, k - 1);
      assert Enabled(ss[k - 1], ts[k - 1]) && ss[k] == Next(ss[k - 1], ts[k - 1]);
      if k > 1 && ts[k - 2].CommitBridge? {
        assert ts[k - 2 + 1] == Record(ts[k - 2].epoch);
      }
    }
  }

  /** With commit and record as one step the poller never looks too early. */
  lemma AtOnceNeverTooEarly(ss: seq<State>, ts: seq<Step>, i: nat)
    requires Run(ss, ts) && RecordedAtOnce(ts) && ss[0].unrecorded == {} && i < |ts|
    ensures !TooEarly(ss[i], ts[i])
  {
    OnlyJustMade(ss, ts, i);
    if i > 0 && ts[i - 1].CommitBridge? {
      assert ts[i - 1 + 1] == Record(ts[i - 1].epoch);
    }
  }

  /** With commit and record as one step an event of a bridge commit goes out exactly
      if it comes from before this engine. */
  lemma AtOnceEchoIff(ss: seq<State>, ts: seq<Step>)
    requires Run(ss, ts) && RecordedAtOnce(ts) && ss[0].unrecorded == {}
    ensures EchoSent(ss[|ts|]) <==> exists i :: 0 <= i < |ts| && TooOld(ss[i], ts[i])
  {
    forall i | 0 <= i < |ts|
      ensures !TooEarly(ss[i], ts[i])
    {
      AtOnceNeverTooEarly(ss, ts, i);
    }
    EchoIff(ss, ts);
  }

  /** So none ever does if ranges leave out their lower end, or if the commit at the
      starting epoch is no unknown bridge commit. */
  lemma AtOnceNoEcho(ss: seq<State>, ts: seq<Step>)
    requires Run(ss, ts) && RecordedAtOnce(ts) && ss[0].unrecorded == {}
    requires ss[0].inclusive ==> !FromBridge(ss[0], ss[0].start) || Marked(ss[0], ss[0].start)
    ensures !EchoSent(ss[|ts|])
  {
    AtOnceEchoIff(ss, ts);
    forall i | 0 <= i < |ts|
      ensures !TooOld(ss[i], ts[i])
    {
      InheritedStays(ss, ts, i);
    }
  }

  const EARLY_POLL := [CommitBridge(1, [7]), PollStart, Filter, Record(1)]

  /** Where that run stands after `k` steps, from an empty store. */
  ghost function EarlyPollState(k: nat): State {
    State(false, 0, {}, if k == 0 then [] else [Commit(1, true, [7])], if k == 0 then 0 else 1,
          if k < 4 then {} else {1}, if 1 <= k < 4 then {1} else {}, 0,
          if k < 2 then Idle else Polling(1, if k == 2 then [Event(1, 7)] else []),
          if k < 3 then [] else [Event(1, 7)], 0, [])
  }

  lemma EarlyPollStep(k: nat)
    requires k < 4
    ensures Enabled(EarlyPollState(k), EARLY_POLL[k])
    ensures Next(EarlyPollState(k), EARLY_POLL[k]) == EarlyPollState(k + 1)
  {
    if k == 1 {
      OneCommit();
    } else if k == 2 {
      PassOne(Event(1, 7), {});
    }
  }

  /** A run in which an echo goes out: the poller comes between commit and record. */
  lemma EchoCanBeSent() returns (ss: seq<State>)
    ensures Run(ss, EARLY_POLL) && ss[0].unrecorded == {} && EchoSent(ss[4])
  {
    ss := seq(5, k requires 0 <= k => EarlyPollState(k));
    forall k | 0 <= k < |EARLY_POLL|
      ensures Enabled(ss[k], EARLY_POLL[k]) && ss[k + 1] == Next(ss[k], EARLY_POLL[k])
    {
      EarlyPollStep(k);
    }
    var last := EarlyPollState(4);
    assert last.log[0] in last.log && FromBridge(last, 1);
    assert Event(1, 7) in last.sent;
  }

  lemma OneCommit()
    ensures Changes([Commit(1, true, [7])], 0, 1, false) == [Event(1, 7)]
  {
    assert [Commit(1, true, [7])][..0] == [];
    assert Events(Commit(1, true, [7])) == [Event(1, 7)];
  }

  /** A restarted engine over ranges with their lower end: the store's last commit was
      the bridge's, recorded by an engine that is gone. */
  ghost function RestartState(k: nat): State {
    var old1, new2 := Commit(1, true, [7]), Commit(2, false, [8]);
    State(true, 1, {1}, if k == 0 then [old1] else [old1, new2], if k == 0 then 1 else 2, {}, {}, 1,
          if k < 2 then Idle else Polling(2, if k == 2 then [Event(1, 7), Event(2, 8)] else [Event(2, 8)]),
          if k < 3 then [] else [Event(1, 7)], 0, [])
  }

  const RESTART := [CommitOther(2, [8]), PollStart, Filter]

  lemma RestartStep(k: nat)
    requires k < 3
    ensures Enabled(RestartState(k), RESTART[k])
    ensures Next(RestartState(k), RESTART[k]) == RestartState(k + 1)
  {
    if k == 1 {
      TwoCommits();
    } else if k == 2 {
      PassOne(Event(1, 7), {});
      assert [Event(1, 7), Event(2, 8)][1..] == [Event(2, 8)];
    }
  }

  lemma TwoCommits()
    ensures Changes([Commit(1, true, [7]), Commit(2, false, [8])], 1, 2, true) == [Event(1, 7), Event(2, 8)]
  {
    var log := [Commit(1, true, [7]), Commit(2, false, [8])];
    assert log[..1] == [log[0]] && log[..1][..0] == [];
    assert Events(log[0]) == [Event(1, 7)] && Events(log[1]) == [Event(2, 8)];
    assert Changes(log[..1], 1, 2, true) == [Event(1, 7)];
  }

  /** It sends the old commit's event out, although nothing is left unrecorded and the
      poller is never too early. */
  lemma RestartSendsEcho() returns (ss: seq<State>)
    ensures Run(ss, RESTART) && RecordedAtOnce(RESTART) && ss[0].unrecorded == {} && ss[0].epochs == {}
    ensures EchoSent(ss[3]) && forall i :: 0 <= i < 3 ==> !TooEarly(ss[i], RESTART[i])
  {
    ss := seq(4, k requires 0 <= k => RestartState(k));
    forall k | 0 <= k < |RESTART|
      ensures Enabled(ss[k], RESTART[k]) && ss[k + 1] == Next(ss[k], RESTART[k])
    {
      RestartStep(k);
    }
    assert ss[0].log[0] in ss[0].log && FromBridge(ss[0], 1);
    assert ss[3].log[0] in ss[3].log && FromBridge(ss[3], 1);
    assert Event(1, 7) in ss[3].sent;
  }

  // ---------------------------------------------------------------------
  // Exactly once, in order

  lemma {:induction false} PassAppend(a: seq<Event>, b: seq<Event>, epochs: set<nat>)
    ensures Pass(a + b, epochs) == Pass(a, epochs) + Pass(b, epochs)
  {
    if a == [] {
      assert a + b == b;
    } else {
      assert (a + b)[1..] == a[1..] + b;
      PassAppend(a[1..], b, epochs);
    }
  }

  lemma {:induction false} PassSame(events: seq<Event>, a: set<nat>, b: set<nat>)
    requires forall ev :: ev in events ==> (ev.epoch in a <==> ev.epoch in b)
    ensures Pass(events, a) == Pass(events, b)
  {
    if events != [] {
      PassSame(events[1..], a, b);
    }
  }

  lemma {:induction false} PassEvents(c: Commit, events: seq<Event>, epochs: set<nat>)
    requires forall ev :: ev in events ==> ev.epoch == c.epoch
    ensures Pass(events, epochs) == if c.epoch in epochs then [] else events
  {
    if events != [] {
      assert events[0] in events;
      PassEvents(c, events[1..], epochs);
      assert events == [events[0]] + events[1..];
    }
  }

  /** Filtering a range by the marked epochs leaves the other commits' events. */
  lemma {:induction false} FilteredRange(log: seq<Commit>, lo: nat, hi: nat, marked: set<nat>)
    requires forall c :: c in log && lo < c.epoch <= hi ==> (c.epoch in marked <==> c.bridge)
    ensures Pass(Changes(log, lo, hi, false), marked) == Foreign(log, lo, hi)
  {
    if log != [] {
      var k := |log| - 1;
      var c := log[k];
      FilteredRange(log[..k], lo, hi, marked);
      assert c in log;
      PassEvents(c, Events(c), marked);
      PassAppend(Changes(log[..k], lo, hi, false), if lo < c.epoch && c.epoch <= hi then Events(c) else [], marked);
    }
  }

  lemma {:induction false} ForeignEmpty(log: seq<Commit>, lo: nat, hi: nat)
    requires forall c :: c in log ==> c.epoch <= lo || c.epoch > hi
    ensures Foreign(log, lo, hi) == []
  {
    if log != [] {
      assert log[|log| - 1] in log;
      ForeignEmpty(log[..|log| - 1], lo, hi);
    }
  }

  /** Consecutive ranges fit together without gap or overlap. */
  lemma {:induction false} ForeignSplit(log: seq<Commit>, lo: nat, mid: nat, hi: nat)
    requires forall i, j :: 0 <= i < j < |log| ==> log[i].epoch < log[j].epoch
    requires lo <= mid <= hi
    ensures Foreign(log, lo, hi) == Foreign(log, lo, mid) + Foreign(log, mid, hi)
  {
    if log != [] {
      var k := |log| - 1;
      ForeignSplit(log[..k], lo, mid, hi);
      var g, h := Foreign(log[..k], lo, mid), Foreign(log[..k], mid, hi);
      if log[k].epoch <= mid {
        ForeignEmpty(log[..k], mid, hi);
        assert ForeignOf(log[k], mid, hi) == [] && ForeignOf(log[k], lo, hi) == ForeignOf(log[k], lo, mid);
        AppendEither(g, h, ForeignOf(log[k], lo, mid), []);
      } else {
        assert ForeignOf(log[k], lo, mid) == [] && ForeignOf(log[k], lo, hi) == ForeignOf(log[k], mid, hi);
        AppendEither(g, h, [], ForeignOf(log[k], mid, hi));
      }
    }
  }

  lemma AppendEither(g: seq<Event>, h: seq<Event>, x: seq<Event>, y: seq<Event>)
    requires x == [] || (h == [] && y == [])
    ensures (g + h) + (if x == [] then y else x) == (g + x) + (h + y)
  {
  }

  ghost function AllMarked(s: State): set<nat> {
    s.epochs + s.unrecorded
  }

  /** What has been sent is what the other commits carry, up to the poller's position
      and less what it still holds; the worker has let through all it took. */
  ghost predicate Exact(s: State) {
    && !s.inclusive && s.taken <= |s.sent| && s.handled == s.sent[..s.taken]
    && match s.poller
       case Idle => s.sent == Foreign(s.log, s.start, s.last)
       case Polling(upTo, pending) => s.sent + Pass(pending, AllMarked(s)) == Foreign(s.log, s.start, upTo)
       case Stopped => s.sent <= Foreign(s.log, s.start, s.now)
  }

  lemma {:induction false} ForeignUnder(log: seq<Commit>, c: Commit, lo: nat, hi: nat)
    ensures c.epoch > hi ==> Foreign(log + [c], lo, hi) == Foreign(log, lo, hi)
    ensures Foreign(log, lo, hi) <= Foreign(log + [c], lo, hi)
  {
    assert (log + [c])[..|log|] == log;
  }

  lemma CommitKeepsExact(s: State, t: Step)
    requires Basic(s) && Exact(s) && Enabled(s, t) && (t.CommitBridge? || t.CommitOther?)
    ensures Exact(Next(s, t))
  {
    var s' := Next(s, t);
    var c := s'.log[|s.log|];
    match s.poller
    case Idle => ForeignUnder(s.log, c, s.start, s.last);
    case Polling(upTo, pending) =>
      ForeignUnder(s.log, c, s.start, upTo);
      PassSame(pending, AllMarked(s), AllMarked(s'));
    case Stopped => StoppedPrefix(s, c);
  }

  lemma StoppedPrefix(s: State, c: Commit)
    requires LogOk(s) && s.start <= s.now < c.epoch && s.sent <= Foreign(s.log, s.start, s.now)
    ensures s.sent <= Foreign(s.log + [c], s.start, c.epoch)
  {
    ForeignUnder(s.log, c, s.start, s.now);
    ForeignSplit(s.log + [c], s.start, s.now, c.epoch);
  }

  lemma PollStartKeepsExact(s: State)
    requires Basic(s) && Exact(s) && Enabled(s, PollStart)
    ensures Exact(Next(s, PollStart))
  {
    var marked := AllMarked(s);
    forall c | c in s.log && s.last < c.epoch <= s.now
      ensures c.epoch in marked <==> c.bridge
    {
      assert Marked(s, c.epoch) <==> c.bridge;
    }
    FilteredRange(s.log, s.last, s.now, marked);
    ForeignSplit(s.log, s.start, s.last, s.now);
    assert AllMarked(Next(s, PollStart)) == marked;
  }

  lemma FilterOne(sent: seq<Event>, pending: seq<Event>, epochs: set<nat>, marked: set<nat>)
    requires pending != [] && (pending[0].epoch in epochs <==> pending[0].epoch in marked)
    ensures (sent + Pass([pending[0]], epochs)) + Pass(pending[1..], marked) == sent + Pass(pending, marked)
  {
    PassOne(pending[0], epochs);
  }

  lemma FilterKeepsExact(s: State)
    requires Exact(s) && Enabled(s, Filter) && !TooEarly(s, Filter)
    ensures Exact(Next(s, Filter))
  {
    var s' := Next(s, Filter);
    FilterOne(s.sent, s.poller.pending, s.epochs, AllMarked(s));
    assert AllMarked(s') == AllMarked(s);
    assert s.sent <= s'.sent;
  }

  lemma TakeOne(sent: seq<Event>, taken: nat, epochs: set<nat>)
    requires taken < |sent| && sent[taken].epoch !in epochs
    ensures sent[..taken] + Pass([sent[taken]], epochs) == sent[..taken + 1]
  {
    PassOne(sent[taken], epochs);
  }

  lemma TakeKeepsExact(s: State)
    requires Exact(s) && OnlyForeignSent(s) && Enabled(s, Take)
    ensures Exact(Next(s, Take))
  {
    assert s.sent[s.taken] in s.sent && !Marked(s, s.sent[s.taken].epoch);
    TakeOne(s.sent, s.taken, s.epochs);
    assert AllMarked(Next(s, Take)) == AllMarked(s);
  }

  lemma OtherKeepsExact(s: State, t: Step)
    requires Basic(s) && Exact(s) && Enabled(s, t) && (t.Record? || t.SendFail? || t.FinishPoll? || t.PollFail?)
    ensures Exact(Next(s, t))
  {
    if t.Record? {
      assert AllMarked(Next(s, t)) == AllMarked(s);
    } else if t.SendFail? {
      ForeignSplit(s.log, s.start, s.poller.upTo, s.now);
    }
  }

  lemma StepKeepsExact(s: State, t: Step)
    requires Basic(s) && Exact(s) && OnlyForeignSent(s) && Enabled(s, t) && !TooEarly(s, t)
    ensures Exact(Next(s, t))
  {
    match t
    case CommitBridge(_, _) => CommitKeepsExact(s, t);
    case CommitOther(_, _) => CommitKeepsExact(s, t);
    case PollStart => PollStartKeepsExact(s);
    case Filter => FilterKeepsExact(s);
    case Take => TakeKeepsExact(s);
    case _ => OtherKeepsExact(s, t);
  }

  lemma {:induction false} TimelyRunExact(ss: seq<State>, ts: seq<Step>, k: nat)
    requires Run(ss, ts) && !ss[0].inclusive && k <= |ts|
    requires forall i :: 0 <= i < k ==> !TooEarly(ss[i], ts[i])
    ensures Exact(ss[k])
  {
    if k == 0 {
      ForeignEmpty(ss[0].log, ss[0].start, ss[0].last);
    } else {
      TimelyRunExact(ss, ts, k - 1);
      forall i | 0 <= i < k - 1
        ensures !Unaware(ss[i], ts[i])
      {
        InheritedStays(ss, ts, i);
      }
      TimelyRunSendsForeign(ss, ts, k - 1);
      RunBasic(ss, ts, k - 1);
      StepKeepsExact(ss[k - 1], ts[k - 1]);
    }
  }

  /** With ranges that leave out their lower end, and commits recorded before the
      poller gets to their events: between polls, the events sent are exactly those of
      the other commits since startup up to the poller's position, each once and in
      commit order, failed polls or not, and the worker drops none of them. */
  lemma ExactlyOnce(ss: seq<State>, ts: seq<Step>)
    requires Run(ss, ts) && !ss[0].inclusive
    requires forall i :: 0 <= i < |ts| ==> !TooEarly(ss[i], ts[i])
    ensures var s := ss[|ts|];
            && (s.poller.Idle? ==> s.sent == Foreign(s.log, s.start, s.last))
            && s.taken <= |s.sent| && s.handled == s.sent[..s.taken]
  {
    TimelyRunExact(ss, ts, |ts|);
  }

  /** The same with commit and record as one step, without any other assumption on
      the timing. */
  lemma AtOnceExactlyOnce(ss: seq<State>, ts: seq<Step>)
    requires Run(ss, ts) && RecordedAtOnce(ts) && ss[0].unrecorded == {} && !ss[0].inclusive
    ensures var s := ss[|ts|];
            && (s.poller.Idle? ==> s.sent == Foreign(s.log, s.start, s.last))
            && s.taken <= |s.sent| && s.handled == s.sent[..s.taken]
  {
    forall i | 0 <= i < |ts|
      ensures !TooEarly(ss[i], ts[i])
    {
      AtOnceNeverTooEarly(ss, ts, i);
    }
    ExactlyOnce(ss, ts);
  }

  lemma {:induction false} ChangesHold(log: seq<Commit>, lo: nat, hi: nat, inclusive: bool, c: Commit, ev: Event)
    requires c in log && ev in Events(c) && (lo < c.epoch || (inclusive && lo == c.epoch)) && c.epoch <= hi
    ensures ev in Changes(log, lo, hi, inclusive)
  {
    var k := |log| - 1;
    if c in log[..k] {
      ChangesHold(log[..k], lo, hi, inclusive, c, ev);
    }
  }

  /** An event at the boundary of two polls is returned by the earlier one, and by the
      later one too exactly if ranges include their lower end. */
  lemma BoundaryReturnedTwice(log: seq<Commit>, lo: nat, mid: nat, hi: nat, inclusive: bool, c: Commit, ev: Event)
    requires c in log && ev in Events(c) && lo < c.epoch == mid <= hi
    ensures ev in Changes(log, lo, mid, inclusive)
    ensures ev in Changes(log, mid, hi, inclusive) <==> inclusive
  {
    ChangesHold(log, lo, mid, inclusive, c, ev);
    if inclusive {
      ChangesHold(log, mid, hi, inclusive, c, ev);
    } else if ev in Changes(log, mid, hi, inclusive) {
      ChangesMember(log, mid, hi, inclusive, ev);
    }
  }

  ghost function Takes(ts: seq<Step>): nat {
    if ts == [] then 0 else Takes(ts[..|ts| - 1]) + if ts[|ts| - 1].Take? then 1 else 0
  }

  /** The worker has looked at one event for each of its steps, no more and no less. */
  lemma {:induction false} TakenCounts(ss: seq<State>, ts: seq<Step>, k: nat)
    requires Run(ss, ts) && k <= |ts|
    ensures ss[k].taken == Takes(ts[..k])
  {
    if k > 0 {
      TakenCounts(ss, ts, k - 1);
      assert ts[..k][..k - 1] == ts[..k - 1];
      assert Enabled(ss[k - 1], ts[k - 1]) && ss[k] == Next(ss[k - 1], ts[k - 1]);
      OneStepTaken(ss[k - 1], ts[k - 1]);
    }
  }

  lemma OneStepTaken(s: State, t: Step)
    requires Enabled(s, t)
    ensures Next(s, t).taken == s.taken + if t.Take? then 1 else 0
  {
  }

  /** What one step of the worker lets through. */
  lemma TakeHandles(s: State)
    requires Enabled(s, Take)
    ensures var s', ev := Next(s, Take), s.sent[s.taken];
            s'.taken == s.taken + 1 && s'.sent == s.sent
            && s'.handled == if ev.epoch in s.epochs then s.handled else s.handled + [ev]
  {
    PassOne(s.sent[s.taken], s.epochs);
  }

  /** Pruning keeps exactly the epochs above the poller's position less ten thousand,
      and never epoch zero. */
  lemma RetainedExact(epochs: set<nat>, last: nat, e: nat)
    ensures e in Retained(epochs, last) <==> e in epochs && e > 0 && e + 10_000 > last
  {
  }

  // ---------------------------------------------------------------------
  // One poll

  /** The filter steps of one poll, with no other step between them. */
  ghost function FilterAll(s: State): State
    requires s.poller.Polling?
    decreases if s.poller.Polling? then |s.poller.pending| else 0
  {
    if s.poller.pending == [] then s else FilterAll(Next(s, Filter))
  }

  lemma {:induction false} FilterAllPasses(s: State)
    requires s.poller.Polling?
    ensures FilterAll(s) == s.(poller := Polling(s.poller.upTo, []), sent := s.sent + Pass(s.poller.pending, s.epochs))
    decreases |s.poller.pending|
  {
    if s.poller.pending == [] {
      assert s.sent + Pass(s.poller.pending, s.epochs) == s.sent;
    } else {
      FilterAllPasses(Next(s, Filter));
      FilterOne(s.sent, s.poller.pending, s.epochs, s.epochs);
    }
  }

  /** A poll that nothing interrupts does what the loop below does. */
  lemma UninterruptedPoll(s: State)
    requires s.poller.Polling?
    ensures Enabled(FilterAll(s), FinishPoll)
    ensures Next(FilterAll(s), FinishPoll) ==
              s.(poller := Idle, sent := s.sent + Pass(s.poller.pending, s.epochs),
                 epochs := Retained(s.epochs, s.last), last := s.poller.upTo)
  {
    FilterAllPasses(s);
  }

  /** The shared set and the poller's position. */
  class CdcPoller {
    var epochs: set<nat>
    var lastEpoch: nat
    var outbound: seq<Event>

    constructor (epochs: set<nat>, current: nat)
      ensures this.epochs == epochs && lastEpoch == current && outbound == []
    {
      this.epochs, lastEpoch, outbound := epochs, current, [];
    }

    /** Forward what passes the filter, prune, advance. */
    method Deliver(events: seq<Event>, current: nat)
      modifies this
      ensures outbound == old(outbound) + Pass(events, old(epochs))
      ensures epochs == Retained(old(epochs), old(lastEpoch)) && lastEpoch == current
    {
      ghost var sent := outbound;
      for i := 0 to |events|
        invariant epochs == old(epochs) && lastEpoch == old(lastEpoch)
        invariant outbound == sent + Pass(events[..i], epochs)
      {
        assert events[..i + 1] == events[..i] + [events[i]];
        PassAppend(events[..i], [events[i]], epochs);
        PassOne(events[i], epochs);
        if events[i].epoch !in epochs {
          outbound := outbound + [events[i]];
        }
      }
      assert events[..|events|] == events;
      var cutoff := if lastEpoch < EPOCH_RETENTION then 0 else lastEpoch - EPOCH_RETENTION;
      epochs := set e | e in epochs && e > cutoff;
      lastEpoch := current;
    }
  }
}
