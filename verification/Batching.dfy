/** The inbound batcher (src/bridge/batcher.rs): operations are collected and
    applied a transaction at a time. */
module Batching {
  import opened Bridge
  import opened BridgeApply

  /** What the loop is woken by. */
  datatype Wake = Receive(op: LoroOp) | Tick | Shutdown

  /** The operations received before the first shutdown. */
  function Received(wakes: seq<Wake>): (ops: seq<LoroOp>) {
    if wakes == [] || wakes[0] == Shutdown then []
    else (if wakes[0].Receive? then [wakes[0].op] else []) + Received(wakes[1..])
  }

  lemma {:induction false} ReceivedAppend(wakes: seq<Wake>, w: Wake)
    requires Shutdown !in wakes
    ensures Received(wakes + [w]) == Received(wakes) + Received([w])
  {
    if wakes != [] {
      assert (wakes + [w])[1..] == wakes[1..] + [w];
      ReceivedAppend(wakes[1..], w);
    }
  }

  lemma {:induction false} ReceivedUntil(wakes: seq<Wake>, n: nat)
    requires n < |wakes| && wakes[n] == Shutdown && Shutdown !in wakes[..n]
    ensures Received(wakes) == Received(wakes[..n])
  {
    if n > 0 {
      assert wakes[0] == wakes[..n][0] && wakes[..n][1..] == wakes[1..][..n - 1];
      ReceivedUntil(wakes[1..], n - 1);
    }
  }

  lemma RunsJoin(us: seq<World>, a: seq<LoroOp>, vs: seq<World>, b: seq<LoroOp>)
    requires Run(us, a) && Run(vs, b) && us[|a|] == vs[0]
    ensures Run(us + vs[1..], a + b)
  {
    var ws, ops := us + vs[1..], a + b;
    forall i | 0 <= i < |ops|
      ensures Step(ws[i], ops[i], true, ws[i + 1])
    {
      if i < |a| {
        assert Step(us[i], a[i], true, us[i + 1]);
      } else {
        assert ws[i] == vs[i - |a|] && Step(vs[i - |a|], b[i - |a|], true, vs[i - |a| + 1]);
      }
    }
  }

  ghost predicate EndsWith(s: seq<LoroOp>, b: seq<LoroOp>) {
    |b| <= |s| && s[|s| - |b|..] == b
  }

  /** Of the first `n` wake-ups: what is still buffered was received after every tick. */
  ghost predicate SinceLastTick(wakes: seq<Wake>, n: nat, buffer: seq<LoroOp>)
    requires n <= |wakes|
  {
    forall t :: 0 <= t < n ==> Since(wakes, t, n, buffer)
  }

  ghost predicate Since(wakes: seq<Wake>, t: nat, n: nat, buffer: seq<LoroOp>)
    requires t < n <= |wakes|
  {
    wakes[t] == Tick ==> EndsWith(Received(wakes[t + 1..n]), buffer)
  }

  lemma TickTurn(wakes: seq<Wake>, n: nat, before: seq<LoroOp>, after: seq<LoroOp>)
    requires n < |wakes| && Shutdown !in wakes[..n + 1] && SinceLastTick(wakes, n, before)
    requires after == [] || (wakes[n].Receive? && after == before + Received([wakes[n]]))
    ensures SinceLastTick(wakes, n + 1, after)
  {
    var m := n + 1;
    forall t | 0 <= t < m
      ensures Since(wakes, t, m, after)
    {
      if t < n {
        assert Since(wakes, t, n, before);
        var later := wakes[t + 1..n];
        assert wakes[t + 1..m] == later + [wakes[n]];
        assert forall w :: w in later ==> w in wakes[..m];
        ReceivedAppend(later, wakes[n]);
      }
    }
  }

  lemma ServeTurn(wakes: seq<Wake>, i: nat, input: seq<LoroOp>, total: seq<LoroOp>)
    requires i < |wakes| && Shutdown !in wakes[..i] && total == input + Received(wakes[..i])
    ensures total + Received([wakes[i]]) == input + Received(wakes[..i + 1])
    ensures wakes[i] != Shutdown ==> Shutdown !in wakes[..i + 1]
  {
    assert wakes[..i + 1] == wakes[..i] + [wakes[i]];
    ReceivedAppend(wakes[..i], wakes[i]);
  }

  /** One new epoch for each commit in between. */
  ghost predicate Recorded(epochs: set<nat>, clock: nat, epochs': set<nat>, clock': nat) {
    clock <= clock' && forall e :: e in epochs' <==> e in epochs || clock < e <= clock'
  }

  class OpBatcher {
    const session: Session
    const maps: BridgeMaps
    const batchSize: nat
    var buffer: seq<LoroOp>
    var clock: nat
    var epochs: set<nat>
    /** Every world since the start, and the operations between them. */
    ghost var worlds: seq<World>
    ghost var applied: seq<LoroOp>

    constructor (s: Session, m: BridgeMaps, size: nat, now: nat)
      requires s.Valid()
      ensures Valid() && Current() && session == s && maps == m && batchSize == size && clock == now
      ensures buffer == [] && applied == [] && epochs == {} && worlds == [WorldOf(s, m)]
    {
      session, maps, batchSize, buffer, clock, epochs := s, m, size, [], now, {};
      worlds, applied := [WorldOf(s, m)], [];
    }

    ghost predicate Valid()
      reads this, session
    {
      && session.Valid() && Run(worlds, applied)
      && (buffer != [] ==> |buffer| < batchSize)
    }

    /** The store holds what the operations applied so far amount to. */
    ghost predicate Current()
      reads this, session, maps
    {
      |worlds| == |applied| + 1 && WorldOf(session, maps) == worlds[|applied|]
    }

    /** One transaction and the record of its commit. */
    method FlushInner(ops: seq<LoroOp>) returns (ok: bool, ghost reached: World)
      requires Valid() && Current()
      modifies this`clock, this`epochs, this`worlds, this`applied, session, maps
      ensures Valid() && worlds[0] == old(worlds)[0]
      ensures ok ==> Current() && applied == old(applied) + ops
      ensures ok ==> clock == old(clock) + 1 && epochs == old(epochs) + {clock}
      ensures !ok ==> applied == old(applied) && clock == old(clock) && epochs == old(epochs)
      ensures !ok ==> WorldOf(session, maps) == RolledBack(old(WorldOf(session, maps)), reached)
      ensures !ok ==> worlds == old(worlds) && RefusedBatch(old(WorldOf(session, maps)), ops, reached)
    {
      ghost var ws;
      ok, ws := FlushBatch(session, ops, maps);
      assert !ok ==> RefusedAfter(ws, old(WorldOf(session, maps)), ops, ws[|ws| - 1]);
      reached := ws[|ws| - 1];
      if ok {
        RunsJoin(worlds, applied, ws, ops[..|ops|]);
        assert ops[..|ops|] == ops;
        worlds, applied := worlds + ws[1..], applied + ops;
        clock := clock + 1;
        epochs := epochs + {clock};
      }
    }

    /** Drain the buffer; nothing to commit if it is empty. */
    method Flush() returns (ok: bool, ghost reached: World)
      requires session.Valid() && Run(worlds, applied) && Current()
      modifies this`buffer, this`clock, this`epochs, this`worlds, this`applied, session, maps
      ensures Valid() && buffer == [] && worlds[0] == old(worlds)[0]
      ensures ok ==> Current() && applied == old(applied) + old(buffer)
      ensures ok ==> clock == old(clock) + (if old(buffer) == [] then 0 else 1)
      ensures ok ==> epochs == old(epochs) + if old(buffer) == [] then {} else {clock}
      ensures !ok ==> applied == old(applied) && clock == old(clock) && epochs == old(epochs)
      ensures !ok ==> WorldOf(session, maps) == RolledBack(old(WorldOf(session, maps)), reached)
      ensures !ok ==> worlds == old(worlds) && RefusedBatch(old(WorldOf(session, maps)), old(buffer), reached)
    {
      var drained := buffer;
      buffer := [];
      if drained == [] {
        return true, worlds[|applied|];
      }
      ok, reached := FlushInner(drained);
    }

    /** A batch was refused at `reached` and rolled back to where the last one ended. */
    ghost predicate Refused(batch: seq<LoroOp>, reached: World)
      reads this, session, maps
    {
      && |worlds| == |applied| + 1 && RefusedBatch(worlds[|applied|], batch, reached)
      && WorldOf(session, maps) == RolledBack(worlds[|applied|], reached)
    }

    /** This wake-up empties the buffer: a tick, the end, or a full batch. */
    ghost predicate Flushes(w: Wake)
      reads this
    {
      !w.Receive? || |buffer| + 1 >= batchSize
    }

    /** One wake-up: collect, and flush when the batch is full, on a tick and at
        the end, in one commit if there is anything to flush. `batch` is what was to be
        flushed. */
    method Handle(w: Wake) returns (ok: bool, ghost batch: seq<LoroOp>, ghost reached: World)
      requires Valid() && Current()
      modifies this`buffer, this`clock, this`epochs, this`worlds, this`applied, session, maps
      ensures Valid() && worlds[0] == old(worlds)[0] && (w == Shutdown ==> buffer == [])
      ensures ok ==> Current() && applied + buffer == old(applied + buffer) + Received([w])
      ensures !ok ==> buffer == [] && applied + batch == old(applied + buffer) + Received([w])
      ensures Recorded(old(epochs), old(clock), epochs, clock)
      ensures ok && old(Flushes(w)) ==> buffer == []
      ensures ok && old(Flushes(w)) ==> clock == old(clock) + if old(buffer) + Received([w]) == [] then 0 else 1
      ensures !old(Flushes(w)) ==> ok && buffer == old(buffer) + Received([w]) && applied == old(applied)
      ensures !ok ==> worlds == old(worlds) && applied == old(applied) && Refused(batch, reached)
      ensures !old(Flushes(w)) ==> clock == old(clock) && WorldOf(session, maps) == old(WorldOf(session, maps))
    {
      ok, batch, reached := true, buffer, worlds[|applied|];
      assert applied + (buffer + Received([w])) == applied + buffer + Received([w]);
      match w
      case Shutdown => ok, reached := Flush();
      case Tick => ok, reached := Flush();
      case Receive(op) =>
        buffer := buffer + [op];
        batch := buffer;
        if |buffer| >= batchSize {
          ok, reached := Flush();
        }
    }

    /** Serves wake-ups until a shutdown or a batch that is refused. */
    method Serve(wakes: seq<Wake>) returns (ok: bool, ghost served: nat, ghost batch: seq<LoroOp>, ghost reached: World)
      requires Valid() && Current()
      modifies this`buffer, this`clock, this`epochs, this`worlds, this`applied, session, maps
      ensures Valid() && served <= |wakes| && worlds[0] == old(worlds)[0]
      ensures ok ==> Current() && applied + buffer == old(applied + buffer) + Received(wakes)
      ensures ok && Shutdown in wakes ==> buffer == []
      ensures !ok ==> buffer == [] && applied + batch == old(applied + buffer) + Received(wakes[..served])
      ensures Recorded(old(epochs), old(clock), epochs, clock)
      ensures !ok ==> Refused(batch, reached)
      ensures ok && Shutdown !in wakes ==> SinceLastTick(wakes, |wakes|, buffer)
    {
      ghost var input := applied + buffer;
      for i := 0 to |wakes|
        invariant Valid() && Current() && worlds[0] == old(worlds)[0] && Shutdown !in wakes[..i]
        invariant applied + buffer == input + Received(wakes[..i])
        invariant Recorded(old(epochs), old(clock), epochs, clock)
        invariant SinceLastTick(wakes, i, buffer)
      {
        ghost var collected := buffer;
        ghost var total := applied + buffer;
        ServeTurn(wakes, i, input, total);
        ok, batch, reached := Handle(wakes[i]);
        if !ok {
          return false, i + 1, batch, reached;
        }
        if wakes[i] == Shutdown {
          ReceivedUntil(wakes, i);
          return true, i + 1, [], reached;
        }
        TickTurn(wakes, i, collected, buffer);
      }
      assert wakes[..|wakes|] == wakes;
      return true, |wakes|, [], worlds[|applied|];
    }
  }
}
