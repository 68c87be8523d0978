/** Per-writer shadow commits with bounded undo (src/shadow/mod.rs). */
module ShadowStore {
  import opened Results
  import opened Graphs
  import opened ParentChains

  /** A 32-byte content hash. */
  type Id = nat

  datatype ShadowCommit = ShadowCommit(id: Id, parents: seq<Id>, peer: string, timestampMs: nat, stateVector: seq<nat>)

  datatype ShadowError = CommitNotFound(commitId: Id) | NotInPeerHistory(commitId: Id, peer: string)

  /** Everything that goes into a commit's hash. */
  type Hash = (string, seq<Id>, nat, seq<nat>) -> Id

  datatype Store = Store(refs: map<string, Id>, commits: map<Id, ShadowCommit>) {

    /** Commit to first parent. */
    ghost function FirstParents(): map<Id, Id> {
      map c | c in commits && commits[c].parents != [] :: commits[c].parents[0]
    }

    ghost function History(tip: Id): seq<Id> {
      Chain(FirstParents(), tip)
    }

    /** Tips and parents are stored, and first parents never lead round in a circle. */
    ghost predicate Valid() {
      && (forall p :: p in refs ==> refs[p] in commits)
      && (forall c, i :: c in commits && 0 <= i < |commits[c].parents| ==> commits[c].parents[i] in commits)
      && Acyclic(Up(FirstParents()))
    }

    /** The commit that a call makes: the tip stands in for missing parents. */
    function Made(hash: Hash, peer: string, parents: seq<Id>, now: nat, state: seq<nat>): ShadowCommit {
      var ps := if parents == [] && peer in refs then [refs[peer]] else parents;
      ShadowCommit(hash(peer, ps, now, state), ps, peer, now, state)
    }

    function Commit(c: ShadowCommit): Store {
      Store(refs[c.peer := c.id], commits[c.id := c])
    }

    /** An id that is taken belongs to the very same commit. */
    ghost predicate CollisionFree(c: ShadowCommit) {
      c.id in commits ==> commits[c.id] == c
    }

    ghost function ResetVerdict(peer: string, target: Id): Result<Id, ShadowError> {
      if target !in commits then Err(CommitNotFound(target))
      else if peer in refs && target !in History(refs[peer]) then Err(NotInPeerHistory(target, peer))
      else Ok(if peer in refs then refs[peer] else target)
    }

    ghost function Reset(peer: string, target: Id): Store {
      if ResetVerdict(peer, target).Ok? then this.(refs := refs[peer := target]) else this
    }

    lemma HistoryStored(tip: Id)
      requires Valid() && tip in commits
      ensures forall c :: c in History(tip) ==> c in commits
    {
      ChainWithin(FirstParents(), commits.Keys, tip);
    }

    /** A commit without collision, on parents already stored, keeps the store
        valid, leaves every existing history as it was, and puts the new commit in
        front of its first parent's history. */
    lemma CommitKeeps(c: ShadowCommit)
      requires Valid() && CollisionFree(c) && forall i :: 0 <= i < |c.parents| ==> c.parents[i] in commits
      ensures Commit(c).Valid()
      ensures forall x :: x in commits ==> Commit(c).History(x) == History(x)
      ensures Commit(c).History(c.id) == [c.id] + (if c.parents == [] then [] else History(c.parents[0]))
    {
      var fp, fp' := FirstParents(), Commit(c).FirstParents();
      if c.id in commits {
        assert Commit(c).commits == commits;
        if c.parents != [] { ChainUnfold(fp, c.id); }
      } else {
        FreshCommit(c);
      }
    }

    lemma FreshCommit(c: ShadowCommit)
      requires Valid() && c.id !in commits && forall i :: 0 <= i < |c.parents| ==> c.parents[i] in commits
      ensures Commit(c).Valid()
      ensures forall x :: x in commits ==> Commit(c).History(x) == History(x)
      ensures Commit(c).History(c.id) == [c.id] + (if c.parents == [] then [] else History(c.parents[0]))
    {
      var fp, fp' := FirstParents(), Commit(c).FirstParents();
      if c.parents == [] {
        assert fp' == fp;
      } else {
        var p := c.parents[0];
        assert p in commits;
        assert fp' == fp[c.id := p];
        assert fp' - {c.id} == fp;
        HistoryStored(p);
        RepointAcyclic(fp, c.id, p);
        assert Acyclic(Up(fp'));
      }
      forall x | x in commits
        ensures Commit(c).History(x) == History(x)
      {
        HistoryStored(x);
        assert c.id !in Chain(fp, x);
        Unaffected(fp, fp', c.id, x);
      }
      if c.parents != [] {
        ChainUnfold(fp', c.id);
      }
    }

    static lemma Unaffected(fp: map<Id, Id>, fp': map<Id, Id>, id: Id, x: Id)
      requires fp == fp' - {id} && id !in fp && id !in Chain(fp, x)
      ensures Chain(fp', x) == Chain(fp, x)
    {
      if id in Chain(fp', x) {
        ChainMeets(fp', id, x);
      } else {
        ChainIgnores(fp', id, x);
      }
    }

    /** Cutting the link out of a node does not keep the chain from reaching it. */
    static lemma ChainMeets(m: map<Id, Id>, id: Id, x: Id)
      requires id in Chain(m, x)
      ensures id in Chain(m - {id}, x)
    {
      ChainIsReach(m, x, id);
      ArriveWithoutLeaving(Up(m), Up(m - {id}), x, id);
      ChainIsReach(m - {id}, x, id);
    }

    /** A successful reset goes back along the peer's own history, and what is left
        of it is the rest of that history; other peers keep their tips. */
    lemma ResetKeeps(peer: string, target: Id)
      requires Valid() && ResetVerdict(peer, target).Ok?
      ensures Reset(peer, target).Valid()
      ensures peer in refs ==> exists i :: (
                && 0 <= i < |History(refs[peer])| && History(refs[peer])[i] == target
                && Reset(peer, target).History(target) == History(refs[peer])[i..])
    {
      assert Reset(peer, target).FirstParents() == FirstParents();
      if peer in refs {
        var i :| 0 <= i < |History(refs[peer])| && History(refs[peer])[i] == target;
        ChainSuffix(FirstParents(), refs[peer], i);
      }
    }

    /** Undo: committing on one's own tip and resetting to that tip gives back all
        refs and every history. */
    lemma CommitThenReset(hash: Hash, peer: string, now: nat, state: seq<nat>)
      requires Valid() && peer in refs && CollisionFree(Made(hash, peer, [], now, state))
      ensures var after := Commit(Made(hash, peer, [], now, state));
              && after.ResetVerdict(peer, refs[peer]).Ok?
              && after.Reset(peer, refs[peer]).refs == refs
              && forall x :: x in commits ==> after.Reset(peer, refs[peer]).History(x) == History(x)
    {
      var c := Made(hash, peer, [], now, state);
      var tip := refs[peer];
      assert c.parents == [tip];
      CommitKeeps(c);
      var after := Commit(c);
      assert after.History(c.id)[1] == tip;
      assert after.Reset(peer, tip).FirstParents() == after.FirstParents();
      assert refs[peer := c.id][peer := tip] == refs;
    }

    /** The walk of `history`. */
    ghost function Walk(cursor: Id, limit: nat): seq<ShadowCommit>
      decreases limit
    {
      if limit == 0 || cursor !in commits then []
      else if commits[cursor].parents == [] then [commits[cursor]]
      else [commits[cursor]] + Walk(commits[cursor].parents[0], limit - 1)
    }

    ghost function Fetch(ids: seq<Id>): seq<ShadowCommit>
      requires forall c :: c in ids ==> c in commits
    {
      seq(|ids|, i requires 0 <= i < |ids| => commits[ids[i]])
    }

    /** `history` is the prefix of the first-parent chain of the given length. */
    lemma {:induction false} WalkIsPrefix(tip: Id, limit: nat)
      requires Valid() && tip in commits
      ensures forall c :: c in History(tip) ==> c in commits
      ensures Walk(tip, limit) == Fetch(History(tip))[..if limit < |History(tip)| then limit else |History(tip)|]
      decreases limit
    {
      HistoryStored(tip);
      if limit > 0 && commits[tip].parents != [] {
        var p := commits[tip].parents[0];
        ChainUnfold(FirstParents(), tip);
        WalkIsPrefix(p, limit - 1);
        HistoryStored(p);
        assert Fetch(History(tip)) == [commits[tip]] + Fetch(History(p));
      }
    }
  }

  datatype Op =
    | CommitOp(peer: string, parents: seq<Id>, now: nat, state: seq<nat>)
    | ResetOp(peer: string, target: Id)

  ghost function Apply(s: Store, hash: Hash, op: Op): Store {
    match op
    case CommitOp(peer, parents, now, state) => s.Commit(s.Made(hash, peer, parents, now, state))
    case ResetOp(peer, target) => s.Reset(peer, target)
  }

  /** Explicit parents are stored, and hashes do not collide. */
  ghost predicate Admissible(s: Store, hash: Hash, ops: seq<Op>)
    decreases |ops|
  {
    ops == [] || (
      && (ops[0].CommitOp? ==>
            && s.CollisionFree(s.Made(hash, ops[0].peer, ops[0].parents, ops[0].now, ops[0].state))
            && forall p :: p in ops[0].parents ==> p in s.commits)
      && Admissible(Apply(s, hash, ops[0]), hash, ops[1..]))
  }

  ghost function Run(s: Store, hash: Hash, ops: seq<Op>): Store
    decreases |ops|
  {
    if ops == [] then s else Run(Apply(s, hash, ops[0]), hash, ops[1..])
  }

  /** Every run of commits and resets keeps the store valid and every history that
      was ever there: undo moves tips, it never rewrites the past. */
  lemma {:induction false} RunKeepsHistories(s: Store, hash: Hash, ops: seq<Op>)
    requires s.Valid() && Admissible(s, hash, ops)
    ensures Run(s, hash, ops).Valid()
    ensures forall x :: x in s.commits ==> x in Run(s, hash, ops).commits && Run(s, hash, ops).History(x) == s.History(x)
    decreases |ops|
  {
    if ops != [] {
      var next := Apply(s, hash, ops[0]);
      match ops[0] {
        case CommitOp(peer, parents, now, state) =>
          s.CommitKeeps(s.Made(hash, peer, parents, now, state));
        case ResetOp(peer, target) =>
          if s.ResetVerdict(peer, target).Ok? {
            s.ResetKeeps(peer, target);
            assert next.FirstParents() == s.FirstParents();
          }
      }
      RunKeepsHistories(next, hash, ops[1..]);
    }
  }

  class ShadowRefStore {
    var refs: map<string, Id>
    var commits: map<Id, ShadowCommit>

    ghost function View(): Store
      reads this
    {
      Store(refs, commits)
    }

    constructor ()
      ensures View() == Store(map[], map[]) && View().Valid()
    {
      refs, commits := map[], map[];
      new;
      assert View().FirstParents() == map[];
    }

    method Commit(hash: Hash, peer: string, parents: seq<Id>, now: nat, state: seq<nat>) returns (id: Id)
      modifies this
      ensures View() == old(View()).Commit(old(View()).Made(hash, peer, parents, now, state))
      ensures refs == old(refs)[peer := id] && commits.Keys == old(commits).Keys + {id}
      ensures commits[id].parents == if parents != [] then parents else if peer in old(refs) then [old(refs)[peer]] else []
      ensures commits[id].id == id == hash(peer, commits[id].parents, now, state)
      ensures commits[id].peer == peer && commits[id].timestampMs == now && commits[id].stateVector == state
    {
      var ps := parents;
      if |ps| == 0 {
        if peer in refs {
          ps := ps + [refs[peer]];
        }
      }
      assert parents == [] && peer in refs ==> ps == [refs[peer]];
      id := hash(peer, ps, now, state);
      commits := commits[id := ShadowCommit(id, ps, peer, now, state)];
      refs := refs[peer := id];
    }

    method History(peer: string, limit: nat) returns (out: seq<ShadowCommit>)
      ensures out == if peer in refs then View().Walk(refs[peer], limit) else []
    {
      out := [];
      if peer !in refs {
        return;
      }
      var cursor := refs[peer];
      while |out| < limit
        invariant |out| <= limit
        invariant View().Walk(refs[peer], limit) == out + View().Walk(cursor, limit - |out|)
      {
        if cursor !in commits {
          break;
        }
        var c := commits[cursor];
        out := out + [c];
        if c.parents == [] {
          break;
        }
        cursor := c.parents[0];
      }
    }

    /** Follow first parents from the tip until the target or a dead end. */
    method InHistory(tip: Id, target: Id) returns (found: bool)
      requires Acyclic(Up(View().FirstParents()))
      ensures found <==> target in View().History(tip)
    {
      ghost var fp := View().FirstParents();
      var cursor := tip;
      found := cursor == target;
      ghost var seen: seq<Id> := [];
      while !found
        invariant Chain(fp, tip) == seen + Chain(fp, cursor)
        invariant target !in seen && (found <==> cursor == target)
        decreases |Chain(fp, cursor)|
      {
        if cursor !in commits || commits[cursor].parents == [] {
          assert cursor !in fp;
          break;
        }
        ChainUnfold(fp, cursor);
        seen := seen + [cursor];
        cursor := commits[cursor].parents[0];
        found := cursor == target;
      }
      assert Chain(fp, tip)[|seen|] == cursor;
    }

    method ResetTo(peer: string, target: Id) returns (r: Result<Id, ShadowError>)
      requires Acyclic(Up(View().FirstParents()))
      modifies this
      ensures r == old(View()).ResetVerdict(peer, target)
      ensures View() == old(View()).Reset(peer, target)
      ensures r.Ok? <==> target in commits && (peer in old(refs) ==> target in old(View().History(refs[peer])))
      ensures r.Ok? ==> refs == old(refs)[peer := target] && commits == old(commits)
      ensures r.Ok? ==> r.value == if peer in old(refs) then old(refs)[peer] else target
      ensures r.Err? ==> refs == old(refs) && commits == old(commits)
      ensures r.Err? ==> r.error == if target in commits then NotInPeerHistory(target, peer) else CommitNotFound(target)
    {
      if target !in commits {
        return Err(CommitNotFound(target));
      }
      if peer in refs {
        var found := InHistory(refs[peer], target);
        if !found {
          return Err(NotInPeerHistory(target, peer));
        }
      }
      r := Ok(if peer in refs then refs[peer] else target);
      refs := refs[peer := target];
    }
  }
}
