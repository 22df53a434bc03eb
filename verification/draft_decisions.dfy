/** When the calls on a draft succeed, said of the calls made before them and of the fields of the
    drafts: registering, claiming, releasing and recording. (Consuming is in draft_runs.dfy.) */
module DraftDecisions {
  import opened Options
  import opened Drafts
  import opened DraftRuns
  import opened Timelines

  // ----- registering -----

  /** Both are drafts of one sender as a registration sees it: the same address, or the same vault
      and, on EVM, the same lookup hash or none on the draft. */
  predicate SameSpender(chain: Chain, d: Draft, r: Registration) {
    d.network == r.network
    && ((r.sender.Plain? && d.sender.Plain? && d.sender.address == r.sender.address)
        || (r.sender.Sealed? && d.sender.Sealed? && d.vault == r.vault
            && (chain.Evm? ==> d.sender.lookup.None? || d.sender.lookup == r.sender.lookup)))
  }

  /** A worker holds the unsigned draft, or its transaction may be on the chain. */
  predicate InFlight(d: Draft, now: int) {
    || (d.consumedAt.None? && d.claim.Some? && now < d.claim.value.until)
    || (d.consumedAt.Some? && d.txId.Some? && !(d.outcome.Some? && d.outcome.value.ExplicitlyRejected?))
  }

  predicate Obstructs(chain: Chain, d: Draft, r: Registration, now: int) {
    && SameSpender(chain, d, r) && now < d.expiresAt
    && (if chain.Evm? then InFlight(d, now) else d.consumedAt.None?)
  }

  /** The draft expires with an EVM registration: of the same address, or a sealed one of the same
      vault whatever its hash, neither signed nor held. */
  predicate GivesWay(d: Draft, r: Registration, now: int) {
    && d.network == r.network
    && (if r.sender.Plain? then d.sender == r.sender else d.sender.Sealed? && d.vault == r.vault)
    && now < d.expiresAt && d.consumedAt.None? && d.txId.None?
    && (d.claim.None? || d.claim.value.until <= now)
  }

  /** A registration is refused exactly when its id is taken or some draft obstructs it; accepted,
      it adds a fresh draft, and on EVM ends those that give way; every other draft stays. */
  lemma RegistrationDecides(chain: Chain, t: Table, r: Registration, id: string, now: int)
    ensures Attempt(chain, t, Register(r, id), now).None? <==>
            id in t || exists other :: other in t && Obstructs(chain, t[other], r, now)
    ensures match Attempt(chain, t, Register(r, id), now)
            case None => true
            case Some(after) =>
              && after.Keys == t.Keys + {id}
              && after[id] == Draft(r.vault, r.network, r.sender, r.payload, now + r.ttl, None, None, None, None)
              && (forall other :: other in t ==>
                    after[other] == if chain.Evm? && GivesWay(t[other], r, now)
                                    then t[other].(expiresAt := now) else t[other])
  {
    var swept := if chain == Evm then Sweep(t, r, now) else t;
    forall other | other in t
      ensures Competes(chain, swept[other], r) && Blocks(chain, swept[other], now) <==>
              Obstructs(chain, t[other], r, now)
      ensures swept[other] == if chain.Evm? && GivesWay(t[other], r, now) then t[other].(expiresAt := now) else t[other]
    {
      SweptObstructs(chain, t[other], r, now);
    }
    hide Competes, Blocks, Obstructs, GivesWay, Sweep;
  }

  lemma SweptObstructs(chain: Chain, d: Draft, r: Registration, now: int)
    ensures GivesWay(d, r, now) <==> SweepReaches(d, r) && Abandoned(d, now)
    ensures var s := if chain.Evm? && GivesWay(d, r, now) then d.(expiresAt := now) else d;
            Competes(chain, s, r) && Blocks(chain, s, now) <==> Obstructs(chain, d, r, now)
  {}

  // ----- claiming -----

  /** Every answer to a claim, and exactly when it is given; a lease that has ended does not count. */
  lemma ClaimDecides(chain: Chain, t: Table, id: string, vault: string, network: string, lease: int, token: string,
    now: int)
    ensures var refusal := ClaimRefusal(t, id, vault, network, now);
            var after := Attempt(chain, t, TakeClaim(id, vault, network, lease, token), now);
            if id !in t then refusal == Some(UnknownOrExpired) && after == None
            else
              var d := t[id];
              var mine := d.vault == vault && d.network == network;
              var free := d.claim.None? || d.claim.value.until <= now;
              && (refusal == Some(VaultMismatch) <==> d.vault != vault)
              && (refusal == Some(NetworkMismatch) <==> d.vault == vault && d.network != network)
              && (refusal == Some(AlreadyConsumed) <==> mine && d.consumedAt.Some?)
              && (refusal == Some(AlreadyClaimed) <==>
                  mine && d.consumedAt.None? && (d.expiresAt <= now || !free))
              && (after.Some? <==> mine && d.consumedAt.None? && d.expiresAt > now && free)
              && (after.Some? ==> after.value == t[id := d.(claim := Some(Claim(token, now + lease)))])
  {}

  /** The last successful claim or release of the draft before call j is claim i. */
  ghost predicate LastClaim(chain: Chain, ops: seq<Timed<Op>>, i: nat, j: nat, id: string)
    requires j <= |ops|
  {
    && i < j && Claims(ops[i].op, id) && Succeeds(chain, ops, i)
    && forall k :: i < k < j && MovesClaim(ops[k].op, id) ==> !Succeeds(chain, ops, k)
  }

  predicate MovesClaim(op: Op, id: string) { (op.TakeClaim? || op.Release?) && op.id == id }

  function ClaimOf(call: Timed<Op>): Claim
    requires call.op.TakeClaim?
  {
    Claim(call.op.token, call.now + call.op.lease)
  }

  /** The claim on a draft is that of the last successful claim not released since; without one
      there is none. */
  lemma {:induction false} ClaimIsLast(chain: Chain, ops: seq<Timed<Op>>, j: nat, id: string)
    requires j <= |ops| && id in StateAt(chain, ops, j)
    ensures var claim := StateAt(chain, ops, j)[id].claim;
            && (claim.Some? ==> exists i: nat :: LastClaim(chain, ops, i, j, id))
            && (forall i: nat :: LastClaim(chain, ops, i, j, id) ==> claim == Some(ClaimOf(ops[i])))
  {
    hide StateAt, Succeeds;
    if j == 0 {
      NothingAtStart(chain, ops);
    } else {
      var k := j - 1;
      if MovesClaim(ops[k].op, id) && Succeeds(chain, ops, k) {
        ClaimMoves(chain, ops, k, id);
        if ops[k].op.TakeClaim? {
          assert LastClaim(chain, ops, k, j, id);
        }
      } else {
        ClaimStays(chain, ops, k, id);
        if id in StateAt(chain, ops, k) {
          ClaimIsLast(chain, ops, k, id);
          if i: nat :| LastClaim(chain, ops, i, k, id) {
            assert LastClaim(chain, ops, i, j, id);
          }
          forall i: nat | LastClaim(chain, ops, i, j, id)
            ensures LastClaim(chain, ops, i, k, id)
          {
            assert i != k;
          }
        } else {
          forall i: nat | LastClaim(chain, ops, i, j, id)
            ensures false
          {
            ClaimedIsThere(chain, ops, i, k, id);
          }
        }
      }
    }
  }

  lemma NothingAtStart(chain: Chain, ops: seq<Timed<Op>>)
    ensures StateAt(chain, ops, 0) == map[]
  {}

  lemma ClaimedIsThere(chain: Chain, ops: seq<Timed<Op>>, i: nat, k: nat, id: string)
    requires i <= k <= |ops| && i < |ops| && Claims(ops[i].op, id) && Succeeds(chain, ops, i)
    ensures id in StateAt(chain, ops, k)
  {
    ClaimMarks(chain, ops, i);
    hide StateAt, Succeeds;
    ClaimNeedsDraft(chain, ops, i, id);
    DraftsOnlyAdvance(chain, ops, i, k, id);
  }

  lemma ClaimNeedsDraft(chain: Chain, ops: seq<Timed<Op>>, i: nat, id: string)
    requires i < |ops| && Claims(ops[i].op, id) && Succeeds(chain, ops, i)
    ensures id in StateAt(chain, ops, i)
    ensures var d := StateAt(chain, ops, i)[id]; d.vault == ops[i].op.vault && d.network == ops[i].op.network
  {}

  lemma ClaimMoves(chain: Chain, ops: seq<Timed<Op>>, k: nat, id: string)
    requires k < |ops| && MovesClaim(ops[k].op, id) && Succeeds(chain, ops, k) && id in StateAt(chain, ops, k + 1)
    ensures StateAt(chain, ops, k + 1)[id].claim ==
            if ops[k].op.TakeClaim? then Some(ClaimOf(ops[k])) else None
  {}

  lemma ClaimStays(chain: Chain, ops: seq<Timed<Op>>, k: nat, id: string)
    requires k < |ops| && id in StateAt(chain, ops, k + 1)
    requires MovesClaim(ops[k].op, id) ==> !Succeeds(chain, ops, k)
    ensures if id in StateAt(chain, ops, k)
            then StateAt(chain, ops, k + 1)[id].claim == StateAt(chain, ops, k)[id].claim
            else StateAt(chain, ops, k + 1)[id].claim.None?
  {
    var t, op, now := StateAt(chain, ops, k), ops[k].op, ops[k].now;
    StepMoves(chain, t, op, now);
    if Succeeds(chain, ops, k) && id in t {
      hide DraftMoved, Attempt, Succeeds;
      MovedClaim(t[id], StateAt(chain, ops, k + 1)[id], id, op, now);
    }
  }

  /** Over any run: a claim succeeds if and only if the draft is there, of that vault and network
      and unexpired, no call has consumed it, and the lease of the last claim that was not released
      is over. */
  lemma ClaimSucceedsExactly(chain: Chain, ops: seq<Timed<Op>>, j: nat)
    requires j < |ops| && ops[j].op.TakeClaim?
    ensures var op, now := ops[j].op, ops[j].now;
            Succeeds(chain, ops, j) <==>
            && op.id in StateAt(chain, ops, j)
            && (var d := StateAt(chain, ops, j)[op.id];
                d.vault == op.vault && d.network == op.network && now < d.expiresAt)
            && (forall i :: 0 <= i < j && Consumes(ops[i].op, op.id) ==> !Succeeds(chain, ops, i))
            && (forall i: nat :: LastClaim(chain, ops, i, j, op.id) ==> ops[i].now + ops[i].op.lease <= now)
  {
    var op, now := ops[j].op, ops[j].now;
    var t := StateAt(chain, ops, j);
    ClaimDecides(chain, t, op.id, op.vault, op.network, op.lease, op.token, now);
    assert Succeeds(chain, ops, j) <==> Attempt(chain, t, op, now).Some?;
    hide StateAt, Succeeds, Attempt, ClaimRefusal;
    if op.id in t {
      ClaimIsLast(chain, ops, j, op.id);
      ConsumedExactly(chain, ops, j, op.id);
    }
  }

  lemma ConsumedExactly(chain: Chain, ops: seq<Timed<Op>>, j: nat, id: string)
    requires j <= |ops| && id in StateAt(chain, ops, j)
    ensures StateAt(chain, ops, j)[id].consumedAt.Some? <==>
            exists i :: 0 <= i < j && Consumes(ops[i].op, id) && Succeeds(chain, ops, i)
  {
    hide StateAt, Succeeds;
    if StateAt(chain, ops, j)[id].consumedAt.Some? {
      ConsumedBySomeCall(chain, ops, j, id);
    }
    if i :| 0 <= i < j && Consumes(ops[i].op, id) && Succeeds(chain, ops, i) {
      ConsumeMarks(chain, ops, i, id);
      DraftsOnlyAdvance(chain, ops, i + 1, j, id);
    }
  }

  /** So a crashed worker's draft is never stuck: once its lease is over, the first claim of the
      open draft by anybody else succeeds. */
  lemma LapsedClaimIsTakenOver(chain: Chain, ops: seq<Timed<Op>>, i: nat, j: nat)
    requires j < |ops| && ops[j].op.TakeClaim? && LastClaim(chain, ops, i, j, ops[j].op.id)
    requires ops[j].op.vault == ops[i].op.vault && ops[j].op.network == ops[i].op.network
    requires ops[j].op.id in StateAt(chain, ops, j)
    requires StateAt(chain, ops, j)[ops[j].op.id].consumedAt.None?
    requires ops[i].now + ops[i].op.lease <= ops[j].now < StateAt(chain, ops, j)[ops[j].op.id].expiresAt
    ensures Succeeds(chain, ops, j)
    ensures ops[j].op.token != ops[i].op.token ==> Lost(chain, ops, i, j + 1)
  {
    hide StateAt, Succeeds;
    var id := ops[j].op.id;
    ClaimSucceedsExactly(chain, ops, j);
    ClaimNeedsDraft(chain, ops, i, id);
    DraftsOnlyAdvance(chain, ops, i, j, id);
    ConsumedExactly(chain, ops, j, id);
    ClaimIsLast(chain, ops, j, id);
    forall k: nat | LastClaim(chain, ops, k, j, id)
      ensures k == i
    {
      assert MovesClaim(ops[i].op, id) && MovesClaim(ops[k].op, id);
    }
    ClaimMarks(chain, ops, j);
  }

  // ----- releasing and recording -----

  /** Over any run: a worker's release succeeds if and only if nothing released, claimed or consumed
      the draft since its claim. */
  lemma ReleaseSucceedsExactly(chain: Chain, ops: seq<Timed<Op>>, i: nat, j: nat)
    requires TokensFresh(ops) && i < j < |ops| && ops[i].op.TakeClaim? && Succeeds(chain, ops, i)
    requires ops[j].op == Release(ops[i].op.id, ops[i].op.token) && ops[i].op.token != ""
    ensures Succeeds(chain, ops, j) <==> Undisturbed(chain, ops, i, j)
  {
    var id, token := ops[i].op.id, ops[i].op.token;
    assert Succeeds(chain, ops, j) <==> OpenWith(StateAt(chain, ops, j), id, token);
    hide StateAt, Succeeds, TokensFresh, Lost, Disturbs;
    if Undisturbed(chain, ops, i, j) {
      UndisturbedStaysOpen(chain, ops, i, j);
    } else {
      var k :| i < k < j && Disturbs(ops[k].op, id) && Succeeds(chain, ops, k);
      DisturbedIsNotOpen(chain, ops, i, k, j);
    }
  }

  lemma DisturbedIsNotOpen(chain: Chain, ops: seq<Timed<Op>>, i: nat, k: nat, j: nat)
    requires TokensFresh(ops) && i < k < j <= |ops| && ops[i].op.TakeClaim? && Succeeds(chain, ops, i)
    requires Disturbs(ops[k].op, ops[i].op.id) && Succeeds(chain, ops, k)
    ensures !OpenWith(StateAt(chain, ops, j), ops[i].op.id, ops[i].op.token)
  {
    hide StateAt, Succeeds, TokensFresh, Lost;
    match ops[k].op
    case Release(_, _) =>
      ReleaseLoses(chain, ops, i, k);
      StaysLost(chain, ops, i, k + 1, j);
    case TakeClaim(_, _, _, _, _) =>
      TakeoverLoses(chain, ops, i, k);
      StaysLost(chain, ops, i, k + 1, j);
    case Consume(id, _, _) =>
      ConsumeMarks(chain, ops, k, id);
      DraftsOnlyAdvance(chain, ops, k + 1, j, id);
  }

  /** Over any run: after a worker consumed a draft, recording an outcome with its token succeeds if
      and only if no outcome was recorded since; no clock plays a part. */
  lemma RecordSucceedsExactly(chain: Chain, ops: seq<Timed<Op>>, i: nat, j: nat, id: string)
    requires i < j < |ops| && Consumes(ops[i].op, id) && Succeeds(chain, ops, i)
    requires Records(ops[j].op, id) && ops[j].op.token == ops[i].op.token && ops[j].op.outcome.Some?
    ensures Succeeds(chain, ops, j) <==>
            forall k :: i < k < j && Records(ops[k].op, id) ==> !Succeeds(chain, ops, k)
  {
    hide StateAt, Succeeds;
    var t := StateAt(chain, ops, j);
    ConsumeNeedsOpen(chain, ops, i);
    ConsumeMarks(chain, ops, i, id);
    RecordNeeds(chain, ops, j);
    DraftsOnlyAdvance(chain, ops, i + 1, j, id);
    if t[id].outcome.Some? {
      var k := OutcomeWasRecorded(chain, ops, j, id);
      RecordMarks(chain, ops, k, id);
      if k < i {
        DraftsOnlyAdvance(chain, ops, k, i, id);
      }
    }
    if k :| i < k < j && Records(ops[k].op, id) && Succeeds(chain, ops, k) {
      RecordMarks(chain, ops, k, id);
      DraftsOnlyAdvance(chain, ops, k + 1, j, id);
    }
  }

  lemma RecordNeeds(chain: Chain, ops: seq<Timed<Op>>, j: nat)
    requires j < |ops| && ops[j].op.Record?
    ensures var op, t := ops[j].op, StateAt(chain, ops, j);
            Succeeds(chain, ops, j) <==>
            op.token != "" && op.outcome.Some? && op.id in t && ClaimedBy(t[op.id], op.token)
            && t[op.id].consumedAt.Some? && t[op.id].outcome.None?
  {}

  lemma {:induction false} OutcomeWasRecorded(chain: Chain, ops: seq<Timed<Op>>, j: nat, id: string) returns (k: nat)
    requires j <= |ops| && id in StateAt(chain, ops, j) && StateAt(chain, ops, j)[id].outcome.Some?
    ensures k < j && Records(ops[k].op, id) && Succeeds(chain, ops, k)
  {
    hide Step, DraftMoved, Succeeds;
    var t := StateAt(chain, ops, j - 1);
    StepMoves(chain, t, ops[j - 1].op, ops[j - 1].now);
    if id in t && t[id].outcome.Some? {
      k := OutcomeWasRecorded(chain, ops, j - 1, id);
    } else {
      k := j - 1;
      if id in t {
        MovedIntoOutcome(t[id], StateAt(chain, ops, j)[id], id, ops[k].op, ops[k].now);
        ChangedMeansSucceeded(chain, ops, k, id);
      }
    }
  }

  lemma MovedIntoOutcome(before: Draft, after: Draft, id: string, op: Op, now: int)
    requires DraftMoved(before, after, id, op, now) && before.outcome.None? && after.outcome.Some?
    ensures Records(op, id)
  {}
}
