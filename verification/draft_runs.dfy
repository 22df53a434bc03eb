/** Runs of racing workers on one chain's draft table, starting empty: any interleaving of
    store calls, successful or not. */
module DraftRuns {
  import opened Options
  import opened Drafts
  import opened Timelines

  function Step(chain: Chain, t: Table, op: Op, now: int): Table {
    match Attempt(chain, t, op, now)
    case Some(after) => after
    case None => t
  }

  /** The table before call k. */
  function StateAt(chain: Chain, ops: seq<Timed<Op>>, k: nat): Table
    requires k <= |ops|
  {
    if k == 0 then map[] else Step(chain, StateAt(chain, ops, k - 1), ops[k - 1].op, ops[k - 1].now)
  }

  predicate Succeeds(chain: Chain, ops: seq<Timed<Op>>, k: nat)
    requires k < |ops|
  {
    Attempt(chain, StateAt(chain, ops, k), ops[k].op, ops[k].now).Some?
  }

  /** Every claim draws a token of its own. */
  ghost predicate TokensFresh(ops: seq<Timed<Op>>) {
    forall a, b :: 0 <= a < b < |ops| && ops[a].op.TakeClaim? && ops[b].op.TakeClaim?
      ==> ops[a].op.token != ops[b].op.token
  }

  // ----- what one call does to one draft -----

  ghost predicate SameDraftedFields(a: Draft, b: Draft) {
    a.vault == b.vault && a.network == b.network && a.sender == b.sender && a.payload == b.payload
  }

  /** The moves a draft can make, with the calls that cause them. */
  ghost predicate DraftMoved(before: Draft, after: Draft, id: string, op: Op, now: int) {
    || after == before
    || (op.Register? && Abandoned(before, now) && after == before.(expiresAt := now))
    || (op.TakeClaim? && op.id == id && before.consumedAt.None? && before.expiresAt > now && !Held(before, now)
        && after == before.(claim := Some(Claim(op.token, now + op.lease))))
    || (op.Release? && op.id == id && ClaimedBy(before, op.token) && before.consumedAt.None?
        && after == before.(claim := None))
    || (op.Consume? && op.id == id && ClaimedBy(before, op.token) && before.consumedAt.None?
        && after == before.(consumedAt := Some(now), txId := Some(op.txId)))
    || (op.Record? && op.id == id && ClaimedBy(before, op.token) && before.consumedAt.Some? && before.outcome.None?
        && op.outcome.Some? && after == before.(outcome := op.outcome))
  }

  /** Drafts are never deleted; a call moves existing ones as above and adds at most one. */
  lemma StepMoves(chain: Chain, t: Table, op: Op, now: int)
    ensures var after := Step(chain, t, op, now);
            && (forall id :: id in t ==> id in after && DraftMoved(t[id], after[id], id, op, now))
            && (forall id :: id in after && id !in t ==>
                op.Register? && id == op.newId && after[id] == Fresh(op.r, now))
  {
    hide Competes, Blocks, SweepReaches, ClaimRefusal, Held;
    if op.TakeClaim? && Attempt(chain, t, op, now).Some? {
      ClaimAllowed(t, op.id, op.vault, op.network, now);
    }
  }

  lemma ClaimAllowed(t: Table, id: string, vault: string, network: string, now: int)
    requires ClaimRefusal(t, id, vault, network, now).None?
    ensures id in t && t[id].consumedAt.None? && t[id].expiresAt > now && !Held(t[id], now)
  {}

  /** A draft is consumed together with its transaction id, by its claim, and before any outcome. */
  predicate Orderly(d: Draft) {
    && (d.consumedAt.Some? <==> d.txId.Some?)
    && (d.consumedAt.Some? ==> d.claim.Some?)
    && (d.outcome.Some? ==> d.consumedAt.Some?)
  }

  lemma MovedStaysOrderly(before: Draft, after: Draft, id: string, op: Op, now: int)
    requires Orderly(before) && DraftMoved(before, after, id, op, now)
    ensures Orderly(after) && SameDraftedFields(before, after) && after.expiresAt <= before.expiresAt
    ensures before.consumedAt.Some? ==>
              after.consumedAt == before.consumedAt && after.txId == before.txId && after.claim == before.claim
    ensures before.outcome.Some? ==> after.outcome == before.outcome
  {}

  lemma {:induction false} StatesAreOrderly(chain: Chain, ops: seq<Timed<Op>>, k: nat)
    requires k <= |ops|
    ensures forall id :: id in StateAt(chain, ops, k) ==> Orderly(StateAt(chain, ops, k)[id])
  {
    hide Step, DraftMoved, Orderly;
    if k > 0 {
      var t, op, now := StateAt(chain, ops, k - 1), ops[k - 1].op, ops[k - 1].now;
      StatesAreOrderly(chain, ops, k - 1);
      StepMoves(chain, t, op, now);
      forall id | id in StateAt(chain, ops, k)
        ensures Orderly(StateAt(chain, ops, k)[id])
      {
        if id in t {
          MovedStaysOrderly(t[id], StateAt(chain, ops, k)[id], id, op, now);
        } else {
          FreshIsOrderly(op.r, now);
        }
      }
    }
  }

  lemma FreshIsOrderly(r: Registration, now: int)
    ensures Orderly(Fresh(r, now))
  {}

  // ----- consumed once, recorded once -----

  /** What never changes: the drafted fields; the expiry is only ever brought forward; after
      consumption the transaction id, its time and the consuming token; after that, the outcome. */
  lemma {:induction false} DraftsOnlyAdvance(chain: Chain, ops: seq<Timed<Op>>, i: nat, j: nat, id: string)
    requires i <= j <= |ops| && id in StateAt(chain, ops, i)
    ensures id in StateAt(chain, ops, j)
    ensures var before, after := StateAt(chain, ops, i)[id], StateAt(chain, ops, j)[id];
            && SameDraftedFields(before, after) && after.expiresAt <= before.expiresAt
            && (before.consumedAt.Some? ==>
                  after.consumedAt == before.consumedAt && after.txId == before.txId && after.claim == before.claim)
            && (before.outcome.Some? ==> after.outcome == before.outcome)
    decreases j
  {
    hide Step, DraftMoved, Orderly;
    if i < j {
      var t := StateAt(chain, ops, j - 1);
      DraftsOnlyAdvance(chain, ops, i, j - 1, id);
      StatesAreOrderly(chain, ops, j - 1);
      StepMoves(chain, t, ops[j - 1].op, ops[j - 1].now);
      MovedStaysOrderly(t[id], StateAt(chain, ops, j)[id], id, ops[j - 1].op, ops[j - 1].now);
      OrderlyChain(t[id]);
    }
  }

  lemma OrderlyChain(d: Draft)
    requires Orderly(d)
    ensures d.outcome.Some? ==> d.consumedAt.Some?
  {}

  predicate Consumes(op: Op, id: string) { op.Consume? && op.id == id }

  predicate Records(op: Op, id: string) { op.Record? && op.id == id }

  lemma ConsumeMarks(chain: Chain, ops: seq<Timed<Op>>, i: nat, id: string)
    requires i < |ops| && Consumes(ops[i].op, id) && Succeeds(chain, ops, i)
    ensures id in StateAt(chain, ops, i) && StateAt(chain, ops, i)[id].consumedAt.None?
    ensures id in StateAt(chain, ops, i + 1)
    ensures var d := StateAt(chain, ops, i + 1)[id];
            d.consumedAt.Some? && d.txId == Some(ops[i].op.txId) && ClaimedBy(d, ops[i].op.token)
  {}

  lemma RecordMarks(chain: Chain, ops: seq<Timed<Op>>, i: nat, id: string)
    requires i < |ops| && Records(ops[i].op, id) && Succeeds(chain, ops, i)
    ensures id in StateAt(chain, ops, i)
    ensures var d := StateAt(chain, ops, i)[id]; d.consumedAt.Some? && d.outcome.None? && ClaimedBy(d, ops[i].op.token)
    ensures id in StateAt(chain, ops, i + 1) && StateAt(chain, ops, i + 1)[id].outcome.Some?
            && StateAt(chain, ops, i + 1)[id].outcome == ops[i].op.outcome
  {}

  /** No draft is consumed twice. */
  lemma ConsumedAtMostOnce(chain: Chain, ops: seq<Timed<Op>>, i: nat, j: nat, id: string)
    requires i < |ops| && Consumes(ops[i].op, id) && Succeeds(chain, ops, i)
    requires j < |ops| && Consumes(ops[j].op, id) && Succeeds(chain, ops, j)
    ensures i == j
  {
    hide StateAt, Succeeds;
    ConsumeMarks(chain, ops, i, id);
    ConsumeMarks(chain, ops, j, id);
    if i < j {
      DraftsOnlyAdvance(chain, ops, i + 1, j, id);
    } else if j < i {
      DraftsOnlyAdvance(chain, ops, j + 1, i, id);
    }
  }

  /** No outcome is recorded twice. */
  lemma RecordedAtMostOnce(chain: Chain, ops: seq<Timed<Op>>, i: nat, j: nat, id: string)
    requires i < |ops| && Records(ops[i].op, id) && Succeeds(chain, ops, i)
    requires j < |ops| && Records(ops[j].op, id) && Succeeds(chain, ops, j)
    ensures i == j
  {
    hide StateAt, Succeeds;
    RecordMarks(chain, ops, i, id);
    RecordMarks(chain, ops, j, id);
    if i < j {
      DraftsOnlyAdvance(chain, ops, i + 1, j, id);
    } else if j < i {
      DraftsOnlyAdvance(chain, ops, j + 1, i, id);
    }
  }

  /** A consumed draft was consumed by an earlier call, which left its token and transaction id. */
  lemma {:induction false} ConsumedBySomeCall(chain: Chain, ops: seq<Timed<Op>>, k: nat, id: string)
    requires k <= |ops| && id in StateAt(chain, ops, k) && StateAt(chain, ops, k)[id].consumedAt.Some?
    ensures exists i :: 0 <= i < k && Consumes(ops[i].op, id) && Succeeds(chain, ops, i)
              && StateAt(chain, ops, k)[id].txId == Some(ops[i].op.txId)
              && ClaimedBy(StateAt(chain, ops, k)[id], ops[i].op.token)
  {
    hide Step, DraftMoved, Succeeds;
    var t := StateAt(chain, ops, k - 1);
    StepMoves(chain, t, ops[k - 1].op, ops[k - 1].now);
    if id in t && t[id].consumedAt.Some? {
      ConsumedBySomeCall(chain, ops, k - 1, id);
      DraftsOnlyAdvance(chain, ops, k - 1, k, id);
    } else {
      if id in t {
        MovedIntoConsumed(t[id], StateAt(chain, ops, k)[id], id, ops[k - 1].op, ops[k - 1].now);
        ChangedMeansSucceeded(chain, ops, k - 1, id);
        ConsumeMarks(chain, ops, k - 1, id);
      }
    }
  }

  lemma MovedIntoConsumed(before: Draft, after: Draft, id: string, op: Op, now: int)
    requires DraftMoved(before, after, id, op, now) && before.consumedAt.None? && after.consumedAt.Some?
    ensures Consumes(op, id)
  {}

  lemma ChangedMeansSucceeded(chain: Chain, ops: seq<Timed<Op>>, k: nat, id: string)
    requires k < |ops| && StateAt(chain, ops, k + 1) != StateAt(chain, ops, k)
    ensures Succeeds(chain, ops, k)
  {}

  /** Only the token that consumed a draft ever records its outcome, and only afterwards. */
  lemma OnlyTheConsumerRecords(chain: Chain, ops: seq<Timed<Op>>, j: nat, id: string)
    requires j < |ops| && Records(ops[j].op, id) && Succeeds(chain, ops, j)
    ensures exists i ::
              0 <= i < j && Consumes(ops[i].op, id) && Succeeds(chain, ops, i) && ops[i].op.token == ops[j].op.token
  {
    RecordMarks(chain, ops, j, id);
    hide StateAt, Succeeds;
    ConsumedBySomeCall(chain, ops, j, id);
  }

  // ----- a lost claim stays lost -----

  predicate Claims(op: Op, id: string) { op.TakeClaim? && op.id == id }

  predicate Uses(op: Op, token: string) {
    (op.Release? || op.Consume? || op.Record?) && op.token == token
  }

  /** A token on a draft was put there by an earlier claim of that draft. */
  lemma {:induction false} TokenWasClaimed(chain: Chain, ops: seq<Timed<Op>>, k: nat, id: string)
    requires k <= |ops| && id in StateAt(chain, ops, k) && StateAt(chain, ops, k)[id].claim.Some?
    ensures exists i :: 0 <= i < k && Claims(ops[i].op, id) && Succeeds(chain, ops, i)
              && ops[i].op.token == StateAt(chain, ops, k)[id].claim.value.token
  {
    hide Step, DraftMoved, Succeeds;
    var t := StateAt(chain, ops, k - 1);
    StepMoves(chain, t, ops[k - 1].op, ops[k - 1].now);
    if id in t {
      MovedClaim(t[id], StateAt(chain, ops, k)[id], id, ops[k - 1].op, ops[k - 1].now);
      if t[id].claim == StateAt(chain, ops, k)[id].claim {
        TokenWasClaimed(chain, ops, k - 1, id);
      } else {
        ChangedMeansSucceeded(chain, ops, k - 1, id);
      }
    }
  }

  lemma MovedClaim(before: Draft, after: Draft, id: string, op: Op, now: int)
    requires DraftMoved(before, after, id, op, now)
    ensures after.claim == before.claim
            || (Claims(op, id) && after.claim == Some(Claim(op.token, now + op.lease)) && !Held(before, now))
            || (op.Release? && op.id == id && after.claim.None? && ClaimedBy(before, op.token))
  {}

  predicate OnNoDraft(t: Table, token: string) {
    forall id :: id in t ==> !ClaimedBy(t[id], token)
  }

  lemma UseNeedsClaim(chain: Chain, ops: seq<Timed<Op>>, k: nat, token: string)
    requires k < |ops| && Uses(ops[k].op, token) && OnNoDraft(StateAt(chain, ops, k), token)
    ensures !Succeeds(chain, ops, k)
  {}

  /** The worker whose claim i it was has lost it by call j: another claim or a release took effect. */
  ghost predicate Lost(chain: Chain, ops: seq<Timed<Op>>, i: nat, j: nat) {
    && i < j <= |ops| && ops[i].op.TakeClaim? && Succeeds(chain, ops, i)
    && ops[i].op.id in StateAt(chain, ops, j) && !ClaimedBy(StateAt(chain, ops, j)[ops[i].op.id], ops[i].op.token)
  }

  lemma {:induction false} LostTokenIsNowhere(chain: Chain, ops: seq<Timed<Op>>, i: nat, j: nat, k: nat)
    requires TokensFresh(ops) && Lost(chain, ops, i, j) && j <= k <= |ops|
    ensures OnNoDraft(StateAt(chain, ops, k), ops[i].op.token)
  {
    hide Step, DraftMoved, Succeeds;
    var token := ops[i].op.token;
    forall id | id in StateAt(chain, ops, k) && ClaimedBy(StateAt(chain, ops, k)[id], token)
      ensures false
    {
      TokenWasClaimed(chain, ops, k, id);
      var a :| 0 <= a < k && Claims(ops[a].op, id) && ops[a].op.token == token;
      assert a == i;
      StaysLost(chain, ops, i, j, k);
    }
  }

  lemma {:induction false} StaysLost(chain: Chain, ops: seq<Timed<Op>>, i: nat, j: nat, k: nat)
    requires TokensFresh(ops) && Lost(chain, ops, i, j) && j <= k <= |ops|
    ensures ops[i].op.id in StateAt(chain, ops, k) && !ClaimedBy(StateAt(chain, ops, k)[ops[i].op.id], ops[i].op.token)
    decreases k
  {
    hide Step, DraftMoved, Succeeds;
    if j < k {
      StaysLost(chain, ops, i, j, k - 1);
      var t, id := StateAt(chain, ops, k - 1), ops[i].op.id;
      StepMoves(chain, t, ops[k - 1].op, ops[k - 1].now);
      MovedClaim(t[id], StateAt(chain, ops, k)[id], id, ops[k - 1].op, ops[k - 1].now);
    }
  }

  /** A worker whose claim was released or taken over can never release, consume or record
      again, on that draft or any other. */
  lemma LostClaimIsUseless(chain: Chain, ops: seq<Timed<Op>>, i: nat, j: nat, k: nat)
    requires TokensFresh(ops) && Lost(chain, ops, i, j) && j <= k < |ops|
    requires Uses(ops[k].op, ops[i].op.token)
    ensures !Succeeds(chain, ops, k)
  {
    LostTokenIsNowhere(chain, ops, i, j, k);
    UseNeedsClaim(chain, ops, k, ops[i].op.token);
  }

  /** Releasing loses the claim. */
  lemma ReleaseLoses(chain: Chain, ops: seq<Timed<Op>>, i: nat, j: nat)
    requires i < j < |ops| && ops[i].op.TakeClaim? && Succeeds(chain, ops, i)
    requires ops[j].op.Release? && ops[j].op.id == ops[i].op.id && Succeeds(chain, ops, j)
    ensures Lost(chain, ops, i, j + 1)
  {}

  /** Being claimed by somebody else loses the claim. */
  lemma TakeoverLoses(chain: Chain, ops: seq<Timed<Op>>, i: nat, j: nat)
    requires TokensFresh(ops) && i < j < |ops| && ops[i].op.TakeClaim? && Succeeds(chain, ops, i)
    requires Claims(ops[j].op, ops[i].op.id) && Succeeds(chain, ops, j)
    ensures Lost(chain, ops, i, j + 1)
  {}

  /** No release of the draft that call i claimed takes effect before call j. */
  ghost predicate NotReleased(chain: Chain, ops: seq<Timed<Op>>, i: nat, j: nat)
    requires i < j <= |ops| && ops[i].op.TakeClaim?
  {
    forall k :: i < k < j && ops[k].op.Release? && ops[k].op.id == ops[i].op.id ==> !Succeeds(chain, ops, k)
  }

  lemma NotReleasedSooner(chain: Chain, ops: seq<Timed<Op>>, i: nat, j: nat)
    requires i + 1 < j <= |ops| && ops[i].op.TakeClaim? && NotReleased(chain, ops, i, j)
    ensures NotReleased(chain, ops, i, j - 1)
    ensures ops[j - 1].op.Release? && ops[j - 1].op.id == ops[i].op.id ==> !Succeeds(chain, ops, j - 1)
  {}

  /** Until its lease ends no other claim of the draft succeeds, unless it was released. */
  lemma ClaimHoldsThroughLease(chain: Chain, ops: seq<Timed<Op>>, i: nat, j: nat)
    requires i < j < |ops| && ClockRuns(ops)
    requires ops[i].op.TakeClaim? && Succeeds(chain, ops, i) && ops[j].now < ops[i].now + ops[i].op.lease
    requires NotReleased(chain, ops, i, j)
    requires Claims(ops[j].op, ops[i].op.id)
    ensures !Succeeds(chain, ops, j)
  {
    ClaimKept(chain, ops, i, j);
    hide StateAt, ClockRuns, NotReleased;
    HeldRefusesClaim(chain, ops, j, Claim(ops[i].op.token, ops[i].now + ops[i].op.lease));
  }

  lemma HeldRefusesClaim(chain: Chain, ops: seq<Timed<Op>>, j: nat, claim: Claim)
    requires j < |ops| && ops[j].op.TakeClaim? && ops[j].now < claim.until
    requires HasClaim(StateAt(chain, ops, j), ops[j].op.id, claim)
    ensures !Succeeds(chain, ops, j)
  {}

  ghost predicate HasClaim(t: Table, id: string, claim: Claim) {
    id in t && t[id].claim == Some(claim)
  }

  lemma ClaimMarks(chain: Chain, ops: seq<Timed<Op>>, i: nat)
    requires i < |ops| && ops[i].op.TakeClaim? && Succeeds(chain, ops, i)
    ensures HasClaim(StateAt(chain, ops, i + 1), ops[i].op.id, Claim(ops[i].op.token, ops[i].now + ops[i].op.lease))
  {}

  lemma ClaimSurvives(chain: Chain, ops: seq<Timed<Op>>, k: nat, id: string, claim: Claim)
    requires k < |ops| && HasClaim(StateAt(chain, ops, k), id, claim) && ops[k].now < claim.until
    requires ops[k].op.Release? && ops[k].op.id == id ==> !Succeeds(chain, ops, k)
    ensures HasClaim(StateAt(chain, ops, k + 1), id, claim)
  {
    var t, op, now := StateAt(chain, ops, k), ops[k].op, ops[k].now;
    StepMoves(chain, t, op, now);
    if Succeeds(chain, ops, k) {
      hide DraftMoved, Attempt, Succeeds;
      MovedClaim(t[id], StateAt(chain, ops, k + 1)[id], id, op, now);
    }
  }

  lemma {:induction false} ClaimKept(chain: Chain, ops: seq<Timed<Op>>, i: nat, j: nat)
    requires i < j < |ops| && ClockRuns(ops)
    requires ops[i].op.TakeClaim? && Succeeds(chain, ops, i) && ops[j].now < ops[i].now + ops[i].op.lease
    requires NotReleased(chain, ops, i, j)
    ensures HasClaim(StateAt(chain, ops, j), ops[i].op.id, Claim(ops[i].op.token, ops[i].now + ops[i].op.lease))
    decreases j
  {
    hide StateAt, Succeeds, ClockRuns, NotReleased, HasClaim;
    if i + 1 == j {
      ClaimMarks(chain, ops, i);
    } else {
      ClockBetween(ops, j - 1, j);
      NotReleasedSooner(chain, ops, i, j);
      ClaimKept(chain, ops, i, j - 1);
      ClaimSurvives(chain, ops, j - 1, ops[i].op.id, Claim(ops[i].op.token, ops[i].now + ops[i].op.lease));
    }
  }

  // ----- one live draft -----

  /** The wallet a draft spends from, as far as its table can tell. */
  ghost predicate SameWallet(a: Draft, b: Draft) {
    a.network == b.network && a.sender == b.sender && (a.sender.Sealed? ==> a.vault == b.vault)
  }

  /** EVM: unexpired and not explicitly rejected. Solana and TRON: a plaintext draft that is
      unexpired and not yet consumed. */
  predicate Contends(chain: Chain, d: Draft, now: int) {
    d.expiresAt > now
    && if chain == Evm then d.outcome != Some(ExplicitlyRejected) else d.sender.Plain? && d.consumedAt.None?
  }

  ghost predicate OneContender(chain: Chain, t: Table, now: int) {
    forall a, b ::
      a in t && b in t && SameWallet(t[a], t[b]) && Contends(chain, t[a], now) && Contends(chain, t[b], now) ==> a == b
  }

  lemma ContendingOnlyEnds(chain: Chain, before: Draft, after: Draft, id: string, op: Op, now: int, later: int)
    requires DraftMoved(before, after, id, op, now) && now <= later && Contends(chain, after, later)
    ensures Contends(chain, before, now) && SameDraftedFields(before, after)
  {}

  /** After the sweep and the blocking query nothing else of the wallet is left contending. */
  lemma RegisteredAlone(chain: Chain, t: Table, r: Registration, id: string, now: int, other: string)
    requires Registered(chain, t, r, id, now).Some? && other in t && Orderly(t[other])
    requires chain == Evm && r.sender.Sealed? ==> r.sender.lookup.Some?
    ensures var after := Registered(chain, t, r, id, now).value;
            other in after && other != id && !(SameWallet(after[other], Fresh(r, now))
              && Contends(chain, after[other], now))
  {
    var swept := if chain == Evm then Sweep(t, r, now) else t;
    if SameWallet(swept[other], Fresh(r, now)) {
      assert Competes(chain, swept[other], r);
    }
  }

  /** Unexpired, and either held by a worker or signed and not known to be rejected. */
  predicate HeldOrBroadcast(d: Draft, now: int) {
    d.expiresAt > now
    && ((d.consumedAt.None? && Held(d, now))
        || (d.consumedAt.Some? && d.txId.Some? && d.outcome in {None, Some(Submitted), Some(SubmissionUncertain),
            Some(AlreadyKnown)}))
  }

  /** Exactly when: the sweep never removes an obstacle, so an EVM registration is refused when
      an unexpired draft it competes with is held by a worker, or may have been broadcast. */
  lemma RegistrationRefusedExactly(t: Table, r: Registration, id: string, now: int)
    ensures Registered(Evm, t, r, id, now).None? <==>
            id in t || exists other :: other in t && Competes(Evm, t[other], r) && HeldOrBroadcast(t[other], now)
  {
    var swept := Sweep(t, r, now);
    hide Competes, Blocks, HeldOrBroadcast, SweepReaches, Abandoned;
    forall other | other in t
      ensures Competes(Evm, swept[other], r) && Blocks(Evm, swept[other], now) <==>
              Competes(Evm, t[other], r) && HeldOrBroadcast(t[other], now)
    {
      SweepKeepsObstacles(t[other], r, now);
    }
  }

  lemma SweepKeepsObstacles(d: Draft, r: Registration, now: int)
    ensures var s := if SweepReaches(d, r) && Abandoned(d, now) then d.(expiresAt := now) else d;
            Competes(Evm, s, r) && Blocks(Evm, s, now) <==> Competes(Evm, d, r) && HeldOrBroadcast(d, now)
  {
    match d.outcome
    case None =>
    case Some(Submitted) =>
    case Some(SubmissionUncertain) =>
    case Some(AlreadyKnown) =>
    case Some(ExplicitlyRejected) =>
  }

  predicate RegistersLookup(chain: Chain, op: Op) {
    chain == Evm && op.Register? && op.r.sender.Sealed? ==> op.r.sender.lookup.Some?
  }

  lemma StepKeepsOneContender(chain: Chain, t: Table, op: Op, now: int)
    requires OneContender(chain, t, now) && RegistersLookup(chain, op)
    requires forall id :: id in t ==> Orderly(t[id])
    ensures OneContender(chain, Step(chain, t, op, now), now)
  {
    hide DraftMoved, Contends, Orderly, Registered;
    StepMoves(chain, t, op, now);
    var after := Step(chain, t, op, now);
    forall id | id in t && Contends(chain, after[id], now)
      ensures Contends(chain, t[id], now) && SameDraftedFields(t[id], after[id])
    {
      ContendingOnlyEnds(chain, t[id], after[id], id, op, now, now);
    }
    if op.Register? && Attempt(chain, t, op, now).Some? {
      forall other | other in t
        ensures !(SameWallet(after[other], Fresh(op.r, now)) && Contends(chain, after[other], now))
      {
        RegisteredAlone(chain, t, op.r, op.newId, now, other);
      }
    }
  }

  lemma OneContenderLasts(chain: Chain, t: Table, now: int, later: int)
    requires OneContender(chain, t, now) && now <= later
    ensures OneContender(chain, t, later)
  {}

  /** With a clock that does not run backwards, no wallet ever has two contending drafts. */
  lemma {:induction false} OneLiveDraft(chain: Chain, ops: seq<Timed<Op>>, k: nat, now: int)
    requires k <= |ops| && ClockRuns(ops) && (k > 0 ==> ops[k - 1].now <= now)
    requires forall a :: 0 <= a < |ops| ==> RegistersLookup(chain, ops[a].op)
    ensures OneContender(chain, StateAt(chain, ops, k), now)
  {
    hide Step, OneContender;
    if k == 0 {
      NoContender(chain, now);
    } else {
      OneLiveDraft(chain, ops, k - 1, ops[k - 1].now);
      StatesAreOrderly(chain, ops, k - 1);
      StepKeepsOneContender(chain, StateAt(chain, ops, k - 1), ops[k - 1].op, ops[k - 1].now);
      OneContenderLasts(chain, StateAt(chain, ops, k), ops[k - 1].now, now);
    }
  }

  lemma NoContender(chain: Chain, now: int)
    ensures OneContender(chain, map[], now)
  {}

  // ----- what the leases do not prevent -----

  predicate Disturbs(op: Op, id: string) {
    (op.Release? || op.TakeClaim? || op.Consume?) && op.id == id
  }

  /** No call between i and j released, reclaimed or consumed the draft that call i claimed. */
  ghost predicate Undisturbed(chain: Chain, ops: seq<Timed<Op>>, i: nat, j: nat)
    requires i < j <= |ops| && ops[i].op.TakeClaim?
  {
    forall k :: i < k < j && Disturbs(ops[k].op, ops[i].op.id) ==> !Succeeds(chain, ops, k)
  }

  predicate OpenWith(t: Table, id: string, token: string) {
    id in t && t[id].consumedAt.None? && ClaimedBy(t[id], token)
  }

  /** Without such a call the claim stays on the unconsumed draft, however late it is. */
  lemma {:induction false} UndisturbedStaysOpen(chain: Chain, ops: seq<Timed<Op>>, i: nat, j: nat)
    requires i < j <= |ops| && ops[i].op.TakeClaim? && Succeeds(chain, ops, i) && Undisturbed(chain, ops, i, j)
    ensures OpenWith(StateAt(chain, ops, j), ops[i].op.id, ops[i].op.token)
    decreases j
  {
    hide StateAt, Succeeds, Undisturbed, OpenWith, Disturbs;
    if i + 1 == j {
      ClaimOpens(chain, ops, i);
    } else {
      UndisturbedSooner(chain, ops, i, j);
      UndisturbedStaysOpen(chain, ops, i, j - 1);
      OpenSurvives(chain, ops, j - 1, ops[i].op.id, ops[i].op.token);
    }
  }

  lemma UndisturbedSooner(chain: Chain, ops: seq<Timed<Op>>, i: nat, j: nat)
    requires i + 1 < j <= |ops| && ops[i].op.TakeClaim? && Undisturbed(chain, ops, i, j)
    ensures Undisturbed(chain, ops, i, j - 1)
    ensures Disturbs(ops[j - 1].op, ops[i].op.id) ==> !Succeeds(chain, ops, j - 1)
  {
    hide StateAt, Succeeds, Disturbs;
  }

  lemma ClaimOpens(chain: Chain, ops: seq<Timed<Op>>, i: nat)
    requires i < |ops| && ops[i].op.TakeClaim? && Succeeds(chain, ops, i)
    ensures OpenWith(StateAt(chain, ops, i + 1), ops[i].op.id, ops[i].op.token)
  {}

  lemma OpenSurvives(chain: Chain, ops: seq<Timed<Op>>, k: nat, id: string, token: string)
    requires k < |ops| && OpenWith(StateAt(chain, ops, k), id, token)
    requires Disturbs(ops[k].op, id) ==> !Succeeds(chain, ops, k)
    ensures OpenWith(StateAt(chain, ops, k + 1), id, token)
  {
    var t, op, now := StateAt(chain, ops, k), ops[k].op, ops[k].now;
    StepMoves(chain, t, op, now);
    hide Attempt;
  }

  lemma ConsumeNeedsOpen(chain: Chain, ops: seq<Timed<Op>>, j: nat)
    requires j < |ops| && ops[j].op.Consume?
    ensures Succeeds(chain, ops, j) <==>
            ops[j].op.token != "" && ops[j].op.txId != ""
            && OpenWith(StateAt(chain, ops, j), ops[j].op.id, ops[j].op.token)
  {}

  /** Exactly when: a worker's consume succeeds if and only if, since its claim, no release, claim or
      consume of the draft took effect: whatever the clock says of its lease and of the draft. */
  lemma ConsumeSucceedsExactly(chain: Chain, ops: seq<Timed<Op>>, i: nat, j: nat)
    requires TokensFresh(ops) && i < j < |ops| && ops[i].op.TakeClaim? && Succeeds(chain, ops, i)
    requires Consumes(ops[j].op, ops[i].op.id) && ops[j].op.token == ops[i].op.token
    requires ops[j].op.token != "" && ops[j].op.txId != ""
    ensures Succeeds(chain, ops, j) <==> Undisturbed(chain, ops, i, j)
  {
    ConsumeNeedsOpen(chain, ops, j);
    hide StateAt, Succeeds, TokensFresh, Lost, OpenWith, Disturbs;
    if Undisturbed(chain, ops, i, j) {
      UndisturbedStaysOpen(chain, ops, i, j);
    } else {
      var k :| i < k < j && Disturbs(ops[k].op, ops[i].op.id) && Succeeds(chain, ops, k);
      DisturbedConsumeFails(chain, ops, i, k, j);
    }
  }

  lemma DisturbedConsumeFails(chain: Chain, ops: seq<Timed<Op>>, i: nat, k: nat, j: nat)
    requires TokensFresh(ops) && i < k < j < |ops| && ops[i].op.TakeClaim? && Succeeds(chain, ops, i)
    requires Disturbs(ops[k].op, ops[i].op.id) && Succeeds(chain, ops, k)
    requires Consumes(ops[j].op, ops[i].op.id) && ops[j].op.token == ops[i].op.token
    ensures !Succeeds(chain, ops, j)
  {
    hide StateAt, Succeeds, TokensFresh, Lost;
    match ops[k].op
    case Release(_, _) =>
      ReleaseLoses(chain, ops, i, k);
      LostClaimIsUseless(chain, ops, i, k + 1, j);
    case TakeClaim(_, _, _, _, _) =>
      TakeoverLoses(chain, ops, i, k);
      LostClaimIsUseless(chain, ops, i, k + 1, j);
    case Consume(id, _, _) =>
      if Succeeds(chain, ops, j) {
        ConsumedAtMostOnce(chain, ops, k, j, id);
      }
  }

  /** Register, claim for a minute, register again after the lease, consume the first draft. */
  function LapsedRun(r: Registration): (ops: seq<Timed<Op>>)
    ensures |ops| == 4
  {
    [Timed(Register(r, "first"), 0), Timed(TakeClaim("first", r.vault, r.network, 60, "worker"), 1),
     Timed(Register(r, "second"), 100), Timed(Consume("first", "worker", "hash"), 101)]
  }

  /** So a worker whose lease has ended can still consume a draft that expired under it, after
      the same wallet registered another one. */
  lemma LapsedWorkerStillConsumes(r: Registration)
    requires r.sender.Plain? && r.ttl == 300
    ensures var ops := LapsedRun(r);
            && ClockRuns(ops) && TokensFresh(ops)
            && ops[2].op == Register(r, "second") && Succeeds(Evm, ops, 2)
            && ops[3].op == Consume("first", "worker", "hash") && Succeeds(Evm, ops, 3)
            && "first" in StateAt(Evm, ops, 3) && StateAt(Evm, ops, 3)["first"].expiresAt <= ops[3].now
  {
    var ops := LapsedRun(r);
    var claimed := Fresh(r, 0).(claim := Some(Claim("worker", 61)));
    FirstDraftClaimed(r, ops);
    LapsedClaimIsSwept(r, claimed);
    var last := map["first" := claimed.(expiresAt := 100), "second" := Fresh(r, 100)];
    assert Attempt(Evm, StateAt(Evm, ops, 2), ops[2].op, ops[2].now) == Some(last);
    StateAfter(ops, 2, last);
    LapsedClaimConsumes(last);
    hide Registered, Fresh, Attempt, StateAt;
    assert Succeeds(Evm, ops, 2) && Succeeds(Evm, ops, 3);
  }

  lemma StateAfter(ops: seq<Timed<Op>>, k: nat, after: Table)
    requires k < |ops| && Attempt(Evm, StateAt(Evm, ops, k), ops[k].op, ops[k].now) == Some(after)
    ensures StateAt(Evm, ops, k + 1) == after
  {}

  lemma FirstDraftClaimed(r: Registration, ops: seq<Timed<Op>>)
    requires r.sender.Plain? && r.ttl == 300 && |ops| >= 2
    requires ops[0] == Timed(Register(r, "first"), 0)
    requires ops[1] == Timed(TakeClaim("first", r.vault, r.network, 60, "worker"), 1)
    ensures StateAt(Evm, ops, 2) == map["first" := Fresh(r, 0).(claim := Some(Claim("worker", 61)))]
  {
    assert Registered(Evm, map[], r, "first", 0) == Some(map["first" := Fresh(r, 0)]);
    var draft := Fresh(r, 0);
    StateAfter(ops, 0, map["first" := draft]);
    assert ClaimRefusal(map["first" := draft], "first", r.vault, r.network, 1).None?;
    assert map["first" := draft]["first" := draft.(claim := Some(Claim("worker", 61)))]
        == map["first" := draft.(claim := Some(Claim("worker", 61)))];
    StateAfter(ops, 1, map["first" := Fresh(r, 0).(claim := Some(Claim("worker", 61)))]);
  }

  lemma LapsedClaimConsumes(t: Table)
    requires "first" in t && ClaimedBy(t["first"], "worker") && t["first"].consumedAt.None?
    ensures Attempt(Evm, t, Consume("first", "worker", "hash"), 101).Some?
  {}

  lemma LapsedClaimIsSwept(r: Registration, claimed: Draft)
    requires r.sender.Plain? && claimed == Fresh(r, 0).(claim := Some(Claim("worker", 61))) && r.ttl == 300
    ensures Registered(Evm, map["first" := claimed], r, "second", 100)
            == Some(map["first" := claimed.(expiresAt := 100), "second" := Fresh(r, 100)])
  {
    assert Sweep(map["first" := claimed], r, 100) == map["first" := claimed.(expiresAt := 100)];
    assert "first"[0] != "second"[0];
  }
}
