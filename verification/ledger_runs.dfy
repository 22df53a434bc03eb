/** Runs of the entitlement ledger: any sequence of reconcile, upsert, revoke and terminalize
    calls, refused ones included, and what every reachable table satisfies. */
module LedgerRuns {
  import opened Options
  import opened Text
  import opened BillingLedger
  import opened Timelines

  datatype Op =
    | ReconcileOp(q: GoogleRequest)
    | UpsertOp(account: string, u: Update)
    | EventOp(e: PurchaseEvent, revoke: bool)

  function Attempt(rows: seq<Row>, op: Op, now: int): Result<(seq<Row>, Outcome), Failure> {
    match op
    case ReconcileOp(q) => Reconciled(rows, q, now)
    case UpsertOp(account, u) => Upserted(rows, account, u, now)
    case EventOp(e, revoke) => EventApplied(rows, e, revoke)
  }

  function Step(rows: seq<Row>, op: Op, now: int): seq<Row> {
    match Attempt(rows, op, now)
    case Ok((after, outcome)) => after
    case Err(_) => rows
  }

  function Run(rows: seq<Row>, ops: seq<Timed<Op>>): seq<Row>
    decreases |ops|
  {
    if ops == [] then rows else Run(Step(rows, ops[0].op, ops[0].now), ops[1..])
  }

  function OpAccount(op: Op): string {
    match op
    case ReconcileOp(q) => q.account
    case UpsertOp(account, u) => account
    case EventOp(e, revoke) => e.account
  }

  // ----- every accepted step, row by row -----

  predicate Predecessor(r: Row, q: GoogleRequest) {
    Grants(q.update.status) && Trim(q.linkedId) != "" && IsPurchase(r, GooglePlay, Trim(q.linkedId))
  }

  /** What an accepted step makes of one row, with the checks the row has passed. */
  ghost predicate Moved(before: Row, after: Row, op: Op, now: int) {
    match op
    case ReconcileOp(q) =>
      if IsPurchase(before, GooglePlay, q.update.purchaseId) then
        && before.account == q.account && !OlderEvent(before, q.update.eventAt)
        && !(before.supersededBy.Some? && Grants(q.update.status))
        && after == GoogleWritten(before, q)
      else if Predecessor(before, q) then
        before.account == q.account && after == Superseded(Swept(before, q.account, now), q.update.purchaseId)
      else after == Swept(before, q.account, now)
    case UpsertOp(account, u) =>
      if MatchesUpdate(before, u) then
        before.account == account && !OlderEvent(before, u.eventAt) && after == UpsertWritten(before, u)
      else after == before
    case EventOp(e, revoke) =>
      if IsPurchase(before, e.provider, e.purchaseId) then
        && before.account == e.account && !OlderEvent(before, Some(e.eventAt))
        && after == Ended(before, if revoke then Revoked else TerminalStatus(before.status), e.eventAt)
      else after == before
  }

  ghost predicate Added(after: Row, op: Op, now: int) {
    match op
    case ReconcileOp(q) => after == Inserted(q.account, q.update, q.scheduled, now) && after.provider == GooglePlay
    case UpsertOp(account, u) => after == Inserted(account, u, None, now) && after.provider == Apple
    case EventOp(e, revoke) => false
  }

  /** Rows keep their positions and at most one row is added. */
  ghost predicate Accepted(rows: seq<Row>, after: seq<Row>, op: Op, now: int) {
    && |rows| <= |after| <= |rows| + 1
    && (op.UpsertOp? ==> op.u.provider == Apple)
    && (forall i :: 0 <= i < |rows| ==> Moved(rows[i], after[i], op, now))
    && (|after| > |rows| ==> Added(after[|rows|], op, now))
  }

  lemma StepIsAccepted(rows: seq<Row>, op: Op, now: int)
    requires UniquePurchases(rows)
    ensures match Attempt(rows, op, now)
            case Err(_) => Step(rows, op, now) == rows
            case Ok((after, outcome)) => Step(rows, op, now) == after && Accepted(rows, after, op, now)
  {
    match op
    case ReconcileOp(q) => if Reconciled(rows, q, now).Ok? { ReconcileIsAccepted(rows, q, now); }
    case UpsertOp(account, u) => if Upserted(rows, account, u, now).Ok? { UpsertIsAccepted(rows, account, u, now); }
    case EventOp(e, revoke) =>
      hide Ended, OlderEvent, TerminalStatus;
  }

  lemma ReconcileIsAccepted(rows: seq<Row>, q: GoogleRequest, now: int)
    requires UniquePurchases(rows) && Reconciled(rows, q, now).Ok?
    ensures Accepted(rows, Reconciled(rows, q, now).value.0, ReconcileOp(q), now)
  {
    hide OwnerRefuses, Swept, Superseded, GoogleWritten, Inserted, OlderEvent, Live, OtherLive, Trim, SameOriginal;
    InsertedProvider(q.account, q.update, q.scheduled, now);
    forall i | 0 <= i < |rows| && Predecessor(rows[i], q)
      ensures LinkedRow(rows, Trim(q.linkedId)) == Some(i)
    {
      LinkedIsFound(rows, Trim(q.linkedId), i);
    }
  }

  lemma InsertedProvider(account: string, u: Update, scheduled: Option<Scheduled>, now: int)
    ensures Inserted(account, u, scheduled, now).provider == u.provider
  {}

  lemma UpsertIsAccepted(rows: seq<Row>, account: string, u: Update, now: int)
    requires UniquePurchases(rows) && Upserted(rows, account, u, now).Ok?
    ensures Accepted(rows, Upserted(rows, account, u, now).value.0, UpsertOp(account, u), now)
  {
    hide OwnerRefuses, OlderEvent, Live, Grants, UniquePurchases;
    InsertedProvider(account, u, None, now);
  }

  lemma LinkedIsFound(rows: seq<Row>, linked: string, i: nat)
    requires UniquePurchases(rows) && i < |rows| && IsPurchase(rows[i], GooglePlay, linked) && linked != ""
    ensures LinkedRow(rows, linked) == Some(i)
  {}

  // ----- one granting Google Play row per account -----

  predicate GoogleGrant(r: Row, account: string) {
    r.provider == GooglePlay && r.account == account && Grants(r.status)
  }

  /** The partial unique index on granting Google Play rows. */
  ghost predicate OneGoogleGrant(rows: seq<Row>) {
    forall i, j :: 0 <= i < |rows| && 0 <= j < |rows| ==>
      GoogleGrant(rows[i], rows[j].account) && GoogleGrant(rows[j], rows[j].account) ==> i == j
  }

  lemma SweptGrantIsLive(r: Row, q: GoogleRequest, now: int)
    requires GoogleGrant(Swept(r, q.account, now), q.account) && r.purchaseId != q.update.purchaseId
    ensures OtherLive(r, q, now)
  {}

  lemma SupersededDoesNotGrant(r: Row, successor: string, account: string)
    ensures !GoogleGrant(Superseded(r, successor), account)
  {}

  /** After an accepted granting reconcile the written row is the account's only granting one. */
  lemma GrantingReconcileIsSole(rows: seq<Row>, q: GoogleRequest, now: int)
    requires UniquePurchases(rows) && Grants(q.update.status) && Reconciled(rows, q, now).Ok?
    ensures var (after, outcome) := Reconciled(rows, q, now).value;
            && outcome.id < |after|
            && IsPurchase(after[outcome.id], GooglePlay, q.update.purchaseId)
            && after[outcome.id].bytes == q.update.bytes && after[outcome.id].status == q.update.status
            && after[outcome.id].periodEnd == q.update.periodEnd
            && forall i :: 0 <= i < |after| ==> (GoogleGrant(after[i], q.account) <==> i == outcome.id)
  {
    var (after, outcome) := Reconciled(rows, q, now).value;
    GrantingRowWritten(rows, q, now);
    forall i | 0 <= i < |after| && i != outcome.id
      ensures !GoogleGrant(after[i], q.account)
    {
      OtherRowsDoNotGrant(rows, q, now, i);
    }
  }

  lemma GrantingRowWritten(rows: seq<Row>, q: GoogleRequest, now: int)
    requires Grants(q.update.status) && Reconciled(rows, q, now).Ok?
    ensures var (after, outcome) := Reconciled(rows, q, now).value;
            && outcome.id < |after|
            && IsPurchase(after[outcome.id], GooglePlay, q.update.purchaseId)
            && after[outcome.id].bytes == q.update.bytes && after[outcome.id].status == q.update.status
            && after[outcome.id].periodEnd == q.update.periodEnd
            && GoogleGrant(after[outcome.id], q.account)
  {
    hide OwnerRefuses, Swept, Superseded, OlderEvent, Live, OtherLive, Trim, SameOriginal;
  }

  lemma OtherRowsDoNotGrant(rows: seq<Row>, q: GoogleRequest, now: int, i: nat)
    requires UniquePurchases(rows) && Grants(q.update.status) && Reconciled(rows, q, now).Ok?
    requires var (after, outcome) := Reconciled(rows, q, now).value; i < |after| && i != outcome.id
    ensures var (after, outcome) := Reconciled(rows, q, now).value; !GoogleGrant(after[i], q.account)
  {
    hide OwnerRefuses, Superseded, OlderEvent, Trim, SameOriginal, Grants, Swept, GoogleWritten, Inserted, Live,
      OtherLive;
    var (after, outcome) := Reconciled(rows, q, now).value;
    var linked := Trim(q.linkedId);
    SupersededDoesNotGrant(Swept(rows[i], q.account, now), q.update.purchaseId, q.account);
    if GoogleGrant(Swept(rows[i], q.account, now), q.account) {
      SweepKeepsIdentity(rows[i], q.account, now);
      SweptGrantIsLive(rows[i], q, now);
      assert linked != "" && rows[i].purchaseId == linked;
      LinkedIsFound(rows, linked, i);
    }
  }

  lemma StepKeepsOneGoogleGrant(rows: seq<Row>, op: Op, now: int)
    requires UniquePurchases(rows) && OneGoogleGrant(rows)
    ensures OneGoogleGrant(Step(rows, op, now))
  {
    hide Moved, Added, Attempt, Step, Grants;
    var after := Step(rows, op, now);
    StepIsAccepted(rows, op, now);
    if Attempt(rows, op, now).Ok? {
      if op.ReconcileOp? && Grants(op.q.update.status) {
        GrantingReconcileStep(rows, op.q, now);
        forall i | 0 <= i < |rows| && rows[i].account != op.q.account
          ensures after[i] == rows[i]
        {
          MovedElsewhere(rows[i], after[i], op, now);
        }
        forall i | 0 <= i < |rows|
          ensures after[i].account == rows[i].account
        {
          MovedKeepsAccount(rows[i], after[i], op, now);
        }
        if |after| > |rows| {
          AddedAccount(after[|rows|], op, now);
        }
      } else {
        forall i | 0 <= i < |after| && GoogleGrant(after[i], after[i].account)
          ensures i < |rows| && GoogleGrant(rows[i], after[i].account)
        {
          if i < |rows| {
            MovedDoesNotGrant(rows[i], after[i], op, now);
          } else {
            AddedDoesNotGrant(after[i], op, now);
          }
        }
      }
    }
  }

  lemma GrantingReconcileStep(rows: seq<Row>, q: GoogleRequest, now: int)
    requires UniquePurchases(rows) && Grants(q.update.status) && Attempt(rows, ReconcileOp(q), now).Ok?
    ensures var after := Step(rows, ReconcileOp(q), now);
            forall i, j :: 0 <= i < |after| && 0 <= j < |after| ==>
              GoogleGrant(after[i], q.account) && GoogleGrant(after[j], q.account) ==> i == j
  {
    hide Reconciled, GoogleGrant, IsPurchase;
    GrantingReconcileIsSole(rows, q, now);
  }

  lemma MovedElsewhere(before: Row, after: Row, op: Op, now: int)
    requires Moved(before, after, op, now) && before.account != OpAccount(op)
    ensures after == before
  {}

  lemma MovedKeepsAccount(before: Row, after: Row, op: Op, now: int)
    requires Moved(before, after, op, now)
    ensures after.account == before.account && after.provider == before.provider && after.createdAt == before.createdAt
  {}

  lemma AddedAccount(after: Row, op: Op, now: int)
    requires Added(after, op, now)
    ensures after.account == OpAccount(op)
  {}

  lemma MovedDoesNotGrant(before: Row, after: Row, op: Op, now: int)
    requires Moved(before, after, op, now) && GoogleGrant(after, after.account)
    requires op.ReconcileOp? ==> !Grants(op.q.update.status)
    requires op.UpsertOp? ==> op.u.provider == Apple
    ensures GoogleGrant(before, after.account)
  {}

  lemma AddedDoesNotGrant(after: Row, op: Op, now: int)
    requires Added(after, op, now)
    requires op.ReconcileOp? ==> !Grants(op.q.update.status)
    ensures !GoogleGrant(after, after.account)
  {}

  // ----- superseded purchases and their links -----

  ghost predicate SupersededIdle(rows: seq<Row>) {
    forall i :: 0 <= i < |rows| && rows[i].supersededBy.Some? ==>
      rows[i].provider == GooglePlay && !Grants(rows[i].status)
  }

  lemma MovedKeepsSuperseded(before: Row, after: Row, op: Op, now: int)
    requires Moved(before, after, op, now) && (op.UpsertOp? ==> op.u.provider == Apple)
    requires before.supersededBy.Some? ==> before.provider == GooglePlay && !Grants(before.status)
    ensures before.supersededBy.Some? ==> after.supersededBy.Some?
    ensures after.supersededBy.Some? ==> after.provider == GooglePlay && !Grants(after.status)
  {}

  lemma StepKeepsSupersededIdle(rows: seq<Row>, op: Op, now: int)
    requires UniquePurchases(rows) && SupersededIdle(rows)
    ensures SupersededIdle(Step(rows, op, now))
    ensures |Step(rows, op, now)| >= |rows|
    ensures forall i :: 0 <= i < |rows| && rows[i].supersededBy.Some? ==> Step(rows, op, now)[i].supersededBy.Some?
  {
    hide Moved, Attempt, Step, Grants;
    StepIsAccepted(rows, op, now);
    var after := Step(rows, op, now);
    if Attempt(rows, op, now).Ok? {
      forall i | 0 <= i < |rows|
        ensures rows[i].supersededBy.Some? ==> after[i].supersededBy.Some?
        ensures after[i].supersededBy.Some? ==> after[i].provider == GooglePlay && !Grants(after[i].status)
      {
        MovedKeepsSuperseded(rows[i], after[i], op, now);
      }
    }
  }

  /** Row i was replaced by row j. */
  ghost predicate LinksTo(rows: seq<Row>, i: nat, j: nat) {
    && i < |rows| && j < |rows| && rows[i].provider == GooglePlay && rows[i].supersededBy.Some?
    && IsPurchase(rows[j], GooglePlay, rows[i].supersededBy.value)
  }

  ghost predicate LinkPath(rows: seq<Row>, path: seq<nat>) {
    forall k :: 0 <= k < |path| - 1 ==> LinksTo(rows, path[k], path[k + 1])
  }

  /** No chain of replacements comes back to where it started. */
  ghost predicate Acyclic(rows: seq<Row>) {
    forall path :: |path| >= 2 && LinkPath(rows, path) ==> path[0] != path[|path| - 1]
  }

  /** Every link names a purchase of the table, and of the same account. */
  ghost predicate LinksResolve(rows: seq<Row>) {
    forall i :: 0 <= i < |rows| && rows[i].supersededBy.Some? ==>
      exists j: nat :: LinksTo(rows, i, j) && rows[j].account == rows[i].account
  }

  lemma NewLinksEndAtHeads(rows: seq<Row>, after: seq<Row>)
    requires Acyclic(rows)
    requires forall i: nat, j: nat :: LinksTo(after, i, j) ==> LinksTo(rows, i, j) || after[j].supersededBy.None?
    ensures Acyclic(after)
  {
    forall path | |path| >= 2 && LinkPath(after, path)
      ensures path[0] != path[|path| - 1]
    {
      if path[0] == path[|path| - 1] {
        assert LinksTo(after, path[0], path[1]);
        forall k | 0 <= k < |path| - 1
          ensures LinksTo(rows, path[k], path[k + 1])
        {
          assert LinksTo(after, path[k], path[k + 1]);
          if k + 1 < |path| - 1 {
            assert LinksTo(after, path[k + 1], path[k + 2]);
          }
        }
        assert LinkPath(rows, path);
      }
    }
  }

  /** A row that links to something either linked there before or was just superseded. */
  lemma MovedLink(before: Row, after: Row, op: Op, now: int)
    requires Moved(before, after, op, now) && (op.UpsertOp? ==> op.u.provider == Apple)
    requires after.provider == GooglePlay
    ensures before.provider == GooglePlay && after.purchaseId == before.purchaseId && after.account == before.account
    ensures after.supersededBy == before.supersededBy
            || (op.ReconcileOp? && Grants(op.q.update.status) && after.supersededBy == Some(op.q.update.purchaseId)
                && before.account == op.q.account)
    ensures op.ReconcileOp? && Grants(op.q.update.status) && IsPurchase(after, GooglePlay, op.q.update.purchaseId) ==>
              after.supersededBy.None? && before.account == op.q.account
  {}

  lemma AddedHasNoLink(after: Row, op: Op, now: int)
    requires Added(after, op, now)
    ensures after.supersededBy.None? && after.account == OpAccount(op)
  {}

  lemma StepLinks(rows: seq<Row>, op: Op, now: int, i: nat, j: nat)
    requires UniquePurchases(rows)
    requires LinksTo(Step(rows, op, now), i, j)
    ensures LinksTo(rows, i, j) || Step(rows, op, now)[j].supersededBy.None?
  {
    hide Moved, Added, Attempt, Step, Grants;
    StepIsAccepted(rows, op, now);
    var after := Step(rows, op, now);
    if Attempt(rows, op, now).Ok? {
      if |after| > |rows| {
        AddedHasNoLink(after[|rows|], op, now);
      }
      if j < |rows| {
        MovedLink(rows[i], after[i], op, now);
        MovedLink(rows[j], after[j], op, now);
      }
    }
  }

  lemma StepKeepsAcyclic(rows: seq<Row>, op: Op, now: int)
    requires UniquePurchases(rows) && Acyclic(rows)
    ensures Acyclic(Step(rows, op, now))
  {
    hide Step, LinksTo, Acyclic, UniquePurchases;
    forall i: nat, j: nat | LinksTo(Step(rows, op, now), i, j)
      ensures LinksTo(rows, i, j) || (j < |Step(rows, op, now)| && Step(rows, op, now)[j].supersededBy.None?)
    {
      StepLinks(rows, op, now, i, j);
      LinkInRange(Step(rows, op, now), i, j);
    }
    LinksInRange(Step(rows, op, now));
    NewLinksEndAtHeads(rows, Step(rows, op, now));
  }

  lemma LinkInRange(rows: seq<Row>, i: nat, j: nat)
    requires LinksTo(rows, i, j)
    ensures i < |rows| && j < |rows|
  {}

  lemma LinksInRange(rows: seq<Row>)
    ensures forall i: nat, j: nat :: LinksTo(rows, i, j) ==> i < |rows| && j < |rows|
  {}

  lemma StepKeepsLinksResolved(rows: seq<Row>, op: Op, now: int)
    requires UniquePurchases(rows) && SupersededIdle(rows) && LinksResolve(rows)
    ensures LinksResolve(Step(rows, op, now))
  {
    hide Moved, Added, Attempt, Step, Grants, UniquePurchases, Swept, Superseded;
    StepIsAccepted(rows, op, now);
    StepKeepsSupersededIdle(rows, op, now);
    var after := Step(rows, op, now);
    if Attempt(rows, op, now).Ok? {
      forall i: nat | i < |after| && after[i].supersededBy.Some?
        ensures exists j: nat :: LinksTo(after, i, j) && after[j].account == after[i].account
      {
        if i == |rows| {
          AddedHasNoLink(after[i], op, now);
        }
        MovedLink(rows[i], after[i], op, now);
        if after[i].supersededBy == rows[i].supersededBy {
          var j: nat :| LinksTo(rows, i, j) && rows[j].account == rows[i].account;
          MovedKeepsGoogleKey(rows[j], after[j], op, now);
          assert LinksTo(after, i, j);
        } else {
          WrittenRowExists(rows, op.q, now);
          var j: nat :| j < |after| && IsPurchase(after[j], GooglePlay, op.q.update.purchaseId)
            && after[j].account == op.q.account;
          assert LinksTo(after, i, j);
        }
      }
    }
  }

  lemma MovedKeepsGoogleKey(before: Row, after: Row, op: Op, now: int)
    requires Moved(before, after, op, now) && (op.UpsertOp? ==> op.u.provider == Apple)
    requires before.provider == GooglePlay
    ensures after.provider == GooglePlay && after.purchaseId == before.purchaseId && after.account == before.account
  {}

  lemma WrittenRowExists(rows: seq<Row>, q: GoogleRequest, now: int)
    requires Attempt(rows, ReconcileOp(q), now).Ok?
    ensures var after := Step(rows, ReconcileOp(q), now);
            exists j: nat :: j < |after| && IsPurchase(after[j], GooglePlay, q.update.purchaseId)
              && after[j].account == q.account
  {
    hide OwnerRefuses, Swept, Superseded, OlderEvent, Live, OtherLive, Trim, SameOriginal, Grants;
    var id := Reconciled(rows, q, now).value.1.id;
    var after := Step(rows, ReconcileOp(q), now);
    assert id < |after| && IsPurchase(after[id], GooglePlay, q.update.purchaseId) && after[id].account == q.account;
  }

  // ----- every reachable table -----

  ghost predicate Sound(rows: seq<Row>) {
    && UniquePurchases(rows) && UniqueOriginals(rows) && OneGoogleGrant(rows)
    && SupersededIdle(rows) && LinksResolve(rows) && Acyclic(rows)
  }

  lemma StepKeepsKeys(rows: seq<Row>, op: Op, now: int)
    requires UniquePurchases(rows) && UniqueOriginals(rows)
    ensures UniquePurchases(Step(rows, op, now)) && UniqueOriginals(Step(rows, op, now))
  {
    hide UniquePurchases, UniqueOriginals, Reconciled, Upserted, EventApplied;
    match op
    case ReconcileOp(q) => ReconciledKeepsKeys(rows, q, now);
    case UpsertOp(account, u) => UpsertedKeepsKeys(rows, account, u, now);
    case EventOp(e, revoke) => EventKeepsKeys(rows, e, revoke);
  }

  lemma StepKeepsSound(rows: seq<Row>, op: Op, now: int)
    requires Sound(rows)
    ensures Sound(Step(rows, op, now))
  {
    hide Step, UniquePurchases, UniqueOriginals, OneGoogleGrant, SupersededIdle, LinksResolve, Acyclic;
    StepKeepsKeys(rows, op, now);
    StepKeepsOneGoogleGrant(rows, op, now);
    StepKeepsSupersededIdle(rows, op, now);
    StepKeepsLinksResolved(rows, op, now);
    StepKeepsAcyclic(rows, op, now);
  }

  /** Under any clock and any interleaving of calls. */
  lemma {:induction false} RunKeepsSound(rows: seq<Row>, ops: seq<Timed<Op>>)
    requires Sound(rows)
    ensures Sound(Run(rows, ops))
    decreases |ops|
  {
    hide Step, Sound;
    if ops != [] {
      StepKeepsSound(rows, ops[0].op, ops[0].now);
      RunKeepsSound(Step(rows, ops[0].op, ops[0].now), ops[1..]);
    }
  }

  lemma ReachableIsSound(ops: seq<Timed<Op>>)
    ensures Sound(Run([], ops))
  {
    EmptyIsSound();
    RunKeepsSound([], ops);
  }

  lemma EmptyIsSound()
    ensures Sound([])
  {
    forall path: seq<nat> | |path| >= 2
      ensures !LinkPath([], path)
    {
      assert !LinksTo([], path[0], path[1]);
    }
  }

  /** Once replaced, a purchase never grants again, whatever is called and whenever. */
  lemma {:induction false} SupersededNeverGrants(rows: seq<Row>, ops: seq<Timed<Op>>, i: nat)
    requires UniquePurchases(rows) && UniqueOriginals(rows) && SupersededIdle(rows)
    requires i < |rows| && rows[i].supersededBy.Some?
    ensures i < |Run(rows, ops)|
    ensures Run(rows, ops)[i].supersededBy.Some? && !Grants(Run(rows, ops)[i].status)
    decreases |ops|
  {
    hide Step, UniquePurchases, UniqueOriginals, Grants;
    if ops != [] {
      var next := Step(rows, ops[0].op, ops[0].now);
      StepKeepsKeys(rows, ops[0].op, ops[0].now);
      StepKeepsSupersededIdle(rows, ops[0].op, ops[0].now);
      SupersededNeverGrants(next, ops[1..], i);
    }
  }

  // ----- accounts, bindings and event times -----

  /** One operation leaves every row of every other account exactly as it was, and adds no
      row to another account. */
  lemma OtherAccountsUntouched(rows: seq<Row>, op: Op, now: int)
    requires UniquePurchases(rows)
    ensures var after := Step(rows, op, now);
            && |rows| <= |after|
            && (forall i :: 0 <= i < |rows| ==>
                after[i].account == rows[i].account && after[i].provider == rows[i].provider)
            && (forall i :: 0 <= i < |rows| && rows[i].account != OpAccount(op) ==> after[i] == rows[i])
            && (forall i :: |rows| <= i < |after| ==> after[i].account == OpAccount(op))
  {
    hide Moved, Added, Attempt, Step, UniquePurchases;
    StepIsAccepted(rows, op, now);
    var after := Step(rows, op, now);
    if Attempt(rows, op, now).Ok? {
      forall i | 0 <= i < |rows|
        ensures after[i].account == rows[i].account && after[i].provider == rows[i].provider
        ensures rows[i].account != OpAccount(op) ==> after[i] == rows[i]
      {
        MovedKeepsAccount(rows[i], after[i], op, now);
        if rows[i].account != OpAccount(op) {
          MovedElsewhere(rows[i], after[i], op, now);
        }
      }
      if |after| > |rows| {
        AddedAccount(after[|rows|], op, now);
      }
    }
  }

  predicate CarriesEventTime(op: Op) {
    match op
    case ReconcileOp(q) => q.update.eventAt.Some?
    case UpsertOp(account, u) => u.eventAt.Some?
    case EventOp(e, revoke) => true
  }

  predicate NotBefore(before: Row, after: Row) {
    before.lastEventAt.Some? ==> after.lastEventAt.Some? && before.lastEventAt.value <= after.lastEventAt.value
  }

  lemma MovedKeepsEventTime(before: Row, after: Row, op: Op, now: int)
    requires Moved(before, after, op, now) && CarriesEventTime(op)
    ensures NotBefore(before, after)
  {}

  lemma {:induction false} EventTimesNeverGoBack(rows: seq<Row>, ops: seq<Timed<Op>>, i: nat)
    requires UniquePurchases(rows) && UniqueOriginals(rows) && i < |rows|
    requires forall k :: 0 <= k < |ops| ==> CarriesEventTime(ops[k].op)
    ensures i < |Run(rows, ops)| && NotBefore(rows[i], Run(rows, ops)[i])
    decreases |ops|
  {
    hide Step, UniquePurchases, UniqueOriginals, Moved, Attempt, CarriesEventTime;
    if ops != [] {
      var next := Step(rows, ops[0].op, ops[0].now);
      StepIsAccepted(rows, ops[0].op, ops[0].now);
      StepKeepsKeys(rows, ops[0].op, ops[0].now);
      if Attempt(rows, ops[0].op, ops[0].now).Ok? {
        MovedKeepsEventTime(rows[i], next[i], ops[0].op, ops[0].now);
      }
      EventTimesNeverGoBack(next, ops[1..], i);
    }
  }

  predicate Writes(op: Op, r: Row) {
    match op
    case ReconcileOp(q) => IsPurchase(r, GooglePlay, q.update.purchaseId)
    case UpsertOp(account, u) => MatchesUpdate(r, u)
    case EventOp(e, revoke) => IsPurchase(r, e.provider, e.purchaseId)
  }

  /** Exactly when: an update without an event time is never stale, and forgets the row's time. */
  lemma WrittenEventTime(before: Row, after: Row, op: Op, now: int)
    requires Moved(before, after, op, now) && Writes(op, before)
    ensures NotBefore(before, after) <==> CarriesEventTime(op) || before.lastEventAt.None?
  {}

  function AppleUpdate(eventAt: Option<int>): Update {
    Update(Apple, "t1", Some("o1"), "p", "", 1, 1, Active, true, false, Some(99), eventAt, false)
  }

  /** A row of account a with an event time. */
  function TimedRow(eventAt: Option<int>): Row {
    Inserted("a", AppleUpdate(eventAt), None, 0)
  }

  lemma UpdateOverwrites(stored: Option<int>, eventAt: Option<int>, now: int)
    requires stored.Some? && eventAt.Some? ==> stored.value <= eventAt.value
    ensures Upserted([TimedRow(stored)], "a", AppleUpdate(eventAt), now) ==
        Ok(([TimedRow(eventAt)], Outcome(0, Unchanged)))
  {
    var row, u := TimedRow(stored), AppleUpdate(eventAt);
    assert MatchesUpdate(row, u);
    var after := [row][0 := UpsertWritten(row, u)];
    assert after == [TimedRow(eventAt)];
  }

  lemma StaleUpdateRefused(stored: int, eventAt: int, now: int)
    requires eventAt < stored
    ensures Upserted([TimedRow(Some(stored))], "a", AppleUpdate(Some(eventAt)), now) == Err(StaleEvent)
  {
    assert MatchesUpdate(TimedRow(Some(stored)), AppleUpdate(Some(eventAt)));
  }

  /** A run that shows it: an event older than the stored one is refused, an update without an event
      time is accepted and erases the time, and then the older event is accepted. */
  lemma UntimedUpdateLetsOlderEventIn(newer: int, older: int, now: int)
    requires older < newer
    ensures Attempt([TimedRow(Some(newer))], UpsertOp("a", AppleUpdate(Some(older))), now) == Err(StaleEvent)
    ensures Run([TimedRow(Some(newer))],
                [Timed(UpsertOp("a", AppleUpdate(None)), now), Timed(UpsertOp("a", AppleUpdate(Some(older))), now)])
            == [TimedRow(Some(older))]
  {
    hide Upserted, TimedRow, AppleUpdate;
    StaleUpdateRefused(newer, older, now);
    UpdateOverwrites(Some(newer), None, now);
    UpdateOverwrites(None, Some(older), now);
    var untimed, late := Timed(UpsertOp("a", AppleUpdate(None)), now),
      Timed(UpsertOp("a", AppleUpdate(Some(older))), now);
    assert [untimed, late][1..] == [late] && [late][1..] == [];
    assert Run([TimedRow(None)], [late]) == Run([TimedRow(Some(older))], []);
  }

  // ----- a purchase belongs to one account for ever -----

  /** For Apple, the original transaction id that a transaction id determines. */
  ghost predicate Consistent(rows: seq<Row>, original: string -> Option<string>) {
    forall i :: 0 <= i < |rows| && rows[i].provider == Apple ==> rows[i].originalId == original(rows[i].purchaseId)
  }

  predicate OpConsistent(op: Op, original: string -> Option<string>) {
    op.UpsertOp? ==> op.u.originalId == original(op.u.purchaseId)
  }

  /** The row holds this purchase, or for Apple a renewal of the same original transaction. */
  predicate Holds(r: Row, provider: Provider, purchaseId: string, original: string -> Option<string>) {
    IsPurchase(r, provider, purchaseId) || (provider == Apple && SameOriginal(r, Apple, original(purchaseId)))
  }

  lemma MovedKeepsHolding(before: Row, after: Row, op: Op, now: int, provider: Provider, purchaseId: string,
                          original: string -> Option<string>)
    requires Moved(before, after, op, now) && (op.UpsertOp? ==> op.u.provider == Apple)
    requires OpConsistent(op, original)
    requires before.provider == Apple ==> before.originalId == original(before.purchaseId)
    ensures after.provider == Apple ==> after.originalId == original(after.purchaseId)
    ensures Holds(before, provider, purchaseId, original) ==> Holds(after, provider, purchaseId, original)
  {
    hide Swept, Superseded, GoogleWritten, Ended, OlderEvent, TerminalStatus, Predecessor;
    if op.ReconcileOp? {
      WritesKeepKeys(before, op.q, now);
    }
    if op.EventOp? {
      EndedKeepsKeys(before, if op.revoke then Revoked else TerminalStatus(before.status), op.e.eventAt);
    }
  }

  lemma EndedKeepsKeys(r: Row, status: Status, eventAt: int)
    ensures SameKeys(Ended(r, status, eventAt), r)
  {}

  lemma StepKeepsHolding(rows: seq<Row>, op: Op, now: int, original: string -> Option<string>)
    requires UniquePurchases(rows) && Consistent(rows, original) && OpConsistent(op, original)
    ensures var after := Step(rows, op, now);
            && |rows| <= |after| && Consistent(after, original)
            && forall i, provider, purchaseId :: 0 <= i < |rows| && Holds(rows[i], provider, purchaseId, original) ==>
                 Holds(after[i], provider, purchaseId, original) && after[i].account == rows[i].account
  {
    hide Moved, Attempt, Step, UniquePurchases, Holds;
    StepIsAccepted(rows, op, now);
    var after := Step(rows, op, now);
    if Attempt(rows, op, now).Ok? {
      forall i | 0 <= i < |rows|
        ensures after[i].provider == Apple ==> after[i].originalId == original(after[i].purchaseId)
        ensures after[i].account == rows[i].account
        ensures forall provider, purchaseId ::
                  Holds(rows[i], provider, purchaseId, original) ==> Holds(after[i], provider, purchaseId, original)
      {
        MovedKeepsAccount(rows[i], after[i], op, now);
        forall provider, purchaseId {
          MovedKeepsHolding(rows[i], after[i], op, now, provider, purchaseId, original);
        }
        MovedKeepsHolding(rows[i], after[i], op, now, Apple, "", original);
      }
    }
  }

  /** The row that holds a purchase goes on holding it, and its account never changes. */
  lemma {:induction false} BoundForEver(rows: seq<Row>, ops: seq<Timed<Op>>, original: string -> Option<string>, i: nat,
                                        provider: Provider, purchaseId: string)
    requires UniquePurchases(rows) && UniqueOriginals(rows) && Consistent(rows, original)
    requires forall k :: 0 <= k < |ops| ==> OpConsistent(ops[k].op, original)
    requires i < |rows| && Holds(rows[i], provider, purchaseId, original)
    ensures var after := Run(rows, ops);
            && i < |after| && after[i].account == rows[i].account && Holds(after[i], provider, purchaseId, original)
            && UniquePurchases(after) && Consistent(after, original)
    decreases |ops|
  {
    hide Step, UniquePurchases, UniqueOriginals, Consistent, OpConsistent, Holds;
    if ops != [] {
      StepKeepsHolding(rows, ops[0].op, ops[0].now, original);
      StepKeepsKeys(rows, ops[0].op, ops[0].now);
      BoundForEver(Step(rows, ops[0].op, ops[0].now), ops[1..], original, i, provider, purchaseId);
    }
  }

  /** What an operation presents, if it presents a purchase at all. */
  function Presented(op: Op): (Provider, string) {
    match op
    case ReconcileOp(q) => (GooglePlay, q.update.purchaseId)
    case UpsertOp(account, u) => (u.provider, u.purchaseId)
    case EventOp(e, revoke) => (e.provider, e.purchaseId)
  }

  /** Presenting a held purchase for another account is refused and changes nothing. */
  lemma OtherAccountIsRefused(rows: seq<Row>, op: Op, now: int, original: string -> Option<string>, i: nat)
    requires UniquePurchases(rows) && OpConsistent(op, original)
    requires i < |rows| && Holds(rows[i], Presented(op).0, Presented(op).1, original)
    requires op.EventOp? ==> IsPurchase(rows[i], op.e.provider, op.e.purchaseId)
    requires OpAccount(op) != rows[i].account
    ensures Attempt(rows, op, now).Err? && Step(rows, op, now) == rows
  {
    hide Attempt, Step, UniquePurchases;
    StepIsAccepted(rows, op, now);
  }

  // ----- at most one live row, across both stores -----

  ghost predicate OneLive(rows: seq<Row>, now: int) {
    forall i, j :: 0 <= i < |rows| && 0 <= j < |rows| ==>
      Live(rows[i], now) && Live(rows[j], now) && rows[i].account == rows[j].account ==> i == j
  }

  lemma LiveOnlyEnds(r: Row, now: int, later: int)
    requires now <= later && Live(r, later)
    ensures Live(r, now)
  {}

  lemma OneLiveLasts(rows: seq<Row>, now: int, later: int)
    requires OneLive(rows, now) && now <= later
    ensures OneLive(rows, later)
  {
    hide Live;
    forall i | 0 <= i < |rows| && Live(rows[i], later)
      ensures Live(rows[i], now)
    {
      LiveOnlyEnds(rows[i], now, later);
    }
  }

  /** The row a step may have made live. */
  function Touched(rows: seq<Row>, op: Op, now: int): nat {
    if Attempt(rows, op, now).Ok? then Attempt(rows, op, now).value.1.id else 0
  }

  lemma UntouchedStaysLive(before: Row, after: Row, op: Op, now: int)
    requires Moved(before, after, op, now) && !Writes(op, before) && Live(after, now)
    ensures Live(before, now)
  {}

  lemma TouchedIsWritten(rows: seq<Row>, op: Op, now: int)
    requires UniquePurchases(rows) && Attempt(rows, op, now).Ok?
    ensures Touched(rows, op, now) < |Step(rows, op, now)|
    ensures forall i :: 0 <= i < |rows| && Writes(op, rows[i]) ==> i == Touched(rows, op, now)
    ensures |Step(rows, op, now)| > |rows| ==> Touched(rows, op, now) == |rows|
  {
    hide OwnerRefuses, Live, Grants;
    match op
    case ReconcileOp(q) =>
      hide ReconcileRefusal, GoogleWritten, Inserted, Swept, Superseded, Trim;
    case UpsertOp(account, u) => UpsertTouchesOne(rows, account, u, now);
    case EventOp(e, revoke) =>
      hide Ended, OlderEvent, TerminalStatus;
  }

  lemma UpsertTouchesOne(rows: seq<Row>, account: string, u: Update, now: int)
    ensures Upserted(rows, account, u, now).Ok? ==>
              var (after, outcome) := Upserted(rows, account, u, now).value;
              && outcome.id < |after|
              && (forall i :: 0 <= i < |rows| && MatchesUpdate(rows[i], u) ==> i == outcome.id)
              && (|after| > |rows| ==> outcome.id == |rows|)
  {
    hide OwnerRefuses, Live, Grants, OlderEvent, Inserted, Collides, UpsertWritten;
    var at := FindMatch(rows, u);
    if at.Some? {
      forall i | 0 <= i < |rows| && i != at.value && MatchesUpdate(rows[i], u)
        ensures Collides(rows[at.value := UpsertWritten(rows[at.value], u)], at.value)
      {
        TwoMatchesCollide(rows, u, at.value, i);
      }
    }
  }

  /** The owner trigger has let the touched row through: no other row of its account is live,
      or it was live itself. */
  lemma OwnerAllowed(rows: seq<Row>, op: Op, now: int)
    requires UniquePurchases(rows) && Attempt(rows, op, now).Ok?
    ensures var after := Step(rows, op, now); var t := Touched(rows, op, now);
            t < |after| && Live(after[t], now) && !(t < |rows| && Live(rows[t], now)) ==>
              forall j :: 0 <= j < |after| && j != t && after[j].account == after[t].account ==> !Live(after[j], now)
  {
    hide Live, Reconciled, Upserted, EventApplied;
    match op
    case ReconcileOp(q) => ReconcileOwnerAllowed(rows, q, now);
    case UpsertOp(account, u) => UpsertOwnerAllowed(rows, account, u, now);
    case EventOp(e, revoke) => EventOwnerAllowed(rows, e, revoke, now);
  }

  /** If row t is live and was not, every other row of its account is not. */
  ghost predicate SoleIfNewlyLive(rows: seq<Row>, after: seq<Row>, t: nat, now: int) {
    && t < |after|
    && (Live(after[t], now) && !(t < |rows| && Live(rows[t], now)) ==>
          forall j :: 0 <= j < |after| && j != t && after[j].account == after[t].account ==> !Live(after[j], now))
  }

  lemma NotRefusedIsSole(rows: seq<Row>, after: seq<Row>, t: nat, wasLive: bool, now: int)
    requires t < |after| && !OwnerRefuses(after, t, wasLive, now) && (wasLive ==> t < |rows| && Live(rows[t], now))
    ensures SoleIfNewlyLive(rows, after, t, now)
  {
    hide Live;
  }

  lemma ReconcileOwnerAllowed(rows: seq<Row>, q: GoogleRequest, now: int)
    requires Reconciled(rows, q, now).Ok?
    ensures var (after, outcome) := Reconciled(rows, q, now).value; SoleIfNewlyLive(rows, after, outcome.id, now)
  {
    hide ReconcileRefusal, ReconciledRows, Live, OwnerRefuses, SoleIfNewlyLive;
    var (after, outcome) := Reconciled(rows, q, now).value;
    var at := FindPurchase(rows, GooglePlay, q.update.purchaseId);
    NotRefusedIsSole(rows, after, outcome.id, at.Some? && Live(rows[at.value], now), now);
  }

  lemma UpsertOwnerAllowed(rows: seq<Row>, account: string, u: Update, now: int)
    requires Upserted(rows, account, u, now).Ok?
    ensures var (after, outcome) := Upserted(rows, account, u, now).value; SoleIfNewlyLive(rows, after, outcome.id, now)
  {
    hide Live, OwnerRefuses, SoleIfNewlyLive, UpsertWritten, Inserted, Collides, OlderEvent, MatchesUpdate,
      SamePurchase;
    var (after, outcome) := Upserted(rows, account, u, now).value;
    var at := FindMatch(rows, u);
    NotRefusedIsSole(rows, after, outcome.id,
                     at.Some? && Live(rows[at.value], now) && SamePurchase(rows[at.value], after[at.value]), now);
  }

  lemma EventOwnerAllowed(rows: seq<Row>, e: PurchaseEvent, revoke: bool, now: int)
    requires EventApplied(rows, e, revoke).Ok?
    ensures var (after, outcome) := EventApplied(rows, e, revoke).value; SoleIfNewlyLive(rows, after, outcome.id, now)
  {
    var at := FindPurchase(rows, e.provider, e.purchaseId);
    var status := if revoke then Revoked else TerminalStatus(rows[at.value].status);
    EndedIsNotLive(rows[at.value], status, e.eventAt, now);
    hide Live, Ended, TerminalStatus, OlderEvent;
  }

  lemma EndedIsNotLive(r: Row, status: Status, eventAt: int, now: int)
    requires !Grants(status)
    ensures !Live(Ended(r, status, eventAt), now)
  {}

  lemma StepKeepsOneLive(rows: seq<Row>, op: Op, now: int)
    requires UniquePurchases(rows) && OneLive(rows, now)
    ensures OneLive(Step(rows, op, now), now)
  {
    hide Moved, Added, Attempt, Step, UniquePurchases, Live, Touched, Writes;
    StepIsAccepted(rows, op, now);
    if Attempt(rows, op, now).Ok? {
      var after := Step(rows, op, now);
      var t := Touched(rows, op, now);
      TouchedIsWritten(rows, op, now);
      OwnerAllowed(rows, op, now);
      forall i | 0 <= i < |rows|
        ensures after[i].account == rows[i].account
        ensures i != t && Live(after[i], now) ==> Live(rows[i], now)
      {
        MovedKeepsAccount(rows[i], after[i], op, now);
        if i != t && Live(after[i], now) {
          UntouchedStaysLive(rows[i], after[i], op, now);
        }
      }
    }
  }

  /** The clock readings of a run, starting no earlier than a given time. */
  ghost predicate ClockFrom(start: int, ops: seq<Timed<Op>>)
    decreases |ops|
  {
    ops == [] || (start <= ops[0].now && ClockFrom(ops[0].now, ops[1..]))
  }

  function ClockEnd(start: int, ops: seq<Timed<Op>>): int
    decreases |ops|
  {
    if ops == [] then start else ClockEnd(ops[0].now, ops[1..])
  }

  /** With a clock that does not run backwards no account ever has two live rows, whichever
      stores they come from. */
  lemma {:induction false} RunKeepsOneLive(rows: seq<Row>, start: int, ops: seq<Timed<Op>>, later: int)
    requires UniquePurchases(rows) && UniqueOriginals(rows) && OneLive(rows, start)
    requires ClockFrom(start, ops) && ClockEnd(start, ops) <= later
    ensures OneLive(Run(rows, ops), later)
    decreases |ops|
  {
    hide Step, UniquePurchases, UniqueOriginals, OneLive;
    if ops == [] {
      OneLiveLasts(rows, start, later);
    } else {
      OneLiveLasts(rows, start, ops[0].now);
      StepKeepsOneLive(rows, ops[0].op, ops[0].now);
      StepKeepsKeys(rows, ops[0].op, ops[0].now);
      RunKeepsOneLive(Step(rows, ops[0].op, ops[0].now), ops[0].now, ops[1..], later);
    }
  }

  // ----- provider retries -----

  lemma WrittenSettles(r: Row, q: GoogleRequest)
    ensures GoogleWritten(GoogleWritten(r, q), q) == GoogleWritten(r, q)
  {}

  /** A superseded row does not grant, so no later sweep touches it. */
  lemma SupersededSettles(r: Row, q: GoogleRequest, later: int)
    ensures var s := Superseded(r, q.update.purchaseId);
            Superseded(Swept(s, q.account, later), q.update.purchaseId) == s
  {}

  lemma InsertedSettles(q: GoogleRequest, now: int)
    ensures var r := Inserted(q.account, q.update, q.scheduled, now); GoogleWritten(r, q) == r
  {}

  /** What holds of a row once a request has been applied, seen by a second delivery of it. */
  ghost predicate Settled(after: Row, q: GoogleRequest, later: int) {
    && (IsPurchase(after, GooglePlay, q.update.purchaseId) ==>
          && GoogleWritten(after, q) == after
          && after.account == q.account && !OlderEvent(after, q.update.eventAt) && after.status == q.update.status
          && !(after.supersededBy.Some? && Grants(q.update.status)))
    && (Predecessor(after, q) && !IsPurchase(after, GooglePlay, q.update.purchaseId) ==>
          && Superseded(Swept(after, q.account, later), q.update.purchaseId) == after
          && after.account == q.account)
  }

  lemma MovedSettles(before: Row, after: Row, q: GoogleRequest, now: int, later: int)
    requires Moved(before, after, ReconcileOp(q), now)
    ensures Settled(after, q, later)
  {
    WrittenSettles(before, q);
    SupersededSettles(Swept(before, q.account, now), q, later);
    WritesKeepKeys(before, q, now);
    MovedKeepsAccount(before, after, ReconcileOp(q), now);
    hide Swept, Superseded, Trim;
  }

  lemma RowSettles(rows: seq<Row>, q: GoogleRequest, now: int, later: int, i: nat)
    requires UniquePurchases(rows) && Reconciled(rows, q, now).Ok?
    requires i < |Step(rows, ReconcileOp(q), now)|
    ensures Settled(Step(rows, ReconcileOp(q), now)[i], q, later)
  {
    hide Moved, Step, Reconciled, UniquePurchases;
    StepIsAccepted(rows, ReconcileOp(q), now);
    if i < |rows| {
      MovedSettles(rows[i], Step(rows, ReconcileOp(q), now)[i], q, now, later);
    } else {
      InsertedSettles(q, now);
      AddedIsNotItsPredecessor(Step(rows, ReconcileOp(q), now)[i], q, now);
    }
  }

  lemma AddedIsNotItsPredecessor(after: Row, q: GoogleRequest, now: int)
    requires after == Inserted(q.account, q.update, q.scheduled, now) && after.provider == GooglePlay
    ensures IsPurchase(after, GooglePlay, q.update.purchaseId) && after.supersededBy.None?
    ensures after.account == q.account && after.status == q.update.status && !OlderEvent(after, q.update.eventAt)
  {}

  lemma WrittenRow(rows: seq<Row>, q: GoogleRequest, now: int)
    requires Reconciled(rows, q, now).Ok?
    ensures GoogleRequestValid(q)
    ensures var (after, outcome) := Reconciled(rows, q, now).value;
            outcome.id < |after| && IsPurchase(after[outcome.id], GooglePlay, q.update.purchaseId)
  {
    hide OwnerRefuses, Swept, Superseded, OlderEvent, Live, OtherLive, Trim, SameOriginal, Grants;
  }

  /** The table with every row but one swept. */
  function SweptBut(rows: seq<Row>, id: nat, account: string, later: int): (swept: seq<Row>)
    ensures |swept| == |rows|
  {
    seq(|rows|, i requires 0 <= i < |rows| => if i == id then rows[i] else Swept(rows[i], account, later))
  }

  lemma RetryWritesTheSameRows(rows: seq<Row>, q: GoogleRequest, now: int, later: int)
    requires UniquePurchases(rows) && UniqueOriginals(rows) && Reconciled(rows, q, now).Ok?
    ensures var (after, outcome) := Reconciled(rows, q, now).value;
            && FindPurchase(after, GooglePlay, q.update.purchaseId) == Some(outcome.id)
            && after[outcome.id].status == q.update.status
            && ReconciledRows(after, q, later) == SweptBut(after, outcome.id, q.account, later)
            && (Grants(q.update.status) ==> ReconciledRows(after, q, later) == after)
  {
    var (after, outcome) := Reconciled(rows, q, now).value;
    assert after == Step(rows, ReconcileOp(q), now);
    hide Swept, Superseded, GoogleWritten, OlderEvent, Trim, Step, Reconciled, GoogleGrant;
    WrittenRow(rows, q, now);
    ReconciledKeepsKeys(rows, q, now);
    assert FindPurchase(after, GooglePlay, q.update.purchaseId) == Some(outcome.id);
    RowSettles(rows, q, now, later, outcome.id);
    if Grants(q.update.status) {
      GrantingReconcileIsSole(rows, q, now);
    }
    forall i | 0 <= i < |after|
      ensures ReconciledRows(after, q, later)[i] == SweptBut(after, outcome.id, q.account, later)[i]
      ensures Grants(q.update.status) ==> ReconciledRows(after, q, later)[i] == after[i]
    {
      RowSettles(rows, q, now, later, i);
      NotGrantingIsNotSwept(after[i], q.account, later);
      if i != outcome.id && Predecessor(after[i], q) {
        LinkedIsFound(after, Trim(q.linkedId), i);
      }
    }
  }

  lemma NotGrantingIsNotSwept(r: Row, account: string, now: int)
    ensures !GoogleGrant(r, account) ==> Swept(r, account, now) == r
  {}

  /** An accepted request delivered again, at any clock, is accepted and reports no transition.
      When it grants the table stays as it was; otherwise the retry only sweeps what lapsed since. */
  lemma RetryOnlySweeps(rows: seq<Row>, q: GoogleRequest, now: int, later: int)
    requires UniquePurchases(rows) && UniqueOriginals(rows) && Reconciled(rows, q, now).Ok?
    ensures var (after, outcome) := Reconciled(rows, q, now).value;
            && Reconciled(after, q, later) ==
               Ok((SweptBut(after, outcome.id, q.account, later), Outcome(outcome.id, Unchanged)))
            && (Grants(q.update.status) ==> SweptBut(after, outcome.id, q.account, later) == after)
  {
    hide OwnerRefuses, Live, ReconcileRefusal, ReconciledRows, FindPurchase, UniquePurchases, UniqueOriginals;
    var (after, outcome) := Reconciled(rows, q, now).value;
    RetryWritesTheSameRows(rows, q, now, later);
    RetryIsNotRefused(rows, q, now, later);
    OwnLiveRowAllowed(SweptBut(after, outcome.id, q.account, later), outcome.id, later);
  }

  /** At the clock of the first delivery nothing has lapsed since. */
  lemma RetryChangesNothing(rows: seq<Row>, q: GoogleRequest, now: int)
    requires UniquePurchases(rows) && UniqueOriginals(rows) && Reconciled(rows, q, now).Ok?
    ensures var (after, outcome) := Reconciled(rows, q, now).value;
            Reconciled(after, q, now) == Ok((after, Outcome(outcome.id, Unchanged)))
  {
    var (after, outcome) := Reconciled(rows, q, now).value;
    assert after == Step(rows, ReconcileOp(q), now);
    hide Reconciled, Step, Moved, UniquePurchases, UniqueOriginals, Swept, ReconciledRows, OwnerRefuses;
    RetryOnlySweeps(rows, q, now, now);
    StepIsAccepted(rows, ReconcileOp(q), now);
    if !Grants(q.update.status) {
      forall i | 0 <= i < |after| && i != outcome.id
        ensures Swept(after[i], q.account, now) == after[i]
      {
        if i < |rows| {
          MovedIsSwept(rows[i], after[i], q, now);
        }
      }
      assert SweptBut(after, outcome.id, q.account, now) == after;
    }
  }

  lemma MovedIsSwept(before: Row, after: Row, q: GoogleRequest, now: int)
    requires Moved(before, after, ReconcileOp(q), now) && !Grants(q.update.status)
    ensures Swept(after, q.account, now) == after
  {}

  lemma OwnLiveRowAllowed(rows: seq<Row>, at: nat, now: int)
    requires at < |rows|
    ensures !OwnerRefuses(rows, at, Live(rows[at], now), now)
  {}

  lemma OtherLiveGrants(r: Row, q: GoogleRequest, now: int)
    requires OtherLive(r, q, now)
    ensures GoogleGrant(r, q.account) && r.purchaseId != q.update.purchaseId
  {}

  lemma RetryIsNotRefused(rows: seq<Row>, q: GoogleRequest, now: int, later: int)
    requires UniquePurchases(rows) && UniqueOriginals(rows) && Reconciled(rows, q, now).Ok?
    ensures ReconcileRefusal(Reconciled(rows, q, now).value.0, q, later) == None
  {
    var (after, outcome) := Reconciled(rows, q, now).value;
    assert after == Step(rows, ReconcileOp(q), now);
    hide Step, Swept, Superseded, GoogleWritten, OlderEvent, Live, OtherLive, Trim, SameOriginal, Moved, Reconciled,
      GoogleGrant,
      GoogleRequestValid, Predecessor, Grants;
    WrittenRow(rows, q, now);
    ReconciledKeepsKeys(rows, q, now);
    var id := outcome.id;
    assert FindPurchase(after, GooglePlay, q.update.purchaseId) == Some(id);
    RowSettles(rows, q, now, later, id);
    if Grants(q.update.status) {
      GrantingReconcileIsSole(rows, q, now);
      forall i | 0 <= i < |after|
        ensures !OtherLive(after[i], q, later)
      {
        if OtherLive(after[i], q, later) {
          OtherLiveGrants(after[i], q, later);
        }
      }
    }
    LinkedRowKeepsAccount(rows, q, now);
  }

  lemma LinkedRowKeepsAccount(rows: seq<Row>, q: GoogleRequest, now: int)
    requires UniquePurchases(rows) && Reconciled(rows, q, now).Ok?
    ensures var after := Reconciled(rows, q, now).value.0; var at := LinkedRow(after, Trim(q.linkedId));
            at.Some? ==> at.value < |after| && after[at.value].account == q.account
  {
    var after := Reconciled(rows, q, now).value.0;
    assert after == Step(rows, ReconcileOp(q), now);
    var linked := Trim(q.linkedId);
    var at := LinkedRow(after, linked);
    hide Moved, Step, OwnerRefuses, Swept, Superseded, GoogleWritten, OlderEvent, Live, OtherLive, Trim, SameOriginal,
      UniquePurchases;
    StepIsAccepted(rows, ReconcileOp(q), now);
    if at.Some? && at.value < |rows| {
      MovedKeepsAccount(rows[at.value], after[at.value], ReconcileOp(q), now);
      MovedKeepsGoogleKey(rows[at.value], after[at.value], ReconcileOp(q), now);
      LinkedIsFound(rows, linked, at.value);
    } else if at.Some? {
      AddedAccount(after[at.value], ReconcileOp(q), now);
    }
  }

  // ----- what each call changes, field by field -----

  ghost predicate SameBut(before: Row, after: Row, status: Status) {
    after == before.(status := status)
  }

  /** Rows a reconcile does not name: a granting row of the account without a future end becomes
      pending when it never had one and expired when it has passed; the rest stay. */
  lemma ReconcileSweepsLapsed(rows: seq<Row>, q: GoogleRequest, now: int, i: nat)
    requires UniquePurchases(rows) && Reconciled(rows, q, now).Ok? && i < |rows|
    requires !IsPurchase(rows[i], GooglePlay, q.update.purchaseId) && !Predecessor(rows[i], q)
    ensures var after := Reconciled(rows, q, now).value.0;
            && i < |after|
            && if GoogleGrant(rows[i], q.account) && !Live(rows[i], now)
               then SameBut(rows[i], after[i], if rows[i].periodEnd.None? then Pending else Expired)
               else after[i] == rows[i]
  {
    hide Reconciled, UniquePurchases;
    StepIsAccepted(rows, ReconcileOp(q), now);
  }

  /** The predecessor of a granting update: it points at its successor and no longer grants; if
      it was live it is canceled and its renewal switched off, otherwise its status is the swept one. */
  lemma ReconcileSupersedes(rows: seq<Row>, q: GoogleRequest, now: int, i: nat)
    requires UniquePurchases(rows) && Reconciled(rows, q, now).Ok? && i < |rows| && Predecessor(rows[i], q)
    requires !IsPurchase(rows[i], GooglePlay, q.update.purchaseId)
    ensures var after := Reconciled(rows, q, now).value.0;
            && i < |after| && rows[i].account == q.account
            && after[i].supersededBy == Some(q.update.purchaseId) && !Grants(after[i].status)
            && after[i].bytes == rows[i].bytes && after[i].periodEnd == rows[i].periodEnd
            && (Live(rows[i], now) ==>
                after[i].status == Canceled && !after[i].autoRenewing && !after[i].cancelAtPeriodEnd)
            && (!Grants(rows[i].status) ==> after[i] == rows[i].(supersededBy := Some(q.update.purchaseId)))
  {
    hide Reconciled, UniquePurchases;
    StepIsAccepted(rows, ReconcileOp(q), now);
  }

  /** The written row takes every field of the update and its schedule, and keeps its account,
      purchase, original transaction, creation time and successor. */
  lemma ReconcileWritesUpdate(rows: seq<Row>, q: GoogleRequest, now: int)
    requires UniquePurchases(rows) && Reconciled(rows, q, now).Ok?
    ensures var (after, outcome) := Reconciled(rows, q, now).value;
            && outcome.id < |after|
            && after[outcome.id] ==
               (if outcome.id < |rows| then rows[outcome.id] else after[outcome.id]).(
                 account := q.account, provider := GooglePlay, purchaseId := q.update.purchaseId,
                 productId := q.update.productId, planId := q.update.planId,
                 quantity := q.update.quantity, bytes := q.update.bytes, status := q.update.status,
                 autoRenewing := q.update.autoRenewing, cancelAtPeriodEnd := q.update.cancelAtPeriodEnd,
                 periodEnd := q.update.periodEnd, scheduled := q.scheduled, lastEventAt := q.update.eventAt)
            && (outcome.id == |rows| ==>
                  after[outcome.id].supersededBy.None? && after[outcome.id].createdAt == now
                  && after[outcome.id].originalId == q.update.originalId)
            && (outcome.transition.Resumed? <==>
                  outcome.id < |rows| && Grants(q.update.status)
                  && rows[outcome.id].status in {Delinquent, Canceled, Expired, Revoked, Refunded})
            && (outcome.transition.Unchanged? <==> outcome.id < |rows| && rows[outcome.id].status == q.update.status)
  {
    hide OwnerRefuses, Swept, Superseded, OlderEvent, Live, OtherLive, Trim, SameOriginal, UniquePurchases;
  }

  /** A provider event ends its own row and nothing else: the end is cut to the event time at the
      latest, renewal stops, and the status never grants; terminal statuses survive a terminalize. */
  lemma EventEndsItsRow(rows: seq<Row>, e: PurchaseEvent, revoke: bool)
    requires UniquePurchases(rows) && EventApplied(rows, e, revoke).Ok?
    ensures var (after, outcome) := EventApplied(rows, e, revoke).value; var id := outcome.id;
            && |after| == |rows| && id < |rows| && (forall i :: 0 <= i < |rows| && i != id ==> after[i] == rows[i])
            && rows[id].account == e.account && IsPurchase(rows[id], e.provider, e.purchaseId)
            && after[id].bytes == rows[id].bytes && after[id].supersededBy == rows[id].supersededBy
            && !Grants(after[id].status) && !after[id].autoRenewing && !after[id].cancelAtPeriodEnd
            && after[id].lastEventAt == Some(e.eventAt)
            && after[id].periodEnd.Some? && after[id].periodEnd.value <= e.eventAt
            && (after[id].periodEnd.value == e.eventAt || after[id].periodEnd == rows[id].periodEnd)
            && (rows[id].periodEnd.Some? ==> after[id].periodEnd.value <= rows[id].periodEnd.value)
            && (revoke ==> after[id].status == Revoked)
            && (!revoke && rows[id].status in {Canceled, Expired, Revoked, Refunded} ==>
                after[id].status == rows[id].status)
            && (!revoke && rows[id].status == Pending ==> after[id].status == Canceled)
            && (!revoke && (Grants(rows[id].status) || rows[id].status == Delinquent) ==> after[id].status == Expired)
  {
    hide UniquePurchases, OlderEvent;
  }

  /** The same event again changes nothing. */
  lemma EventRetryChangesNothing(rows: seq<Row>, e: PurchaseEvent, revoke: bool)
    requires UniquePurchases(rows) && UniqueOriginals(rows) && EventApplied(rows, e, revoke).Ok?
    ensures var (after, outcome) := EventApplied(rows, e, revoke).value;
            EventApplied(after, e, revoke) == Ok((after, Outcome(outcome.id, Unchanged)))
  {
    var (after, outcome) := EventApplied(rows, e, revoke).value;
    EventEndsItsRow(rows, e, revoke);
    EventKeepsKeys(rows, e, revoke);
    assert IsPurchase(after[outcome.id], e.provider, e.purchaseId);
    assert FindPurchase(after, e.provider, e.purchaseId) == Some(outcome.id);
    var row, status := after[outcome.id], if revoke then Revoked else TerminalStatus(rows[outcome.id].status);
    EndedSettles(rows[outcome.id], status, e.eventAt);
    assert row == Ended(rows[outcome.id], status, e.eventAt);
    assert after[outcome.id := row] == after;
    hide UniquePurchases, FindPurchase, Ended;
  }

  lemma EndedSettles(r: Row, status: Status, eventAt: int)
    ensures Ended(Ended(r, status, eventAt), status, eventAt) == Ended(r, status, eventAt)
  {}

  /** The written row takes every field of the update and keeps its account and creation time, and
      its original transaction when the update names none; an Apple client transaction without
      renewal data leaves the renewal flags as they were, any other update decides them. */
  lemma UpsertWritesUpdate(rows: seq<Row>, account: string, u: Update, now: int)
    requires Upserted(rows, account, u, now).Ok?
    ensures var (after, outcome) := Upserted(rows, account, u, now).value; var id := outcome.id;
            && id < |after|
            && after[id].account == account && after[id].provider.Apple?
            && after[id].purchaseId == u.purchaseId && after[id].productId == u.productId
            && after[id].planId == u.planId && after[id].quantity == u.quantity && after[id].bytes == u.bytes
            && after[id].status == u.status && after[id].periodEnd == u.periodEnd && after[id].lastEventAt == u.eventAt
            && (u.originalId.Some? || id == |rows| ==> after[id].originalId == u.originalId)
            && (u.originalId.None? && id < |rows| ==> after[id].originalId == rows[id].originalId)
            && (id < |rows| && u.renewalUnknown ==>
                  && after[id].autoRenewing == rows[id].autoRenewing
                  && after[id].cancelAtPeriodEnd == rows[id].cancelAtPeriodEnd)
            && (id == |rows| || !u.renewalUnknown ==>
                  after[id].autoRenewing == u.autoRenewing && after[id].cancelAtPeriodEnd == u.cancelAtPeriodEnd)
            && (id < |rows| ==>
                  && after[id].createdAt == rows[id].createdAt && after[id].scheduled == rows[id].scheduled
                  && after[id].supersededBy == rows[id].supersededBy)
            && (id == |rows| ==>
                  after[id].createdAt == now && after[id].scheduled.None? && after[id].supersededBy.None?)
            && (forall i :: 0 <= i < |rows| && i != id ==> after[i] == rows[i])
            && (outcome.transition.Resumed? <==>
                  id < |rows| && Grants(u.status)
                  && rows[id].status in {Delinquent, Canceled, Expired, Revoked, Refunded})
            && (outcome.transition.Unchanged? <==> id < |rows| && rows[id].status == u.status)
  {
    hide OwnerRefuses, OlderEvent, Live, Collides;
  }
}
