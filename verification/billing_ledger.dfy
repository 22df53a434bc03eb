/** The verified storage entitlement ledger: purchase rows, and the four transactions that
    write them. A row's position is its entitlement id; rows are never deleted. Every
    transaction is one atomic step under the clock it reads; a refusal changes nothing. */
module BillingLedger {
  import opened Options
  import opened Text

  datatype Provider = Apple | GooglePlay

  datatype Status =
    | Pending | Active | Reactivated | GracePeriod | Delinquent
    | Canceled | Expired | Revoked | Refunded

  predicate Grants(s: Status) {
    s == Active || s == Reactivated || s == GracePeriod
  }

  datatype Scheduled = Scheduled(productId: string, planId: string, bytes: int, effectiveAt: int)

  datatype Row = Row(
    account: string, provider: Provider, purchaseId: string, originalId: Option<string>,
    productId: string, planId: string, quantity: int, bytes: int,
    status: Status, autoRenewing: bool, cancelAtPeriodEnd: bool,
    periodEnd: Option<int>, scheduled: Option<Scheduled>,
    supersededBy: Option<string>, lastEventAt: Option<int>, createdAt: int)

  /** A provider-verified update; renewalUnknown marks a client transaction without renewal data. */
  datatype Update = Update(
    provider: Provider, purchaseId: string, originalId: Option<string>,
    productId: string, planId: string, quantity: int, bytes: int,
    status: Status, autoRenewing: bool, cancelAtPeriodEnd: bool,
    periodEnd: Option<int>, eventAt: Option<int>, renewalUnknown: bool)

  datatype Failure =
    | InvalidRequest | AlreadyBound | StaleEvent | ConflictingActive | OwnerConflict
    | UniqueViolation | NotBound | ProductMismatch | PlanMismatch

  datatype Transition = Unchanged | Resumed | Changed(from: Option<Status>, to: Status)

  datatype Outcome = Outcome(id: nat, transition: Transition)

  // ----- rows -----

  /** Granting with a verified end in the future: the rows the resolver and the owner trigger count. */
  predicate Live(r: Row, now: int) {
    Grants(r.status) && r.periodEnd.Some? && r.periodEnd.value > now
  }

  predicate IsPurchase(r: Row, provider: Provider, purchaseId: string) {
    r.provider == provider && r.purchaseId == purchaseId
  }

  function FindPurchase(rows: seq<Row>, provider: Provider, purchaseId: string): (at: Option<nat>)
    ensures at.Some? ==> at.value < |rows| && IsPurchase(rows[at.value], provider, purchaseId)
    ensures at.None? ==> forall i :: 0 <= i < |rows| ==> !IsPurchase(rows[i], provider, purchaseId)
  {
    if rows == [] then None
    else if IsPurchase(rows[|rows| - 1], provider, purchaseId) then Some(|rows| - 1)
    else FindPurchase(rows[..|rows| - 1], provider, purchaseId)
  }

  /** The two unique indexes of the table. */
  ghost predicate UniquePurchases(rows: seq<Row>) {
    forall i, j :: 0 <= i < |rows| && 0 <= j < |rows| && IsPurchase(rows[i], rows[j].provider, rows[j].purchaseId)
      ==> i == j
  }

  predicate SameOriginal(r: Row, provider: Provider, originalId: Option<string>) {
    originalId.Some? && r.provider == provider && r.originalId == originalId
  }

  ghost predicate UniqueOriginals(rows: seq<Row>) {
    forall i, j :: 0 <= i < |rows| && 0 <= j < |rows| && SameOriginal(rows[i], rows[j].provider, rows[j].originalId)
      ==> i == j
  }

  predicate OlderEvent(r: Row, eventAt: Option<int>) {
    eventAt.Some? && r.lastEventAt.Some? && eventAt.value < r.lastEventAt.value
  }

  function TransitionOf(previous: Option<Status>, status: Status): Transition {
    if Grants(status) && previous.Some? && previous.value in {Delinquent, Canceled, Expired, Revoked, Refunded}
      then Resumed
    else if previous == Some(status) then Unchanged
    else Changed(previous, status)
  }

  predicate WellFormed(u: Update) {
    u.purchaseId != "" && u.productId != "" && u.quantity >= 1 && u.bytes >= 0
  }

  /** The after-row trigger: a write that makes a row live is refused while the account has
      another live row, unless it renews a row that was live itself. */
  predicate OwnerRefuses(rows: seq<Row>, at: nat, wasLive: bool, now: int)
    requires at < |rows|
  {
    && Live(rows[at], now) && !wasLive
    && exists j :: 0 <= j < |rows| && j != at && rows[j].account == rows[at].account && Live(rows[j], now)
  }

  // ----- reconcile -----

  datatype GoogleRequest = GoogleRequest(
    account: string, update: Update, linkedId: string, scheduled: Option<Scheduled>)

  predicate ScheduleAllowed(u: Update, s: Scheduled) {
    s.productId != "" && s.planId != "" && s.bytes >= 0 && Grants(u.status) && s.bytes < u.bytes
  }

  predicate GoogleRequestValid(q: GoogleRequest) {
    && q.account != "" && WellFormed(q.update) && q.update.provider == GooglePlay
    && (q.scheduled.Some? ==> ScheduleAllowed(q.update, q.scheduled.value))
    && Trim(q.linkedId) != q.update.purchaseId
  }

  function LinkedRow(rows: seq<Row>, linked: string): Option<nat> {
    if linked == "" then None else FindPurchase(rows, GooglePlay, linked)
  }

  /** What the lapse sweep makes of a row: a grant without a future end stops granting. */
  function Swept(r: Row, account: string, now: int): Row {
    if r.account == account && r.provider == GooglePlay && Grants(r.status)
       && (r.periodEnd == None || r.periodEnd.value <= now)
    then r.(status := if r.periodEnd == None then Pending else Expired)
    else r
  }

  function Superseded(r: Row, successor: string): Row {
    if Grants(r.status)
    then r.(status := Canceled, autoRenewing := false, cancelAtPeriodEnd := false, supersededBy := Some(successor))
    else r.(supersededBy := Some(successor))
  }

  function GoogleWritten(r: Row, q: GoogleRequest): Row {
    var u := q.update;
    r.(productId := u.productId, planId := u.planId, quantity := u.quantity, bytes := u.bytes,
       status := u.status, autoRenewing := u.autoRenewing, cancelAtPeriodEnd := u.cancelAtPeriodEnd,
       periodEnd := u.periodEnd, scheduled := q.scheduled, lastEventAt := u.eventAt)
  }

  function Inserted(account: string, u: Update, scheduled: Option<Scheduled>, now: int): Row {
    Row(account, u.provider, u.purchaseId, u.originalId, u.productId, u.planId, u.quantity, u.bytes,
        u.status, u.autoRenewing, u.cancelAtPeriodEnd, u.periodEnd, scheduled, None, u.eventAt, now)
  }

  /** A live row of the account, of another purchase than the one presented. */
  predicate OtherLive(r: Row, q: GoogleRequest, now: int) {
    r.account == q.account && r.provider == GooglePlay && Live(r, now) && r.purchaseId != q.update.purchaseId
  }

  /** Why a request is refused on what the table holds when it starts. */
  function ReconcileRefusal(rows: seq<Row>, q: GoogleRequest, now: int): Option<Failure> {
    var u := q.update;
    var linked := Trim(q.linkedId);
    var at := FindPurchase(rows, GooglePlay, u.purchaseId);
    var linkedAt := LinkedRow(rows, linked);
    if !GoogleRequestValid(q) then Some(InvalidRequest)
    else if at.Some? && rows[at.value].account != q.account then Some(AlreadyBound)
    else if at.Some? && OlderEvent(rows[at.value], u.eventAt) then Some(StaleEvent)
    else if at.Some? && rows[at.value].supersededBy.Some? && Grants(u.status) then Some(StaleEvent)
    else if linkedAt.Some? && rows[linkedAt.value].account != q.account then Some(AlreadyBound)
    else if Grants(u.status) && exists i :: 0 <= i < |rows| && OtherLive(rows[i], q, now)
                                            && (linked == "" || rows[i].purchaseId != linked)
                                                then Some(ConflictingActive)
    else if at.None? && exists i :: 0 <= i < |rows| && SameOriginal(rows[i], GooglePlay, u.originalId) then
      Some(UniqueViolation)
    else None
  }

  /** The table afterwards: the presented purchase written, the linked one superseded by a
      granting update, every other row of the account swept. */
  function ReconciledRows(rows: seq<Row>, q: GoogleRequest, now: int): (after: seq<Row>)
    ensures |after| == |rows| + if FindPurchase(rows, GooglePlay, q.update.purchaseId).None? then 1 else 0
  {
    var u := q.update;
    var at := FindPurchase(rows, GooglePlay, u.purchaseId);
    var linkedAt := LinkedRow(rows, Trim(q.linkedId));
    seq(|rows|, i requires 0 <= i < |rows| =>
      if at == Some(i) then GoogleWritten(rows[i], q)
      else if Grants(u.status) && linkedAt == Some(i) then Superseded(Swept(rows[i], q.account, now), u.purchaseId)
      else Swept(rows[i], q.account, now))
    + (if at.None? then [Inserted(q.account, u, q.scheduled, now)] else [])
  }

  function Reconciled(rows: seq<Row>, q: GoogleRequest, now: int): Result<(seq<Row>, Outcome), Failure> {
    var at := FindPurchase(rows, GooglePlay, q.update.purchaseId);
    match ReconcileRefusal(rows, q, now)
    case Some(f) => Err(f)
    case None =>
      var after := ReconciledRows(rows, q, now);
      var id := if at.Some? then at.value else |rows|;
      if OwnerRefuses(after, id, at.Some? && Live(rows[at.value], now), now) then Err(OwnerConflict)
      else
        var previous := if at.Some? then Some(rows[at.value].status) else None;
        Ok((after, Outcome(id, TransitionOf(previous, q.update.status))))
  }

  // ----- upsert -----

  predicate MatchesUpdate(r: Row, u: Update) {
    IsPurchase(r, u.provider, u.purchaseId) || SameOriginal(r, u.provider, u.originalId)
  }

  /** A row the query may fetch first: it has no order, so any matching one, or none if none matches. */
  predicate MayFetch(rows: seq<Row>, u: Update, at: Option<nat>) {
    match at
    case Some(i) => i < |rows| && MatchesUpdate(rows[i], u)
    case None => forall i :: 0 <= i < |rows| ==> !MatchesUpdate(rows[i], u)
  }

  function FindMatch(rows: seq<Row>, u: Update): (at: Option<nat>)
    ensures MayFetch(rows, u, at)
  {
    if rows == [] then None
    else if MatchesUpdate(rows[|rows| - 1], u) then Some(|rows| - 1)
    else FindMatch(rows[..|rows| - 1], u)
  }

  function UpsertWritten(r: Row, u: Update): Row {
    var keepRenewal := u.provider == Apple && u.renewalUnknown;
    r.(purchaseId := u.purchaseId,
       originalId := if u.originalId.Some? then u.originalId else r.originalId,
       productId := u.productId, planId := u.planId, quantity := u.quantity, bytes := u.bytes,
       status := u.status,
       autoRenewing := if keepRenewal then r.autoRenewing else u.autoRenewing,
       cancelAtPeriodEnd := if keepRenewal then r.cancelAtPeriodEnd else u.cancelAtPeriodEnd,
       periodEnd := u.periodEnd, lastEventAt := u.eventAt)
  }

  predicate SamePurchase(before: Row, after: Row) {
    before.purchaseId == after.purchaseId
    || (before.provider == Apple && before.originalId.Some? && before.originalId != Some("")
        && before.originalId == after.originalId)
  }

  predicate Collides(rows: seq<Row>, at: nat)
    requires at < |rows|
  {
    exists j :: 0 <= j < |rows| && j != at
      && (IsPurchase(rows[j], rows[at].provider, rows[at].purchaseId)
          || SameOriginal(rows[j], rows[at].provider, rows[at].originalId))
  }

  function UpsertedAt(rows: seq<Row>, account: string, u: Update, at: Option<nat>, now: int):
    Result<(seq<Row>, Outcome), Failure>
    requires MayFetch(rows, u, at)
  {
    if account == "" || !WellFormed(u) || u.provider == GooglePlay then Err(InvalidRequest)
    else if at.Some? && rows[at.value].account != account then Err(AlreadyBound)
    else if at.Some? && OlderEvent(rows[at.value], u.eventAt) then Err(StaleEvent)
    else if at.Some? then
      var before := rows[at.value];
      var after := rows[at.value := UpsertWritten(before, u)];
      if Collides(after, at.value) then Err(UniqueViolation)
      else if OwnerRefuses(after, at.value, Live(before, now) && SamePurchase(before, after[at.value]), now)
        then Err(OwnerConflict)
      else Ok((after, Outcome(at.value, TransitionOf(Some(before.status), u.status))))
    else
      var after := rows + [Inserted(account, u, None, now)];
      if OwnerRefuses(after, |rows|, false, now) then Err(OwnerConflict)
      else Ok((after, Outcome(|rows|, TransitionOf(None, u.status))))
  }

  function Upserted(rows: seq<Row>, account: string, u: Update, now: int): Result<(seq<Row>, Outcome), Failure> {
    UpsertedAt(rows, account, u, FindMatch(rows, u), now)
  }

  /** Writing either of two matching rows violates a unique index. */
  lemma TwoMatchesCollide(rows: seq<Row>, u: Update, at: nat, i: nat)
    requires at < |rows| && i < |rows| && i != at && MatchesUpdate(rows[at], u) && MatchesUpdate(rows[i], u)
    ensures Collides(rows[at := UpsertWritten(rows[at], u)], at)
  {
    var after := rows[at := UpsertWritten(rows[at], u)];
    assert IsPurchase(after[i], after[at].provider, after[at].purchaseId)
           || SameOriginal(after[i], after[at].provider, after[at].originalId);
  }

  /** Whichever matching row is fetched: the call is accepted or refused alike, and an accepted one
      has one row to fetch. */
  lemma AnyFetchWillDo(rows: seq<Row>, account: string, u: Update, at: Option<nat>, now: int)
    requires MayFetch(rows, u, at)
    ensures Upserted(rows, account, u, now).Ok? <==> UpsertedAt(rows, account, u, at, now).Ok?
    ensures Upserted(rows, account, u, now).Ok? ==>
              Upserted(rows, account, u, now) == UpsertedAt(rows, account, u, at, now)
  {
    hide OwnerRefuses, Live, Collides, UpsertWritten, MatchesUpdate, OlderEvent, SamePurchase, Inserted;
    var found := FindMatch(rows, u);
    if found.Some? && at.Some? && found != at {
      TwoMatchesCollide(rows, u, found.value, at.value);
      TwoMatchesCollide(rows, u, at.value, found.value);
    }
  }

  // ----- revoke and terminalize -----

  /** A provider event about one bound purchase; empty expectations are not checked. */
  datatype PurchaseEvent = PurchaseEvent(
    provider: Provider, account: string, purchaseId: string, eventId: string, eventAt: int,
    expectedProduct: string, expectedPlan: string)

  function EventRefusal(rows: seq<Row>, e: PurchaseEvent): Option<Failure> {
    var at := FindPurchase(rows, e.provider, e.purchaseId);
    if e.account == "" || e.purchaseId == "" || e.eventId == "" then Some(InvalidRequest)
    else if at.None? then Some(NotBound)
    else if rows[at.value].account != e.account then Some(AlreadyBound)
    else if e.expectedProduct != "" && rows[at.value].productId != e.expectedProduct then Some(ProductMismatch)
    else if e.expectedPlan != "" && rows[at.value].planId != e.expectedPlan then Some(PlanMismatch)
    else if OlderEvent(rows[at.value], Some(e.eventAt)) then Some(StaleEvent)
    else None
  }

  function CutShort(periodEnd: Option<int>, eventAt: int): Option<int> {
    if periodEnd == None || periodEnd.value > eventAt then Some(eventAt) else periodEnd
  }

  function Ended(r: Row, status: Status, eventAt: int): Row {
    r.(status := status, autoRenewing := false, cancelAtPeriodEnd := false,
       periodEnd := CutShort(r.periodEnd, eventAt), lastEventAt := Some(eventAt))
  }

  function TerminalStatus(s: Status): Status {
    if s in {Canceled, Expired, Revoked, Refunded} then s
    else if s == Pending then Canceled
    else Expired
  }

  function EventApplied(rows: seq<Row>, e: PurchaseEvent, revoke: bool): Result<(seq<Row>, Outcome), Failure> {
    var at := FindPurchase(rows, e.provider, e.purchaseId);
    match EventRefusal(rows, e)
    case Some(f) => Err(f)
    case None =>
      var r := rows[at.value];
      var status := if revoke then Revoked else TerminalStatus(r.status);
      Ok((rows[at.value := Ended(r, status, e.eventAt)],
          Outcome(at.value, if r.status == status then Unchanged else Changed(Some(r.status), status))))
  }

  // ----- the transactions, statement by statement -----

  function SweptAll(rows: seq<Row>, account: string, now: int): (swept: seq<Row>)
    ensures |swept| == |rows|
  {
    seq(|rows|, i requires 0 <= i < |rows| => Swept(rows[i], account, now))
  }

  /** Positions of the account's live rows of other purchases. */
  function OthersLive(rows: seq<Row>, q: GoogleRequest, now: int): (others: seq<nat>)
    ensures forall k :: 0 <= k < |others| ==> others[k] < |rows| && OtherLive(rows[others[k]], q, now)
    ensures forall i :: 0 <= i < |rows| && OtherLive(rows[i], q, now) ==> i in others
    ensures forall j, k :: 0 <= j < k < |others| ==> others[j] < others[k]
  {
    if rows == [] then []
    else
      OthersLive(rows[..|rows| - 1], q, now) + (if OtherLive(rows[|rows| - 1], q, now) then [|rows| - 1] else [])
  }

  lemma SweepKeepsLive(r: Row, q: GoogleRequest, now: int)
    ensures Live(Swept(r, q.account, now), now) <==> Live(r, now)
    ensures OtherLive(Swept(r, q.account, now), q, now) <==> OtherLive(r, q, now)
  {}

  /** The worker's own test (exactly one other live row, and it is the linked one) says what
      the refusal says: some other live row is not the linked one. */
  lemma LinkageTest(rows: seq<Row>, q: GoogleRequest, now: int, linked: string)
    requires UniquePurchases(rows)
    ensures var swept := SweptAll(rows, q.account, now);
            var others := OthersLive(swept, q, now);
            others != [] && (|others| != 1 || linked == "" || swept[others[0]].purchaseId != linked) <==>
            exists i :: 0 <= i < |rows| && OtherLive(rows[i], q, now) && (linked == "" || rows[i].purchaseId != linked)
  {
    hide Swept, OtherLive;
    var swept := SweptAll(rows, q.account, now);
    var others := OthersLive(swept, q, now);
    forall i | 0 <= i < |rows|
      ensures OtherLive(swept[i], q, now) <==> OtherLive(rows[i], q, now)
      ensures swept[i].purchaseId == rows[i].purchaseId && swept[i].provider == rows[i].provider
    {
      SweepKeepsLive(rows[i], q, now);
      SweepKeepsIdentity(rows[i], q.account, now);
    }
    if |others| > 1 {
      OtherLiveIsGoogle(swept[others[0]], q, now);
      OtherLiveIsGoogle(swept[others[1]], q, now);
      assert !(rows[others[0]].purchaseId == linked && rows[others[1]].purchaseId == linked);
      assert OtherLive(rows[others[0]], q, now) && OtherLive(rows[others[1]], q, now);
    } else if |others| == 1 {
      assert OtherLive(rows[others[0]], q, now);
    }
  }

  lemma SweepKeepsIdentity(r: Row, account: string, now: int)
    ensures var t := Swept(r, account, now);
            t.purchaseId == r.purchaseId && t.provider == r.provider && t.account == r.account
  {}

  lemma OtherLiveIsGoogle(r: Row, q: GoogleRequest, now: int)
    requires OtherLive(r, q, now)
    ensures r.provider == GooglePlay
  {}

  lemma WriteAfterSweep(r: Row, q: GoogleRequest, now: int)
    ensures GoogleWritten(Swept(r, q.account, now), q) == GoogleWritten(r, q)
  {}

  /** Sweep, then supersede, then write: the table ReconciledRows describes at once. */
  lemma StagesCompose(rows: seq<Row>, q: GoogleRequest, now: int, swept: seq<Row>, superseded: seq<Row>)
    requires Trim(q.linkedId) != q.update.purchaseId
    requires swept == SweptAll(rows, q.account, now)
    requires var linkedAt := LinkedRow(rows, Trim(q.linkedId));
             superseded == if Grants(q.update.status) && linkedAt.Some?
                           then swept[linkedAt.value := Superseded(swept[linkedAt.value], q.update.purchaseId)]
                           else swept
    ensures ReconciledRows(rows, q, now) ==
            match FindPurchase(rows, GooglePlay, q.update.purchaseId)
            case Some(id) => superseded[id := GoogleWritten(superseded[id], q)]
            case None => superseded + [Inserted(q.account, q.update, q.scheduled, now)]
    ensures var at := FindPurchase(rows, GooglePlay, q.update.purchaseId);
            at.Some? ==> Live(superseded[at.value], now) == Live(rows[at.value], now)
  {
    hide Swept, Superseded, GoogleWritten, Inserted, Live, Trim;
    var at := FindPurchase(rows, GooglePlay, q.update.purchaseId);
    if at.Some? {
      SweepKeepsLive(rows[at.value], q, now);
      WriteAfterSweep(rows[at.value], q, now);
    }
  }

  lemma NoneRefused(rows: seq<Row>, q: GoogleRequest, now: int)
    requires ReconcileRefusal(rows, q, now).None?
    ensures GoogleRequestValid(q)
    ensures var linkedAt := LinkedRow(rows, Trim(q.linkedId)); linkedAt.Some? ==> linkedAt.value < |rows|
  {}

  // ----- the unique indexes are never violated -----

  predicate SameKeys(r: Row, s: Row) {
    r.provider == s.provider && r.purchaseId == s.purchaseId && r.originalId == s.originalId
  }

  lemma WritesKeepKeys(r: Row, q: GoogleRequest, now: int)
    ensures SameKeys(Swept(r, q.account, now), r)
    ensures SameKeys(Superseded(Swept(r, q.account, now), q.update.purchaseId), r)
    ensures SameKeys(GoogleWritten(r, q), r)
  {}

  lemma ReconciledKeepsKeys(rows: seq<Row>, q: GoogleRequest, now: int)
    requires UniquePurchases(rows) && UniqueOriginals(rows)
    ensures Reconciled(rows, q, now).Ok? ==>
              var (after, outcome) := Reconciled(rows, q, now).value; UniquePurchases(after) && UniqueOriginals(after)
  {
    hide OwnerRefuses, OlderEvent, Live, OtherLive, Trim, Swept, Superseded, GoogleWritten, Grants, LinkedRow, SameKeys;
    if Reconciled(rows, q, now).Ok? {
      var (after, outcome) := Reconciled(rows, q, now).value;
      forall i | 0 <= i < |rows|
        ensures SameKeys(after[i], rows[i])
      {
        WritesKeepKeys(rows[i], q, now);
      }
      KeysAfterWrites(rows, after);
    }
  }

  /** Writes that keep keys, followed by at most one insertion of new keys, keep them unique. */
  lemma KeysAfterWrites(rows: seq<Row>, after: seq<Row>)
    requires UniquePurchases(rows) && UniqueOriginals(rows)
    requires |rows| <= |after| <= |rows| + 1
    requires forall i :: 0 <= i < |rows| ==> SameKeys(after[i], rows[i])
    requires |after| > |rows| ==>
               forall i :: 0 <= i < |rows| ==>
                 !IsPurchase(rows[i], after[|rows|].provider, after[|rows|].purchaseId)
                 && !SameOriginal(rows[i], after[|rows|].provider, after[|rows|].originalId)
    ensures UniquePurchases(after) && UniqueOriginals(after)
  {}

  lemma UpsertedKeepsKeys(rows: seq<Row>, account: string, u: Update, now: int)
    requires UniquePurchases(rows) && UniqueOriginals(rows)
    ensures Upserted(rows, account, u, now).Ok? ==>
              var (after, outcome) := Upserted(rows, account, u, now).value;
              UniquePurchases(after) && UniqueOriginals(after)
  {
    hide OwnerRefuses, OlderEvent, Live, Grants;
  }

  lemma EventKeepsKeys(rows: seq<Row>, e: PurchaseEvent, revoke: bool)
    requires UniquePurchases(rows) && UniqueOriginals(rows)
    ensures EventApplied(rows, e, revoke).Ok? ==>
              var (after, outcome) := EventApplied(rows, e, revoke).value;
              UniquePurchases(after) && UniqueOriginals(after)
  {
    hide OlderEvent, TerminalStatus;
  }

  class Ledger {
    var rows: seq<Row>

    ghost predicate Valid()
      reads this
    {
      UniquePurchases(rows) && UniqueOriginals(rows)
    }

    constructor ()
      ensures Valid() && rows == []
    {
      rows := [];
    }

    /** The checks a reconciliation makes before it writes. */
    method CheckRequest(q: GoogleRequest, now: int) returns (refusal: Option<Failure>)
      requires Valid()
      ensures refusal == ReconcileRefusal(rows, q, now)
    {
      hide OtherLive, Trim, SweptAll, OthersLive, GoogleRequestValid, UniquePurchases, UniqueOriginals, SameOriginal,
        FindPurchase;
      var u := q.update;
      if !GoogleRequestValid(q) {
        return Some(InvalidRequest);
      }
      var linked := Trim(q.linkedId);
      var at := FindPurchase(rows, GooglePlay, u.purchaseId);
      if at.Some? {
        var existing := rows[at.value];
        if existing.account != q.account {
          return Some(AlreadyBound);
        }
        if OlderEvent(existing, u.eventAt) {
          return Some(StaleEvent);
        }
        if existing.supersededBy.Some? && Grants(u.status) {
          return Some(StaleEvent);
        }
      }
      var linkedAt := LinkedRow(rows, linked);
      if linkedAt.Some? && rows[linkedAt.value].account != q.account {
        return Some(AlreadyBound);
      }
      var swept := SweptAll(rows, q.account, now);
      var others := OthersLive(swept, q, now);
      LinkageTest(rows, q, now, linked);
      if Grants(u.status) && others != [] {
        if |others| != 1 || linked == "" || swept[others[0]].purchaseId != linked {
          return Some(ConflictingActive);
        }
      }
      if at.None? && exists i :: 0 <= i < |rows| && SameOriginal(rows[i], GooglePlay, u.originalId) {
        return Some(UniqueViolation);
      }
      return None;
    }

    method Reconcile(q: GoogleRequest, now: int) returns (r: Result<Outcome, Failure>)
      requires Valid()
      modifies this
      ensures Valid()
      ensures match Reconciled(old(rows), q, now)
              case Err(f) => r == Err(f) && rows == old(rows)
              case Ok((after, outcome)) => r == Ok(outcome) && rows == after
    {
      hide Swept, Superseded, GoogleWritten, Inserted, OwnerRefuses, Live, Trim, ReconciledRows, SweptAll,
        ReconcileRefusal, UniquePurchases, UniqueOriginals, TransitionOf, FindPurchase, LinkedRow;
      ReconciledKeepsKeys(rows, q, now);
      var u := q.update;
      var refusal := CheckRequest(q, now);
      if refusal.Some? {
        return Err(refusal.value);
      }
      NoneRefused(rows, q, now);
      var at := FindPurchase(rows, GooglePlay, u.purchaseId);
      var linkedAt := LinkedRow(rows, Trim(q.linkedId));
      var work := SweptAll(rows, q.account, now);
      ghost var swept := work;
      if Grants(u.status) && linkedAt.Some? {
        work := work[linkedAt.value := Superseded(work[linkedAt.value], u.purchaseId)];
      }
      StagesCompose(rows, q, now, swept, work);
      var id := if at.Some? then at.value else |rows|;
      var wasLive := at.Some? && Live(work[id], now);
      var previous := if at.Some? then Some(rows[id].status) else None;
      if at.Some? {
        work := work[id := GoogleWritten(work[id], q)];
      } else {
        work := work + [Inserted(q.account, u, q.scheduled, now)];
      }
      if OwnerRefuses(work, id, wasLive, now) {
        return Err(OwnerConflict);
      }
      rows := work;
      return Ok(Outcome(id, TransitionOf(previous, u.status)));
    }

    /** at is the row the query fetched. */
    method Upsert(account: string, u: Update, at: Option<nat>, now: int) returns (r: Result<Outcome, Failure>)
      requires Valid() && MayFetch(rows, u, at)
      modifies this
      ensures Valid()
      ensures match UpsertedAt(old(rows), account, u, at, now)
              case Err(f) => r == Err(f) && rows == old(rows)
              case Ok((after, outcome)) => r == Ok(outcome) && rows == after
      ensures match Upserted(old(rows), account, u, now)
              case Err(_) => r.Err? && rows == old(rows)
              case Ok((after, outcome)) => r == Ok(outcome) && rows == after
    {
      UpsertedKeepsKeys(rows, account, u, now);
      AnyFetchWillDo(rows, account, u, at, now);
      hide Upserted;
      if account == "" || !WellFormed(u) || u.provider == GooglePlay {
        return Err(InvalidRequest);
      }
      var work := rows;
      var id := |rows|;
      var wasLive := false;
      var previous := None;
      if at.Some? {
        id := at.value;
        var existing := rows[id];
        if existing.account != account {
          return Err(AlreadyBound);
        }
        if OlderEvent(existing, u.eventAt) {
          return Err(StaleEvent);
        }
        previous := Some(existing.status);
        work := work[id := UpsertWritten(existing, u)];
        wasLive := Live(existing, now) && SamePurchase(existing, work[id]);
        if Collides(work, id) {
          return Err(UniqueViolation);
        }
      } else {
        work := work + [Inserted(account, u, None, now)];
      }
      if OwnerRefuses(work, id, wasLive, now) {
        return Err(OwnerConflict);
      }
      rows := work;
      return Ok(Outcome(id, TransitionOf(previous, u.status)));
    }

    method Revoke(e: PurchaseEvent) returns (r: Result<Outcome, Failure>)
      requires Valid()
      modifies this
      ensures Valid()
      ensures match EventApplied(old(rows), e, true)
              case Err(f) => r == Err(f) && rows == old(rows)
              case Ok((after, outcome)) => r == Ok(outcome) && rows == after
    {
      EventKeepsKeys(rows, e, true);
      if e.account == "" || e.purchaseId == "" || e.eventId == "" {
        return Err(InvalidRequest);
      }
      var at := FindPurchase(rows, e.provider, e.purchaseId);
      if at == None {
        return Err(NotBound);
      }
      var existing := rows[at.value];
      if existing.account != e.account {
        return Err(AlreadyBound);
      }
      if e.expectedProduct != "" && existing.productId != e.expectedProduct {
        return Err(ProductMismatch);
      }
      if e.expectedPlan != "" && existing.planId != e.expectedPlan {
        return Err(PlanMismatch);
      }
      if OlderEvent(existing, Some(e.eventAt)) {
        return Err(StaleEvent);
      }
      var transition := if existing.status == Revoked then Unchanged else Changed(Some(existing.status), Revoked);
      rows := rows[at.value := Ended(existing, Revoked, e.eventAt)];
      return Ok(Outcome(at.value, transition));
    }

    method Terminalize(e: PurchaseEvent) returns (r: Result<Outcome, Failure>)
      requires Valid() && e.expectedProduct == "" && e.expectedPlan == ""
      modifies this
      ensures Valid()
      ensures match EventApplied(old(rows), e, false)
              case Err(f) => r == Err(f) && rows == old(rows)
              case Ok((after, outcome)) => r == Ok(outcome) && rows == after
    {
      EventKeepsKeys(rows, e, false);
      if e.account == "" || e.purchaseId == "" || e.eventId == "" {
        return Err(InvalidRequest);
      }
      var at := FindPurchase(rows, e.provider, e.purchaseId);
      if at == None {
        return Err(NotBound);
      }
      var existing := rows[at.value];
      if existing.account != e.account {
        return Err(AlreadyBound);
      }
      if OlderEvent(existing, Some(e.eventAt)) {
        return Err(StaleEvent);
      }
      var terminal :=
        if existing.status in {Canceled, Expired, Revoked, Refunded} then existing.status
        else if existing.status == Pending then Canceled
        else Expired;
      var transition := if existing.status == terminal then Unchanged else Changed(Some(existing.status), terminal);
      rows := rows[at.value := Ended(existing, terminal, e.eventAt)];
      return Ok(Outcome(at.value, transition));
    }
  }
}
