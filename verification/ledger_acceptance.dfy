/** When the ledger accepts a call, and with which refusal it turns one down otherwise, said of the
    rows of the table alone: by what some row holds or no row holds. */
module LedgerAcceptance {
  import opened Options
  import opened Text
  import opened BillingLedger
  import opened LedgerRuns

  // ----- reconcile -----

  /** A request the worker reads at all. */
  predicate Proper(q: GoogleRequest) {
    var u := q.update;
    && q.account != "" && u.provider.GooglePlay? && u.purchaseId != "" && u.productId != ""
    && u.quantity > 0 && 0 <= u.bytes && Trim(q.linkedId) != u.purchaseId
    && match q.scheduled
       case None => true
       case Some(s) => Grants(u.status) && s.productId != "" && s.planId != "" && 0 <= s.bytes && s.bytes < u.bytes
  }

  predicate IsPresented(r: Row, q: GoogleRequest) {
    r.provider.GooglePlay? && r.purchaseId == q.update.purchaseId
  }

  /** The presented purchase belongs to another account. */
  ghost predicate PresentedElsewhere(rows: seq<Row>, q: GoogleRequest) {
    exists i :: 0 <= i < |rows| && IsPresented(rows[i], q) && rows[i].account != q.account
  }

  /** The presented purchase has seen a later event, or was replaced and would grant again. */
  ghost predicate PresentedIsPast(rows: seq<Row>, q: GoogleRequest) {
    exists i :: 0 <= i < |rows| && IsPresented(rows[i], q)
                && ((q.update.eventAt.Some? && rows[i].lastEventAt.Some?
                     && q.update.eventAt.value < rows[i].lastEventAt.value)
                    || (Grants(q.update.status) && rows[i].supersededBy.Some?))
  }

  predicate IsLinked(r: Row, q: GoogleRequest) {
    Trim(q.linkedId) != "" && r.provider.GooglePlay? && r.purchaseId == Trim(q.linkedId)
  }

  ghost predicate LinkedElsewhere(rows: seq<Row>, q: GoogleRequest) {
    exists i :: 0 <= i < |rows| && IsLinked(rows[i], q) && rows[i].account != q.account
  }

  /** A Play purchase of the account, neither presented nor linked, is live beside a granting update. */
  ghost predicate AnotherIsLive(rows: seq<Row>, q: GoogleRequest, now: int) {
    Grants(q.update.status)
    && exists i :: 0 <= i < |rows| && rows[i].account == q.account && rows[i].provider.GooglePlay?
                   && Live(rows[i], now) && !IsPresented(rows[i], q) && !IsLinked(rows[i], q)
  }

  /** A new purchase comes with an original transaction the table has already. */
  ghost predicate OriginalIsTaken(rows: seq<Row>, q: GoogleRequest) {
    && (forall i :: 0 <= i < |rows| ==> !IsPresented(rows[i], q))
    && q.update.originalId.Some?
    && exists i :: 0 <= i < |rows| && rows[i].provider.GooglePlay? && rows[i].originalId == q.update.originalId
  }

  /** The update makes its purchase live while the account has a live Apple purchase. */
  ghost predicate AppleOwns(rows: seq<Row>, q: GoogleRequest, now: int) {
    && Grants(q.update.status) && q.update.periodEnd.Some? && q.update.periodEnd.value > now
    && (forall i :: 0 <= i < |rows| && IsPresented(rows[i], q) ==> !Live(rows[i], now))
    && exists i :: 0 <= i < |rows| && rows[i].account == q.account && rows[i].provider.Apple? && Live(rows[i], now)
  }

  ghost predicate BindingHolds(rows: seq<Row>, q: GoogleRequest) {
    Proper(q) && !PresentedElsewhere(rows, q) && !PresentedIsPast(rows, q) && !LinkedElsewhere(rows, q)
  }

  lemma ProperIsValid(q: GoogleRequest)
    ensures Proper(q) <==> GoogleRequestValid(q)
  {
    hide Grants, Trim;
  }

  lemma PresentedIsFound(rows: seq<Row>, q: GoogleRequest)
    requires UniquePurchases(rows)
    ensures var at := FindPurchase(rows, GooglePlay, q.update.purchaseId);
            forall i :: 0 <= i < |rows| ==> (IsPresented(rows[i], q) <==> at == Some(i))
  {}

  lemma LinkedRowIsFound(rows: seq<Row>, q: GoogleRequest)
    requires UniquePurchases(rows)
    ensures var at := LinkedRow(rows, Trim(q.linkedId));
            forall i :: 0 <= i < |rows| ==> (IsLinked(rows[i], q) <==> at == Some(i))
  {
    hide Trim;
  }

  /** What the checks before the owner trigger find, cause by cause. */
  lemma RefusalExactly(rows: seq<Row>, q: GoogleRequest, now: int)
    requires UniquePurchases(rows)
    ensures ReconcileRefusal(rows, q, now) ==
            if !Proper(q) then Some(InvalidRequest)
            else if PresentedElsewhere(rows, q) then Some(AlreadyBound)
            else if PresentedIsPast(rows, q) then Some(StaleEvent)
            else if LinkedElsewhere(rows, q) then Some(AlreadyBound)
            else if AnotherIsLive(rows, q, now) then Some(ConflictingActive)
            else if OriginalIsTaken(rows, q) then Some(UniqueViolation)
            else None
  {
    ProperIsValid(q);
    PresentedIsFound(rows, q);
    LinkedRowIsFound(rows, q);
    hide Live, Grants, Trim, UniquePurchases, FindPurchase, LinkedRow, Proper, GoogleRequestValid, IsPresented,
      IsLinked;
    AnotherIsOtherLive(rows, q, now);
    hide OtherLive, AnotherIsLive;
  }

  lemma AnotherIsOtherLive(rows: seq<Row>, q: GoogleRequest, now: int)
    ensures AnotherIsLive(rows, q, now) <==>
            Grants(q.update.status)
            && exists i :: 0 <= i < |rows| && OtherLive(rows[i], q, now)
                           && (Trim(q.linkedId) == "" || rows[i].purchaseId != Trim(q.linkedId))
  {
    hide Live, Grants, Trim;
  }

  // ----- the owner trigger -----

  lemma TriggerExactly(rows: seq<Row>, q: GoogleRequest, now: int)
    requires UniquePurchases(rows) && ReconcileRefusal(rows, q, now).None?
    ensures Reconciled(rows, q, now).Err? <==> AppleOwns(rows, q, now)
    ensures Reconciled(rows, q, now).Err? ==> Reconciled(rows, q, now) == Err(OwnerConflict)
  {
    var after := ReconciledRows(rows, q, now);
    var at := FindPurchase(rows, GooglePlay, q.update.purchaseId);
    var id := if at.Some? then at.value else |rows|;
    PresentedIsFound(rows, q);
    WrittenLives(rows, q, now);
    forall j | 0 <= j < |after| && j != id && Grants(q.update.status)
      ensures j < |rows|
      ensures after[j].account == q.account && Live(after[j], now) <==>
              rows[j].account == q.account && rows[j].provider.Apple? && Live(rows[j], now)
    {
      OthersLiveAfter(rows, q, now, j);
    }
    hide Live, Grants, Trim, UniquePurchases, FindPurchase, LinkedRow, Proper, GoogleRequestValid, ReconciledRows,
      ReconcileRefusal, OtherLive;
  }

  lemma WrittenLives(rows: seq<Row>, q: GoogleRequest, now: int)
    requires ReconcileRefusal(rows, q, now).None?
    ensures var after := ReconciledRows(rows, q, now);
            var at := FindPurchase(rows, GooglePlay, q.update.purchaseId);
            var id := if at.Some? then at.value else |rows|;
            && after[id].account == q.account
            && (Live(after[id], now) <==>
                Grants(q.update.status) && q.update.periodEnd.Some? && q.update.periodEnd.value > now)
  {
    hide Trim, OlderEvent, SameOriginal, Swept, Superseded, OtherLive;
  }

  lemma OthersLiveAfter(rows: seq<Row>, q: GoogleRequest, now: int, j: nat)
    requires UniquePurchases(rows) && ReconcileRefusal(rows, q, now).None? && Grants(q.update.status)
    requires j < |ReconciledRows(rows, q, now)|
    requires FindPurchase(rows, GooglePlay, q.update.purchaseId) !=
               if j == |rows| then None else Some(j)
    ensures j < |rows|
    ensures var after := ReconciledRows(rows, q, now);
            after[j].account == q.account && Live(after[j], now) <==>
            rows[j].account == q.account && rows[j].provider.Apple? && Live(rows[j], now)
  {
    var after := ReconciledRows(rows, q, now);
    RefusalExactly(rows, q, now);
    PresentedIsFound(rows, q);
    LinkedRowIsFound(rows, q);
    hide UniquePurchases, FindPurchase, LinkedRow, Proper, GoogleRequestValid, ReconcileRefusal, Trim;
    LinkedIsSuperseded(rows[j], q, now);
    UnlinkedIsSwept(rows[j], q, now);
    hide Swept, Superseded, Live;
  }

  lemma LinkedIsSuperseded(r: Row, q: GoogleRequest, now: int)
    ensures !Live(Superseded(Swept(r, q.account, now), q.update.purchaseId), now)
  {}

  lemma UnlinkedIsSwept(r: Row, q: GoogleRequest, now: int)
    ensures Swept(r, q.account, now).account == r.account
    ensures Live(Swept(r, q.account, now), now) <==> Live(r, now)
  {}

  // ----- the result -----

  /** Every answer of a reconcile, and exactly when it is given; in particular when it is accepted. */
  lemma ReconcileDecides(rows: seq<Row>, q: GoogleRequest, now: int)
    requires UniquePurchases(rows)
    ensures var r := Reconciled(rows, q, now);
            && (r == Err(InvalidRequest) <==> !Proper(q))
            && (r == Err(AlreadyBound) <==>
                Proper(q) && (PresentedElsewhere(rows, q)
                              || (!PresentedIsPast(rows, q) && LinkedElsewhere(rows, q))))
            && (r == Err(StaleEvent) <==> Proper(q) && !PresentedElsewhere(rows, q) && PresentedIsPast(rows, q))
            && (r == Err(ConflictingActive) <==> BindingHolds(rows, q) && AnotherIsLive(rows, q, now))
            && (r == Err(UniqueViolation) <==>
                BindingHolds(rows, q) && !AnotherIsLive(rows, q, now) && OriginalIsTaken(rows, q))
            && (r == Err(OwnerConflict) <==>
                BindingHolds(rows, q) && !AnotherIsLive(rows, q, now) && !OriginalIsTaken(rows, q)
                && AppleOwns(rows, q, now))
            && (r.Ok? <==>
                BindingHolds(rows, q) && !AnotherIsLive(rows, q, now) && !OriginalIsTaken(rows, q)
                && !AppleOwns(rows, q, now))
  {
    RefusalExactly(rows, q, now);
    if ReconcileRefusal(rows, q, now).None? {
      TriggerExactly(rows, q, now);
    }
    hide Proper, PresentedElsewhere, PresentedIsPast, LinkedElsewhere, AnotherIsLive, OriginalIsTaken, AppleOwns,
      ReconcileRefusal, ReconciledRows, OwnerRefuses;
  }

  /** Every tier change that links the account's only live purchase is accepted: the new purchase
      is written and the linked one points at it and no longer grants. */
  lemma LinkedChangeIsAccepted(rows: seq<Row>, q: GoogleRequest, now: int, from: nat)
    requires UniquePurchases(rows) && Proper(q) && Grants(q.update.status)
    requires from < |rows| && IsLinked(rows[from], q) && rows[from].account == q.account
    requires forall i :: 0 <= i < |rows| && i != from && rows[i].account == q.account ==> !Live(rows[i], now)
    requires forall i :: 0 <= i < |rows| ==> !IsPresented(rows[i], q)
    requires forall i :: 0 <= i < |rows| && rows[i].provider.GooglePlay? && rows[i].originalId.Some? ==>
               rows[i].originalId != q.update.originalId
    ensures Reconciled(rows, q, now).Ok?
    ensures var (after, outcome) := Reconciled(rows, q, now).value;
            && outcome.id == |rows| && |after| == |rows| + 1
            && after[from].supersededBy == Some(q.update.purchaseId) && !Grants(after[from].status)
            && IsPresented(after[|rows|], q) && after[|rows|].account == q.account
            && after[|rows|].status == q.update.status && after[|rows|].bytes == q.update.bytes
  {
    ReconcileDecides(rows, q, now);
    hide Proper, Trim, Live, Grants, UniquePurchases;
    OnlyLinkedIsLive(rows, q, now, from);
    ReconcileSupersedes(rows, q, now, from);
    ReconcileWritesUpdate(rows, q, now);
    PresentedIsFound(rows, q);
  }

  lemma OnlyLinkedIsLive(rows: seq<Row>, q: GoogleRequest, now: int, from: nat)
    requires UniquePurchases(rows) && from < |rows| && IsLinked(rows[from], q) && rows[from].account == q.account
    requires forall i :: 0 <= i < |rows| && i != from && rows[i].account == q.account ==> !Live(rows[i], now)
    ensures !AnotherIsLive(rows, q, now) && !AppleOwns(rows, q, now) && !LinkedElsewhere(rows, q)
  {
    hide Trim, Live, Grants;
    LinkedRowIsFound(rows, q);
  }

  // ----- upsert -----

  predicate ProperUpdate(account: string, u: Update) {
    && account != "" && u.provider.Apple? && u.purchaseId != "" && u.productId != ""
    && u.quantity > 0 && 0 <= u.bytes
  }

  /** Row j carries the update's purchase id or its original transaction. */
  predicate Carries(r: Row, u: Update) {
    r.provider == u.provider
    && (r.purchaseId == u.purchaseId || (u.originalId.Some? && r.originalId == u.originalId))
  }

  predicate IsPast(r: Row, eventAt: int) { r.lastEventAt.Some? && eventAt < r.lastEventAt.value }

  /** The update renews what the row stands for: the same purchase, or the same Apple original. */
  predicate Renews(r: Row, u: Update) {
    r.purchaseId == u.purchaseId
    || (r.provider.Apple? && r.originalId.Some? && r.originalId.value != ""
        && (u.originalId.None? || u.originalId == r.originalId))
  }

  /** The update makes its row live, which it was not as the same purchase, beside another live row. */
  ghost predicate AnotherOwns(rows: seq<Row>, account: string, u: Update, at: Option<nat>, now: int)
    requires at.Some? ==> at.value < |rows|
  {
    && Grants(u.status) && u.periodEnd.Some? && u.periodEnd.value > now
    && (at.Some? ==> !(Live(rows[at.value], now) && Renews(rows[at.value], u)))
    && exists j :: 0 <= j < |rows| && Some(j) != at && rows[j].account == account && Live(rows[j], now)
  }

  /** Every answer of an upsert that fetched the row at, and exactly when it is given. */
  lemma UpsertDecides(rows: seq<Row>, account: string, u: Update, at: Option<nat>, now: int)
    requires UniquePurchases(rows) && UniqueOriginals(rows) && MayFetch(rows, u, at)
    ensures var r := UpsertedAt(rows, account, u, at, now);
            var bound := at.Some? && rows[at.value].account != account;
            var past := at.Some? && u.eventAt.Some? && IsPast(rows[at.value], u.eventAt.value);
            var twice := exists j: nat :: j < |rows| && at.Some? && j != at.value && Carries(rows[j], u);
            && (r == Err(InvalidRequest) <==> !ProperUpdate(account, u))
            && (r == Err(AlreadyBound) <==> ProperUpdate(account, u) && bound)
            && (r == Err(StaleEvent) <==> ProperUpdate(account, u) && !bound && past)
            && (r == Err(UniqueViolation) <==> ProperUpdate(account, u) && !bound && !past && twice)
            && (r == Err(OwnerConflict) <==>
                ProperUpdate(account, u) && !bound && !past && !twice && AnotherOwns(rows, account, u, at, now))
            && (r.Ok? <==>
                ProperUpdate(account, u) && !bound && !past && !twice && !AnotherOwns(rows, account, u, at, now))
  {
    assert ProperUpdate(account, u) <==> !(account == "" || !WellFormed(u) || u.provider == GooglePlay);
    if at.Some? {
      CollidesExactly(rows, u, at.value);
      RewrittenLives(rows[at.value], u, now);
      if rows[at.value].account == account {
        TriggerAfterUpdate(rows, account, u, at.value, now);
      }
    } else {
      TriggerAfterInsert(rows, account, u, now);
    }
    hide ProperUpdate, WellFormed, Live, Grants, UpsertWritten, Collides, OwnerRefuses, SamePurchase, MatchesUpdate,
      UniquePurchases, UniqueOriginals, Carries, AnotherOwns, Inserted, TransitionOf, Renews;
  }

  lemma CollidesExactly(rows: seq<Row>, u: Update, at: nat)
    requires UniquePurchases(rows) && UniqueOriginals(rows) && at < |rows| && MatchesUpdate(rows[at], u)
    ensures Collides(rows[at := UpsertWritten(rows[at], u)], at) <==>
            exists j: nat :: j < |rows| && j != at && Carries(rows[j], u)
  {
    var after := rows[at := UpsertWritten(rows[at], u)];
    forall j: nat | j < |rows| && j != at
      ensures after[j] == rows[j]
      ensures Carries(rows[j], u) <==>
              (IsPurchase(after[j], after[at].provider, after[at].purchaseId)
               || SameOriginal(after[j], after[at].provider, after[at].originalId))
    {
      if u.originalId.None? && SameOriginal(rows[j], rows[at].provider, rows[at].originalId) {
        assert false;
      }
    }
    hide Carries, IsPurchase, SameOriginal, UpsertWritten;
  }

  lemma RewrittenLives(r: Row, u: Update, now: int)
    ensures UpsertWritten(r, u).account == r.account
    ensures Live(UpsertWritten(r, u), now) <==>
            Grants(u.status) && u.periodEnd.Some? && u.periodEnd.value > now
    ensures SamePurchase(r, UpsertWritten(r, u)) <==> Renews(r, u)
  {}

  lemma TriggerAfterUpdate(rows: seq<Row>, account: string, u: Update, at: nat, now: int)
    requires at < |rows| && rows[at].account == account
    ensures var before := rows[at]; var after := rows[at := UpsertWritten(before, u)];
            OwnerRefuses(after, at, Live(before, now) && SamePurchase(before, after[at]), now) <==>
            AnotherOwns(rows, account, u, Some(at), now)
  {
    RewrittenLives(rows[at], u, now);
    var after := rows[at := UpsertWritten(rows[at], u)];
    assert forall j :: 0 <= j < |rows| && j != at ==> after[j] == rows[j];
    hide Live, Grants, UpsertWritten, SamePurchase, Renews;
  }

  lemma TriggerAfterInsert(rows: seq<Row>, account: string, u: Update, now: int)
    ensures OwnerRefuses(rows + [Inserted(account, u, None, now)], |rows|, false, now) <==>
            AnotherOwns(rows, account, u, None, now)
  {
    var row := Inserted(account, u, None, now);
    assert row.account == account;
    assert Live(row, now) <==> Grants(u.status) && u.periodEnd.Some? && u.periodEnd.value > now;
    assert forall j :: 0 <= j < |rows| ==> (rows + [row])[j] == rows[j];
    hide Live, Grants, Inserted;
  }

  // ----- revoke and terminalize -----

  /** Every answer to an event about one purchase, and exactly when it is given. */
  lemma EventDecides(rows: seq<Row>, e: PurchaseEvent, revoke: bool)
    requires UniquePurchases(rows)
    ensures var r := EventApplied(rows, e, revoke);
            var named := e.account != "" && e.purchaseId != "" && e.eventId != "";
            && (r == Err(InvalidRequest) <==> !named)
            && (r == Err(NotBound) <==>
                named && forall i :: 0 <= i < |rows| ==>
                  !(rows[i].provider == e.provider && rows[i].purchaseId == e.purchaseId))
            && (forall i :: 0 <= i < |rows| && rows[i].provider == e.provider && rows[i].purchaseId == e.purchaseId ==>
                  var other := rows[i].account != e.account;
                  var product := e.expectedProduct != "" && e.expectedProduct != rows[i].productId;
                  var plan := e.expectedPlan != "" && e.expectedPlan != rows[i].planId;
                  && (r == Err(AlreadyBound) <==> named && other)
                  && (r == Err(ProductMismatch) <==> named && !other && product)
                  && (r == Err(PlanMismatch) <==> named && !other && !product && plan)
                  && (r == Err(StaleEvent) <==>
                      named && !other && !product && !plan && IsPast(rows[i], e.eventAt))
                  && (r.Ok? <==> named && !other && !product && !plan && !IsPast(rows[i], e.eventAt)))
  {
    hide Ended, TerminalStatus;
  }
}
