/** From a Play subscription to the storage an account is told it has: selection, request, ledger
    and resolver in one. */
module PlayStorage {
  import opened Options
  import opened Text
  import opened BillingLedger
  import opened LedgerRuns
  import opened LedgerAcceptance
  import opened StorageLimit
  import opened GoogleSelection
  import opened SelectionDecisions

  /** After a payload with a future end is applied, the written row is reported in grace exactly for
      the in-grace state, in force exactly for the active and the canceled one, and else not at all. */
  lemma StateIsReported(rows: seq<Row>, p: Payload, c: Context, now: int, listed: seq<nat>, owner: Option<Ownership>)
    requires UniquePurchases(rows) && OneLive(rows, now)
    requires Request(p, c).Ok? && Reconciled(rows, Request(p, c).value, now).Ok?
    requires var end := Request(p, c).value.update.periodEnd; end.Some? && now < end.value && c.stateNow < end.value
    requires var after := Reconciled(rows, Request(p, c).value, now).value.0;
             IsListing(after, c.account, listed) && InTable(after, listed)
    ensures var q := Request(p, c).value;
            var (after, outcome) := Reconciled(rows, q, now).value;
            var n := Resolve(after, listed, owner, now);
            var owns := n.Some? && n.value.owner == Some(outcome.id);
            && (owns && n.value.status == InGrace <==> p.state == InGracePeriod)
            && (owns && n.value.status == InForce <==> p.state == ActiveState || p.state == CanceledState)
            && (owns ==> n.value.purchased == q.update.bytes)
  {
    hide Resolve, IsListing, Reconciled, UniquePurchases, OneLive, Select, NormalizedStatus, Request;
    RequestDecides(p, c);
    var q := Request(p, c).value;
    NormalizedStatusExactly(p.state, q.update.periodEnd, c.stateNow);
    ReconcileWritesUpdate(rows, q, now);
    var (after, outcome) := Reconciled(rows, q, now).value;
    if Grants(q.update.status) {
      ReconcileThenResolve(rows, q, now, listed, owner);
    } else {
      ResolverAgreesWithLedger(after, c.account, listed, owner, now);
    }
  }

  // ----- a purchase, from the payload to the limit -----

  function PlainLine(tier: Tier, renews: bool, end: int): Line {
    Line(tier.productId, tier.planId, Some(renews), false, Some(end), NoDeferral, NoReplacement)
  }

  /** The account's own payload of one plain subscription, in one of the paying states. */
  predicate IsPurchaseOf(p: Payload, c: Context, tier: Tier, renews: bool, end: int) {
    && p.lines == [PlainLine(tier, renews, end)] && p.state in {ActiveState, InGracePeriod, CanceledState}
    && p.accountToken == c.tokenOf(c.account) != "" && !p.testPurchase
    && c.account != "" && 1 <= |c.token| <= 4096 && (c.expected == "" || c.expected == tier.productId)
    && Trim(p.linkedToken) != c.token
  }

  lemma PurchaseIsRequested(p: Payload, c: Context, tier: Tier, renews: bool, end: int)
    requires tier in CATALOG && IsPurchaseOf(p, c, tier, renews, end) && c.stateNow < end
    ensures Request(p, c).Ok?
    ensures var q := Request(p, c).value;
            && Proper(q) && Grants(q.update.status) && q.account == c.account && q.linkedId == p.linkedToken
            && q.update.purchaseId == c.token && q.update.originalId.None? && q.update.periodEnd == Some(end)
            && q.update.bytes == tier.Bytes() && q.update.bytes > 0 && q.update.quantity > 0
  {
    hide CATALOG, NormalizedStatus, Trim, Select;
    var line := PlainLine(tier, renews, end);
    CatalogFinds(tier);
    SingleLineIsSelected(line, c.selectNow);
    RequestDecides(p, c);
    NormalizedGrantsExactly(p.state, Some(end), c.stateNow);
    RankOrdersBytes(tier, tier);
  }

  /** The account holds nothing live but what the purchase replaces, and what it replaces is its own. */
  ghost predicate MakesWay(rows: seq<Row>, q: GoogleRequest, now: int) {
    && (forall i :: 0 <= i < |rows| && rows[i].account == q.account && Live(rows[i], now) ==> IsLinked(rows[i], q))
    && (forall i :: 0 <= i < |rows| && IsLinked(rows[i], q) ==> rows[i].account == q.account)
  }

  lemma NewPurchaseIsAccepted(rows: seq<Row>, q: GoogleRequest, now: int)
    requires UniquePurchases(rows) && Proper(q) && MakesWay(rows, q, now) && q.update.originalId.None?
    requires forall i :: 0 <= i < |rows| ==> !IsPresented(rows[i], q)
    ensures Reconciled(rows, q, now).Ok?
  {
    hide Live, Grants, Proper, Trim, UniquePurchases, Reconciled;
    ReconcileDecides(rows, q, now);
    forall i | 0 <= i < |rows|
      ensures IsLinked(rows[i], q) ==> rows[i].provider.GooglePlay?
    {}
  }

  /** A first purchase, or one that replaces the account's only live one, is verified and applied, and
      the account's limit is the bought tier's bytes at once. */
  lemma PurchaseYieldsItsBytes(rows: seq<Row>, p: Payload, c: Context, tier: Tier, renews: bool, end: int, now: int,
    included: int, grant: Option<Grant>)
    requires UniquePurchases(rows) && tier in CATALOG && IsPurchaseOf(p, c, tier, renews, end)
    requires now < end && c.stateNow < end
    requires forall i :: 0 <= i < |rows| ==> !(rows[i].provider.GooglePlay? && rows[i].purchaseId == c.token)
    requires Request(p, c).Ok? ==> MakesWay(rows, Request(p, c).value, now)
    ensures Request(p, c).Ok? && Reconciled(rows, Request(p, c).value, now).Ok?
    ensures var after := Reconciled(rows, Request(p, c).value, now).value.0;
            forall listed, owner :: IsListing(after, c.account, listed) && InTable(after, listed) ==>
              EffectiveLimit(included, grant, Resolve(after, listed, owner, now), now) == tier.Bytes()
  {
    hide Request, Reconciled, Resolve, IsListing, UniquePurchases, IsPurchaseOf, Proper, Grants, Live, LiveFor, CATALOG;
    PurchaseIsRequested(p, c, tier, renews, end);
    var q := Request(p, c).value;
    NewPurchaseIsAccepted(rows, q, now);
    var (after, outcome) := Reconciled(rows, q, now).value;
    ReconcileWritesUpdate(rows, q, now);
    WrittenIsSoleLive(rows, q, now);
    forall listed, owner | IsListing(after, c.account, listed) && InTable(after, listed)
      ensures EffectiveLimit(included, grant, Resolve(after, listed, owner, now), now) == tier.Bytes()
    {
      ResolverAgreesWithLedger(after, c.account, listed, owner, now);
    }
  }

  lemma WrittenIsSoleLive(rows: seq<Row>, q: GoogleRequest, now: int)
    requires UniquePurchases(rows) && Grants(q.update.status) && Reconciled(rows, q, now).Ok?
    requires MakesWay(rows, q, now) && q.update.periodEnd.Some? && now < q.update.periodEnd.value
    ensures var (after, outcome) := Reconciled(rows, q, now).value;
            outcome.id < |after|
            && forall i :: 0 <= i < |after| ==> (LiveFor(after[i], q.account, now) <==> i == outcome.id)
  {
    var (after, outcome) := Reconciled(rows, q, now).value;
    assert after == Step(rows, ReconcileOp(q), now);
    GrantingReconcileIsSole(rows, q, now);
    StepIsAccepted(rows, ReconcileOp(q), now);
    hide Step, Reconciled, UniquePurchases, Moved, Added;
    forall i | 0 <= i < |after| && i != outcome.id
      ensures !LiveFor(after[i], q.account, now)
    {
      if i < |rows| {
        AppleRowStays(rows[i], after[i], q, now);
      }
    }
  }

  lemma AppleRowStays(before: Row, after: Row, q: GoogleRequest, now: int)
    requires Moved(before, after, ReconcileOp(q), now)
    ensures after.provider == before.provider
    ensures before.provider.Apple? ==> after == before
  {}
}
