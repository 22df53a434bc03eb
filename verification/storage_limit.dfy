/** The read side of the ledger: which row owns an account's paid storage, and the limit it yields. */
module StorageLimit {
  import opened Options
  import opened BillingLedger
  import opened LedgerRuns
  import opened Timelines

  /** The account's row of the ownership table, when it names one of the two stores. */
  datatype Ownership = Ownership(provider: Provider, entitlement: Option<nat>)

  datatype AccountStatus = NoSubscription | InForce | InGrace | PastDue | Lapsed(status: Status)

  datatype Resolution = Resolution(
    owner: Option<nat>, purchased: int, blocks: int, status: AccountStatus, conflict: bool)

  /** What the query returns: the account's rows, oldest first; ties in any order. */
  ghost predicate IsListing(rows: seq<Row>, account: string, listed: seq<nat>) {
    && (forall k :: 0 <= k < |listed| ==> listed[k] < |rows| && rows[listed[k]].account == account)
    && (forall i :: 0 <= i < |rows| && rows[i].account == account ==> i in listed)
    && (forall j, k :: 0 <= j < k < |listed| ==> listed[j] != listed[k])
    && (forall j, k :: 0 <= j < k < |listed| ==> rows[listed[j]].createdAt <= rows[listed[k]].createdAt)
  }

  ghost predicate InTable(rows: seq<Row>, listed: seq<nat>) {
    forall k :: 0 <= k < |listed| ==> listed[k] < |rows|
  }

  /** The listed rows a test selects, in listing order. */
  function Where(listed: seq<nat>, test: nat -> bool): (picked: seq<nat>)
    ensures forall k :: 0 <= k < |picked| ==> picked[k] in listed && test(picked[k])
    ensures forall i :: i in listed && test(i) ==> i in picked
    ensures |picked| <= |listed|
  {
    if listed == [] then []
    else Where(listed[..|listed| - 1], test) + if test(listed[|listed| - 1]) then [listed[|listed| - 1]] else []
  }

  function LiveTest(rows: seq<Row>, now: int): nat -> bool {
    (i: nat) => i < |rows| && Live(rows[i], now)
  }

  function ActiveRows(rows: seq<Row>, listed: seq<nat>, now: int): seq<nat> {
    Where(listed, LiveTest(rows, now))
  }

  function IsRecorded(owner: Ownership): nat -> bool {
    i => owner.entitlement == Some(i)
  }

  function IsOfStore(rows: seq<Row>, provider: Provider): nat -> bool {
    (i: nat) => i < |rows| && rows[i].provider == provider
  }

  /** The recorded owner if it is live, else the oldest live row of its store, else the oldest live row. */
  function Chosen(rows: seq<Row>, active: seq<nat>, owner: Option<Ownership>): nat
    requires active != []
  {
    if owner.None? then active[0]
    else
      var exact := Where(active, IsRecorded(owner.value));
      var ofStore := Where(active, IsOfStore(rows, owner.value.provider));
      if exact != [] then exact[0] else if ofStore != [] then ofStore[0] else active[0]
  }

  function LapsedStatus(r: Row, now: int): AccountStatus {
    var mapped :=
      if Grants(r.status) && r.periodEnd == None then Pending
      else if Grants(r.status) && r.periodEnd.value <= now then Expired
      else r.status;
    if mapped == Delinquent then PastDue else Lapsed(mapped)
  }

  function Resolve(rows: seq<Row>, listed: seq<nat>, owner: Option<Ownership>, now: int): Option<Resolution>
    requires InTable(rows, listed)
  {
    var active := ActiveRows(rows, listed, now);
    if listed == [] then None
    else if active != [] then
      var r := rows[Chosen(rows, active, owner)];
      Some(Resolution(Some(Chosen(rows, active, owner)), r.bytes, r.quantity,
                      if r.status == GracePeriod then InGrace else InForce, |active| > 1))
    else Some(Resolution(None, 0, 0, LapsedStatus(rows[listed[|listed| - 1]], now), false))
  }

  // ----- the effective limit -----

  /** A promotional grant of bytes, in force until it expires. */
  datatype Grant = Grant(bytes: int, expiresAt: Option<int>)

  function GrantedBytes(grant: Option<Grant>, now: int): int {
    if grant.Some? && (grant.value.expiresAt.None? || grant.value.expiresAt.value > now) then grant.value.bytes else 0
  }

  function PurchasedActive(status: AccountStatus, purchased: int): int {
    if status == InForce || status == InGrace then purchased else 0
  }

  /** A ledger that cannot be read counts as one without a subscription, and a missing account
      as one with neither grant nor subscription. */
  function EffectiveLimit(included: int, grant: Option<Grant>, ledger: Option<Resolution>, now: int): int {
    match ledger
    case Some(n) =>
      if n.blocks > 0 && PurchasedActive(n.status, n.purchased) > 0 then PurchasedActive(n.status, n.purchased)
      else included + GrantedBytes(grant, now)
    case None => included + GrantedBytes(grant, now)
  }

  // ----- the resolver against the ledger -----

  /** A row the account can use: one of the three granting states and a verified end ahead. */
  predicate LiveFor(r: Row, account: string, now: int) {
    && r.account == account && r.periodEnd.Some? && now < r.periodEnd.value
    && (r.status.Active? || r.status.Reactivated? || r.status.GracePeriod?)
  }

  lemma LiveForIsLive(rows: seq<Row>, account: string, now: int)
    ensures forall i :: 0 <= i < |rows| ==>
              (LiveFor(rows[i], account, now) <==> rows[i].account == account && Live(rows[i], now))
  {}

  lemma ActiveIsLive(rows: seq<Row>, account: string, listed: seq<nat>, now: int)
    requires IsListing(rows, account, listed)
    ensures InTable(rows, listed)
    ensures forall i :: i in ActiveRows(rows, listed, now) <==> 0 <= i < |rows| && LiveFor(rows[i], account, now)
  {}

  lemma ChosenIsActive(rows: seq<Row>, active: seq<nat>, owner: Option<Ownership>)
    requires active != []
    ensures Chosen(rows, active, owner) in active
    ensures owner.Some? && owner.value.entitlement.Some? && owner.value.entitlement.value in active ==>
              Chosen(rows, active, owner) == owner.value.entitlement.value
  {}

  /** Active or in grace exactly when the account has a live row, and then the answer is one of
      them: the recorded owner whenever that is live. */
  lemma ResolverAgreesWithLedger(rows: seq<Row>, account: string, listed: seq<nat>, owner: Option<Ownership>, now: int)
    requires IsListing(rows, account, listed)
    ensures InTable(rows, listed)
    ensures match Resolve(rows, listed, owner, now)
            case None => forall i :: 0 <= i < |rows| ==> rows[i].account != account
            case Some(n) =>
              && ((n.status == InForce || n.status == InGrace) <==>
                  exists i :: 0 <= i < |rows| && LiveFor(rows[i], account, now))
              && (n.owner.Some? <==> n.status == InForce || n.status == InGrace)
              && (n.owner.Some? ==>
                    && n.owner.value < |rows| && LiveFor(rows[n.owner.value], account, now)
                    && n.purchased == rows[n.owner.value].bytes && n.blocks == rows[n.owner.value].quantity
                    && (n.status == InGrace <==> rows[n.owner.value].status == GracePeriod)
                    && (owner.Some? && owner.value.entitlement.Some? && owner.value.entitlement.value < |rows|
                        && LiveFor(rows[owner.value.entitlement.value], account, now) ==>
                          n.owner == owner.value.entitlement))
  {
    hide Live, Chosen;
    ActiveIsLive(rows, account, listed, now);
    var active := ActiveRows(rows, listed, now);
    if active != [] {
      ChosenIsActive(rows, active, owner);
      assert LiveFor(rows[active[0]], account, now);
    }
    if i :| 0 <= i < |rows| && LiveFor(rows[i], account, now) {
      assert i in active;
    }
  }

  ghost predicate Apart(s: seq<nat>) {
    forall j, k :: 0 <= j < k < |s| ==> s[j] != s[k]
  }

  lemma {:induction false} PickedAreApart(listed: seq<nat>, test: nat -> bool)
    requires Apart(listed)
    ensures Apart(Where(listed, test))
  {
    if listed != [] {
      var shorter, last := listed[..|listed| - 1], listed[|listed| - 1];
      PickedAreApart(shorter, test);
      assert last !in shorter;
      AppendApart(Where(shorter, test), last);
    }
  }

  lemma AppendApart(s: seq<nat>, x: nat)
    requires Apart(s) && x !in s
    ensures Apart(s + [x]) && s + [] == s
  {}

  lemma TwoInApart(s: seq<nat>, i: nat, j: nat)
    requires i in s && j in s && i != j
    ensures |s| > 1
  {
    var a, b :| 0 <= a < |s| && 0 <= b < |s| && s[a] == i && s[b] == j;
    assert a != b;
  }

  /** A conflict is reported exactly when two rows of the account are live. */
  lemma ConflictMeansTwoLive(rows: seq<Row>, account: string, listed: seq<nat>, owner: Option<Ownership>, now: int)
    requires IsListing(rows, account, listed) && InTable(rows, listed)
    ensures var n := Resolve(rows, listed, owner, now);
            n.Some? && n.value.conflict <==>
            exists i, j :: 0 <= i < |rows| && 0 <= j < |rows| && i != j
                           && LiveFor(rows[i], account, now) && LiveFor(rows[j], account, now)
  {
    ActiveIsLive(rows, account, listed, now);
    var active := ActiveRows(rows, listed, now);
    PickedAreApart(listed, LiveTest(rows, now));
    hide Live, Chosen, LiveFor, ActiveRows, LapsedStatus;
    if |active| > 1 {
      var i, j := active[0], active[1];
      assert i in active && j in active;
      assert LiveFor(rows[i], account, now) && LiveFor(rows[j], account, now);
    }
    if i, j :|
      0 <= i < |rows| && 0 <= j < |rows| && i != j && LiveFor(rows[i], account, now) && LiveFor(rows[j], account, now) {
      TwoInApart(active, i, j);
    }
  }

  ghost predicate OldestFirst(rows: seq<Row>, listed: seq<nat>) {
    InTable(rows, listed) && forall j, k :: 0 <= j < k < |listed| ==>
      rows[listed[j]].createdAt <= rows[listed[k]].createdAt
  }

  lemma {:induction false} PickedStayInOrder(rows: seq<Row>, listed: seq<nat>, test: nat -> bool)
    requires OldestFirst(rows, listed)
    ensures OldestFirst(rows, Where(listed, test))
  {
    if listed != [] {
      var shorter, last := listed[..|listed| - 1], listed[|listed| - 1];
      PickedStayInOrder(rows, shorter, test);
      var before := Where(shorter, test);
      forall k | 0 <= k < |before|
        ensures rows[before[k]].createdAt <= rows[last].createdAt
      {
        assert before[k] in shorter;
      }
      assert Where(listed, test) == before + if test(last) then [last] else [];
    }
  }

  lemma FirstIsOldest(rows: seq<Row>, listed: seq<nat>, i: nat)
    requires OldestFirst(rows, listed) && i in listed
    ensures i < |rows| && listed[0] < |rows| && rows[listed[0]].createdAt <= rows[i].createdAt
  {}

  lemma ActiveInOrder(rows: seq<Row>, account: string, listed: seq<nat>, now: int)
    requires IsListing(rows, account, listed)
    ensures OldestFirst(rows, ActiveRows(rows, listed, now))
  {
    PickedStayInOrder(rows, listed, LiveTest(rows, now));
  }

  /** Without a recorded owner the oldest live row owns the account's storage. */
  lemma OldestLiveOwns(rows: seq<Row>, account: string, listed: seq<nat>, now: int, i: nat)
    requires IsListing(rows, account, listed) && InTable(rows, listed)
    requires i < |rows| && LiveFor(rows[i], account, now)
    ensures var n := Resolve(rows, listed, None, now);
            n.Some? && n.value.owner.Some? && n.value.owner.value < |rows|
            && rows[n.value.owner.value].createdAt <= rows[i].createdAt
  {
    hide Live, ActiveRows, LapsedStatus;
    ActiveIsLive(rows, account, listed, now);
    ActiveInOrder(rows, account, listed, now);
    FirstIsOldest(rows, ActiveRows(rows, listed, now), i);
  }

  /** When the recorded owner is not live, the oldest live row of its store owns the storage, even
      if the other store has an older one. */
  lemma OldestOfStoreOwns(rows: seq<Row>, account: string, listed: seq<nat>, owner: Ownership, now: int, i: nat)
    requires IsListing(rows, account, listed) && InTable(rows, listed)
    requires i < |rows| && LiveFor(rows[i], account, now) && rows[i].provider == owner.provider
    requires owner.entitlement.Some? && owner.entitlement.value < |rows| ==>
               !LiveFor(rows[owner.entitlement.value], account, now)
    ensures var n := Resolve(rows, listed, Some(owner), now);
            n.Some? && n.value.owner.Some? && n.value.owner.value < |rows|
            && rows[n.value.owner.value].provider == owner.provider
            && rows[n.value.owner.value].createdAt <= rows[i].createdAt
  {
    hide Live, ActiveRows, LapsedStatus;
    var active := ActiveRows(rows, listed, now);
    ActiveIsLive(rows, account, listed, now);
    ActiveInOrder(rows, account, listed, now);
    var ofStore := Where(active, IsOfStore(rows, owner.provider));
    PickedStayInOrder(rows, active, IsOfStore(rows, owner.provider));
    FirstIsOldest(rows, ofStore, i);
    RecordedIsNotThere(active, owner);
    assert ofStore[0] in active && IsOfStore(rows, owner.provider)(ofStore[0]);
  }

  lemma RecordedIsNotThere(active: seq<nat>, owner: Ownership)
    requires owner.entitlement.Some? ==> owner.entitlement.value !in active
    ensures Where(active, IsRecorded(owner)) == []
  {
    NothingPicked(active, IsRecorded(owner));
  }

  lemma {:induction false} NothingPicked(listed: seq<nat>, test: nat -> bool)
    requires forall k :: 0 <= k < |listed| ==> !test(listed[k])
    ensures Where(listed, test) == []
  {
    if listed != [] {
      NothingPicked(listed[..|listed| - 1], test);
    }
  }

  /** Without a paying row: the included bytes, and a grant counts while it has no end or its end is
      ahead. */
  predicate IsFreeLimit(limit: int, included: int, grant: Option<Grant>, now: int) {
    match grant
    case None => limit == included
    case Some(Grant(bytes, None)) => limit == included + bytes
    case Some(Grant(bytes, Some(end))) => limit == if now < end then included + bytes else included
  }

  lemma FreeLimitExactly(included: int, grant: Option<Grant>, now: int)
    ensures IsFreeLimit(included + GrantedBytes(grant, now), included, grant, now)
  {}

  /** The limit is the bytes of one live row, or the included bytes with the unexpired grant:
      never a sum of rows, and never a row that has lapsed. */
  lemma LimitIsOneRowOrFree(rows: seq<Row>, account: string, listed: seq<nat>, owner: Option<Ownership>, now: int,
                            included: int, grant: Option<Grant>)
    requires IsListing(rows, account, listed) && InTable(rows, listed)
    ensures var n := Resolve(rows, listed, owner, now);
            var limit := EffectiveLimit(included, grant, n, now);
            if n.Some? && n.value.owner.Some? && n.value.purchased > 0 && n.value.blocks > 0 then
              exists i :: 0 <= i < |rows| && LiveFor(rows[i], account, now) && limit == rows[i].bytes
            else IsFreeLimit(limit, included, grant, now)
  {
    FreeLimitExactly(included, grant, now);
    hide LiveFor, Resolve;
    ResolverAgreesWithLedger(rows, account, listed, owner, now);
  }

  // ----- accounts without a live row -----

  /** No row of the account was created later. */
  ghost predicate IsNewest(rows: seq<Row>, account: string, i: nat) {
    && i < |rows| && rows[i].account == account
    && forall j :: 0 <= j < |rows| && rows[j].account == account ==> rows[j].createdAt <= rows[i].createdAt
  }

  /** A row that is not live: past due when delinquent, else its status, where a grant that never
      had an end is pending and one whose end has passed expired. */
  predicate IsLapsed(status: AccountStatus, r: Row) {
    match r.status
    case Delinquent => status == PastDue
    case Active => status == Lapsed(if r.periodEnd.None? then Pending else Expired)
    case Reactivated => status == Lapsed(if r.periodEnd.None? then Pending else Expired)
    case GracePeriod => status == Lapsed(if r.periodEnd.None? then Pending else Expired)
    case _ => status == Lapsed(r.status)
  }

  lemma LapsedExactly(r: Row, account: string, now: int)
    requires r.account == account && !LiveFor(r, account, now)
    ensures IsLapsed(LapsedStatus(r, now), r)
  {}

  lemma LastIsNewest(rows: seq<Row>, account: string, listed: seq<nat>)
    requires IsListing(rows, account, listed) && listed != []
    ensures IsNewest(rows, account, listed[|listed| - 1])
  {
    var last := listed[|listed| - 1];
    forall j | 0 <= j < |rows| && rows[j].account == account
      ensures rows[j].createdAt <= rows[last].createdAt
    {
      var k :| 0 <= k < |listed| && listed[k] == j;
    }
  }

  /** Without a live row the account owns nothing, and its newest row says why. */
  lemma NewestRowExplains(rows: seq<Row>, account: string, listed: seq<nat>, owner: Option<Ownership>, now: int)
    requires IsListing(rows, account, listed) && InTable(rows, listed)
    requires forall i :: 0 <= i < |rows| ==> !LiveFor(rows[i], account, now)
    ensures match Resolve(rows, listed, owner, now)
            case None => forall i :: 0 <= i < |rows| ==> rows[i].account != account
            case Some(n) =>
              && n.owner.None? && n.purchased == 0 && n.blocks == 0 && !n.conflict
              && exists i: nat :: IsNewest(rows, account, i) && IsLapsed(n.status, rows[i])
  {
    hide Chosen, LapsedStatus, LiveFor, Live, IsNewest, IsLapsed;
    LiveForIsLive(rows, account, now);
    NothingPicked(listed, LiveTest(rows, now));
    if listed != [] {
      var last := listed[|listed| - 1];
      LastIsNewest(rows, account, listed);
      LapsedExactly(rows[last], account, now);
    }
  }

  // ----- over every run of the ledger -----

  ghost predicate Counted(rows: seq<Row>) {
    forall i :: 0 <= i < |rows| ==> rows[i].quantity >= 1 && rows[i].bytes >= 0
  }

  lemma MovedKeepsCounts(before: Row, after: Row, op: Op, now: int)
    requires Moved(before, after, op, now) && before.quantity >= 1 && before.bytes >= 0
    requires op.ReconcileOp? ==> WellFormed(op.q.update)
    requires op.UpsertOp? ==> WellFormed(op.u)
    ensures after.quantity >= 1 && after.bytes >= 0
  {}

  lemma AcceptedIsWellFormed(rows: seq<Row>, op: Op, now: int)
    requires Attempt(rows, op, now).Ok?
    ensures op.ReconcileOp? ==> WellFormed(op.q.update)
    ensures op.UpsertOp? ==> WellFormed(op.u)
  {
    hide WellFormed, OwnerRefuses, Swept, Superseded, GoogleWritten, OlderEvent, Live, OtherLive, SameOriginal, Grants,
      Ended;
  }

  lemma StepKeepsCounted(rows: seq<Row>, op: Op, now: int)
    requires UniquePurchases(rows) && Counted(rows)
    ensures Counted(Step(rows, op, now))
  {
    hide Moved, Attempt, Step, UniquePurchases;
    StepIsAccepted(rows, op, now);
    if Attempt(rows, op, now).Ok? {
      AcceptedIsWellFormed(rows, op, now);
      forall i | 0 <= i < |rows|
        ensures Step(rows, op, now)[i].quantity >= 1 && Step(rows, op, now)[i].bytes >= 0
      {
        MovedKeepsCounts(rows[i], Step(rows, op, now)[i], op, now);
      }
    }
  }

  lemma {:induction false} RunKeepsCounted(rows: seq<Row>, ops: seq<Timed<Op>>)
    requires UniquePurchases(rows) && UniqueOriginals(rows) && Counted(rows)
    ensures Counted(Run(rows, ops))
    decreases |ops|
  {
    hide Step, UniquePurchases, UniqueOriginals, Counted;
    if ops != [] {
      StepKeepsCounted(rows, ops[0].op, ops[0].now);
      StepKeepsKeys(rows, ops[0].op, ops[0].now);
      RunKeepsCounted(Step(rows, ops[0].op, ops[0].now), ops[1..]);
    }
  }

  /** The limit an account has after any run, read at any time from the last clock reading on,
      whatever the ownership table says: the bytes of its live row if it has one that carries
      bytes, else the included bytes and the unexpired grant. No conflict is ever reported. */
  lemma RunDecidesLimit(ops: seq<Timed<Op>>, start: int, now: int, account: string, listed: seq<nat>,
                        owner: Option<Ownership>, included: int, grant: Option<Grant>)
    requires ClockFrom(start, ops) && ClockEnd(start, ops) <= now
    requires IsListing(Run([], ops), account, listed) && InTable(Run([], ops), listed)
    ensures var rows := Run([], ops);
            var n := Resolve(rows, listed, owner, now);
            var limit := EffectiveLimit(included, grant, n, now);
            && (n.Some? ==> !n.value.conflict)
            && (forall i :: 0 <= i < |rows| && LiveFor(rows[i], account, now) ==>
                  if rows[i].bytes > 0 then limit == rows[i].bytes else IsFreeLimit(limit, included, grant, now))
            && ((forall i :: 0 <= i < |rows| ==> !LiveFor(rows[i], account, now)) ==>
                  IsFreeLimit(limit, included, grant, now))
  {
    FreeLimitExactly(included, grant, now);
    assert UniquePurchases([]) && UniqueOriginals([]);
    LiveForIsLive(Run([], ops), account, now);
    hide Step, Live, LiveFor, Resolve, Run, UniquePurchases, UniqueOriginals, ClockFrom, ClockEnd, IsListing,
      IsFreeLimit, GrantedBytes;
    var rows := Run([], ops);
    RunKeepsOneLive([], start, ops, now);
    RunKeepsCounted([], ops);
    ResolverAgreesWithLedger(rows, account, listed, owner, now);
    ConflictMeansTwoLive(rows, account, listed, owner, now);
  }

  /** Under any clock at all: after any run an account with only Play rows reports no conflict. */
  lemma GoogleRowsNeverConflict(ops: seq<Timed<Op>>, account: string, listed: seq<nat>, owner: Option<Ownership>,
    now: int)
    requires IsListing(Run([], ops), account, listed) && InTable(Run([], ops), listed)
    requires forall i :: 0 <= i < |Run([], ops)| && Run([], ops)[i].account == account ==>
               Run([], ops)[i].provider == GooglePlay
    ensures var n := Resolve(Run([], ops), listed, owner, now); n.Some? ==> !n.value.conflict
  {
    var rows := Run([], ops);
    hide Resolve, IsListing, Run, UniquePurchases, UniqueOriginals, SupersededIdle, LinksResolve, Acyclic;
    ReachableIsSound(ops);
    ConflictMeansTwoLive(rows, account, listed, owner, now);
    forall i | 0 <= i < |rows| && LiveFor(rows[i], account, now)
      ensures GoogleGrant(rows[i], account)
    {}
  }

  /** A granting reconcile with a future end decides what the account is told at once. */
  lemma ReconcileThenResolve(rows: seq<Row>, q: GoogleRequest, now: int, listed: seq<nat>, owner: Option<Ownership>)
    requires UniquePurchases(rows) && OneLive(rows, now) && Reconciled(rows, q, now).Ok?
    requires Grants(q.update.status) && q.update.periodEnd.Some? && q.update.periodEnd.value > now
    requires var after := Reconciled(rows, q, now).value.0;
             IsListing(after, q.account, listed) && InTable(after, listed)
    ensures var (after, outcome) := Reconciled(rows, q, now).value;
            var n := Resolve(after, listed, owner, now);
            && n.Some? && n.value.owner == Some(outcome.id) && n.value.purchased == q.update.bytes && !n.value.conflict
            && n.value.status == if q.update.status == GracePeriod then InGrace else InForce
  {
    var (after, outcome) := Reconciled(rows, q, now).value;
    assert after == Step(rows, ReconcileOp(q), now);
    StepKeepsOneLive(rows, ReconcileOp(q), now);
    GrantingReconcileIsSole(rows, q, now);
    assert GoogleGrant(after[outcome.id], q.account);
    assert LiveFor(after[outcome.id], q.account, now);
    LiveForIsLive(after, q.account, now);
    hide Step, Resolve, IsListing, Reconciled, LiveFor, Live, GoogleGrant, UniquePurchases;
    ResolverAgreesWithLedger(after, q.account, listed, owner, now);
    ConflictMeansTwoLive(after, q.account, listed, owner, now);
  }
}
