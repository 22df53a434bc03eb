# Verified models of the vault backend

A Dafny 4.11 model of the parts of the vault backend whose correctness does not show from reading
one function: the storage entitlement ledger, the crypto send-draft protocol and its wallet lock,
the hand-written Keccak and Monero base 58 code, the binding of a signed Ethereum transaction to
its draft, the replay cache of the billing bridge, the expiry alert table, and three small
algorithms with exact specifications. `dafny verify dfyconfig.toml` checks everything.

How the code is modelled:

- A database transaction is one atomic step under one clock reading; a refusal or an exception
  leaves the state as it was. Every state-changing call is a method of a class over its table
  (`Ledger`, `DraftStore`, `LockTable`, `AlertTable`, `NonceReplayCache`), and its `ensures` ties
  the whole new state to a step function. Theorems about runs are proved of those step functions,
  for any sequence of calls, accepted or refused.
- In-place array code keeps its arrays and loops; values computed from values are functions.
- Clock readings, fresh tokens and ids, keyed hashes and signature recovery are parameters.

The files, by component:

- Ledger: `billing_ledger.dfy` (rows, the four transactions, the owner trigger),
  `ledger_acceptance.dfy` (when each call is accepted or refused), `ledger_runs.dfy` (runs),
  `storage_limit.dfy` (resolver and effective limit), `google_selection.dfy` (catalog, line item
  selection, the request it becomes), `selection_decisions.dfy` (the answer for every list of
  lines), `play_storage.dfy` (from a payload to the limit).
- Drafts: `drafts.dfy` (the store), `draft_runs.dfy` (racing workers), `draft_decisions.dfy` (when
  the calls succeed), `wallet_lock.dfy`.
- Monero: `lane_bits.dfy` (rotation of a lane), `fips202.dfy` (FIPS 202 as the reference),
  `fips_bits.dfy` (its steps on single bits), `monero_keccak.dfy`, `monero_base58.dfy`, `monero_address.dfy`.
- Signed transactions: `rlp.dfy`, `evm_signed_tx.dfy`, `evm_spelling.dfy` (all spellings, all answers).
- `replay_cache.dfy`, `expiry_alerts.dfy`, `alert_contents.dfy` (what a rebuild leaves),
  `command_tokens.dfy`, `versioned_names.dfy`, `format_units.dfy`.
- Shared: `options.dfy`, `timelines.dfy` (calls with their clock readings), `numerals.dfy`,
  `byte_strings.dfy`, `text.dfy`, `decimal_text.dfy`.

Where the code does not do what its documentation or its callers suggest, the code is modelled,
with the exact condition under which the expected property holds:

- A Play subscription with a deferred downgrade always passes the ledger's lower-tier check, but a
  request is refused as malformed when the subscription's own state does not grant, for example on
  hold or paused (`GoogleSelection.VerifiedRequestIsWellFormed`, `ScheduledStateGrants`,
  `DeferredOnHoldIsRefused`, `DeferredOnHoldExists`).
- A signed request can be accepted twice within the capacity of the replay cache. It cannot exactly
  when it was stamped no later than the clock that first accepted it; any lead, of one second or
  sixty, lets it in again (`ReplayCache.AcceptedOnceExactly`, `AheadOfClockAcceptedTwice`).
- Consuming a draft asks neither the lease nor the draft's expiry. Over any run a worker's consume
  succeeds exactly when nothing released, claimed or consumed the draft since its claim, so a
  worker whose lease and draft have both lapsed still consumes
  (`DraftRuns.ConsumeSucceedsExactly`, `LapsedWorkerStillConsumes`).
- A ledger update without an event time is never stale and forgets the row's event time, after
  which an older event is accepted (`LedgerRuns.WrittenEventTime`, `UntimedUpdateLetsOlderEventIn`).
  No present caller makes such an update: both set an event time
  (vault_ai_backend/google_play_billing.py:818, vault_ai_backend/apple_billing.py:364-368).
- Integer fields of a signed transaction may carry leading zero bytes, and an empty list reads as
  zero, so one draft has many accepted texts. Two of them agree on the drafted fields when these
  are canonical, that is, when they are the minimal encodings of the draft's own integers
  (`EvmSignedTx.CanonicalExactly`, `VerifiedDifferOnlyInSignature`); without that they need not
  (`PaddedTextVerified`, `TwoTextsForOneDraft`, `ZeroHasThreeSpellings`).
- The unique indexes of the alert table are partial
  (vault_ai_backend/migrations/versions/0001_baseline_vaultid.py:946-965) while the conflict
  clauses of the upsert carry no predicate, so none of them has an arbiter index
  (`ExpiryAlerts.ArbiterNeedsPredicate`) and every upsert of an acceptable spec raises. As written,
  a builder or a rebuild therefore commits exactly when none of its specs is acceptable, and then
  it only deletes (`BareBuilderOnlyDeletes`, `BareRebuildOnlyDeletes`); no run ever adds an alert
  (`BareRunAddsNothing`, `BareRunStaysEmpty`); incremental building and a rebuild agree under the
  condition of `IncrementalAsWritten`, and `WrittenClausesDiverge` is an input on which they do not.
  With clauses that repeat the predicates of the indexes, incremental building equals a rebuild
  exactly when no alert is left over from a source no builder ran for (`IncrementalIsRebuild`).
- The proposed names of a duplicate upload stay in one series: a proposed "name (n).ext" is split
  back into the same base and extension, exactly when the base does not end in a number of its own
  and has no line feed (`VersionedNames.NumberedSplitsBack`).
- `format_units` scales only for a positive number of decimals.

Lemmas without a row say field by field what each handler of the ledger leaves on the rows:
`ReconcileSweepsLapsed`, `ReconcileSupersedes`, `ReconcileWritesUpdate` and `EventEndsItsRow` in
`ledger_runs.dfy`.

## Model

| member | source | states |
|---|---|---|
| BillingLedger.Ledger.CheckRequest | vault_ai_backend/billing_entitlements.py:484-604 | The worker's test (exactly one other live row, and it is the linked one), made after the lapse sweep, gives the refusal that LedgerAcceptance.RefusalExactly characterises on the table as it was before the sweep |
| BillingLedger.Ledger.Reconcile | vault_ai_backend/billing_entitlements.py:467-748 | Sweep, supersede, write and trigger in sequence give the one-shot table that says of each row whether it is written, superseded or swept; a refusal changes nothing; both unique indexes keep holding |
| BillingLedger.Ledger.Upsert | vault_ai_backend/billing_entitlements.py:305-464 | Whichever matching row the query fetches: that row is rewritten or a new one added, or the call is refused (Play purchase, other account, older event, key collision, second live row) without change, and the new table does not depend on which was fetched; both unique indexes keep holding |
| BillingLedger.AnyFetchWillDo | vault_ai_backend/billing_entitlements.py:325-343 | When two rows match, every choice of the unordered query is refused; when a call is accepted there was one row to fetch, and the result is the same |
| BillingLedger.Ledger.Revoke | vault_ai_backend/billing_entitlements.py:751-858 | Exactly the bound row is revoked and cut short, or one of six refusals leaves the table as it was |
| BillingLedger.Ledger.Terminalize | vault_ai_backend/billing_entitlements.py:890-992 | Exactly the bound row becomes terminal and is cut short, or the call is refused without change |
| BillingLedger.LinkageTest | vault_ai_backend/billing_entitlements.py:558-604 | Counting live rows after the sweep and comparing the single one with the linked purchase means: some other live row is not the linked one |
| BillingLedger.StagesCompose | vault_ai_backend/billing_entitlements.py:558-720 | The statement-by-statement updates compose to the one-shot table, and the sweep does not change whether the presented row was live |
| BillingLedger.ReconciledKeepsKeys | vault_ai_backend/billing_entitlements.py:635-720 | A reconcile keeps purchase ids and original transaction ids unique per provider |
| LedgerAcceptance.RefusalExactly | vault_ai_backend/billing_entitlements.py:484-604 | Which refusal the checks give, cause by cause in their order, each cause said of what some row holds or no row holds: malformed, presented elsewhere, past event or replaced, linked elsewhere, another live row that is not linked, original transaction taken |
| LedgerAcceptance.ReconcileDecides | vault_ai_backend/billing_entitlements.py:467-748 | For each of the six refusals and for acceptance the exact condition on request, rows and clock, the owner trigger's included: a reconcile is accepted if and only if none of the causes holds |
| LedgerAcceptance.LinkedChangeIsAccepted | vault_ai_backend/billing_entitlements.py:591-632 | A granting update that links the account's only live purchase is always accepted, adds the new purchase, and leaves the linked one superseded and without a grant |
| LedgerAcceptance.UpsertDecides | vault_ai_backend/billing_entitlements.py:305-464 | For each refusal of an upsert and for acceptance the exact condition on the fetched row, the other rows and the clock |
| LedgerAcceptance.EventDecides | vault_ai_backend/billing_entitlements.py:779-836 | For each refusal of a revoke or terminalize and for acceptance the exact condition on the named purchase |
| LedgerRuns.StepIsAccepted | vault_ai_backend/billing_entitlements.py:305-992 | Row by row, what an accepted call makes of every row, given unique keys, with the checks the written row has passed; a refused call changes nothing |
| LedgerRuns.GrantingReconcileIsSole | vault_ai_backend/billing_entitlements.py:558-632 | After an accepted granting reconcile the written row is the account's only granting Play row, with the update's bytes, status and end |
| LedgerRuns.StepKeepsOneGoogleGrant | vault_ai_backend/billing_entitlements.py:558-632 | No call, under any clock, gives an account a second granting Play row: the partial unique index can never fire |
| LedgerRuns.StepKeepsAcyclic | vault_ai_backend/billing_entitlements.py:533-538 | No call closes a cycle of superseded-by links, because a new link ends at a row that has none |
| LedgerRuns.StepKeepsLinksResolved | vault_ai_backend/billing_entitlements.py:606-632 | Every superseded-by link names a purchase of the table that belongs to the same account |
| LedgerRuns.RunKeepsSound | vault_ai_backend/billing_entitlements.py:305-992 | Over any run and any clock: unique keys, at most one granting Play row an account, superseded rows never grant, links resolve inside the account and never form a cycle |
| LedgerRuns.ReachableIsSound | vault_ai_backend/billing_entitlements.py:305-992 | The same for every table reachable from the empty one |
| LedgerRuns.SupersededNeverGrants | vault_ai_backend/billing_entitlements.py:533-538 | Once replaced, a purchase stays replaced and non-granting in every later state |
| LedgerRuns.OtherAccountsUntouched | vault_ai_backend/billing_entitlements.py:305-992 | A call for one account leaves every row of other accounts exactly as it was, never moves a row to another account and adds rows only to its own |
| LedgerRuns.EventTimesNeverGoBack | vault_ai_backend/billing_entitlements.py:347-354 | When calls carry event times, no row's last event time ever moves backwards |
| LedgerRuns.WrittenEventTime | vault_ai_backend/billing_entitlements.py:526-532 | A written row's event time is kept or advanced if and only if the update carries a time or the row had none |
| LedgerRuns.UntimedUpdateLetsOlderEventIn | vault_ai_backend/billing_entitlements.py:347-354 | A run in which an older event is refused, an update without an event time erases the stored one, and the older event is then accepted |
| LedgerRuns.BoundForEver | vault_ai_backend/billing_entitlements.py:510-526 | The row that holds a purchase holds it for ever with the same account; for Apple, given that a transaction id determines its original transaction id |
| LedgerRuns.OtherAccountIsRefused | vault_ai_backend/billing_entitlements.py:790-797 | Presenting a held purchase for another account is refused and changes nothing |
| LedgerRuns.OwnerAllowed | vault_ai_backend/migrations/versions/0046_store_only_billing.py:145-188 | A row that a call makes live has no other live row of its account beside it |
| LedgerRuns.RunKeepsOneLive | vault_ai_backend/migrations/versions/0046_store_only_billing.py:174-188 | With a clock that does not run backwards an account never has two live rows, across both stores |
| LedgerRuns.RetryOnlySweeps | vault_ai_backend/billing_entitlements.py:467-748 | An accepted reconcile delivered again at any later or earlier clock is accepted and reports no transition; a granting one leaves the table unchanged, another one only sweeps the account's rows that lapsed in between |
| LedgerRuns.RetryChangesNothing | vault_ai_backend/billing_entitlements.py:467-748 | At the clock of the first delivery the retry leaves the table unchanged whether it grants or not |
| LedgerRuns.EventRetryChangesNothing | vault_ai_backend/billing_entitlements.py:779-848 | A revoke or terminalize delivered again is accepted, reports no transition and leaves the table unchanged |
| LedgerRuns.UpsertWritesUpdate | vault_ai_backend/billing_entitlements.py:356-432 | The written row takes product, plan, quantity, bytes, status, end and event time of the update and keeps account, creation time and, when the update names none, the original transaction; unknown renewal keeps the flags; no other row changes |
| StorageLimit.ResolverAgreesWithLedger | vault_ai_backend/billing_entitlements.py:1124-1194 | Active or in grace exactly when the account has a live row; the answer is one live row, the recorded owner whenever that is live |
| StorageLimit.ConflictMeansTwoLive | vault_ai_backend/billing_entitlements.py:1176-1184 | A conflict is reported exactly when two different rows of the account are live |
| StorageLimit.OldestLiveOwns | vault_ai_backend/billing_entitlements.py:1110-1137 | Without a recorded owner no live row is older than the chosen one |
| StorageLimit.OldestOfStoreOwns | vault_ai_backend/billing_entitlements.py:1137-1156 | When the recorded owner is not live, the oldest live row of its store is chosen, even over an older one of the other store |
| StorageLimit.NewestRowExplains | vault_ai_backend/billing_entitlements.py:1186-1210 | Without a live row nothing is owned and the newest row gives the status: past due when delinquent, pending when its grant never had an end, expired when that has passed, else its own |
| StorageLimit.LimitIsOneRowOrFree | vault_ai_backend/billing.py:311-432 | The effective limit is the bytes of one live row, or the included bytes, plus the grant exactly while it has no end or its end is ahead: never a sum of rows, never a lapsed row |
| StorageLimit.RunKeepsCounted | vault_ai_backend/billing_entitlements.py:99-109 | In every reachable ledger each row has a positive quantity and no negative bytes |
| StorageLimit.RunDecidesLimit | vault_ai_backend/billing.py:311-432 | After any run with a proper clock, whatever the ownership table says: no conflict, and the limit is the live row's bytes if it carries any, else the included bytes and a grant that has no end or one ahead |
| StorageLimit.GoogleRowsNeverConflict | vault_ai_backend/billing_entitlements.py:1176-1184 | After any run from the empty ledger, its clock running backwards or not, an account with only Play rows never reports a conflict, whenever it is asked |
| StorageLimit.ReconcileThenResolve | vault_ai_backend/billing_entitlements.py:1137-1184 | Right after an accepted granting reconcile with a future end the resolver reports exactly that row, its bytes and its status |
| GoogleSelection.RankOrdersBytes | vault_ai_backend/google_play_billing.py:84-133 | Among allowlisted tiers a lower rank is the same as fewer bytes |
| GoogleSelection.CatalogFinds | vault_ai_backend/google_play_billing.py:139-144 | Every tier is found under its own product and plan: no two entries share a product |
| GoogleSelection.SelectEntitlement | vault_ai_backend/google_play_billing.py:543-649 | Parsing line by line, splitting by expiry and deciding gives the selection, with the first bad line's error |
| GoogleSelection.SelectionIsSound | vault_ai_backend/google_play_billing.py:543-649 | A selection names one allowlisted tier of one of the lines, the only line in force if any is; what is scheduled is allowlisted, strictly lower in rank and bytes and starts when the current line ends; what it replaces is allowlisted |
| GoogleSelection.OrderDoesNotMatter | vault_ai_backend/google_play_billing.py:566-619 | With a line in force or pending, reordering usable lines changes nothing, errors included; with unusable ones a success stays the same and a failure never turns into one |
| GoogleSelection.LatestEndsLast | vault_ai_backend/google_play_billing.py:621-627 | With only ended lines the chosen one ended last, and first among those on a tie |
| GoogleSelection.DowngradeIsSelected | vault_ai_backend/google_play_billing.py:577-610 | Every deferred downgrade to a lower tier is selected, effective at the current line's end |
| GoogleSelection.SingleLineIsSelected | vault_ai_backend/google_play_billing.py:566-649 | One usable line that defers and replaces nothing is selected as it is, in force, pending or ended |
| SelectionDecisions.LineErrorExactly | vault_ai_backend/google_play_billing.py:520-566 | A line is unusable, with its error, exactly when it is no item, names no allowlisted product and plan, or is not an auto-renewing plan |
| SelectionDecisions.FirstBadLineIsReported | vault_ai_backend/google_play_billing.py:543-566 | The first unusable line decides the error whatever the others are |
| SelectionDecisions.SeveralAheadAreRefused | vault_ai_backend/google_play_billing.py:566-576 | Two usable lines in force are refused as several current tiers |
| SelectionDecisions.OneAheadIsSelected | vault_ai_backend/google_play_billing.py:577-649 | With one usable line in force, the result for every deferral and every other line: what is selected and scheduled, or which of seven errors |
| SelectionDecisions.PendingMustBeAlone | vault_ai_backend/google_play_billing.py:611-649 | With nothing in force a pending line is selected exactly when it is the only line |
| SelectionDecisions.EndedIsSelected | vault_ai_backend/google_play_billing.py:621-649 | With only ended lines the first of those that ended last is selected, unless what it replaces is not allowed |
| SelectionDecisions.RequestDecides | vault_ai_backend/google_play_billing.py:652-838 | Each refusal of the verification and its acceptance with their exact conditions, and where every field of the request comes from |
| GoogleSelection.NormalizedGrantsExactly | vault_ai_backend/billing_entitlements.py:185-210 | An ended line never grants; otherwise exactly the active, in-grace and canceled states do |
| GoogleSelection.NormalizedStatusExactly | vault_ai_backend/billing_entitlements.py:185-210 | For each status the exact provider states and clock it comes from |
| GoogleSelection.VerifiedRequestIsWellFormed | vault_ai_backend/billing_entitlements.py:484-495 | A verified payload always passes the size, identity and lower-tier checks; it is refused as malformed exactly when no account is named, it replaces itself, or it schedules without granting |
| GoogleSelection.ScheduledStateGrants | vault_ai_backend/billing_entitlements.py:185-210 | With a scheduled tier the status grants exactly in the active, in-grace and canceled states while the current line has not ended |
| GoogleSelection.DeferredOnHoldIsRefused | vault_ai_backend/billing_entitlements.py:487-490 | A subscription on hold or paused with a deferred downgrade is verified and then refused by the ledger |
| GoogleSelection.DeferredOnHoldExists | vault_ai_backend/google_play_billing.py:652-744 | For every tier and every lower one there is an on-hold payload, accepted by the verifier, whose request names just these two as the current and the scheduled tier |
| GoogleSelection.AppliedRowIsCatalogTier | vault_ai_backend/google_play_billing.py:770-838 | The row an applied payload writes is an allowlisted product and plan with the catalog's own bytes, under the presented token and account |
| GoogleSelection.PayloadBelongsToOneAccount | vault_ai_backend/google_play_billing.py:676-685 | No payload is accepted for two accounts, as long as the account hash does not collide |
| PlayStorage.StateIsReported | vault_ai_backend/billing_entitlements.py:185-210 | After an applied payload with a future end the resolver names the written row in grace exactly for the in-grace state, in force exactly for the active and canceled ones, with the tier's bytes, and else does not name it |
| PlayStorage.PurchaseYieldsItsBytes | vault_ai_backend/google_play_billing.py:770-838 | A first purchase, or one that replaces the account's only live one, is verified, applied and makes the tier's bytes the account's limit at once |
| Drafts.PassesSweep | vault_ai_backend/crypto_mainnet_control_store.py:93-136 | The pass over a hash followed by the pass over the vault expires what one sweep of the vault would |
| Drafts.DraftStore.ExpireAbandoned | vault_ai_backend/crypto_mainnet_control_store.py:93-136 | Exactly the unsigned, unheld, unexpired drafts in scope expire now |
| Drafts.DraftStore.RegisterDraft | vault_ai_backend/crypto_mainnet_control_store.py:144-251 | One plaintext registration: sweep, blocking query and insert, all undone when refused; on Solana and TRON the query alone |
| Drafts.DraftStore.RegisterSealed | vault_ai_backend/crypto_mainnet_control_store.py:254-395 | The same for a draft that names its sender only by a lookup hash |
| Drafts.DraftStore.ClaimDraft | vault_ai_backend/crypto_mainnet_control_store.py:482-568 | A claim is granted with its lease or refused for the reason the code gives, without change |
| Drafts.DraftStore.ReleaseClaimedDraft | vault_ai_backend/crypto_mainnet_control_store.py:571-611 | Only the claim's own token releases an unconsumed draft |
| Drafts.DraftStore.ConsumeClaimedDraft | vault_ai_backend/crypto_mainnet_control_store.py:614-662 | Only the claim's own token consumes, once, leaving the token on the row |
| Drafts.DraftStore.RecordBroadcastOutcome | vault_ai_backend/crypto_mainnet_control_store.py:665-742 | Only the claim's own token records an allowed outcome on a consumed draft without one |
| DraftRuns.OneLiveDraft | vault_ai_backend/crypto_mainnet_control_store.py:186-245 | With a clock that does not run backwards: at most one unexpired, not explicitly rejected draft per (network, lower-case sender) and per (vault, network, sender hash); on Solana and TRON at most one unexpired unconsumed plaintext draft per (network, sender) |
| DraftRuns.RegistrationRefusedExactly | vault_ai_backend/crypto_mainnet_control_store.py:186-224 | The expiry pass removes no obstacle: an EVM registration is refused exactly when a competing unexpired draft is held, or signed and not known rejected |
| DraftDecisions.RegistrationDecides | vault_ai_backend/crypto_mainnet_control_store.py:144-395 | On every chain: refused exactly when the id is taken or a draft of the same spender is in flight or, off EVM, unconsumed; accepted, it adds the fresh draft, ends exactly the abandoned drafts on EVM and changes no other |
| DraftRuns.TokenWasClaimed | vault_ai_backend/crypto_mainnet_control_store.py:539-556 | A token on a draft was put there by an earlier successful claim of that draft |
| DraftRuns.DraftsOnlyAdvance | vault_ai_backend/crypto_mainnet_control_store.py:614-662 | Drafted fields never change, the expiry only comes forward, and after consumption the transaction id, its time and the consuming token are fixed, then the outcome |
| DraftRuns.ConsumedAtMostOnce | vault_ai_backend/crypto_mainnet_control_store.py:636-655 | No two calls of a run both consume one draft, on any of the three chains |
| DraftRuns.RecordedAtMostOnce | vault_ai_backend/crypto_mainnet_control_store.py:708-735 | No two calls of a run both record an outcome for one draft |
| DraftRuns.OnlyTheConsumerRecords | vault_ai_backend/crypto_mainnet_control_store.py:708-735 | An outcome is recorded only with the token that consumed the draft, and later |
| DraftRuns.ConsumedBySomeCall | vault_ai_backend/crypto_solana_control_store.py:390-422 | Every consumed draft carries the token and the transaction id of an earlier call that consumed it |
| DraftRuns.LostClaimIsUseless | vault_ai_backend/crypto_mainnet_control_store.py:587-602 | After a release or a takeover the old token never again releases, consumes or records, on any draft |
| DraftRuns.ReleaseLoses | vault_ai_backend/crypto_mainnet_control_store.py:587-602 | A successful release is a loss of the claim |
| DraftRuns.TakeoverLoses | vault_ai_backend/crypto_tron_control_store.py:272-326 | Another claim of the draft is such a loss |
| DraftRuns.ClaimHoldsThroughLease | vault_ai_backend/crypto_mainnet_control_store.py:542-553 | No other claim of the draft succeeds before the lease ends unless it was released |
| DraftDecisions.ClaimDecides | vault_ai_backend/crypto_mainnet_control_store.py:482-568 | Each refusal of a claim and its success with their exact conditions: granted if and only if the draft is there, of that vault and network, unconsumed, unexpired, and unclaimed or past its lease |
| DraftDecisions.ClaimIsLast | vault_ai_backend/crypto_mainnet_control_store.py:539-602 | Over any run the claim on a draft is that of the last successful claim not released since |
| DraftDecisions.ClaimSucceedsExactly | vault_ai_backend/crypto_mainnet_control_store.py:539-553 | Over any run a claim succeeds if and only if the draft is there, of that vault and network and unexpired, no call consumed it, and the lease of the last unreleased claim is over |
| DraftDecisions.LapsedClaimIsTakenOver | vault_ai_backend/crypto_mainnet_control_store.py:539-553 | Once the lease of a crashed worker is over another worker's claim of the open draft succeeds, and with a token of its own displaces the first |
| DraftDecisions.ReleaseSucceedsExactly | vault_ai_backend/crypto_mainnet_control_store.py:571-611 | Over any run a worker's release succeeds if and only if nothing released, claimed or consumed the draft since its claim |
| DraftDecisions.RecordSucceedsExactly | vault_ai_backend/crypto_mainnet_control_store.py:665-742 | Over any run an outcome offered with the consuming token is recorded if and only if none was recorded since the consume |
| DraftRuns.ConsumeSucceedsExactly | vault_ai_backend/crypto_mainnet_control_store.py:614-662 | Over any run a worker's consume succeeds if and only if no release, claim or consume of the draft took effect since its claim: neither the lease nor the draft's expiry counts |
| DraftRuns.LapsedWorkerStillConsumes | vault_ai_backend/crypto_mainnet_control_store.py:643-652 | A run with a proper clock and fresh tokens in which a lapsed worker consumes an expired draft after its wallet registered another |
| WalletLock.LockTable.AcquireWalletLock | vault_ai_backend/crypto_mainnet_control_store.py:849-899 | The slot is granted with its lease, or refused without change while an unexpired lock stands |
| WalletLock.LockTable.ReleaseWalletLock | vault_ai_backend/crypto_mainnet_control_store.py:902-933 | The slot is freed only with its own token |
| WalletLock.GrantsAreApart | vault_ai_backend/crypto_mainnet_control_store.py:872-894 | Two grants of one slot are more than a lease apart unless the first holder gave it up |
| WalletLock.HeldThroughLease | vault_ai_backend/crypto_solana_control_store.py:535-573 | Through the end of the lease the slot is the holder's and no other acquire succeeds |
| WalletLock.AcquireSucceedsExactly | vault_ai_backend/crypto_mainnet_control_store.py:849-899 | Over any run an acquire succeeds if and only if it names an address and the lease of the call that holds the slot, if one does, is over; EVM addresses share a slot whatever their letter case |
| WalletLock.ReleaseSucceedsExactly | vault_ai_backend/crypto_mainnet_control_store.py:902-933 | Over any run the holder's release succeeds if and only if the slot was neither released nor taken over since |
| WalletLock.ReleaseIsOwnerSafe | vault_ai_backend/crypto_mainnet_control_store.py:910-927 | A release with another token changes no lock, one with the right token removes that lock only |
| WalletLock.StaleTokenReleasesNothing | vault_ai_backend/crypto_tron_control_store.py:537-561 | Once another worker was granted the slot, the earlier token never releases it |
| WalletLock.LockWasGranted | vault_ai_backend/crypto_mainnet_control_store.py:872-894 | Every lock was granted by an earlier acquire with its token |
| MoneroKeccak.ThetaInPlace | vault_ai_backend/monero_address.py:37-45 | The column loops compute theta (FIPS 202, section 3.2.1) of the whole state |
| MoneroKeccak.RhoPi | vault_ai_backend/monero_address.py:47-52 | The combined rotation and move loop computes pi after rho (sections 3.2.2 and 3.2.3) |
| MoneroKeccak.ChiInPlace | vault_ai_backend/monero_address.py:54-60 | The row loop computes chi (section 3.2.4) |
| MoneroKeccak.RoundInPlace | vault_ai_backend/monero_address.py:38-62 | One turn of the round loop is theta, rho, pi, chi and iota in this order |
| MoneroKeccak.KeccakF1600 | vault_ai_backend/monero_address.py:37-62 | The whole in-place permutation is the 24-round Keccak-f[1600] |
| LaneBits.RotationShiftsBits | vault_ai_backend/monero_address.py:32-34 | Bit z of a rotated lane is bit z - n mod 64 of the lane, the index shift that sections 3.2.1 and 3.2.2 are written in |
| FipsBits.ThetaOnBits | vault_ai_backend/monero_address.py:37-45 | Bit z of lane (x, y) after theta is that bit with the parities of the columns (x - 1, z) and (x + 1, z - 1) (section 3.2.1) |
| FipsBits.RhoOnBits | vault_ai_backend/monero_address.py:47-52 | Bit z after rho is bit z less the lane's offset (section 3.2.2) |
| FipsBits.PiOnBits | vault_ai_backend/monero_address.py:47-52 | Lane (x, y) after pi is lane (x + 3y, x) (section 3.2.3) |
| FipsBits.ChiOnBits | vault_ai_backend/monero_address.py:54-60 | Each bit after chi is the bit with the product of its flipped right neighbour and the next one (section 3.2.4) |
| FipsBits.IotaOnBits | vault_ai_backend/monero_address.py:62-62 | Only the first lane takes the round constant's bits (section 3.2.5) |
| Fips202.RoundConstantsFromRegister | vault_ai_backend/monero_address.py:10-19 | The 24 round constants are the shift-register outputs of section 3.2.5 |
| Fips202.OffsetsFollowWalk | vault_ai_backend/monero_address.py:21-27 | The rotation offsets are those of the walk of section 3.2.2, which goes from (x, y) to (y, 2x + 3y mod 5) and gives out the triangular numbers mod 64 |
| Fips202.RhoWalkMeets | vault_ai_backend/monero_address.py:21-27 | The walk meets every lane but the first, so every offset is fixed by it |
| MoneroKeccak.PadLength | vault_ai_backend/monero_address.py:69-74 | The padding adds 1 to 136 bytes, ends on a block boundary and keeps the message in front |
| MoneroKeccak.PadInjective | vault_ai_backend/monero_address.py:69-74 | No two messages pad to the same bytes |
| MoneroKeccak.PadIsPad101 | vault_ai_backend/monero_address.py:69-74 | On bits the padding is pad10*1 (section 5.1) at rate 1088 |
| MoneroKeccak.XorBlockInPlace | vault_ai_backend/monero_address.py:75-80 | Laying a block over the first 17 lanes, little-endian |
| Fips202.BlockReadsBack | vault_ai_backend/monero_address.py:75-86 | Lanes are little-endian both ways: a block laid over the empty state is read back from it |
| MoneroKeccak.Keccak256Monero | vault_ai_backend/monero_address.py:65-87 | The byte loops compute the section 4 sponge at rate 136 on the padded message, truncated to 32 bytes |
| MoneroBase58.DecodeBlock | vault_ai_backend/monero_address.py:150-164 | The accumulator loop decodes one block or reports the first failing check |
| MoneroBase58.MoneroBase58Decode | vault_ai_backend/monero_address.py:167-178 | The block loop decodes the whole string or reports its first failure |
| MoneroBase58.BlocksFit | vault_ai_backend/monero_address.py:114-116 | Every block of up to eight bytes fits its characters, 256^8 in 58^11 included |
| MoneroBase58.DecodeInvertsEncode | vault_ai_backend/monero_address.py:150-178 | Decoding undoes the CryptoNote encoder on every non-empty byte string |
| MoneroBase58.AcceptedIsEncoded | vault_ai_backend/monero_address.py:150-178 | The accepted strings are exactly the encodings, each of what it decodes to |
| MoneroBase58.DecodeInjective | vault_ai_backend/monero_address.py:150-178 | Distinct accepted strings, of any lengths, decode to distinct bytes |
| MoneroBase58.AddressLengths | vault_ai_backend/monero_address.py:98-105 | Accepted strings of 95 and 106 characters are exactly those of 69 and 77 bytes |
| MoneroAddress.ValidRawIsPayload | vault_ai_backend/monero_address.py:191-215 | Decoded bytes are valid exactly when they are a payload of the kind's length and prefix followed by its own checksum |
| MoneroAddress.AddressAccepted | vault_ai_backend/monero_address.py:218-251 | A trimmed string is accepted as an address of a kind exactly when it encodes such a payload and checksum |
| Rlp.DecodeIsInverse | vault_ai_backend/evm_signed_tx_verify.py:162-175 | Strict decoding (Yellow Paper, Appendix B) accepts exactly the encodings, each as the item it encodes |
| EvmSignedTx.ChainIdRoundTrip | vault_ai_backend/evm_signed_tx_verify.py:111-116 | v = 35 + 2 * chain + parity (EIP-155) names its chain, and no other v names a positive chain; 27 and 28 name none and the other small values are refused as negative |
| EvmSignedTx.ListIsNotTyped | vault_ai_backend/evm_signed_tx_verify.py:128-138 | An encoded list is never taken for a typed transaction |
| EvmSignedTx.SignedTextDecodes | vault_ai_backend/evm_signed_tx_verify.py:141-225 | Encoding any nine fields and decoding the text gives the same nine fields, the chain of v and the recovered sender |
| EvmSignedTx.VerifiedExactly | vault_ai_backend/evm_signed_tx_verify.py:246-335 | Verified if and only if not typed, decoded, and every drafted field and the signer match: the empty-data exemption admits nothing more |
| EvmSignedTx.SignedTextVerified | vault_ai_backend/evm_signed_tx_verify.py:246-335 | The signing app's own text is verified exactly when it signs what was drafted |
| EvmSpelling.NormHexExactly | vault_ai_backend/evm_signed_tx_verify.py:85-108 | A text normalizes to the canonical one of some bytes exactly when it is their hexadecimal digits in either case, with a prefix of either case or none and white space around |
| EvmSpelling.SpellingDoesNotMatter | vault_ai_backend/evm_signed_tx_verify.py:141-225 | All spellings of one signed transaction get the same answer |
| EvmSpelling.SpelledTxDecides | vault_ai_backend/evm_signed_tx_verify.py:246-335 | A signed transaction in any spelling against a draft in any spelling: the first drafted field that differs is the reason reported, and with none the fields, the account and the hash of the signed bytes are handed back in canonical spelling |
| EvmSpelling.BytesDecide | vault_ai_backend/evm_signed_tx_verify.py:128-225 | Any spelled bytes: unsupported exactly when the first byte is below 0xc0, undecodable exactly when they are not the strict encoding of nine readable fields with a 20-byte destination or no signer is recovered |
| EvmSignedTx.CanonicalExactly | vault_ai_backend/evm_signed_tx_verify.py:262-335 | In every verified text the fields are canonical if and only if they are the minimal encodings of the draft's own nonce, gas price, gas limit and value, with byte-string data |
| EvmSignedTx.VerifiedDifferOnlyInSignature | vault_ai_backend/evm_signed_tx_verify.py:262-335 | Two texts verified for one draft with canonical fields share the six drafted fields, and are the same bytes when their signatures are |
| EvmSignedTx.PaddedTextVerified | vault_ai_backend/evm_signed_tx_verify.py:119-125 | A verified text stays verified with a zero byte put in front of any of its drafted integers, if the same account signed that one, and then carries different fields |
| EvmSignedTx.TwoTextsForOneDraft | vault_ai_backend/evm_signed_tx_verify.py:262-335 | For every transaction and each of its drafted integers there are a draft and a signer for which two texts that differ in that field are both verified |
| EvmSignedTx.ZeroHasThreeSpellings | vault_ai_backend/evm_signed_tx_verify.py:119-125 | A zero byte and even an empty list read as the same zero nonce as the canonical spelling |
| ReplayCache.NonceReplayCache.Claim | google_play_billing_bridge/protocol.py:48-60 | The two eviction loops agree with the unbounded log: refused exactly when one of the last capacity accepted nonces is the same and no older than the skew |
| ReplayCache.ForgottenExactly | google_play_billing_bridge/protocol.py:48-60 | A nonce is free again exactly when its acceptances all lie more than a minute or at least capacity acceptances back |
| ReplayCache.AcceptedLogGrows | google_play_billing_bridge/protocol.py:48-60 | Accepting by that rule keeps the log ordered and every entry of it acceptable when it was made |
| ReplayCache.AuthenticateRequest | google_play_billing_bridge/protocol.py:94-123 | Each of the five refusals before the cache has its exact condition; authenticated exactly when every check passes and the nonce was not seen recently; a failed check leaves the cache alone |
| ReplayCache.RepeatsAreSpaced | google_play_billing_bridge/protocol.py:48-60 | A nonce accepted again within 60 seconds has at least capacity acceptances in between |
| ReplayCache.RepeatNeedsTurnover | google_play_billing_bridge/protocol.py:52-60 | More: in between, capacity pairwise different other nonces were accepted in a row |
| ReplayCache.StampedRequestAcceptedOnce | google_play_billing_bridge/protocol.py:109-123 | A request stamped no later than the receiving clock is not accepted twice within the cache's capacity |
| ReplayCache.AheadOfClockAcceptedTwice | google_play_billing_bridge/protocol.py:109-123 | A request stamped ahead, by any lead the window allows, is accepted now and once more when its window is about to close, next to each other in the log and whatever the capacity |
| ReplayCache.AcceptedOnceExactly | google_play_billing_bridge/protocol.py:48-123 | In no log is a request accepted twice within the capacity if and only if it was stamped no later than the clock that first accepted it |
| ExpiryAlerts.SelectWindow | vault_ai_backend/expiry_engine.py:104-113 | The first wide enough window in ascending order is the least one of at least so many days |
| ExpiryAlerts.FewerDaysAreNoMilder | vault_ai_backend/expiry_engine.py:92-113 | For any descending windows fewer days left never give a milder severity, nor none where more days gave one |
| ExpiryAlerts.ArbiterNeedsPredicate | vault_ai_backend/migrations/versions/0001_baseline_vaultid.py:946-965 | A conflict clause has an arbiter among the four partial indexes exactly when it repeats the index predicate, whatever the source |
| ExpiryAlerts.AlertTable.BuildForFile | vault_ai_backend/expiry_engine.py:419-479 | One transaction: the file's alerts are deleted when replacing and what the document yields is upserted, or, when an upsert raises, the table stays as it was before the call |
| ExpiryAlerts.AlertTable.BuildForInheritance | vault_ai_backend/expiry_engine.py:523-545 | The inheritance alerts are replaced by what the pending transfers yield, or the table stays as it was |
| ExpiryAlerts.AlertTable.BuildForMemory | vault_ai_backend/expiry_engine.py:490-520 | The memory alerts are replaced by what the dated memories yield, or the table stays as it was |
| ExpiryAlerts.AlertTable.Rebuild | vault_ai_backend/expiry_engine.py:548-613 | The full rebuild leaves exactly the upserts of every source, or, when one raises, the table as it was |
| ExpiryAlerts.BareBuilderOnlyDeletes | vault_ai_backend/expiry_engine.py:358-383 | With the clauses as written a builder commits if and only if no spec of its source is acceptable, and then deletes the alerts of its source and adds none |
| ExpiryAlerts.BareRebuildOnlyDeletes | vault_ai_backend/expiry_engine.py:548-613 | With the clauses as written a rebuild empties the table if no spec of any source is acceptable and else leaves it as it was |
| ExpiryAlerts.BareRunAddsNothing | vault_ai_backend/expiry_engine.py:358-383 | As written, over any run of builders and rebuilds on changing vaults every alert is one that was there at the start, unchanged |
| ExpiryAlerts.BareRunStaysEmpty | vault_ai_backend/expiry_engine.py:358-383 | As written, an empty table stays empty over every run |
| ExpiryAlerts.IncrementalAsWritten | vault_ai_backend/expiry_engine.py:419-613 | As written, builders that cover every source leave the table of a rebuild exactly when, with nothing acceptable in the vault, every alert's source is one they ran for, and otherwise when no alert's source is both run for and without acceptable specs |
| ExpiryAlerts.WrittenClausesDiverge | vault_ai_backend/expiry_engine.py:419-613 | An input on which builders and rebuild differ as written and agree with qualified clauses: an alert of a file that yields nothing any more, beside a passport due in twenty days |
| ExpiryAlerts.UpsertAllAt | vault_ai_backend/expiry_engine.py:338-392 | After upserting coherent specs, a key holds its spec's alert, others keep theirs |
| ExpiryAlerts.IncrementalIsRebuild | vault_ai_backend/expiry_engine.py:419-613 | With clauses that repeat the index predicates: builders run in any order, any number of times on one day, once at least for every source, leave the table of a full rebuild exactly when every earlier alert belongs to a source some builder ran for |
| ExpiryAlerts.WalkOrderDoesNotMatter | vault_ai_backend/expiry_engine.py:556-586 | With clauses that repeat the index predicates, the rebuild does not depend on the order in which documents are read |
| AlertContents.RebuiltHoldsExactly | vault_ai_backend/expiry_engine.py:419-613 | With clauses that repeat the index predicates: after a rebuild an alert is there if and only if a document, transfer or memory has a date that calls for it, with that day, the severity of its window, and active, whatever was there before |
| AlertContents.FileSpecsExactly | vault_ai_backend/expiry_engine.py:186-230 | What a document yields, by document type: the field that counts, the least wide enough window and its severity |
| AlertContents.MakeAlertExactly | vault_ai_backend/expiry_engine.py:92-183 | A date yields an alert exactly when it is not past and some window is wide enough, critical in the narrowest window and informational in the widest |
| CommandTokens.OneEditApart | vault_ai_backend/attachment_command_intent.py:83-112 | True exactly when the strings are equal or one insertion, deletion, substitution or adjacent swap apart |
| CommandTokens.SkipsOne | vault_ai_backend/attachment_command_intent.py:99-112 | The two-index scan with one skip decides deletion of one character |
| CommandTokens.OneEditSymmetric | vault_ai_backend/attachment_command_intent.py:83-112 | The relation is symmetric |
| CommandTokens.NormalizeCommandToken | vault_ai_backend/attachment_command_intent.py:115-126 | Visiting the lexicon in any order yields the alias, the known or short word, the single close word, or the token |
| CommandTokens.TokenIsRepaired | vault_ai_backend/attachment_command_intent.py:115-126 | A long unknown token becomes the one known word within one edit, and changes only if there is exactly one; aliases are resolved, short and known words stay |
| CommandTokens.NormalizedIsSettled | vault_ai_backend/attachment_command_intent.py:19-126 | The result is a known word or the token in lower case, and normalizing again changes nothing |
| VersionedNames.NextAvailable | vault_ai_backend/duplicate_detection.py:113-169 | The name of the least free version of the base and extension the requested name splits into, or the crowded-folder name when none of a thousand is free; with fewer than 1000 names in the folder it is unused, ignoring case |
| VersionedNames.LeastFreeIsNotStored | vault_ai_backend/duplicate_detection.py:148-169 | The version found is the least whose candidate no file of the folder is stored under, folders and names compared trimmed and ignoring case |
| VersionedNames.SplitExactly | vault_ai_backend/duplicate_detection.py:113-132 | The split is the shortest match of the name's expression, its base freed of a number at the end, or the trimmed name where that leaves nothing or nothing matches |
| VersionedNames.ReturnedNameIsFree | vault_ai_backend/duplicate_detection.py:159-169 | The search gives up exactly when all thousand candidates are taken, which takes a thousand names |
| VersionedNames.CandidatesDiffer | vault_ai_backend/duplicate_detection.py:159-165 | No two versions of a name are the same up to case |
| VersionedNames.NumberedSplitsBack | vault_ai_backend/duplicate_detection.py:113-132 | For every requested name and every version, the numbered candidate splits into the same base and extension again if and only if the base has no number at its end and no line feed |
| VersionedNames.CollectNames | vault_ai_backend/duplicate_detection.py:148-158 | The names collected are the non-empty trimmed lower-case names of the folder |
| FormatUnits.ReadsBack | vault_ai_backend/evm_transaction_history.py:322-339 | Reading the text as a decimal and scaling by 10^decimals gives the value back, for every value and every decimals > 0 |
| FormatUnits.NoIdleZeros | vault_ai_backend/evm_transaction_history.py:332-339 | A fraction is shown only when it is not zero and never ends in zero |
| FormatUnits.NoIdleFront | vault_ai_backend/evm_transaction_history.py:322-339 | A minus sign exactly for negative amounts, no zero in front of another digit, and without decimals the number itself |
| FormatUnits.FormatInjective | vault_ai_backend/evm_transaction_history.py:322-339 | For fixed decimals different amounts never look the same |

## Left out

- Postgres: each store call is one atomic step, row locks and advisory locks included; pooling, JSON columns and isolation levels are not modelled.
- The ownership table that the 0046 trigger maintains is an arbitrary input of the resolver, so its theorems hold whatever the trigger wrote there.
- Provider status, environment, metadata, event log rows, verification state and entitlement family are not in the ledger's rows: every modelled row is a verified storage row.
- LedgerRuns.BoundForEver: for Apple it assumes that a transaction id determines its original transaction id, because nothing in the ledger checks it.
- LedgerRuns.EventTimesNeverGoBack: needs every call to carry an event time, because an update without one is accepted and erases it, as WrittenEventTime says exactly.
- DraftRuns.OneLiveDraft: sealed Solana and TRON drafts are not included, because their advisory lock is keyed by the sender hash while their query is by vault.
- `supersede_linked_purchase` (a separate transaction for other providers, used by no caller), the Apple and Play notification parsers, and `reconcile_google_subscriptions`, which repeats the modelled call over a list.
- Timestamps of Play line items are given as parsed instants; replacement modes are given in upper case.
- Strings are ASCII: trimming and lower-casing of other characters are not modelled.
- The RLP decoder and the key recovery are library code: RLP is modelled as the strict decoder of the Yellow Paper, recovery as any function of the signed text.
- Keccak lanes are 64-bit vectors, so the masks of the source are the type's own; the optional library digest that the address check prefers when installed is taken to agree with the hand-written one.
- The shape regular expressions of Monero addresses are covered by the decoder accepting only alphabet characters and the two lengths.
- The canonical JSON, HMAC and header parsing of the bridge are inputs of the authentication check.
- The switch that disables expiry alerts. Alert builders that fail to read their source log the failure and go on; only successful reads are modelled. Calendar dates are day numbers.
- The regular expression that finds command words in a text: the words are inputs.
- `list_outgoing_history`, `load_draft_readonly`, pause flags, pricing, storage totals, session and device revocation, and all HTTP plumbing would add only easy members.
