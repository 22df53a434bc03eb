/** Send drafts of the EVM, Solana and TRON control stores: one table a chain, every store call
    one transaction. A refused call, and one that raises, leaves the table as it was. */
module Drafts {
  import opened Options
  import opened Text

  datatype Chain = Evm | Solana | Tron

  /** A draft names its sender in the clear, or only by an optional lookup hash. */
  datatype Sender = Plain(address: string) | Sealed(lookup: Option<string>)

  datatype Outcome = Submitted | SubmissionUncertain | AlreadyKnown | ExplicitlyRejected

  datatype Claim = Claim(token: string, until: int)

  /** payload stands for the drafted fields; txId is the local hash, signature or transaction id. */
  datatype Draft = Draft(
    vault: string, network: string, sender: Sender, payload: string, expiresAt: int,
    claim: Option<Claim>, consumedAt: Option<int>, txId: Option<string>, outcome: Option<Outcome>)

  type Table = map<string, Draft>

  datatype Registration = Registration(vault: string, network: string, sender: Sender, payload: string, ttl: int)

  datatype ClaimError = UnknownOrExpired | VaultMismatch | NetworkMismatch | AlreadyConsumed | AlreadyClaimed

  // ----- registering -----

  /** EVM senders are compared in lower case, the other chains' as given. */
  function SenderOf(chain: Chain, address: string): Sender {
    if chain == Evm then Plain(Lower(Trim(address))) else Plain(address)
  }

  function SealedSender(chain: Chain, lookup: string): Sender {
    if chain == Evm then Sealed(Some(lookup)) else Sealed(None)
  }

  predicate Held(d: Draft, now: int) { d.claim.Some? && d.claim.value.until > now }

  /** Neither signed nor held by a worker: what an EVM registration expires. */
  predicate Abandoned(d: Draft, now: int) {
    d.consumedAt.None? && d.txId.None? && d.expiresAt > now && !Held(d, now)
  }

  predicate SweepReaches(d: Draft, r: Registration) {
    d.network == r.network
    && if r.sender.Plain? then d.sender == r.sender else d.sender.Sealed? && d.vault == r.vault
  }

  function Sweep(t: Table, r: Registration, now: int): (swept: Table)
    ensures swept.Keys == t.Keys
  {
    map id | id in t :: if SweepReaches(t[id], r) && Abandoned(t[id], now) then t[id].(expiresAt := now) else t[id]
  }

  /** One expiry pass: over one sender, over one vault's lookup hash, or over a whole vault. */
  predicate InExpiryScope(d: Draft, network: string, vault: string, sender: Option<Sender>) {
    d.network == network
    && if sender.None? then d.sender.Sealed? && d.vault == vault
       else d.sender == sender.value && (d.sender.Sealed? ==> d.vault == vault)
  }

  function Expired(t: Table, network: string, vault: string, sender: Option<Sender>, now: int): Table {
    map id | id in t ::
      if InExpiryScope(t[id], network, vault, sender) && Abandoned(t[id], now) then t[id].(expiresAt := now) else t[id]
  }

  /** The pass over one sender, and the pass over a hash followed by the one over the vault,
      are the sweeps of the two kinds of registration. */
  lemma PassesSweep(t: Table, r: Registration, now: int)
    ensures var first := Expired(t, r.network, r.vault, Some(r.sender), now);
            Sweep(t, r, now) == if r.sender.Plain? then first else Expired(first, r.network, r.vault, None, now)
  {
    forall id | id in t {
      PassesSweepOne(t[id], r, now);
    }
    hide InExpiryScope, Abandoned, SweepReaches;
  }

  function ExpiredOne(d: Draft, network: string, vault: string, sender: Option<Sender>, now: int): Draft {
    if InExpiryScope(d, network, vault, sender) && Abandoned(d, now) then d.(expiresAt := now) else d
  }

  lemma PassesSweepOne(d: Draft, r: Registration, now: int)
    ensures var first := ExpiredOne(d, r.network, r.vault, Some(r.sender), now);
            (if SweepReaches(d, r) && Abandoned(d, now) then d.(expiresAt := now) else d)
            == if r.sender.Plain? then first else ExpiredOne(first, r.network, r.vault, None, now)
  {}

  /** The drafts a registration has to wait for. */
  predicate Competes(chain: Chain, d: Draft, r: Registration) {
    d.network == r.network
    && match r.sender
       case Plain(_) => d.sender == r.sender
       case Sealed(lookup) =>
         d.sender.Sealed? && d.vault == r.vault
         && (chain == Evm ==> d.sender.lookup == lookup || d.sender.lookup.None?)
  }

  predicate Blocks(chain: Chain, d: Draft, now: int) {
    d.expiresAt > now
    && if chain != Evm then d.consumedAt.None?
       else || (d.consumedAt.None? && Held(d, now))
            || (d.consumedAt.Some? && d.txId.Some? && d.outcome != Some(ExplicitlyRejected))
  }

  function Fresh(r: Registration, now: int): Draft {
    Draft(r.vault, r.network, r.sender, r.payload, now + r.ttl, None, None, None, None)
  }

  /** The table after a registration under a new id, or nothing when it is refused. */
  function Registered(chain: Chain, t: Table, r: Registration, id: string, now: int): Option<Table> {
    var swept := if chain == Evm then Sweep(t, r, now) else t;
    if id in t || exists other :: other in swept && Competes(chain, swept[other], r) && Blocks(chain, swept[other], now)
    then None
    else Some(swept[id := Fresh(r, now)])
  }

  // ----- working on one draft -----

  function ClaimRefusal(t: Table, id: string, vault: string, network: string, now: int): Option<ClaimError> {
    if id !in t then Some(UnknownOrExpired)
    else if t[id].vault != vault then Some(VaultMismatch)
    else if t[id].network != network then Some(NetworkMismatch)
    else if t[id].consumedAt.Some? then Some(AlreadyConsumed)
    else if t[id].expiresAt <= now || Held(t[id], now) then Some(AlreadyClaimed)
    else None
  }

  predicate ClaimedBy(d: Draft, token: string) { d.claim.Some? && d.claim.value.token == token }

  datatype Op =
    | Register(r: Registration, newId: string)
    | TakeClaim(id: string, vault: string, network: string, lease: int, token: string)
    | Release(id: string, token: string)
    | Consume(id: string, token: string, txId: string)
    | Record(id: string, token: string, outcome: Option<Outcome>)

  /** The table after an operation that succeeds. */
  function Attempt(chain: Chain, t: Table, op: Op, now: int): Option<Table> {
    match op
    case Register(r, newId) => Registered(chain, t, r, newId, now)
    case TakeClaim(id, vault, network, lease, token) =>
      if ClaimRefusal(t, id, vault, network, now).Some? then None
      else Some(t[id := t[id].(claim := Some(Claim(token, now + lease)))])
    case Release(id, token) =>
      if token == "" || id !in t || !ClaimedBy(t[id], token) || t[id].consumedAt.Some? then None
      else Some(t[id := t[id].(claim := None)])
    case Consume(id, token, txId) =>
      if token == "" || txId == "" || id !in t || !ClaimedBy(t[id], token) || t[id].consumedAt.Some? then None
      else Some(t[id := t[id].(consumedAt := Some(now), txId := Some(txId))])
    case Record(id, token, outcome) =>
      if token == "" || outcome.None? || id !in t || !ClaimedBy(t[id], token) || t[id].consumedAt.None?
        || t[id].outcome.Some? then None
      else Some(t[id := t[id].(outcome := outcome)])
  }

  class DraftStore {
    const chain: Chain
    var drafts: Table

    constructor (chain: Chain)
      ensures this.chain == chain && drafts == map[]
    {
      this.chain := chain;
      drafts := map[];
    }

    method ExpireAbandoned(network: string, vault: string, sender: Option<Sender>, now: int)
      modifies this`drafts
      ensures drafts == Expired(old(drafts), network, vault, sender, now)
    {
      drafts := map id | id in drafts ::
        if InExpiryScope(drafts[id], network, vault, sender) && Abandoned(drafts[id], now)
        then drafts[id].(expiresAt := now) else drafts[id];
    }

    method RegisterDraft(vault: string, network: string, address: string, payload: string, ttl: int, id: string,
      now: int)
      returns (registered: bool)
      modifies this
      ensures var sender := Plain(if chain.Evm? then Lower(Trim(address)) else address);
              var r := Registration(vault, network, sender, payload, ttl);
              match Attempt(chain, old(drafts), Register(r, id), now)
              case Some(after) => registered && drafts == after
              case None => !registered && drafts == old(drafts)
    {
      hide Sweep, Expired, Competes, Blocks, Fresh;
      var before := drafts;
      var r := Registration(vault, network, SenderOf(chain, address), payload, ttl);
      if chain == Evm {
        PassesSweep(before, r, now);
        ExpireAbandoned(network, vault, Some(r.sender), now);
      }
      if id in drafts
        || (exists other :: other in drafts && Competes(chain, drafts[other], r) && Blocks(chain, drafts[other], now)) {
        drafts := before;
        return false;
      }
      drafts := drafts[id := Fresh(r, now)];
      return true;
    }

    method RegisterSealed(vault: string, network: string, lookup: string, payload: string, ttl: int, id: string,
      now: int)
      returns (registered: bool)
      modifies this
      ensures var sender := Sealed(if chain.Evm? then Some(lookup) else None);
              var r := Registration(vault, network, sender, payload, ttl);
              match Attempt(chain, old(drafts), Register(r, id), now)
              case Some(after) => registered && drafts == after
              case None => !registered && drafts == old(drafts)
    {
      hide Sweep, Expired, Competes, Blocks, Fresh;
      var before := drafts;
      var r := Registration(vault, network, SealedSender(chain, lookup), payload, ttl);
      if chain == Evm {
        PassesSweep(before, r, now);
        ExpireAbandoned(network, vault, Some(r.sender), now);
        ExpireAbandoned(network, vault, None, now);
      }
      if id in drafts
        || (exists other :: other in drafts && Competes(chain, drafts[other], r) && Blocks(chain, drafts[other], now)) {
        drafts := before;
        return false;
      }
      drafts := drafts[id := Fresh(r, now)];
      return true;
    }

    method ClaimDraft(id: string, vault: string, network: string, lease: int, token: string, now: int)
      returns (r: Result<string, ClaimError>)
      modifies this`drafts
      ensures match Attempt(chain, old(drafts), TakeClaim(id, vault, network, lease, token), now)
              case Some(after) => r == Ok(token) && drafts == after
              case None => r == Err(ClaimRefusal(old(drafts), id, vault, network, now).value) && drafts == old(drafts)
    {
      if id !in drafts {
        return Err(UnknownOrExpired);
      }
      if drafts[id].vault != vault {
        return Err(VaultMismatch);
      }
      if drafts[id].network != network {
        return Err(NetworkMismatch);
      }
      if drafts[id].consumedAt.Some? {
        return Err(AlreadyConsumed);
      }
      if drafts[id].expiresAt > now && (drafts[id].claim.None? || drafts[id].claim.value.until <= now) {
        drafts := drafts[id := drafts[id].(claim := Some(Claim(token, now + lease)))];
        return Ok(token);
      }
      return Err(AlreadyClaimed);
    }

    method ReleaseClaimedDraft(id: string, token: string, now: int) returns (released: bool)
      modifies this`drafts
      ensures match Attempt(chain, old(drafts), Release(id, token), now)
              case Some(after) => released && drafts == after
              case None => !released && drafts == old(drafts)
    {
      if token == "" {
        return false;
      }
      if id in drafts && ClaimedBy(drafts[id], token) && drafts[id].consumedAt.None? {
        drafts := drafts[id := drafts[id].(claim := None)];
        return true;
      }
      return false;
    }

    method ConsumeClaimedDraft(id: string, token: string, txId: string, now: int) returns (consumed: bool)
      modifies this`drafts
      ensures match Attempt(chain, old(drafts), Consume(id, token, txId), now)
              case Some(after) => consumed && drafts == after
              case None => !consumed && drafts == old(drafts)
    {
      if token == "" || txId == "" {
        return false;
      }
      if id in drafts && ClaimedBy(drafts[id], token) && drafts[id].consumedAt.None? {
        drafts := drafts[id := drafts[id].(consumedAt := Some(now), txId := Some(txId))];
        return true;
      }
      return false;
    }

    /** An outcome outside the four allowed ones is None here. */
    method RecordBroadcastOutcome(id: string, token: string, outcome: Option<Outcome>, now: int)
      returns (recorded: bool)
      modifies this`drafts
      ensures match Attempt(chain, old(drafts), Record(id, token, outcome), now)
              case Some(after) => recorded && drafts == after
              case None => !recorded && drafts == old(drafts)
    {
      if token == "" || outcome.None? {
        return false;
      }
      if id in drafts && ClaimedBy(drafts[id], token) && drafts[id].consumedAt.Some? && drafts[id].outcome.None? {
        drafts := drafts[id := drafts[id].(outcome := outcome)];
        return true;
      }
      return false;
    }
  }
}
