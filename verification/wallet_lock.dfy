/** The broadcast slot of one (network, sender): acquired for a lease, taken over only after the
    lease has passed, released only by its own token. */
module WalletLock {
  import opened Options
  import opened Text
  import Drafts
  import opened Timelines

  datatype Key = Key(network: string, sender: string)

  datatype Lock = Lock(token: string, until: int)

  type Locks = map<Key, Lock>

  datatype Op =
    | Acquire(network: string, address: string, lease: int, token: string)
    | Release(network: string, address: string, token: string)

  /** EVM locks are keyed by the lower-case address, the other chains' by the address as given. */
  function KeyOf(chain: Drafts.Chain, op: Op): Key {
    Key(op.network, if chain.Evm? then Lower(Trim(op.address)) else op.address)
  }

  /** The locks after an operation that succeeds. */
  function Attempt(chain: Drafts.Chain, locks: Locks, op: Op, now: int): Option<Locks> {
    var key := KeyOf(chain, op);
    if key.sender == "" then None
    else match op
      case Acquire(_, _, lease, token) =>
        if key in locks && locks[key].until >= now then None else Some(locks[key := Lock(token, now + lease)])
      case Release(_, _, token) =>
        if token == "" || key !in locks || locks[key].token != token then None else Some(locks - {key})
  }

  class LockTable {
    const chain: Drafts.Chain
    var locks: Locks

    constructor (chain: Drafts.Chain)
      ensures this.chain == chain && locks == map[]
    {
      this.chain := chain;
      locks := map[];
    }

    method AcquireWalletLock(network: string, address: string, lease: int, token: string, now: int)
      returns (granted: Option<string>)
      modifies this`locks
      ensures match Attempt(chain, old(locks), Acquire(network, address, lease, token), now)
              case Some(after) => granted == Some(token) && locks == after
              case None => granted == None && locks == old(locks)
    {
      var sender := if chain.Evm? then Lower(Trim(address)) else address;
      if sender == "" {
        return None;
      }
      var key := Key(network, sender);
      if key !in locks || locks[key].until < now {
        locks := locks[key := Lock(token, now + lease)];
        return Some(token);
      }
      return None;
    }

    method ReleaseWalletLock(network: string, address: string, token: string, now: int) returns (released: bool)
      modifies this`locks
      ensures match Attempt(chain, old(locks), Release(network, address, token), now)
              case Some(after) => released && locks == after
              case None => !released && locks == old(locks)
    {
      var sender := if chain.Evm? then Lower(Trim(address)) else address;
      if sender == "" || token == "" {
        return false;
      }
      var key := Key(network, sender);
      if key in locks && locks[key].token == token {
        locks := locks - {key};
        return true;
      }
      return false;
    }
  }

  // ----- runs -----

  function Step(chain: Drafts.Chain, locks: Locks, op: Op, now: int): Locks {
    match Attempt(chain, locks, op, now)
    case Some(after) => after
    case None => locks
  }

  function StateAt(chain: Drafts.Chain, ops: seq<Timed<Op>>, k: nat): Locks
    requires k <= |ops|
  {
    if k == 0 then map[] else Step(chain, StateAt(chain, ops, k - 1), ops[k - 1].op, ops[k - 1].now)
  }

  predicate Succeeds(chain: Drafts.Chain, ops: seq<Timed<Op>>, k: nat)
    requires k < |ops|
  {
    Attempt(chain, StateAt(chain, ops, k), ops[k].op, ops[k].now).Some?
  }

  /** Every acquire draws a token of its own. */
  ghost predicate TokensFresh(ops: seq<Timed<Op>>) {
    forall a, b :: 0 <= a < b < |ops| && ops[a].op.Acquire? && ops[b].op.Acquire? ==> ops[a].op.token != ops[b].op.token
  }

  predicate Grants(chain: Drafts.Chain, ops: seq<Timed<Op>>, k: nat, key: Key)
    requires k < |ops|
  {
    ops[k].op.Acquire? && KeyOf(chain, ops[k].op) == key && Succeeds(chain, ops, k)
  }

  /** The holder of grant i gives it up at call k: a release of the slot with that token. */
  predicate GivesUp(chain: Drafts.Chain, ops: seq<Timed<Op>>, i: nat, k: nat)
    requires i < |ops| && k < |ops|
  {
    ops[k].op.Release? && KeyOf(chain, ops[k].op) == KeyOf(chain, ops[i].op) && ops[k].op.token == ops[i].op.token
  }

  ghost predicate NotGivenUp(chain: Drafts.Chain, ops: seq<Timed<Op>>, i: nat, j: nat)
    requires i < |ops| && j <= |ops|
  {
    forall k :: i < k < j ==> !GivesUp(chain, ops, i, k)
  }

  ghost predicate HasLock(locks: Locks, key: Key, lock: Lock) {
    key in locks && locks[key] == lock
  }

  /** One call leaves a lock alone unless it takes over after the lease or releases with its token. */
  lemma LockSurvives(chain: Drafts.Chain, locks: Locks, op: Op, now: int, key: Key, lock: Lock)
    requires HasLock(locks, key, lock)
    requires op.Acquire? && KeyOf(chain, op) == key ==> now <= lock.until
    requires op.Release? && KeyOf(chain, op) == key ==> op.token != lock.token
    ensures HasLock(Step(chain, locks, op, now), key, lock)
  {}

  lemma GrantMarks(chain: Drafts.Chain, ops: seq<Timed<Op>>, i: nat, key: Key)
    requires i < |ops| && Grants(chain, ops, i, key)
    ensures HasLock(StateAt(chain, ops, i + 1), key, Lock(ops[i].op.token, ops[i].now + ops[i].op.lease))
  {}

  lemma {:induction false} LockKept(chain: Drafts.Chain, ops: seq<Timed<Op>>, i: nat, j: nat, key: Key)
    requires i < j < |ops| && ClockRuns(ops) && Grants(chain, ops, i, key) && NotGivenUp(chain, ops, i, j)
    requires ops[j].now <= ops[i].now + ops[i].op.lease
    ensures HasLock(StateAt(chain, ops, j), key, Lock(ops[i].op.token, ops[i].now + ops[i].op.lease))
    decreases j
  {
    hide Attempt, ClockRuns, HasLock, Succeeds;
    if i + 1 == j {
      GrantMarks(chain, ops, i, key);
    } else {
      ClockBetween(ops, j - 1, j);
      LockKept(chain, ops, i, j - 1, key);
      assert !GivesUp(chain, ops, i, j - 1);
      LockSurvives(chain, StateAt(chain, ops, j - 1), ops[j - 1].op, ops[j - 1].now, key,
                   Lock(ops[i].op.token, ops[i].now + ops[i].op.lease));
    }
  }

  /** Two grants of one slot are a whole lease apart, unless the first holder gave it up. */
  lemma GrantsAreApart(chain: Drafts.Chain, ops: seq<Timed<Op>>, i: nat, j: nat, key: Key)
    requires i < j < |ops| && ClockRuns(ops) && Grants(chain, ops, i, key) && Grants(chain, ops, j, key)
    requires NotGivenUp(chain, ops, i, j)
    ensures ops[j].now > ops[i].now + ops[i].op.lease
  {
    if ops[j].now <= ops[i].now + ops[i].op.lease {
      LockKept(chain, ops, i, j, key);
    }
  }

  /** At every moment of its lease the slot is still the holder's. */
  lemma HeldThroughLease(chain: Drafts.Chain, ops: seq<Timed<Op>>, i: nat, j: nat, key: Key)
    requires i < j < |ops| && ClockRuns(ops) && Grants(chain, ops, i, key) && NotGivenUp(chain, ops, i, j)
    requires ops[j].now <= ops[i].now + ops[i].op.lease
    ensures key in StateAt(chain, ops, j) && StateAt(chain, ops, j)[key].token == ops[i].op.token
    ensures ops[j].op.Acquire? && KeyOf(chain, ops[j].op) == key ==> !Succeeds(chain, ops, j)
  {
    LockKept(chain, ops, i, j, key);
  }

  /** A release with any token but the lock's leaves every lock as it was; with the lock's
      token it removes that lock and no other. */
  lemma ReleaseIsOwnerSafe(chain: Drafts.Chain, locks: Locks, network: string, address: string, token: string, now: int)
    ensures var op := Release(network, address, token); var key := KeyOf(chain, op);
            var after := Step(chain, locks, op, now);
            && (!(key in locks && locks[key].token == token) ==> after == locks)
            && (forall other :: other != key ==> (other in after <==> other in locks))
            && (forall other :: other != key && other in locks ==> after[other] == locks[other])
            && (key.sender != "" && token != "" && key in locks && locks[key].token == token ==> key !in after)
  {}

  /** A lock was put there by an earlier grant with its token. */
  lemma {:induction false} LockWasGranted(chain: Drafts.Chain, ops: seq<Timed<Op>>, k: nat, key: Key)
    requires k <= |ops| && key in StateAt(chain, ops, k)
    ensures exists i :: 0 <= i < k && Grants(chain, ops, i, key) && ops[i].op.token == StateAt(chain, ops, k)[key].token
  {
    hide StateAt, Attempt, KeyOf;
    if k == 0 {
      NoLockAtStart(chain, ops);
    } else {
      var before, after := StateAt(chain, ops, k - 1), StateAt(chain, ops, k);
      StateAfter(chain, ops, k - 1);
      if key in before && before[key] == after[key] {
        LockWasGranted(chain, ops, k - 1, key);
      } else {
        NewLockIsGrant(chain, before, ops[k - 1].op, ops[k - 1].now, key);
        assert Grants(chain, ops, k - 1, key);
      }
    }
  }

  lemma StateAfter(chain: Drafts.Chain, ops: seq<Timed<Op>>, k: nat)
    requires k < |ops|
    ensures StateAt(chain, ops, k + 1) == Step(chain, StateAt(chain, ops, k), ops[k].op, ops[k].now)
  {}

  lemma NewLockIsGrant(chain: Drafts.Chain, before: Locks, op: Op, now: int, key: Key)
    requires var after := Step(chain, before, op, now); key in after && (key in before ==> before[key] != after[key])
    ensures op.Acquire? && KeyOf(chain, op) == key && Attempt(chain, before, op, now).Some?
    ensures Step(chain, before, op, now)[key].token == op.token
  {}

  /** Once another worker holds the slot, the first one's token releases nothing, ever. */
  lemma StaleTokenReleasesNothing(chain: Drafts.Chain, ops: seq<Timed<Op>>, i: nat, j: nat, k: nat, key: Key)
    requires i < j < k < |ops| && TokensFresh(ops) && Grants(chain, ops, i, key) && Grants(chain, ops, j, key)
    requires GivesUp(chain, ops, i, k)
    ensures !Succeeds(chain, ops, k)
  {
    NeverAgain(chain, ops, i, j, k, key);
    hide TokensFresh, Grants, StateAt;
  }

  ghost predicate NotHeldBy(locks: Locks, key: Key, token: string) {
    key in locks ==> locks[key].token != token
  }

  lemma StaysUnheld(chain: Drafts.Chain, locks: Locks, op: Op, now: int, key: Key, token: string)
    requires NotHeldBy(locks, key, token) && (op.Acquire? ==> op.token != token)
    ensures NotHeldBy(Step(chain, locks, op, now), key, token)
  {}

  lemma TokensDiffer(ops: seq<Timed<Op>>, a: nat, b: nat)
    requires a < b < |ops| && TokensFresh(ops) && ops[a].op.Acquire? && ops[b].op.Acquire?
    ensures ops[a].op.token != ops[b].op.token
  {}

  /** The first moment the earlier token is out: right after the later grant. */
  lemma GrantDisplaces(chain: Drafts.Chain, ops: seq<Timed<Op>>, i: nat, j: nat, key: Key)
    requires i < j < |ops| && TokensFresh(ops) && Grants(chain, ops, i, key) && Grants(chain, ops, j, key)
    ensures NotHeldBy(StateAt(chain, ops, j + 1), key, ops[i].op.token)
  {
    hide TokensFresh, Attempt, NotHeldBy, HasLock, StateAt, Step, Succeeds;
    GrantMarks(chain, ops, j, key);
    TokensDiffer(ops, i, j);
    LockExcludes(StateAt(chain, ops, j + 1), key, Lock(ops[j].op.token, ops[j].now + ops[j].op.lease),
      ops[i].op.token);
  }

  lemma {:induction false} NeverAgain(chain: Drafts.Chain, ops: seq<Timed<Op>>, i: nat, j: nat, k: nat, key: Key)
    requires i < j < k <= |ops| && TokensFresh(ops) && Grants(chain, ops, i, key) && Grants(chain, ops, j, key)
    ensures NotHeldBy(StateAt(chain, ops, k), key, ops[i].op.token)
    decreases k
  {
    hide TokensFresh, Attempt, NotHeldBy, Step, Succeeds, KeyOf;
    if j + 1 == k {
      GrantDisplaces(chain, ops, i, j, key);
    } else {
      NeverAgain(chain, ops, i, j, k - 1, key);
      if ops[k - 1].op.Acquire? {
        TokensDiffer(ops, i, k - 1);
      }
      StaysUnheld(chain, StateAt(chain, ops, k - 1), ops[k - 1].op, ops[k - 1].now, key, ops[i].op.token);
    }
  }

  lemma LockExcludes(locks: Locks, key: Key, lock: Lock, token: string)
    requires HasLock(locks, key, lock) && lock.token != token
    ensures NotHeldBy(locks, key, token)
  {}

  // ----- exactly when a call succeeds -----

  /** EVM addresses name one slot whatever their letter case and the white space around them, the
      other chains' only when they are the same text. */
  predicate SameSlot(chain: Drafts.Chain, a: Op, b: Op) {
    a.network == b.network
    && if chain.Evm? then Lower(Trim(a.address)) == Lower(Trim(b.address)) else a.address == b.address
  }

  predicate NamesNobody(chain: Drafts.Chain, op: Op) {
    op.address == "" || (chain.Evm? && Trim(op.address) == "")
  }

  /** Call i took the slot of this operation, and no call before j has moved it since. */
  ghost predicate Holds(chain: Drafts.Chain, ops: seq<Timed<Op>>, i: nat, j: nat, op: Op)
    requires j <= |ops|
  {
    && i < j && ops[i].op.Acquire? && SameSlot(chain, ops[i].op, op) && Succeeds(chain, ops, i)
    && forall k :: i < k < j && SameSlot(chain, ops[k].op, op) ==> !Succeeds(chain, ops, k)
  }

  lemma SlotIsKey(chain: Drafts.Chain, a: Op, b: Op)
    ensures SameSlot(chain, a, b) <==> KeyOf(chain, a) == KeyOf(chain, b)
    ensures NamesNobody(chain, a) <==> KeyOf(chain, a).sender == ""
  {
    assert chain.Evm? && a.address == "" ==> Trim(a.address) == "";
  }

  /** The lock of a slot is that of the call that holds it; nobody holding it, there is none. */
  lemma {:induction false} LockIsHolders(chain: Drafts.Chain, ops: seq<Timed<Op>>, j: nat, op: Op)
    requires j <= |ops|
    ensures var locks, key := StateAt(chain, ops, j), KeyOf(chain, op);
            && (key in locks ==> exists i: nat :: Holds(chain, ops, i, j, op))
            && (forall i: nat :: Holds(chain, ops, i, j, op) ==>
                  HasLock(locks, key, Lock(ops[i].op.token, ops[i].now + ops[i].op.lease)))
  {
    hide StateAt, Succeeds, KeyOf, SameSlot;
    if j == 0 {
      NoLockAtStart(chain, ops);
    } else {
      var k := j - 1;
      SlotIsKey(chain, ops[k].op, op);
      if SameSlot(chain, ops[k].op, op) && Succeeds(chain, ops, k) {
        SlotMoves(chain, ops, k);
        if ops[k].op.Acquire? {
          assert Holds(chain, ops, k, j, op);
        }
      } else {
        SlotStays(chain, ops, k, op);
        LockIsHolders(chain, ops, k, op);
        if i: nat :| Holds(chain, ops, i, k, op) {
          assert Holds(chain, ops, i, j, op);
        }
        forall i: nat | Holds(chain, ops, i, j, op)
          ensures Holds(chain, ops, i, k, op)
        {
          assert i != k;
        }
      }
    }
  }

  lemma NoLockAtStart(chain: Drafts.Chain, ops: seq<Timed<Op>>)
    ensures StateAt(chain, ops, 0) == map[]
  {}

  lemma SlotMoves(chain: Drafts.Chain, ops: seq<Timed<Op>>, k: nat)
    requires k < |ops| && Succeeds(chain, ops, k)
    ensures var locks, key := StateAt(chain, ops, k + 1), KeyOf(chain, ops[k].op);
            if ops[k].op.Acquire? then HasLock(locks, key, Lock(ops[k].op.token, ops[k].now + ops[k].op.lease))
            else key !in locks
  {}

  lemma SlotStays(chain: Drafts.Chain, ops: seq<Timed<Op>>, k: nat, op: Op)
    requires k < |ops| && (SameSlot(chain, ops[k].op, op) ==> !Succeeds(chain, ops, k))
    ensures var before, after, key := StateAt(chain, ops, k), StateAt(chain, ops, k + 1), KeyOf(chain, op);
            (key in after <==> key in before) && (key in before ==> after[key] == before[key])
  {
    SlotIsKey(chain, ops[k].op, op);
    StepElsewhere(chain, StateAt(chain, ops, k), ops[k].op, ops[k].now, KeyOf(chain, op));
    hide SameSlot, KeyOf, Attempt, Step;
  }

  lemma StepElsewhere(chain: Drafts.Chain, locks: Locks, op: Op, now: int, key: Key)
    requires KeyOf(chain, op) == key ==> Attempt(chain, locks, op, now).None?
    ensures var after := Step(chain, locks, op, now);
            (key in after <==> key in locks) && (key in locks ==> after[key] == locks[key])
  {
    hide KeyOf;
  }

  /** Over any run: an acquire that names an address succeeds if and only if the lease of the call
      that holds the slot, if one does, is over. */
  lemma AcquireSucceedsExactly(chain: Drafts.Chain, ops: seq<Timed<Op>>, j: nat)
    requires j < |ops| && ops[j].op.Acquire?
    ensures Succeeds(chain, ops, j) <==>
            !NamesNobody(chain, ops[j].op)
            && forall i: nat :: Holds(chain, ops, i, j, ops[j].op) ==> ops[i].now + ops[i].op.lease < ops[j].now
  {
    var locks, key := StateAt(chain, ops, j), KeyOf(chain, ops[j].op);
    assert Succeeds(chain, ops, j) <==> key.sender != "" && (key in locks ==> locks[key].until < ops[j].now);
    SlotIsKey(chain, ops[j].op, ops[j].op);
    LockIsHolders(chain, ops, j, ops[j].op);
    hide StateAt, Succeeds, KeyOf, SameSlot, NamesNobody, Holds;
  }

  /** Over any run: the holder's release succeeds if and only if its slot has not been released or
      taken over since; no clock plays a part. */
  lemma ReleaseSucceedsExactly(chain: Drafts.Chain, ops: seq<Timed<Op>>, i: nat, j: nat)
    requires i < j < |ops| && TokensFresh(ops) && ops[i].op.Acquire? && Succeeds(chain, ops, i)
    requires ops[j].op.Release? && SameSlot(chain, ops[j].op, ops[i].op)
    requires ops[j].op.token == ops[i].op.token != ""
    ensures Succeeds(chain, ops, j) <==> Holds(chain, ops, i, j, ops[i].op)
  {
    var locks, key := StateAt(chain, ops, j), KeyOf(chain, ops[j].op);
    assert key.sender == KeyOf(chain, ops[i].op).sender != "" by {
      SlotIsKey(chain, ops[j].op, ops[i].op);
    }
    assert Succeeds(chain, ops, j) <==> key in locks && locks[key].token == ops[j].op.token;
    SlotIsKey(chain, ops[j].op, ops[i].op);
    LockIsHolders(chain, ops, j, ops[i].op);
    hide StateAt, Succeeds, KeyOf, SameSlot, TokensFresh;
    if key in locks && !Holds(chain, ops, i, j, ops[i].op) {
      var h: nat :| Holds(chain, ops, h, j, ops[i].op);
      if h < i {
        TokensDiffer(ops, h, i);
      } else {
        TokensDiffer(ops, i, h);
      }
    }
  }
}
