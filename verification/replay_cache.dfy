/** The bounded nonce cache of the billing bridge against an unbounded log of every accepted
    nonce, and the acceptance window of an authenticated request. */
module ReplayCache {
  import opened Options

  const MAX_CLOCK_SKEW := 60
  const MAX_REQUEST_BYTES := 8192

  datatype Entry = Entry(nonce: string, seenAt: int)

  // ----- what the cache stands for -----

  ghost predicate Ordered(log: seq<Entry>) {
    forall i, j :: 0 <= i < j < |log| ==> log[i].seenAt <= log[j].seenAt
  }

  predicate Recent(e: Entry, now: int) {
    e.seenAt >= now - MAX_CLOCK_SKEW
  }

  /** entries are exactly the log entries among its last capacity that are still recent. */
  ghost predicate IsTail(entries: seq<Entry>, log: seq<Entry>, capacity: nat, now: int) {
    && |entries| <= capacity && |entries| <= |log| && entries == log[|log| - |entries|..]
    && forall i :: 0 <= i < |log| ==>
         (|log| - |entries| <= i <==> |log| - capacity <= i && Recent(log[i], now))
  }

  /** The rule the cache must agree with: one of the last capacity accepted nonces is the same
      and was seen no more than the clock skew ago. */
  ghost predicate SeenRecently(log: seq<Entry>, capacity: nat, nonce: string, now: int) {
    exists i :: 0 <= i < |log| && |log| - capacity <= i
                && log[i].nonce == nonce && Recent(log[i], now)
  }

  /** A nonce is forgotten exactly when its acceptances all lie more than a minute or at least
      capacity acceptances back. */
  lemma ForgottenExactly(log: seq<Entry>, capacity: nat, nonce: string, now: int)
    ensures !SeenRecently(log, capacity, nonce, now) <==>
            forall i :: 0 <= i < |log| && log[i].nonce == nonce ==> now > log[i].seenAt + 60 || |log| - i > capacity
  {}

  predicate Holds(entries: seq<Entry>, nonce: string) {
    exists i :: 0 <= i < |entries| && entries[i].nonce == nonce
  }

  lemma HoldsIsSeenRecently(entries: seq<Entry>, log: seq<Entry>, capacity: nat, nonce: string, now: int)
    requires IsTail(entries, log, capacity, now)
    ensures Holds(entries, nonce) <==> SeenRecently(log, capacity, nonce, now)
  {
    var cut := |log| - |entries|;
    if SeenRecently(log, capacity, nonce, now) {
      var i :| 0 <= i < |log| && |log| - capacity <= i && log[i].nonce == nonce && Recent(log[i], now);
      assert entries[i - cut].nonce == nonce;
    }
    if Holds(entries, nonce) {
      var i :| 0 <= i < |entries| && entries[i].nonce == nonce;
      assert log[cut + i].nonce == nonce && Recent(log[cut + i], now);
    }
  }

  // ----- the log of accepted claims -----

  /** Every entry was accepted by the rule, against the entries before it. */
  ghost predicate AcceptedLog(log: seq<Entry>, capacity: nat) {
    && Ordered(log)
    && forall j :: 0 <= j < |log| ==> !SeenRecently(log[..j], capacity, log[j].nonce, log[j].seenAt)
  }

  lemma AcceptedLogGrows(log: seq<Entry>, capacity: nat, e: Entry)
    requires AcceptedLog(log, capacity) && !SeenRecently(log, capacity, e.nonce, e.seenAt)
    requires forall i :: 0 <= i < |log| ==> log[i].seenAt <= e.seenAt
    ensures Ordered(log + [e]) && AcceptedLog(log + [e], capacity)
  {
    var longer := log + [e];
    assert longer[..|log|] == log;
    forall j | 0 <= j < |longer|
      ensures !SeenRecently(longer[..j], capacity, longer[j].nonce, longer[j].seenAt)
    {
      if j < |log| {
        assert longer[..j] == log[..j];
      }
    }
  }

  /** A nonce accepted at t1 is accepted again by t1 + 60 only after capacity more acceptances. */
  lemma RepeatsAreSpaced(log: seq<Entry>, capacity: nat, p: nat, q: nat)
    requires AcceptedLog(log, capacity) && p < q < |log|
    requires log[p].nonce == log[q].nonce && log[q].seenAt <= log[p].seenAt + MAX_CLOCK_SKEW
    ensures q - p > capacity
  {
    assert log[..q][p] == log[p];
    assert !SeenRecently(log[..q], capacity, log[q].nonce, log[q].seenAt);
  }

  /** These capacity accepted nonces all differ from nonce and from one another. */
  ghost predicate FullTurnover(entries: seq<Entry>, capacity: nat, nonce: string) {
    && |entries| == capacity
    && (forall i :: 0 <= i < |entries| ==> entries[i].nonce != nonce)
    && (forall i, j :: 0 <= i < j < |entries| ==> entries[i].nonce != entries[j].nonce)
  }

  /** More: between the two acceptances the whole cache was turned over by other nonces. */
  lemma {:induction false} RepeatNeedsTurnover(log: seq<Entry>, capacity: nat, p: nat, q: nat)
    returns (k: nat)
    requires AcceptedLog(log, capacity) && p < q < |log|
    requires log[p].nonce == log[q].nonce && log[q].seenAt <= log[p].seenAt + MAX_CLOCK_SKEW
    ensures p <= k && k + 1 + capacity <= q
    ensures FullTurnover(log[k + 1..k + 1 + capacity], capacity, log[p].nonce)
    decreases q - p
  {
    if k' :| p < k' < q && log[k'].nonce == log[p].nonce {
      k := RepeatNeedsTurnover(log, capacity, k', q);
    } else {
      k := p;
      RepeatsAreSpaced(log, capacity, p, q);
      var between := log[k + 1..k + 1 + capacity];
      forall i, j | 0 <= i < j < |between|
        ensures between[i].nonce != between[j].nonce
      {
        if between[i].nonce == between[j].nonce {
          RepeatsAreSpaced(log, capacity, k + 1 + i, k + 1 + j);
        }
      }
    }
  }

  // ----- the acceptance window -----

  predicate InWindow(issuedAt: int, now: int) {
    -MAX_CLOCK_SKEW <= now - issuedAt <= MAX_CLOCK_SKEW
  }

  /** A request stamped no later than the clock that first received it is not accepted twice
      unless the cache was turned over in between. */
  lemma StampedRequestAcceptedOnce(log: seq<Entry>, capacity: nat, p: nat, q: nat, issuedAt: int)
    requires AcceptedLog(log, capacity) && p < q < |log| && log[p].nonce == log[q].nonce
    requires InWindow(issuedAt, log[p].seenAt) && InWindow(issuedAt, log[q].seenAt)
    requires issuedAt <= log[p].seenAt
    ensures q - p > capacity
  {
    RepeatsAreSpaced(log, capacity, p, q);
  }

  /** A stamp ahead of the clock, by whatever lead the window allows: the cache, whatever its
      capacity, accepts the nonce now and again when the window is about to close. */
  lemma AheadOfClockAcceptedTwice(nonce: string, issuedAt: int, t1: int, capacity: nat)
    requires InWindow(issuedAt, t1) && issuedAt > t1
    ensures InWindow(issuedAt, issuedAt + MAX_CLOCK_SKEW)
    ensures AcceptedLog([Entry(nonce, t1), Entry(nonce, issuedAt + MAX_CLOCK_SKEW)], capacity)
  {
    var log := [Entry(nonce, t1), Entry(nonce, issuedAt + MAX_CLOCK_SKEW)];
    assert log[..1] == [Entry(nonce, t1)];
  }

  /** One request, first accepted at t1, is accepted again: entries p and q of a log. */
  ghost predicate AcceptedAgain(log: seq<Entry>, capacity: nat, p: nat, q: nat, nonce: string, issuedAt: int, t1: int) {
    && AcceptedLog(log, capacity) && p < q < |log|
    && log[p] == Entry(nonce, t1) && log[q].nonce == nonce && InWindow(issuedAt, log[q].seenAt)
  }

  /** Exactly when: no log accepts a request twice within the cache's capacity if and only if the
      request was stamped no later than the clock that first accepted it. */
  lemma AcceptedOnceExactly(nonce: string, issuedAt: int, t1: int, capacity: nat)
    requires InWindow(issuedAt, t1) && capacity >= 1
    ensures (forall log: seq<Entry>, p: nat, q: nat ::
               AcceptedAgain(log, capacity, p, q, nonce, issuedAt, t1) ==> q - p > capacity) <==>
            issuedAt <= t1
  {
    if issuedAt <= t1 {
      forall log: seq<Entry>, p: nat, q: nat | AcceptedAgain(log, capacity, p, q, nonce, issuedAt, t1)
        ensures q - p > capacity
      {
        StampedRequestAcceptedOnce(log, capacity, p, q, issuedAt);
      }
    } else {
      AheadOfClockAcceptedTwice(nonce, issuedAt, t1, capacity);
      assert AcceptedAgain([Entry(nonce, t1), Entry(nonce, issuedAt + MAX_CLOCK_SKEW)], capacity, 0, 1, nonce,
        issuedAt, t1);
    }
  }

  // ----- the cache -----

  class NonceReplayCache {
    const capacity: nat
    /** The ordered dictionary, oldest entry first. */
    var nonces: seq<Entry>
    /** Every accepted claim so far, and the time of the latest claim. */
    ghost var log: seq<Entry>
    ghost var clock: int

    ghost predicate Valid()
      reads this
    {
      && Ordered(log) && AcceptedLog(log, capacity)
      && (forall i :: 0 <= i < |log| ==> log[i].seenAt <= clock)
      && IsTail(nonces, log, capacity, clock)
    }

    constructor (capacity: nat)
      ensures Valid() && log == [] && this.capacity == capacity
    {
      this.capacity := capacity;
      nonces := [];
      log := [];
      clock := 0;
    }

    /** The first loop of a claim: drop what has left the window. */
    method EvictExpired(ghost before: int, now: int)
      requires Ordered(log) && IsTail(nonces, log, capacity, before) && (log != [] ==> before <= now)
      modifies this`nonces
      ensures IsTail(nonces, log, capacity, now)
    {
      while nonces != [] && nonces[0].seenAt < now - MAX_CLOCK_SKEW
        invariant |nonces| <= |log| && nonces == log[|log| - |nonces|..]
        invariant forall i :: 0 <= i < |log| - |nonces| ==> !(|log| - capacity <= i && Recent(log[i], now))
        invariant |nonces| <= capacity
        decreases |nonces|
      {
        nonces := nonces[1..];
      }
    }

    /** The second loop: the newest entry is in, drop the oldest while there are too many. */
    method EvictOverflow(ghost now: int)
      requires log != [] && Ordered(log) && Recent(log[|log| - 1], now)
      requires nonces != [] && IsTail(nonces[..|nonces| - 1], log[..|log| - 1], capacity, now)
      requires nonces[|nonces| - 1] == log[|log| - 1]
      modifies this`nonces
      ensures IsTail(nonces, log, capacity, now)
    {
      ghost var init := log[..|log| - 1];
      assert forall i :: 0 <= i < |init| ==> log[i] == init[i];
      while |nonces| > capacity
        invariant |nonces| <= |log| && nonces == log[|log| - |nonces|..]
        invariant |nonces| <= capacity + 1
        invariant forall i :: 0 <= i < |log| - |nonces| ==> !(|log| - capacity <= i && Recent(log[i], now))
        invariant forall i :: |log| - |nonces| <= i < |log| ==> Recent(log[i], now)
      {
        nonces := nonces[1..];
      }
    }

    method Claim(nonce: string, now: int) returns (accepted: bool)
      requires Valid() && (log != [] ==> clock <= now)
      modifies this
      ensures Valid() && clock == now
      ensures accepted <==> !SeenRecently(old(log), capacity, nonce, now)
      ensures log == if accepted then old(log) + [Entry(nonce, now)] else old(log)
    {
      hide AcceptedLog, SeenRecently, IsTail;
      EvictExpired(clock, now);
      clock := now;
      HoldsIsSeenRecently(nonces, log, capacity, nonce, now);
      if Holds(nonces, nonce) {
        return false;
      }
      AcceptedLogGrows(log, capacity, Entry(nonce, now));
      ghost var kept := nonces;
      nonces := nonces + [Entry(nonce, now)];
      log := log + [Entry(nonce, now)];
      assert nonces[..|nonces| - 1] == kept && log[..|log| - 1] == old(log);
      EvictOverflow(now);
      return true;
    }
  }

  // ----- authentication -----

  /** A request as the checks see it: its size, whether timestamp, nonce and signature are all
      there and well formed, the parsed stamp, and whether the signature is the expected one. */
  datatype Request = Request(
    bodyBytes: nat, complete: bool, issuedAt: Option<int>, nonce: string, signed: bool)

  datatype AuthResult =
    | Authenticated | BodyTooLarge | Incomplete | BadTimestamp | OutsideWindow | BadSignature | Replayed

  /** The checks made before the replay cache is asked. */
  predicate Admissible(r: Request, now: int) {
    && r.bodyBytes <= MAX_REQUEST_BYTES && r.complete
    && r.issuedAt.Some? && InWindow(r.issuedAt.value, now) && r.signed
  }

  method AuthenticateRequest(r: Request, cache: NonceReplayCache, now: int) returns (result: AuthResult)
    requires cache.Valid() && (cache.log != [] ==> cache.clock <= now)
    modifies cache
    ensures cache.Valid()
    ensures result == Authenticated <==>
            Admissible(r, now) && !SeenRecently(old(cache.log), cache.capacity, r.nonce, now)
    ensures result == Replayed <==>
            Admissible(r, now) && SeenRecently(old(cache.log), cache.capacity, r.nonce, now)
    ensures result == BodyTooLarge <==> 8192 < r.bodyBytes
    ensures result == Incomplete <==> r.bodyBytes <= 8192 && !r.complete
    ensures result == BadTimestamp <==> r.bodyBytes <= 8192 && r.complete && r.issuedAt.None?
    ensures result == OutsideWindow <==>
            r.bodyBytes <= 8192 && r.complete && r.issuedAt.Some?
            && (r.issuedAt.value + 60 < now || now + 60 < r.issuedAt.value)
    ensures result == BadSignature <==>
            r.bodyBytes <= 8192 && r.complete && r.issuedAt.Some?
            && r.issuedAt.value - 60 <= now <= r.issuedAt.value + 60 && !r.signed
    ensures cache.log == if result == Authenticated then old(cache.log) + [Entry(r.nonce, now)] else old(cache.log)
    ensures !Admissible(r, now) ==> unchanged(cache)
  {
    if r.bodyBytes > MAX_REQUEST_BYTES {
      return BodyTooLarge;
    }
    if !r.complete {
      return Incomplete;
    }
    if r.issuedAt == None {
      return BadTimestamp;
    }
    var skew := now - r.issuedAt.value;
    if (if skew < 0 then -skew else skew) > MAX_CLOCK_SKEW {
      return OutsideWindow;
    }
    if !r.signed {
      return BadSignature;
    }
    var accepted := cache.Claim(r.nonce, now);
    return if accepted then Authenticated else Replayed;
  }
}
