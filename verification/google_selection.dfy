/** Google Play storage tiers: the allowlisted catalog, the choice of one current tier from a
    subscription's line items, and the ledger request built from it. */
module GoogleSelection {
  import opened Options
  import opened Text
  import opened BillingLedger

  // ----- catalog -----

  datatype Tier = Tier(productId: string, planId: string, rank: nat, quantity: nat) {
    function Bytes(): int { 53_687_091_200 * quantity }
  }

  const MONTHLY := "monthly-auto"

  const CATALOG: seq<Tier> := [
    Tier("svaultai_storage_50gb", MONTHLY, 1, 1), Tier("svaultai_storage_100gb", MONTHLY, 2, 2),
    Tier("svaultai_storage_150gb", MONTHLY, 3, 3), Tier("svaultai_storage_200gb", MONTHLY, 4, 4),
    Tier("svaultai_storage_250gb", MONTHLY, 5, 5), Tier("svaultai_storage_300gb", MONTHLY, 6, 6),
    Tier("svaultai_storage_500gb", MONTHLY, 7, 10), Tier("svaultai_storage_1tb", MONTHLY, 8, 20)]

  function Lookup(tiers: seq<Tier>, productId: string, planId: string): (found: Option<Tier>)
    ensures found.Some? ==> found.value in tiers && found.value.productId == productId && found.value.planId == planId
    ensures found.None? ==>
              forall k :: 0 <= k < |tiers| ==> !(tiers[k].productId == productId && tiers[k].planId == planId)
  {
    if tiers == [] then None
    else if tiers[0].productId == productId && tiers[0].planId == planId then Some(tiers[0])
    else Lookup(tiers[1..], productId, planId)
  }

  function CatalogTier(productId: string, planId: string): Option<Tier> {
    Lookup(CATALOG, productId, planId)
  }

  /** A lower rank means fewer bytes, and every tier has a product, a plan and some bytes. */
  lemma RankOrdersBytes(a: Tier, b: Tier)
    requires a in CATALOG && b in CATALOG
    ensures a.rank < b.rank <==> a.Bytes() < b.Bytes()
    ensures a.productId != "" && a.planId != "" && a.quantity >= 1 && a.Bytes() > 0
  {
    var i, j :| 0 <= i < 8 && 0 <= j < 8 && CATALOG[i] == a && CATALOG[j] == b;
    CatalogShape(i);
    CatalogShape(j);
    var quantities := [1, 2, 3, 4, 5, 6, 10, 20];
    assert forall k :: 0 <= k < 7 ==> quantities[k] < quantities[k + 1];
  }

  lemma CatalogShape(i: nat)
    requires i < 8
    ensures CATALOG[i].rank == i + 1 && CATALOG[i].quantity == [1, 2, 3, 4, 5, 6, 10, 20][i]
    ensures CATALOG[i].productId != "" && CATALOG[i].planId != ""
  {
    assert CATALOG[i].productId[0] == 's' && CATALOG[i].planId[0] == 'm';
  }

  // ----- line items -----

  datatype Deferred = NoDeferral | BadDeferral | DeferredTo(productId: string)

  /** An item replacement; mode is the upper-cased replacement mode, empty when absent. */
  datatype Replacement = NoReplacement | BadReplacement | Replaces(productId: string, planId: string, mode: string)

  datatype Line = NotAnItem | Line(
    productId: string, planId: string, autoPlan: Option<bool>, prepaid: bool,
    expiry: Option<int>, deferred: Deferred, replacement: Replacement)

  datatype SelectionError =
    | NoLineItems | InvalidLineItem | NotAllowlisted | NotAutoRenewing | ManyCurrentTiers | InvalidDeferral
    | UnidentifiedDeferral | NotALowerTier | InvalidReplacement | NotDeferred | MissingLinkage | AmbiguousPending
    | ReplacedNotAllowlisted

  datatype Selected = Selected(
    current: Tier, line: Line, scheduled: Option<Tier>, effectiveAt: Option<int>, mode: string)

  function LineError(line: Line): Option<SelectionError> {
    if line.NotAnItem? then Some(InvalidLineItem)
    else if CatalogTier(line.productId, line.planId).None? then Some(NotAllowlisted)
    else if line.autoPlan.None? || line.prepaid then Some(NotAutoRenewing)
    else None
  }

  predicate Usable(line: Line)
    ensures Usable(line) ==> line.Line?
  {
    LineError(line).None?
  }

  function TierOf(line: Line): (tier: Tier)
    requires Usable(line)
    ensures tier in CATALOG && tier.productId == line.productId && tier.planId == line.planId
  {
    CatalogTier(line.productId, line.planId).value
  }

  predicate AllUsable(lines: seq<Line>) {
    forall k :: 0 <= k < |lines| ==> Usable(lines[k])
  }

  function FirstError(lines: seq<Line>): Option<SelectionError>
    ensures FirstError(lines).None? <==> AllUsable(lines)
  {
    if lines == [] then None
    else if LineError(lines[0]).Some? then LineError(lines[0])
    else FirstError(lines[1..])
  }

  function Filter(lines: seq<Line>, keep: Line -> bool): (kept: seq<Line>)
    ensures forall k :: 0 <= k < |kept| ==> kept[k] in lines && keep(kept[k])
    ensures |kept| <= |lines|
  {
    if lines == [] then []
    else Filter(lines[..|lines| - 1], keep) + if keep(lines[|lines| - 1]) then [lines[|lines| - 1]] else []
  }

  function IsCurrent(now: int): Line -> bool {
    (line: Line) => line.Line? && line.expiry.Some? && line.expiry.value > now
  }

  function IsPending(): Line -> bool {
    (line: Line) => line.Line? && line.expiry.None?
  }

  function IsTarget(productId: string): Line -> bool {
    (line: Line) => line.Line? && line.expiry.None? && line.productId == productId
  }

  predicate NotLater(a: Line, b: Line) {
    a.Line? && b.Line? && (a.expiry.Some? && b.expiry.Some? ==> a.expiry.value <= b.expiry.value)
  }

  /** The first line with the greatest expiry. */
  function Latest(lines: seq<Line>): (latest: Line)
    requires lines != []
    ensures latest in lines
  {
    if |lines| == 1 then lines[0]
    else
      var before, last := Latest(lines[..|lines| - 1]), lines[|lines| - 1];
      if NotLater(last, before) then before else last
  }

  // ----- selection -----

  /** What the current line defers to: the scheduled tier, its start and the mode. */
  function Schedule(line: Line, count: nat, pending: seq<Line>, targets: seq<Line>):
    Result<(Option<Tier>, Option<int>, string), SelectionError>
    requires Usable(line) && AllUsable(targets)
  {
    match line.deferred
    case NoDeferral => if pending != [] then Err(MissingLinkage) else Ok((None, None, ""))
    case BadDeferral => Err(InvalidDeferral)
    case DeferredTo(_) =>
      if count != 2 || |targets| != 1 then Err(UnidentifiedDeferral)
      else if TierOf(targets[0]).rank >= TierOf(line).rank then Err(NotALowerTier)
      else if targets[0].replacement.BadReplacement? then Err(InvalidReplacement)
      else if targets[0].replacement.Replaces? && targets[0].replacement.mode !in {"", "DEFERRED"} then Err(NotDeferred)
      else Ok((Some(TierOf(targets[0])), line.expiry, "DEFERRED"))
  }

  /** The check of what the current line itself replaces. */
  function Finish(line: Line, scheduled: Option<Tier>, effectiveAt: Option<int>, mode: string):
    Result<Selected, SelectionError>
    requires Usable(line)
  {
    match line.replacement
    case NoReplacement => Ok(Selected(TierOf(line), line, scheduled, effectiveAt, mode))
    case BadReplacement => Err(InvalidReplacement)
    case Replaces(productId, planId, named) =>
      if CatalogTier(productId, planId).None? then Err(ReplacedNotAllowlisted)
      else Ok(Selected(TierOf(line), line, scheduled, effectiveAt, if named == "" then mode else named))
  }

  function DeferralTarget(line: Line): string {
    if line.Line? && line.deferred.DeferredTo? then line.deferred.productId else ""
  }

  function Select(lines: seq<Line>, now: int): Result<Selected, SelectionError> {
    var current := Filter(lines, IsCurrent(now));
    var pending := Filter(lines, IsPending());
    if lines == [] then Err(NoLineItems)
    else if FirstError(lines).Some? then Err(FirstError(lines).value)
    else if |current| > 1 then Err(ManyCurrentTiers)
    else if |current| == 1 then
      var targets := Filter(lines, IsTarget(DeferralTarget(current[0])));
      match Schedule(current[0], |lines|, pending, targets)
      case Err(e) => Err(e)
      case Ok((scheduled, effectiveAt, mode)) => Finish(current[0], scheduled, effectiveAt, mode)
    else if pending != [] then
      if |lines| != 1 || |pending| != 1 then Err(AmbiguousPending) else Finish(pending[0], None, None, "")
    else Finish(Latest(lines), None, None, "")
  }

  // ----- the worker -----

  method KeptLines(lines: seq<Line>, keep: Line -> bool) returns (kept: seq<Line>)
    ensures kept == Filter(lines, keep)
  {
    kept := [];
    for i := 0 to |lines|
      invariant kept == Filter(lines[..i], keep)
    {
      assert lines[..i + 1][..i] == lines[..i];
      if keep(lines[i]) {
        kept := kept + [lines[i]];
      }
    }
    assert lines[..|lines|] == lines;
  }

  method LatestLine(lines: seq<Line>) returns (latest: Line)
    requires lines != []
    ensures latest == Latest(lines)
  {
    latest := lines[0];
    assert lines[..1] == [lines[0]];
    for i := 1 to |lines|
      invariant latest == Latest(lines[..i])
    {
      assert lines[..i + 1][..i] == lines[..i];
      if !NotLater(lines[i], latest) {
        latest := lines[i];
      }
    }
    assert lines[..|lines|] == lines;
  }

  lemma {:induction false} ErrorAt(lines: seq<Line>, i: nat)
    requires i < |lines| && AllUsable(lines[..i]) && LineError(lines[i]).Some?
    ensures FirstError(lines) == LineError(lines[i])
  {
    if i > 0 {
      assert lines[..i][0] == lines[0];
      assert lines[1..][..i - 1] == lines[..i][1..];
      ErrorAt(lines[1..], i - 1);
    }
  }

  method ParseLines(lines: seq<Line>) returns (bad: Option<SelectionError>)
    ensures bad == FirstError(lines)
  {
    hide LineError;
    for i := 0 to |lines|
      invariant AllUsable(lines[..i])
    {
      if LineError(lines[i]).Some? {
        ErrorAt(lines, i);
        return LineError(lines[i]);
      }
    }
    assert lines[..|lines|] == lines;
    return None;
  }

  /** Parses every line, splits them by expiry and selects, in the order the server does. */
  method SelectEntitlement(lines: seq<Line>, now: int) returns (r: Result<Selected, SelectionError>)
    ensures r == Select(lines, now)
  {
    hide LineError, FirstError, Filter, IsCurrent, IsPending, IsTarget, Latest, Finish, Schedule, CatalogTier;
    if lines == [] {
      return Err(NoLineItems);
    }
    var bad := ParseLines(lines);
    if bad.Some? {
      return Err(bad.value);
    }
    var current := KeptLines(lines, IsCurrent(now));
    var pending := KeptLines(lines, IsPending());
    if |current| > 1 {
      return Err(ManyCurrentTiers);
    }
    if current != [] {
      var targets := KeptLines(lines, IsTarget(DeferralTarget(current[0])));
      var scheduled := Schedule(current[0], |lines|, pending, targets);
      if scheduled.Err? {
        return Err(scheduled.error);
      }
      return Finish(current[0], scheduled.value.0, scheduled.value.1, scheduled.value.2);
    }
    if pending != [] {
      if |lines| != 1 || |pending| != 1 {
        return Err(AmbiguousPending);
      }
      return Finish(pending[0], None, None, "");
    }
    var latest := LatestLine(lines);
    return Finish(latest, None, None, "");
  }

  // ----- what a selection names -----

  lemma ScheduleIsLower(line: Line, count: nat, pending: seq<Line>, targets: seq<Line>)
    requires Usable(line) && AllUsable(targets)
    ensures match Schedule(line, count, pending, targets)
            case Err(_) => true
            case Ok((scheduled, effectiveAt, mode)) =>
              (scheduled.Some? <==> line.deferred.DeferredTo?)
              && (scheduled.None? ==> effectiveAt.None? && pending == [])
              && (scheduled.Some? ==>
                    scheduled.value in CATALOG && scheduled.value.rank < TierOf(line).rank
                      && effectiveAt == line.expiry && count == 2)
  {
    hide CatalogTier;
  }

  lemma FinishKeeps(line: Line, scheduled: Option<Tier>, effectiveAt: Option<int>, mode: string)
    requires Usable(line)
    ensures match Finish(line, scheduled, effectiveAt, mode)
            case Err(_) => true
            case Ok(s) =>
              && s.current == TierOf(line) && s.line == line && s.scheduled == scheduled
              && s.effectiveAt == effectiveAt && ReplacementAllowed(line)
  {}

  /** What the line replaces, if anything, is an allowlisted tier too. */
  predicate ReplacementAllowed(line: Line) {
    line.Line? && (line.replacement.NoReplacement?
                   || (line.replacement.Replaces?
                       && CatalogTier(line.replacement.productId, line.replacement.planId).Some?))
  }

  /** A successful selection names one allowlisted tier, from one of the lines; when any line
      is in force it is that line, and the only one; and whatever is scheduled is an
      allowlisted tier of lower rank and fewer bytes that starts when the current line ends. */
  lemma SelectionIsSound(lines: seq<Line>, now: int)
    requires Select(lines, now).Ok?
    ensures var s := Select(lines, now).value;
            && AllUsable(lines) && s.line in lines && s.current in CATALOG && s.current == TierOf(s.line)
            && ReplacementAllowed(s.line)
            && (IsPending()(s.line) ==> |lines| == 1)
            && (forall line :: line in lines && IsCurrent(now)(line) ==> line == s.line)
            && (s.scheduled.Some? <==> IsCurrent(now)(s.line) && s.line.deferred.DeferredTo?)
            && (s.scheduled.Some? ==>
                  && s.scheduled.value in CATALOG && s.scheduled.value.rank < s.current.rank
                  && s.scheduled.value.Bytes() < s.current.Bytes()
                  && s.effectiveAt.Some? && s.effectiveAt == s.line.expiry && s.effectiveAt.value > now && |lines| == 2)
  {
    hide LineError, CatalogTier, Schedule, Finish, Latest, FirstError, ReplacementAllowed;
    var current := Filter(lines, IsCurrent(now));
    FilterKeepsAll(lines, IsCurrent(now));
    if |current| == 1 {
      assert current[0] in lines;
      var targets := Filter(lines, IsTarget(DeferralTarget(current[0])));
      var pending := Filter(lines, IsPending());
      ScheduleIsLower(current[0], |lines|, pending, targets);
      var scheduled := Schedule(current[0], |lines|, pending, targets).value;
      FinishKeeps(current[0], scheduled.0, scheduled.1, scheduled.2);
      if scheduled.0.Some? {
        RankOrdersBytes(scheduled.0.value, TierOf(current[0]));
      }
      assert current == [current[0]];
      forall line | line in lines && IsCurrent(now)(line)
        ensures line == current[0]
      {
        assert line in current;
      }
    } else if Filter(lines, IsPending()) != [] {
      FinishKeeps(Filter(lines, IsPending())[0], None, None, "");
    } else {
      FinishKeeps(Latest(lines), None, None, "");
      FilterKeepsAll(lines, IsPending());
    }
  }

  /** A subscription of one usable line that defers and replaces nothing is selected as it is. */
  lemma SingleLineIsSelected(line: Line, now: int)
    requires Usable(line) && line.deferred == NoDeferral && line.replacement == NoReplacement
    ensures Select([line], now) == Ok(Selected(TierOf(line), line, None, None, ""))
  {
    hide LineError, CatalogTier;
    assert AllUsable([line]);
    assert [line][..0] == [];
    assert Filter([line], IsCurrent(now)) == Filter([], IsCurrent(now)) + if IsCurrent(now)(line) then [line] else [];
    assert Filter([line], IsPending()) == Filter([], IsPending()) + if IsPending()(line) then [line] else [];
  }

  lemma {:induction false} FilterKeepsAll(lines: seq<Line>, keep: Line -> bool)
    ensures forall line :: line in lines && keep(line) ==> line in Filter(lines, keep)
  {
    if lines != [] {
      FilterKeepsAll(lines[..|lines| - 1], keep);
      assert lines == lines[..|lines| - 1] + [lines[|lines| - 1]];
    }
  }

  // ----- the order of the lines -----

  lemma {:induction false} FilterCounts(lines: seq<Line>, keep: Line -> bool, line: Line)
    ensures multiset(Filter(lines, keep))[line] == if keep(line) then multiset(lines)[line] else 0
  {
    if lines != [] {
      FilterCounts(lines[..|lines| - 1], keep, line);
      assert lines == lines[..|lines| - 1] + [lines[|lines| - 1]];
    }
  }

  /** Reordering reorders what is kept; a single kept line stays the same line. */
  lemma FilterReordered(a: seq<Line>, b: seq<Line>, keep: Line -> bool)
    requires multiset(a) == multiset(b)
    ensures |Filter(a, keep)| == |Filter(b, keep)|
    ensures |Filter(a, keep)| <= 1 ==> Filter(a, keep) == Filter(b, keep)
  {
    var x, y := Filter(a, keep), Filter(b, keep);
    forall line: Line
      ensures multiset(x)[line] == multiset(y)[line]
    {
      FilterCounts(a, keep, line);
      FilterCounts(b, keep, line);
    }
    assert multiset(x) == multiset(y);
    assert |multiset(x)| == |x| && |multiset(y)| == |y|;
    if |x| == 1 {
      assert x[0] in multiset(y);
      assert x == [x[0]] && y == [y[0]];
    }
  }

  predicate SameOutcome(a: Result<Selected, SelectionError>, b: Result<Selected, SelectionError>) {
    a == b || (a.Err? && b.Err?)
  }

  lemma ReorderedIsUsable(a: seq<Line>, b: seq<Line>)
    requires multiset(a) == multiset(b)
    ensures AllUsable(a) <==> AllUsable(b)
    ensures |a| == |b|
  {
    hide Usable;
    assert |multiset(a)| == |a| && |multiset(b)| == |b|;
    assert forall line :: line in a <==> line in multiset(a);
    assert forall line :: line in b <==> line in multiset(b);
    assert AllUsable(a) <==> forall line :: line in a ==> Usable(line);
  }

  /** When some line is in force or pending, reordering usable lines changes nothing at all; and with
      unusable ones, of which the first is reported, it never turns a failure into a success. */
  lemma OrderDoesNotMatter(a: seq<Line>, b: seq<Line>, now: int)
    requires multiset(a) == multiset(b)
    requires exists line :: line in a && (IsCurrent(now)(line) || IsPending()(line))
    ensures AllUsable(a) ==> Select(a, now) == Select(b, now)
    ensures SameOutcome(Select(a, now), Select(b, now))
  {
    hide LineError, FirstError, IsCurrent, IsPending, IsTarget, Finish, Schedule, CatalogTier, Latest, Usable,
      AllUsable,
      Filter, Select;
    ReorderedIsUsable(a, b);
    SomeLineLeft(a, now);
    FilterReordered(a, b, IsCurrent(now));
    FilterReordered(a, b, IsPending());
    if AllUsable(a) {
      UsableOrderDoesNotMatter(a, b, now);
    } else {
      UnusableIsRefused(a, now);
      UnusableIsRefused(b, now);
    }
  }

  lemma SomeLineLeft(lines: seq<Line>, now: int)
    requires exists line :: line in lines && (IsCurrent(now)(line) || IsPending()(line))
    ensures Filter(lines, IsCurrent(now)) != [] || Filter(lines, IsPending()) != []
  {
    FilterKeepsAll(lines, IsCurrent(now));
    FilterKeepsAll(lines, IsPending());
    hide IsCurrent, IsPending, Filter;
  }

  lemma UnusableIsRefused(lines: seq<Line>, now: int)
    requires !AllUsable(lines)
    ensures Select(lines, now).Err?
  {
    hide LineError, IsCurrent, IsPending, Finish, Schedule, CatalogTier, Latest;
  }

  lemma UsableOrderDoesNotMatter(a: seq<Line>, b: seq<Line>, now: int)
    requires multiset(a) == multiset(b) && |a| == |b| && AllUsable(a) && AllUsable(b)
    requires |Filter(a, IsCurrent(now))| == |Filter(b, IsCurrent(now))|
    requires |Filter(a, IsCurrent(now))| <= 1 ==> Filter(a, IsCurrent(now)) == Filter(b, IsCurrent(now))
    requires |Filter(a, IsPending())| == |Filter(b, IsPending())|
    requires |Filter(a, IsPending())| <= 1 ==> Filter(a, IsPending()) == Filter(b, IsPending())
    requires Filter(a, IsCurrent(now)) != [] || Filter(a, IsPending()) != []
    ensures Select(a, now) == Select(b, now)
  {
    var current := Filter(a, IsCurrent(now));
    if |current| == 1 {
      assert current[0] in a && current[0] in b;
    }
    hide LineError, IsCurrent, IsPending, IsTarget, Finish, Schedule, CatalogTier, Latest, Usable, Filter;
    if |current| == 1 {
      var target := IsTarget(DeferralTarget(current[0]));
      FilterReordered(a, b, target);
      FilteredIsUsable(a, target);
      FilteredIsUsable(b, target);
      ScheduleReordered(current[0], |a|, Filter(a, IsPending()), Filter(b, IsPending()), Filter(a, target),
        Filter(b, target));
    }
  }

  lemma FilteredIsUsable(lines: seq<Line>, keep: Line -> bool)
    requires AllUsable(lines)
    ensures AllUsable(Filter(lines, keep))
  {
    hide Usable;
  }

  lemma ScheduleReordered(line: Line, count: nat, pending: seq<Line>, pending': seq<Line>, targets: seq<Line>,
    targets': seq<Line>)
    requires Usable(line) && AllUsable(targets) && AllUsable(targets')
    requires |pending| == |pending'| && |targets| == |targets'| && (|targets| <= 1 ==> targets == targets')
    ensures Schedule(line, count, pending, targets) == Schedule(line, count, pending', targets')
  {
    hide CatalogTier;
  }

  /** The line at this position ended last, and before it no line ended as late. */
  ghost predicate EndsLast(lines: seq<Line>, at: nat) {
    && at < |lines| && (forall k :: 0 <= k < |lines| ==> lines[k].Line? && lines[k].expiry.Some?)
    && (forall k :: 0 <= k < |lines| ==> lines[k].expiry.value <= lines[at].expiry.value)
    && (forall k :: 0 <= k < at ==> lines[k].expiry.value < lines[at].expiry.value)
  }

  /** With only ended lines the one that ended last is chosen, the first of them on a tie. */
  lemma {:induction false} LatestEndsLast(lines: seq<Line>)
    requires lines != [] && forall k :: 0 <= k < |lines| ==> lines[k].Line? && lines[k].expiry.Some?
    ensures exists at: nat :: EndsLast(lines, at) && Latest(lines) == lines[at]
  {
    if |lines| == 1 {
      assert EndsLast(lines, 0);
    } else {
      var shorter, last := lines[..|lines| - 1], lines[|lines| - 1];
      LatestEndsLast(shorter);
      var at: nat :| EndsLast(shorter, at) && Latest(shorter) == shorter[at];
      assert forall k :: 0 <= k < |shorter| ==> lines[k] == shorter[k];
      if NotLater(last, shorter[at]) {
        assert EndsLast(lines, at);
      } else {
        assert EndsLast(lines, |lines| - 1);
      }
    }
  }

  // ----- from a payload to the ledger -----

  datatype PlayState =
    | PendingState | ActiveState | Paused | InGracePeriod | OnHold | CanceledState | ExpiredState
    | PendingCanceled | PendingExpired | RevokedState | Unrecognized

  function NormalizedStatus(state: PlayState, expiry: Option<int>, now: int): Status {
    if expiry.Some? && expiry.value <= now then Expired
    else match state
      case PendingState => Pending
      case ActiveState => Active
      case Paused => Delinquent
      case InGracePeriod => GracePeriod
      case OnHold => Delinquent
      case CanceledState => Active
      case ExpiredState => Expired
      case PendingCanceled => Canceled
      case PendingExpired => Canceled
      case RevokedState => Revoked
      case Unrecognized => Pending
  }

  /** A line that has ended never grants; otherwise exactly these three states do. */
  lemma NormalizedGrantsExactly(state: PlayState, expiry: Option<int>, now: int)
    ensures Grants(NormalizedStatus(state, expiry, now)) <==>
            state in {ActiveState, InGracePeriod, CanceledState} && (expiry.None? || expiry.value > now)
  {}

  /** Each status comes from these states and no others. */
  lemma NormalizedStatusExactly(state: PlayState, expiry: Option<int>, now: int)
    ensures var s := NormalizedStatus(state, expiry, now);
            var runs := expiry.Some? ==> now < expiry.value;
            && (s == GracePeriod <==> runs && state == InGracePeriod)
            && (s == Active <==> runs && (state == ActiveState || state == CanceledState))
            && (s == Delinquent <==> runs && (state == OnHold || state == Paused))
            && (s == Canceled <==> runs && (state == PendingCanceled || state == PendingExpired))
            && (s == Revoked <==> runs && state == RevokedState)
            && (s == Pending <==> runs && (state == PendingState || state == Unrecognized))
            && (s == Expired <==> !runs || state == ExpiredState)
            && s != Reactivated && s != Refunded
  {}

  datatype Payload = Payload(
    lines: seq<Line>, accountToken: string, state: PlayState, testPurchase: bool, linkedToken: string)

  datatype VerifyError = BadToken | NotSelected(error: SelectionError) | WrongProduct | WrongAccount | TestPurchase

  /** Everything a verification reads beside the payload; tokenOf is the keyed account hash,
      and the clock is read twice, once to select and once to normalize the state. */
  datatype Context = Context(
    account: string, token: string, expected: string, tokenOf: string -> string, allowTest: bool,
    eventAt: int, selectNow: int, stateNow: int)

  /** The reconcile request a verified payload becomes. */
  function Request(p: Payload, c: Context): Result<GoogleRequest, VerifyError> {
    if c.token == "" || |c.token| > 4096 then Err(BadToken)
    else
      match Select(p.lines, c.selectNow)
      case Err(e) => Err(NotSelected(e))
      case Ok(s) =>
        if c.expected != "" && c.expected != s.current.productId
           && !(s.scheduled.Some? && c.expected == s.scheduled.value.productId) then Err(WrongProduct)
        else if p.accountToken == "" || p.accountToken != c.tokenOf(c.account) then Err(WrongAccount)
        else if p.testPurchase && !c.allowTest then Err(TestPurchase)
        else Ok(RequestFor(p, c, s))
  }

  function RequestFor(p: Payload, c: Context, s: Selected): GoogleRequest {
    var renews := s.line.Line? && s.line.autoPlan == Some(true);
    var expiry := if s.line.Line? then s.line.expiry else None;
    GoogleRequest(
      c.account,
      Update(GooglePlay, c.token, None, s.current.productId, s.current.planId, s.current.quantity, s.current.Bytes(),
             NormalizedStatus(p.state, expiry, c.stateNow), renews, p.state == CanceledState || !renews,
             expiry, Some(c.eventAt), false),
      p.linkedToken,
      if s.scheduled.Some? && s.effectiveAt.Some?
      then Some(Scheduled(s.scheduled.value.productId, s.scheduled.value.planId, s.scheduled.value.Bytes(),
        s.effectiveAt.value))
      else None)
  }

  /** A verified request always passes the ledger's size and identity checks, the lower-tier
      one included; it is refused as malformed exactly when it names no account, when it
      replaces itself, or when it schedules a tier while its own state does not grant. */
  lemma VerifiedRequestIsWellFormed(p: Payload, c: Context)
    requires Request(p, c).Ok?
    ensures var q := Request(p, c).value;
            && WellFormed(q.update) && q.update.provider == GooglePlay
            && (q.scheduled.Some? ==> q.scheduled.value.bytes < q.update.bytes)
            && (GoogleRequestValid(q) <==>
                  c.account != "" && Trim(p.linkedToken) != c.token && (q.scheduled.Some? ==> Grants(q.update.status)))
  {
    hide Select, Trim, CatalogTier, LineError;
    var s := Select(p.lines, c.selectNow).value;
    SelectionIsSound(p.lines, c.selectNow);
    RankOrdersBytes(s.current, s.current);
    if s.scheduled.Some? {
      RankOrdersBytes(s.scheduled.value, s.current);
    }
  }

  /** For a scheduled tier the state grants exactly in these three states, unless the current
      line ends between the two clock readings. */
  lemma ScheduledStateGrants(p: Payload, c: Context)
    requires Request(p, c).Ok? && Request(p, c).value.scheduled.Some?
    ensures var q := Request(p, c).value;
            && q.update.periodEnd.Some? && q.update.periodEnd.value == q.scheduled.value.effectiveAt
            && q.update.periodEnd.value > c.selectNow
            && (Grants(q.update.status) <==>
                  p.state in {ActiveState, InGracePeriod, CanceledState} && q.update.periodEnd.value > c.stateNow)
  {
    hide Select, Trim, CatalogTier, LineError;
    SelectionIsSound(p.lines, c.selectNow);
  }

  /** So a subscription on hold with a deferred downgrade is verified and then refused. */
  lemma DeferredOnHoldIsRefused(rows: seq<Row>, p: Payload, c: Context, now: int)
    requires Request(p, c).Ok? && Request(p, c).value.scheduled.Some? && p.state in {OnHold, Paused}
    ensures Reconciled(rows, Request(p, c).value, now) == Err(InvalidRequest)
  {
    hide Request, Trim, FindPurchase, OwnerRefuses, ReconciledRows;
    VerifiedRequestIsWellFormed(p, c);
    ScheduledStateGrants(p, c);
  }

  function DeferringLine(tier: Tier, successor: string, end: int): Line {
    Line(tier.productId, tier.planId, Some(true), false, Some(end), DeferredTo(successor), NoReplacement)
  }

  function ScheduledLine(tier: Tier): Line {
    Line(tier.productId, tier.planId, Some(true), false, None, NoDeferral, NoReplacement)
  }

  /** Every downgrade to a lower tier is selected: the current tier until it ends, then the lower one. */
  lemma DowngradeIsSelected(big: Tier, small: Tier, end: int, now: int)
    requires big in CATALOG && small in CATALOG && small.rank < big.rank && end > now
    ensures var current := DeferringLine(big, small.productId, end);
            Select([current, ScheduledLine(small)], now) == Ok(
              Selected(big, current, Some(small), Some(end), "DEFERRED"))
  {
    var current, next := DeferringLine(big, small.productId, end), ScheduledLine(small);
    DowngradeLinesSplit(big, small, end, now);
    DowngradeLinesUsable(big, small, end);
    hide Filter, Schedule, Finish, Usable, TierOf, DeferringLine, ScheduledLine, Select;
    SelectCurrent([current, next], now, current);
  }

  /** With one line in force the selection is what that line schedules, and then its own check. */
  lemma SelectCurrent(lines: seq<Line>, now: int, current: Line)
    requires AllUsable(lines) && Filter(lines, IsCurrent(now)) == [current] && Usable(current)
    requires AllUsable(Filter(lines, IsTarget(DeferralTarget(current))))
    ensures var targets := Filter(lines, IsTarget(DeferralTarget(current)));
            Select(lines, now) ==
            match Schedule(current, |lines|, Filter(lines, IsPending()), targets)
            case Err(e) => Err(e)
            case Ok((scheduled, effectiveAt, mode)) => Finish(current, scheduled, effectiveAt, mode)
  {
    assert lines != [];
    hide LineError, FirstError, IsCurrent, IsPending, IsTarget, Finish, Schedule, Latest, Usable, Filter,
      DeferralTarget;
  }

  lemma DowngradeLinesSplit(big: Tier, small: Tier, end: int, now: int)
    requires end > now
    ensures var current, next := DeferringLine(big, small.productId, end), ScheduledLine(small);
            && Filter([current, next], IsCurrent(now)) == [current] && Filter([current, next], IsPending()) == [next]
            && DeferralTarget(current) == small.productId
            && Filter([current, next], IsTarget(small.productId)) == [next]
  {
    var current, next := DeferringLine(big, small.productId, end), ScheduledLine(small);
    FilterTwo(current, next, IsCurrent(now));
    FilterTwo(current, next, IsPending());
    FilterTwo(current, next, IsTarget(small.productId));
    hide Filter;
  }

  lemma DowngradeLinesUsable(big: Tier, small: Tier, end: int)
    requires big in CATALOG && small in CATALOG && small.rank < big.rank
    ensures var current, next := DeferringLine(big, small.productId, end), ScheduledLine(small);
            && Usable(current) && Usable(next) && TierOf(current) == big && TierOf(next) == small
            && Schedule(current, 2, [next], [next]) == Ok((Some(small), Some(end), "DEFERRED"))
            && Finish(current, Some(small), Some(end), "DEFERRED")
               == Ok(Selected(big, current, Some(small), Some(end), "DEFERRED"))
  {
    CatalogFinds(big);
    CatalogFinds(small);
    hide CatalogTier;
  }

  /** The request writes one tier and schedules the other. */
  predicate NamesTiers(q: GoogleRequest, current: Tier, scheduled: Tier) {
    && q.update.productId == current.productId && q.update.planId == current.planId && q.update.bytes == current.Bytes()
    && q.scheduled.Some? && q.scheduled.value.productId == scheduled.productId
    && q.scheduled.value.planId == scheduled.planId && q.scheduled.value.bytes == scheduled.Bytes()
  }

  /** So payloads exist that are verified and then refused by the ledger. */
  lemma DeferredOnHoldExists(big: Tier, small: Tier, c: Context)
    requires big in CATALOG && small in CATALOG && small.rank < big.rank
    requires c.expected == "" && 0 < |c.token| <= 4096 && c.tokenOf(c.account) != ""
    ensures exists p: Payload :: p.state == OnHold && Request(p, c).Ok? && NamesTiers(Request(p, c).value, big, small)
  {
    var lines := [DeferringLine(big, small.productId, c.selectNow + 1), ScheduledLine(small)];
    var p := Payload(lines, c.tokenOf(c.account), OnHold, false, "");
    DowngradeIsSelected(big, small, c.selectNow + 1, c.selectNow);
    hide Select;
    assert p.state == OnHold && Request(p, c).Ok? && NamesTiers(Request(p, c).value, big, small);
  }

  lemma FilterTwo(a: Line, b: Line, keep: Line -> bool)
    ensures Filter([a, b], keep) == (if keep(a) then [a] else []) + (if keep(b) then [b] else [])
  {
    assert [a, b][..1] == [a] && [a][..0] == [];
    assert Filter([a], keep) == Filter([], keep) + if keep(a) then [a] else [];
  }

  /** Every entry is found under its own product and plan. */
  lemma CatalogFinds(tier: Tier)
    requires tier in CATALOG
    ensures CatalogTier(tier.productId, tier.planId) == Some(tier)
  {
    CatalogApart();
  }

  lemma CatalogApart()
    ensures forall i, j :: 0 <= i < j < 8 ==> CATALOG[i].productId != CATALOG[j].productId
  {
    assert forall i :: 0 <= i < 8 ==> |CATALOG[i].productId| > 18;
  }

  /** What an applied payload writes is an allowlisted tier with the catalog's own bytes. */
  lemma AppliedRowIsCatalogTier(rows: seq<Row>, p: Payload, c: Context, now: int)
    requires Request(p, c).Ok? && Reconciled(rows, Request(p, c).value, now).Ok?
    ensures var (after, outcome) := Reconciled(rows, Request(p, c).value, now).value;
            && outcome.id < |after|
            && (exists tier :: tier in CATALOG && after[outcome.id].productId == tier.productId
                               && after[outcome.id].planId == tier.planId && after[outcome.id].bytes == tier.Bytes())
            && after[outcome.id].purchaseId == c.token && after[outcome.id].account == c.account
  {
    hide Select, Request, Reconciled;
    RequestNamesTier(p, c);
    WrittenNamesTier(rows, Request(p, c).value, now);
  }

  lemma WrittenNamesTier(rows: seq<Row>, q: GoogleRequest, now: int)
    requires Reconciled(rows, q, now).Ok?
    ensures var (after, outcome) := Reconciled(rows, q, now).value;
            && outcome.id < |after|
            && after[outcome.id].productId == q.update.productId && after[outcome.id].planId == q.update.planId
            && after[outcome.id].bytes == q.update.bytes
            && after[outcome.id].purchaseId == q.update.purchaseId && after[outcome.id].account == q.account
  {
    hide Trim, OwnerRefuses, Swept, Superseded, OlderEvent, Live, OtherLive, SameOriginal, Grants, GoogleRequestValid;
  }

  lemma RequestNamesTier(p: Payload, c: Context)
    requires Request(p, c).Ok?
    ensures var q := Request(p, c).value;
            && q.account == c.account && q.update.purchaseId == c.token
            && exists tier :: tier in CATALOG && q.update.productId == tier.productId
                 && q.update.planId == tier.planId && q.update.bytes == tier.Bytes()
  {
    hide Select;
    SelectionIsSound(p.lines, c.selectNow);
  }

  /** A payload is accepted for one account only, as long as the account hash does not collide. */
  lemma PayloadBelongsToOneAccount(p: Payload, c: Context, d: Context)
    requires Request(p, c).Ok? && Request(p, d).Ok? && c.tokenOf == d.tokenOf
    requires forall a, b :: c.tokenOf(a) == c.tokenOf(b) ==> a == b
    ensures c.account == d.account
  {
    hide Select, RequestFor;
  }
}
