/** The answer of the line-item selection for every list of lines, said of the positions of the
    lines: which line is in force, which is pending, which ended last. */
module SelectionDecisions {
  import opened Options
  import opened BillingLedger
  import opened GoogleSelection

  predicate Ahead(line: Line, now: int) { line.Line? && line.expiry.Some? && now < line.expiry.value }

  predicate Open(line: Line) { line.Line? && line.expiry.None? }

  ghost predicate Allowlisted(productId: string, planId: string) {
    exists tier :: tier in CATALOG && tier.productId == productId && tier.planId == planId
  }

  ghost predicate OnlyAhead(lines: seq<Line>, now: int, k: nat) {
    k < |lines| && Ahead(lines[k], now) && forall j :: 0 <= j < |lines| && j != k ==> !Ahead(lines[j], now)
  }

  ghost predicate NoneAhead(lines: seq<Line>, now: int) {
    forall j :: 0 <= j < |lines| ==> !Ahead(lines[j], now)
  }

  ghost predicate NoneOpen(lines: seq<Line>) {
    forall j :: 0 <= j < |lines| ==> !Open(lines[j])
  }

  // ----- filters by position -----

  lemma {:induction false} KeepsNone(lines: seq<Line>, keep: Line -> bool)
    requires forall j :: 0 <= j < |lines| ==> !keep(lines[j])
    ensures Filter(lines, keep) == []
  {
    if lines != [] {
      KeepsNone(lines[..|lines| - 1], keep);
    }
  }

  lemma {:induction false} KeepsOne(lines: seq<Line>, keep: Line -> bool, k: nat)
    requires k < |lines| && keep(lines[k]) && forall j :: 0 <= j < |lines| && j != k ==> !keep(lines[j])
    ensures Filter(lines, keep) == [lines[k]]
  {
    var shorter := lines[..|lines| - 1];
    if k == |lines| - 1 {
      KeepsNone(shorter, keep);
    } else {
      KeepsOne(shorter, keep, k);
    }
  }

  lemma {:induction false} KeepsSome(lines: seq<Line>, keep: Line -> bool, k: nat)
    requires k < |lines| && keep(lines[k])
    ensures |Filter(lines, keep)| >= 1
  {
    if k < |lines| - 1 {
      KeepsSome(lines[..|lines| - 1], keep, k);
    }
  }

  lemma {:induction false} KeepsTwo(lines: seq<Line>, keep: Line -> bool, i: nat, j: nat)
    requires i < j < |lines| && keep(lines[i]) && keep(lines[j])
    ensures |Filter(lines, keep)| >= 2
  {
    var shorter := lines[..|lines| - 1];
    if j == |lines| - 1 {
      KeepsSome(shorter, keep, i);
    } else {
      KeepsTwo(shorter, keep, i, j);
    }
  }

  // ----- bad lines -----

  /** What makes a line unusable, and the error it is reported with. */
  lemma LineErrorExactly(line: Line)
    ensures LineError(line) ==
            if !line.Line? then Some(InvalidLineItem)
            else if !Allowlisted(line.productId, line.planId) then Some(NotAllowlisted)
            else if line.autoPlan.None? || line.prepaid then Some(NotAutoRenewing)
            else None
    ensures line.Line? && LineError(line).None? ==>
              TierOf(line) in CATALOG && TierOf(line).productId == line.productId && TierOf(line).planId == line.planId
  {
    if line.Line? {
      AllowlistedExactly(line.productId, line.planId);
    }
    hide CatalogTier;
  }

  lemma AllowlistedExactly(productId: string, planId: string)
    ensures CatalogTier(productId, planId).Some? <==> Allowlisted(productId, planId)
  {
    hide CATALOG;
    var found := Lookup(CATALOG, productId, planId);
    if tier :| tier in CATALOG && tier.productId == productId && tier.planId == planId {
      var k :| 0 <= k < |CATALOG| && CATALOG[k] == tier;
    }
  }

  /** The first unusable line decides the error, whatever the others are. */
  lemma FirstBadLineIsReported(lines: seq<Line>, now: int, k: nat)
    requires k < |lines| && LineError(lines[k]).Some? && forall j :: 0 <= j < k ==> LineError(lines[j]).None?
    ensures Select(lines, now) == Err(LineError(lines[k]).value)
  {
    hide LineError, Schedule, Finish, Latest, Filter;
    assert forall j :: 0 <= j < k ==> lines[..k][j] == lines[j];
    ErrorAt(lines, k);
  }

  // ----- usable lines -----

  lemma SeveralAheadAreRefused(lines: seq<Line>, now: int, i: nat, j: nat)
    requires AllUsable(lines) && i < j < |lines| && Ahead(lines[i], now) && Ahead(lines[j], now)
    ensures Select(lines, now) == Err(ManyCurrentTiers)
  {
    KeepsTwo(lines, IsCurrent(now), i, j);
    hide LineError, Schedule, Finish, Latest, Filter;
  }

  /** What the chosen line says it replaces, if anything, must be allowlisted. */
  ghost function Checked(line: Line, selected: Selected): Result<Selected, SelectionError>
    requires line.Line?
  {
    match line.replacement
    case NoReplacement => Ok(selected)
    case BadReplacement => Err(InvalidReplacement)
    case Replaces(productId, planId, mode) =>
      if !Allowlisted(productId, planId) then Err(ReplacedNotAllowlisted)
      else Ok(if mode == "" then selected else selected.(mode := mode))
  }

  lemma FinishIsChecked(line: Line, scheduled: Option<Tier>, effectiveAt: Option<int>, mode: string)
    requires Usable(line)
    ensures Finish(line, scheduled, effectiveAt, mode) ==
            Checked(line, Selected(TierOf(line), line, scheduled, effectiveAt, mode))
  {
    hide CatalogTier, LineError, Allowlisted;
    if line.replacement.Replaces? {
      AllowlistedExactly(line.replacement.productId, line.replacement.planId);
    }
  }

  /** With one line in force it is the current tier; nothing else may be pending, unless it is the
      one other line that this one defers to, of a lower tier. */
  lemma OneAheadIsSelected(lines: seq<Line>, now: int, k: nat)
    requires AllUsable(lines) && OnlyAhead(lines, now, k)
    ensures var line := lines[k]; var plain := Selected(TierOf(line), line, None, None, "");
            Select(lines, now) ==
            match line.deferred
            case BadDeferral => Err(InvalidDeferral)
            case NoDeferral => if NoneOpen(lines) then Checked(line, plain) else Err(MissingLinkage)
            case DeferredTo(productId) =>
              if |lines| != 2 || !Open(lines[1 - k]) || lines[1 - k].productId != productId
                then Err(UnidentifiedDeferral)
              else
                var next := lines[1 - k];
                if TierOf(next).rank >= TierOf(line).rank then Err(NotALowerTier)
                else if next.replacement.BadReplacement? then Err(InvalidReplacement)
                else if next.replacement.Replaces? && next.replacement.mode != "" && next.replacement.mode != "DEFERRED"
                  then Err(NotDeferred)
                else Checked(line, Selected(TierOf(line), line, Some(TierOf(next)), line.expiry, "DEFERRED"))
  {
    hide Filter, Usable, TierOf, Checked, Finish, Schedule, Select;
    var line := lines[k];
    var target := IsTarget(DeferralTarget(line));
    KeepsOne(lines, IsCurrent(now), k);
    FilteredIsUsable(lines, target);
    SelectCurrent(lines, now, line);
    PendingIsOpen(lines);
    if line.deferred.DeferredTo? && |lines| == 2 {
      TargetExactly(lines, now, k, line.deferred.productId);
    }
    ScheduleExactly(lines, k, Filter(lines, IsPending()), Filter(lines, target));
    FinishIsChecked(line, None, None, "");
    if line.deferred.DeferredTo? && |lines| == 2 {
      FinishIsChecked(line, Some(TierOf(lines[1 - k])), line.expiry, "DEFERRED");
    }
  }

  /** What the line in force schedules, once its target is located. */
  lemma ScheduleExactly(lines: seq<Line>, k: nat, pending: seq<Line>, targets: seq<Line>)
    requires AllUsable(lines) && k < |lines| && AllUsable(targets) && (pending == [] <==> NoneOpen(lines))
    requires lines[k].deferred.DeferredTo? && |lines| == 2 ==>
               targets == if Open(lines[1 - k]) && lines[1 - k].productId == lines[k].deferred.productId
                          then [lines[1 - k]] else []
    ensures var line := lines[k];
            Schedule(line, |lines|, pending, targets) ==
            match line.deferred
            case BadDeferral => Err(InvalidDeferral)
            case NoDeferral => if NoneOpen(lines) then Ok((None, None, "")) else Err(MissingLinkage)
            case DeferredTo(productId) =>
              if |lines| != 2 || !Open(lines[1 - k]) || lines[1 - k].productId != productId
                then Err(UnidentifiedDeferral)
              else
                var next := lines[1 - k];
                if TierOf(next).rank >= TierOf(line).rank then Err(NotALowerTier)
                else if next.replacement.BadReplacement? then Err(InvalidReplacement)
                else if next.replacement.Replaces? && next.replacement.mode != "" && next.replacement.mode != "DEFERRED"
                  then Err(NotDeferred)
                else Ok((Some(TierOf(next)), line.expiry, "DEFERRED"))
  {
    hide Usable, TierOf, NoneOpen;
  }

  lemma PendingIsOpen(lines: seq<Line>)
    ensures Filter(lines, IsPending()) == [] <==> NoneOpen(lines)
  {
    if NoneOpen(lines) {
      KeepsNone(lines, IsPending());
    } else {
      var j: nat :| j < |lines| && Open(lines[j]);
      KeepsSome(lines, IsPending(), j);
    }
  }

  lemma TargetExactly(lines: seq<Line>, now: int, k: nat, productId: string)
    requires OnlyAhead(lines, now, k) && |lines| == 2
    ensures Filter(lines, IsTarget(productId)) ==
            if Open(lines[1 - k]) && lines[1 - k].productId == productId then [lines[1 - k]] else []
  {
    if Open(lines[1 - k]) && lines[1 - k].productId == productId {
      KeepsOne(lines, IsTarget(productId), 1 - k);
    } else {
      KeepsNone(lines, IsTarget(productId));
    }
  }

  /** With nothing in force a pending line must be the only line. */
  lemma PendingMustBeAlone(lines: seq<Line>, now: int, k: nat)
    requires AllUsable(lines) && NoneAhead(lines, now) && k < |lines| && Open(lines[k])
    ensures Select(lines, now) ==
            if |lines| == 1 then Checked(lines[k], Selected(TierOf(lines[k]), lines[k], None, None, ""))
            else Err(AmbiguousPending)
  {
    KeepsNone(lines, IsCurrent(now));
    KeepsSome(lines, IsPending(), k);
    FinishIsChecked(lines[k], None, None, "");
    hide LineError, Schedule, Finish, Latest, Filter, Checked;
  }

  /** With only ended lines the first of those that ended last is selected. */
  lemma EndedIsSelected(lines: seq<Line>, now: int, k: nat)
    requires AllUsable(lines) && NoneAhead(lines, now) && NoneOpen(lines) && EndsLast(lines, k)
    ensures Select(lines, now) == Checked(lines[k], Selected(TierOf(lines[k]), lines[k], None, None, ""))
  {
    KeepsNone(lines, IsCurrent(now));
    KeepsNone(lines, IsPending());
    LatestEndsLast(lines);
    var at: nat :| EndsLast(lines, at) && Latest(lines) == lines[at];
    assert at == k;
    FinishIsChecked(lines[k], None, None, "");
    hide LineError, Schedule, Finish, Latest, Filter, Checked;
  }

  // ----- the request -----

  /** Every answer of the verification, and what each field of the request comes from. */
  lemma RequestDecides(p: Payload, c: Context)
    ensures var selected := Select(p.lines, c.selectNow);
            if c.token == "" || 4096 < |c.token| then Request(p, c) == Err(BadToken)
            else match selected
              case Err(e) => Request(p, c) == Err(NotSelected(e))
              case Ok(s) =>
                var expected := c.expected == "" || c.expected == s.current.productId
                                || (s.scheduled.Some? && c.expected == s.scheduled.value.productId);
                var owned := p.accountToken != "" && p.accountToken == c.tokenOf(c.account);
                && (Request(p, c) == Err(WrongProduct) <==> !expected)
                && (Request(p, c) == Err(WrongAccount) <==> expected && !owned)
                && (Request(p, c) == Err(TestPurchase) <==> expected && owned && p.testPurchase && !c.allowTest)
                && (Request(p, c).Ok? <==> expected && owned && (p.testPurchase ==> c.allowTest))
                && (Request(p, c).Ok? ==> CarriesSelection(Request(p, c).value, p, c, s))
  {
    hide Select, NormalizedStatus, CATALOG;
    if Select(p.lines, c.selectNow).Ok? {
      SelectionIsSound(p.lines, c.selectNow);
    }
  }

  /** The request writes the selected tier until its line ends, renewing when its plan does and
      canceled at the end when it does not or the user has canceled. */
  predicate CarriesSelection(q: GoogleRequest, p: Payload, c: Context, s: Selected) {
    && s.line.Line?
    && q.account == c.account && q.linkedId == p.linkedToken
    && q.update.provider.GooglePlay? && q.update.purchaseId == c.token && q.update.originalId.None?
    && q.update.productId == s.current.productId && q.update.planId == s.current.planId
    && q.update.quantity == s.current.quantity && q.update.bytes == 50 * 1024 * 1024 * 1024 * s.current.quantity
    && q.update.status == NormalizedStatus(p.state, s.line.expiry, c.stateNow)
    && (q.update.autoRenewing <==> s.line.autoPlan == Some(true))
    && (q.update.cancelAtPeriodEnd <==> p.state.CanceledState? || s.line.autoPlan != Some(true))
    && q.update.periodEnd == s.line.expiry && q.update.eventAt == Some(c.eventAt)
    && match s.scheduled
       case None => q.scheduled.None?
       case Some(next) =>
         s.line.expiry.Some?
         && q.scheduled == Some(Scheduled(next.productId, next.planId, 50 * 1024 * 1024 * 1024 * next.quantity,
                                          s.line.expiry.value))
  }
}
