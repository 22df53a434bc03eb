/** Exactly which alerts a full rebuild leaves, said of the dates the vault holds, with conflict
    clauses that repeat the predicates of the indexes. */
module AlertContents {
  import opened Options
  import opened ExpiryAlerts

  /** The window is the least of those that are wide enough for so many days. */
  predicate IsWindow(window: int, days: int, windows: seq<int>) {
    && 0 <= days <= window && window in windows
    && forall w :: w in windows && days <= w ==> window <= w
  }

  /** Critical in the narrowest window of a kind, informational in the widest, a warning between. */
  predicate IsSeverity(severity: Severity, window: int, windows: seq<int>) {
    if forall w :: w in windows ==> window <= w then severity.Critical?
    else if forall w :: w in windows ==> w <= window then severity.Info?
    else severity.Warning?
  }

  /** The date of a document that counts for alerts of this kind. A contract counts its renewal when
      the field is there at all, even if it holds no date. */
  predicate DatedBy(doc: Doc, kind: ExpiryType, day: int) {
    || (doc.docType.PassportDoc? && kind.Passport? && doc.expiry == On(day))
    || (doc.docType.VisaDoc? && kind.Visa? && doc.expiry == On(day))
    || (doc.docType.IdCardDoc? && kind.IdCard? && doc.expiry == On(day))
    || (doc.docType.DriverLicenseDoc? && kind.DriverLicense? && doc.expiry == On(day))
    || (doc.docType.InsuranceDoc? && kind.Insurance? && doc.expiry == On(day))
    || ((doc.docType.ContractDoc? || doc.docType.AgreementDoc?) && kind.Contract?
        && (doc.renewal == On(day) || (doc.renewal.Absent? && doc.expiry == On(day))))
    || (doc.docType.TaxDoc? && kind.Tax? && doc.due == On(day))
  }

  /** The vault calls for an alert under this key, for this day. */
  ghost predicate CallsFor(v: Vault, key: Key, day: int) {
    match key
    case FileKey(file, kind, window) =>
      && file != "" && file in v.docs && DatedBy(v.docs[file], kind, day)
      && IsWindow(window, day - v.today, Windows(kind))
    case ItemKey(_, _, _) => false
    case SourceKey(source, kind, due, window) =>
      && day == due && IsWindow(window, day - v.today, Windows(kind))
      && ((source.Inheritance? && kind.InheritanceTransfer? && day in v.transfers)
          || (source.Memory? && kind.Custom? && day in v.memories))
  }

  // ----- one date -----

  lemma WindowsNarrow(kind: ExpiryType)
    ensures var windows := Windows(kind);
            && windows != [] && Descending(windows)
            && (forall i, j :: 0 <= i < j < |windows| ==> windows[i] != windows[j])
            && forall w :: w in windows ==> 0 < w <= 3650
  {}

  lemma SeverityExactly(window: int, windows: seq<int>)
    requires windows != [] && Descending(windows) && |windows| >= 2 && windows[0] != windows[|windows| - 1]
    requires window in windows
    ensures SeverityForWindow(window, windows).Some?
    ensures forall s :: IsSeverity(s, window, windows) <==> SeverityForWindow(window, windows) == Some(s)
  {
    var least, greatest := windows[|windows| - 1], windows[0];
    assert least in windows && greatest in windows;
    assert forall w :: w in windows ==> least <= w <= greatest;
  }

  lemma WindowExactly(days: int, windows: seq<int>, window: int)
    ensures WindowFor(days, windows) == Some(window) <==> IsWindow(window, days, windows)
  {}

  lemma SeveralWindows(kind: ExpiryType)
    ensures |Windows(kind)| >= 2
  {}

  /** A date yields the spec of its window, or none when it has passed or is too far ahead. */
  lemma MakeAlertExactly(source: Source, file: Option<string>, kind: ExpiryType, day: int, today: int, s: Spec)
    ensures MakeAlert(source, file, kind, day, today) == Some(s) <==>
            && s.source == source && s.file == file && s.item.None? && s.kind == kind && s.day == day
            && IsWindow(s.window, day - today, Windows(kind)) && IsSeverity(s.severity, s.window, Windows(kind))
  {
    WindowsNarrow(kind);
    SeveralWindows(kind);
    var window := WindowFor(day - today, Windows(kind));
    WindowExactly(day - today, Windows(kind), s.window);
    if window.Some? {
      WindowExactly(day - today, Windows(kind), window.value);
      SeverityExactly(window.value, Windows(kind));
    }
    hide Windows, WindowFor, SeverityForWindow, IsWindow, IsSeverity;
  }

  ghost predicate Describes(s: Spec, source: Source, file: Option<string>, today: int) {
    && s.source == source && s.file == file && s.item.None?
    && IsWindow(s.window, s.day - today, Windows(s.kind)) && IsSeverity(s.severity, s.window, Windows(s.kind))
  }

  lemma FileSpecsExactly(file: string, doc: Doc, today: int, s: Spec)
    ensures s in FileSpecs(file, doc, today) <==>
            DatedBy(doc, s.kind, s.day) && Describes(s, UploadedFile, Some(file), today)
  {
    hide Windows, MakeAlert, IsWindow, IsSeverity;
    MakeAlertExactly(UploadedFile, Some(file), s.kind, s.day, today, s);
    FieldYields(file, Passport, doc.expiry, today, s);
    FieldYields(file, Visa, doc.expiry, today, s);
    FieldYields(file, IdCard, doc.expiry, today, s);
    FieldYields(file, DriverLicense, doc.expiry, today, s);
    FieldYields(file, Insurance, doc.expiry, today, s);
    FieldYields(file, Contract, doc.expiry, today, s);
    FieldYields(file, Contract, doc.renewal, today, s);
    FieldYields(file, Tax, doc.due, today, s);
    hide FromField, Describes;
  }

  lemma FieldYields(file: string, kind: ExpiryType, field: Field, today: int, s: Spec)
    ensures s in FromField(file, kind, field, today) <==>
            s.kind == kind && field == On(s.day) && Describes(s, UploadedFile, Some(file), today)
  {
    hide Windows, MakeAlert, IsWindow, IsSeverity;
    if field.On? {
      var made := MakeAlert(UploadedFile, Some(file), kind, field.day, today);
      MakeAlertExactly(UploadedFile, Some(file), kind, field.day, today, s);
      if made.Some? {
        MakeAlertExactly(UploadedFile, Some(file), kind, field.day, today, made.value);
      }
    }
  }

  lemma {:induction false} DateSpecsExactly(source: Source, kind: ExpiryType, days: seq<int>, today: int, s: Spec)
    ensures s in DateSpecs(source, kind, days, today) <==>
            s.kind == kind && s.day in days && Describes(s, source, None, today)
  {
    hide Windows, MakeAlert, IsWindow, IsSeverity, Describes;
    if days != [] {
      var shorter, last := days[..|days| - 1], days[|days| - 1];
      assert days == shorter + [last];
      DateSpecsExactly(source, kind, shorter, today, s);
      LastYields(source, kind, last, today, s);
    }
  }

  lemma LastYields(source: Source, kind: ExpiryType, day: int, today: int, s: Spec)
    ensures MakeAlert(source, None, kind, day, today) == Some(s) <==>
            s.kind == kind && s.day == day && Describes(s, source, None, today)
  {
    hide Windows, MakeAlert, IsWindow, IsSeverity;
    MakeAlertExactly(source, None, kind, day, today, s);
  }

  // ----- the whole table -----

  lemma DetectedExactly(v: Vault, s: Spec)
    ensures Detected(v, s) <==>
            match s.source
            case UploadedFile =>
              && s.file.Some? && s.file.value in v.docs && DatedBy(v.docs[s.file.value], s.kind, s.day)
              && Describes(s, UploadedFile, s.file, v.today)
            case VaultItem => false
            case Inheritance =>
              s.kind == InheritanceTransfer && s.day in v.transfers && Describes(s, Inheritance, None, v.today)
            case Memory => s.kind == Custom && s.day in v.memories && Describes(s, Memory, None, v.today)
  {
    hide FileSpecs, Describes, DatedBy, DateSpecs;
    match s.source
    case UploadedFile =>
      if s.file.Some? && s.file.value in v.docs {
        FileSpecsExactly(s.file.value, v.docs[s.file.value], v.today, s);
      }
    case VaultItem =>
    case Inheritance => DateSpecsExactly(Inheritance, InheritanceTransfer, v.transfers, v.today, s);
    case Memory => DateSpecsExactly(Memory, Custom, v.memories, v.today, s);
  }

  /** A spec with a named file is always acceptable: nothing that is detected is dropped. */
  lemma DescribedIsAcceptable(s: Spec, source: Source, file: Option<string>, today: int)
    requires Describes(s, source, file, today)
    ensures Acceptable(s) <==>
            match source
            case UploadedFile => file.Some? && file.value != ""
            case VaultItem => false
            case _ => file.None?
  {
    WindowsNarrow(s.kind);
    hide Windows, IsSeverity;
  }

  lemma WritesExactly(v: Vault, s: Spec, key: Key)
    requires Detected(v, s) && Writes(s, key)
    ensures CallsFor(v, key, s.day) && IsSeverity(s.severity, WindowOf(key), Windows(KindOf(key)))
  {
    DetectedExactly(v, s);
    hide Windows, IsWindow, IsSeverity, DatedBy, Detected;
  }

  function WindowOf(key: Key): int {
    match key
    case FileKey(_, _, window) => window
    case ItemKey(_, _, window) => window
    case SourceKey(_, _, _, window) => window
  }

  function KindOf(key: Key): ExpiryType {
    match key
    case FileKey(_, kind, _) => kind
    case ItemKey(_, kind, _) => kind
    case SourceKey(_, kind, _, _) => kind
  }

  function SpecFor(key: Key, day: int, severity: Severity): Spec {
    match key
    case FileKey(file, kind, window) => Spec(UploadedFile, Some(file), None, kind, day, window, severity)
    case ItemKey(item, kind, window) => Spec(VaultItem, None, Some(item), kind, day, window, severity)
    case SourceKey(source, kind, _, window) => Spec(source, None, None, kind, day, window, severity)
  }

  lemma CalledForIsWritten(v: Vault, key: Key, day: int, severity: Severity)
    requires CallsFor(v, key, day) && IsSeverity(severity, WindowOf(key), Windows(KindOf(key)))
    ensures var s := SpecFor(key, day, severity);
            Detected(v, s) && Writes(s, key) && AlertOf(s) == Alert(day, severity, Active)
  {
    var s := SpecFor(key, day, severity);
    DetectedExactly(v, s);
    assert Describes(s, s.source, s.file, v.today);
    DescribedIsAcceptable(s, s.source, s.file, v.today);
    hide Windows, IsWindow, IsSeverity, DatedBy, Detected;
  }

  lemma SomeSeverity(window: int, windows: seq<int>) returns (severity: Severity)
    ensures IsSeverity(severity, window, windows)
  {
    if forall w :: w in windows ==> window <= w {
      severity := Critical;
    } else if forall w :: w in windows ==> w <= window {
      severity := Info;
    } else {
      severity := Warning;
    }
  }

  /** After a rebuild an alert is there exactly when a date of the vault calls for it, with that day,
      the severity of its window, and active: whatever the table held before. */
  lemma RebuiltHoldsExactly(t: Alerts, v: Vault, walk: seq<string>, key: Key)
    requires IsWalk(v, walk)
    ensures var after := Rebuilt(Qualified, t, v, walk);
            && (key in after <==> exists day :: CallsFor(v, key, day))
            && (key in after ==>
                  && CallsFor(v, key, after[key].day) && after[key].status == Active
                  && IsSeverity(after[key].severity, WindowOf(key), Windows(KindOf(key))))
  {
    hide Rebuilt, Windows, IsSeverity, CallsFor, Detected, Writes;
    RebuiltFits(t, v, walk, key);
    var after := Rebuilt(Qualified, t, v, walk);
    if key in after {
      var s :| Detected(v, s) && Writes(s, key);
      WritesExactly(v, s, key);
    }
    if day :| CallsFor(v, key, day) {
      var severity := SomeSeverity(WindowOf(key), Windows(KindOf(key)));
      CalledForIsWritten(v, key, day, severity);
    }
  }
}
