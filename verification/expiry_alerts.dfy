/** Expiry alerts: the window a date falls into, its severity, and the alert table that the
    per-source builders keep and a full rebuild recreates, under the unique indexes as migrated
    and the conflict clauses as written. Days are counted as integers. */
module ExpiryAlerts {
  import opened Options

  datatype Severity = Info | Warning | Critical

  function Rank(s: Severity): nat {
    match s case Info => 0 case Warning => 1 case Critical => 2
  }

  // ----- windows -----

  /** The least window of at least so many days. */
  function LeastAtLeast(days: int, windows: seq<int>): (w: Option<int>)
    ensures w.Some? ==> w.value in windows && days <= w.value && forall v :: v in windows && days <= v ==> w.value <= v
    ensures w.None? ==> forall v :: v in windows ==> v < days
  {
    if windows == [] then None
    else
      var rest := LeastAtLeast(days, windows[1..]);
      assert windows == [windows[0]] + windows[1..];
      if days <= windows[0] && (rest.None? || windows[0] <= rest.value) then Some(windows[0]) else rest
  }

  function Insert(x: int, sorted: seq<int>): seq<int> {
    if sorted == [] || x <= sorted[0] then [x] + sorted else [sorted[0]] + Insert(x, sorted[1..])
  }

  function Sorted(s: seq<int>): seq<int> {
    if s == [] then [] else Insert(s[0], Sorted(s[1..]))
  }

  ghost predicate Ascending(s: seq<int>) {
    forall i, j :: 0 <= i < j < |s| ==> s[i] <= s[j]
  }

  ghost predicate Descending(s: seq<int>) {
    forall i, j :: 0 <= i < j < |s| ==> s[i] >= s[j]
  }

  lemma {:induction false} InsertKeepsOrder(x: int, s: seq<int>)
    requires Ascending(s)
    ensures Ascending(Insert(x, s)) && forall v :: v in Insert(x, s) <==> v == x || v in s
  {
    if s != [] && x > s[0] {
      InsertKeepsOrder(x, s[1..]);
      var rest := Insert(x, s[1..]);
      assert s == [s[0]] + s[1..];
      forall k | 0 <= k < |rest|
        ensures s[0] <= rest[k]
      {
        assert rest[k] in rest;
      }
    }
  }

  lemma {:induction false} SortedIsOrdered(s: seq<int>)
    ensures Ascending(Sorted(s)) && forall v :: v in Sorted(s) <==> v in s
  {
    if s != [] {
      SortedIsOrdered(s[1..]);
      InsertKeepsOrder(s[0], Sorted(s[1..]));
      assert forall v :: v in s <==> v == s[0] || v in s[1..];
    }
  }

  function WindowFor(days: int, windows: seq<int>): Option<int> {
    if days < 0 then None else LeastAtLeast(days, windows)
  }

  /** Walks the windows upwards and takes the first that is wide enough. */
  method SelectWindow(days: int, windows: seq<int>) returns (window: Option<int>)
    ensures window == WindowFor(days, windows)
  {
    if days < 0 {
      return None;
    }
    var sorted := Sorted(windows);
    SortedIsOrdered(windows);
    for i := 0 to |sorted|
      invariant forall k :: 0 <= k < i ==> sorted[k] < days
    {
      if days <= sorted[i] {
        assert sorted[i] in windows && LeastAtLeast(days, windows).value in sorted;
        return Some(sorted[i]);
      }
    }
    return None;
  }

  function SeverityForWindow(window: int, windows: seq<int>): Option<Severity> {
    if window !in windows then None
    else if window == windows[|windows| - 1] then Some(Critical)
    else if window == windows[0] then Some(Info)
    else Some(Warning)
  }

  function SeverityOf(days: int, windows: seq<int>): Option<Severity> {
    var window := WindowFor(days, windows);
    if window.None? then None else SeverityForWindow(window.value, windows)
  }

  /** Fewer days left never give a milder severity, and never none where more days gave one. */
  lemma FewerDaysAreNoMilder(fewer: int, more: int, windows: seq<int>)
    requires Descending(windows) && 0 <= fewer <= more && SeverityOf(more, windows).Some?
    ensures SeverityOf(fewer, windows).Some?
    ensures Rank(SeverityOf(fewer, windows).value) >= Rank(SeverityOf(more, windows).value)
  {
    var a, b := WindowFor(fewer, windows), WindowFor(more, windows);
    assert a.Some? && a.value <= b.value;
    var i :| 0 <= i < |windows| && windows[i] == a.value;
    var j :| 0 <= j < |windows| && windows[j] == b.value;
    assert windows[|windows| - 1] <= windows[i] <= windows[0] && windows[|windows| - 1] <= windows[j] <= windows[0];
  }

  // ----- alerts -----

  datatype Source = UploadedFile | VaultItem | Inheritance | Memory

  datatype ExpiryType =
    | Passport | Visa | IdCard | DriverLicense | Insurance | Contract | Subscription | Tax | InheritanceTransfer
      | Custom

  function Windows(t: ExpiryType): seq<int> {
    match t
    case Passport => [365, 180, 90, 30]
    case Visa => [180, 90, 30, 7]
    case IdCard => [180, 90, 30]
    case DriverLicense => [180, 90, 30]
    case Insurance => [90, 30, 7]
    case Contract => [120, 60, 30]
    case Subscription => [60, 30, 7]
    case Tax => [90, 30, 7]
    case InheritanceTransfer => [30, 14, 7]
    case Custom => [60, 30, 7]
  }

  datatype Spec = Spec(
    source: Source, file: Option<string>, item: Option<int>, kind: ExpiryType, day: int, window: int,
      severity: Severity)

  datatype Status = Active | Dismissed | Expired | Resolved

  /** The columns an upsert conflicts on. */
  datatype Key =
    | FileKey(file: string, kind: ExpiryType, window: int)
    | ItemKey(item: int, kind: ExpiryType, window: int)
    | SourceKey(source: Source, kind: ExpiryType, day: int, window: int)

  datatype Alert = Alert(day: int, severity: Severity, status: Status)

  type Alerts = map<Key, Alert>

  /** The checks an upsert makes before it writes. */
  predicate Acceptable(s: Spec) {
    && 0 < s.window <= 3650
    && match s.source
       case UploadedFile => s.file.Some? && s.file.value != "" && s.item.None?
       case VaultItem => s.item.Some? && s.file.None?
       case _ => s.file.None? && s.item.None?
  }

  function KeyOf(s: Spec): Key
    requires Acceptable(s)
  {
    match s.source
    case UploadedFile => FileKey(s.file.value, s.kind, s.window)
    case VaultItem => ItemKey(s.item.value, s.kind, s.window)
    case _ => SourceKey(s.source, s.kind, s.day, s.window)
  }

  function AlertOf(s: Spec): Alert { Alert(s.day, s.severity, Active) }

  // ----- conflict clauses and the indexes they infer -----

  datatype Column = VaultId | SourceFileId | SourceItemId | TypeColumn | DateColumn | WindowColumn

  /** The predicate of a partial index. */
  datatype Partial = FileIdNotNull | ItemIdNotNull | SourceIs(source: Source)

  datatype Index = Index(columns: seq<Column>, partial: Option<Partial>)

  /** The four unique indexes of the table, all of them partial. */
  const INDEXES: seq<Index> := [
    Index([VaultId, SourceFileId, TypeColumn, WindowColumn], Some(FileIdNotNull)),
    Index([VaultId, SourceItemId, TypeColumn, WindowColumn], Some(ItemIdNotNull)),
    Index([VaultId, TypeColumn, DateColumn, WindowColumn], Some(SourceIs(Inheritance))),
    Index([VaultId, TypeColumn, DateColumn, WindowColumn], Some(SourceIs(Memory)))]

  /** Bare is what the code writes: the columns alone. Qualified repeats the index's predicate. */
  datatype Style = Bare | Qualified

  /** A conflict clause names its columns and, when qualified, a predicate. */
  function ClauseOf(style: Style, source: Source): Index {
    var columns := match source
      case UploadedFile => [VaultId, SourceFileId, TypeColumn, WindowColumn]
      case VaultItem => [VaultId, SourceItemId, TypeColumn, WindowColumn]
      case _ => [VaultId, TypeColumn, DateColumn, WindowColumn];
    var partial := match source
      case UploadedFile => FileIdNotNull
      case VaultItem => ItemIdNotNull
      case _ => SourceIs(source);
    Index(columns, if style == Bare then None else Some(partial))
  }

  /** A clause infers an index on its columns that is total, or partial with its predicate. */
  predicate Infers(clause: Index, index: Index) {
    clause.columns == index.columns && (index.partial.None? || index.partial == clause.partial)
  }

  predicate HasArbiter(style: Style, source: Source) {
    exists k :: 0 <= k < |INDEXES| && Infers(ClauseOf(style, source), INDEXES[k])
  }

  /** A clause finds an index exactly when it repeats the predicate; as written none does. */
  lemma ArbiterNeedsPredicate(style: Style, source: Source)
    ensures HasArbiter(style, source) <==> style == Qualified
  {
    var clause := ClauseOf(style, source);
    if style == Qualified {
      var k := match source case UploadedFile => 0 case VaultItem => 1 case Inheritance => 2 case Memory => 3;
      assert Infers(clause, INDEXES[k]);
    }
  }

  /** An acceptable spec whose clause infers no index makes the statement raise. */
  predicate Raises(style: Style, s: Spec) {
    Acceptable(s) && !HasArbiter(style, s.source)
  }

  predicate SomeRaises(style: Style, specs: seq<Spec>) {
    exists k :: 0 <= k < |specs| && Raises(style, specs[k])
  }

  function Upsert(t: Alerts, s: Spec): Alerts {
    if Acceptable(s) then t[KeyOf(s) := AlertOf(s)] else t
  }

  function UpsertAll(t: Alerts, specs: seq<Spec>): Alerts {
    if specs == [] then t else Upsert(UpsertAll(t, specs[..|specs| - 1]), specs[|specs| - 1])
  }

  /** A transaction that deletes and then upserts: a raise rolls it back to the table before. */
  function Committed(style: Style, before: Alerts, cleared: Alerts, specs: seq<Spec>): Alerts {
    if SomeRaises(style, specs) then before else UpsertAll(cleared, specs)
  }

  function MakeAlert(source: Source, file: Option<string>, kind: ExpiryType, day: int, today: int): Option<Spec> {
    var window := WindowFor(day - today, Windows(kind));
    if window.None? || SeverityForWindow(window.value, Windows(kind)).None? then None
    else Some(Spec(source, file, None, kind, day, window.value, SeverityForWindow(window.value, Windows(kind)).value))
  }

  // ----- what is detected -----

  /** A date field of a document: absent, present but not a date, or a day. */
  datatype Field = Absent | NotADate | On(day: int)

  datatype DocType =
    | PassportDoc | VisaDoc | IdCardDoc | DriverLicenseDoc | InsuranceDoc | ContractDoc | AgreementDoc | TaxDoc
      | OtherDoc

  datatype Doc = Doc(docType: DocType, expiry: Field, renewal: Field, due: Field)

  function FromField(file: string, kind: ExpiryType, field: Field, today: int): seq<Spec> {
    if !field.On? then []
    else
      match MakeAlert(UploadedFile, Some(file), kind, field.day, today)
      case Some(spec) => [spec]
      case None => []
  }

  function FileSpecs(file: string, doc: Doc, today: int): seq<Spec> {
    match doc.docType
    case PassportDoc => FromField(file, Passport, doc.expiry, today)
    case VisaDoc => FromField(file, Visa, doc.expiry, today)
    case IdCardDoc => FromField(file, IdCard, doc.expiry, today)
    case DriverLicenseDoc => FromField(file, DriverLicense, doc.expiry, today)
    case InsuranceDoc => FromField(file, Insurance, doc.expiry, today)
    case ContractDoc => FromField(file, Contract, if doc.renewal.Absent? then doc.expiry else doc.renewal, today)
    case AgreementDoc => FromField(file, Contract, if doc.renewal.Absent? then doc.expiry else doc.renewal, today)
    case TaxDoc => FromField(file, Tax, doc.due, today)
    case OtherDoc => []
  }

  /** One spec for every dated row of a source, in row order. */
  function DateSpecs(source: Source, kind: ExpiryType, days: seq<int>, today: int): seq<Spec> {
    if days == [] then []
    else
      DateSpecs(source, kind, days[..|days| - 1], today)
      + match MakeAlert(source, None, kind, days[|days| - 1], today)
        case Some(spec) => [spec]
        case None => []
  }

  /** What one vault holds on one day: documents by file, pending transfers, dated memories. */
  datatype Vault = Vault(docs: map<string, Doc>, transfers: seq<int>, memories: seq<int>, today: int)

  function InheritanceSpecs(v: Vault): seq<Spec> { DateSpecs(Inheritance, InheritanceTransfer, v.transfers, v.today) }

  function MemorySpecs(v: Vault): seq<Spec> { DateSpecs(Memory, Custom, v.memories, v.today) }

  ghost predicate InDocs(v: Vault, walk: seq<string>) {
    forall k :: 0 <= k < |walk| ==> walk[k] in v.docs
  }

  /** A walk over the documents visits each file with metadata once, in any order. */
  ghost predicate IsWalk(v: Vault, walk: seq<string>) {
    && InDocs(v, walk)
    && (forall file :: file in v.docs ==> file in walk)
  }

  function WalkSpecs(v: Vault, walk: seq<string>): seq<Spec>
    requires InDocs(v, walk)
  {
    if walk == [] then []
    else WalkSpecs(v, walk[..|walk| - 1]) + FileSpecs(walk[|walk| - 1], v.docs[walk[|walk| - 1]], v.today)
  }

  // ----- the builders -----

  datatype Job = File(file: string) | Transfers | Memories

  predicate OfFile(key: Key, file: string) { key.FileKey? && key.file == file }

  predicate OfSource(key: Key, source: Source) {
    match key
    case FileKey(_, _, _) => source == UploadedFile
    case ItemKey(_, _, _) => source == VaultItem
    case SourceKey(s, _, _, _) => source == s
  }

  function WithoutFile(t: Alerts, file: string): Alerts {
    map key | key in t && !OfFile(key, file) :: t[key]
  }

  function WithoutSource(t: Alerts, source: Source): Alerts {
    map key | key in t && !OfSource(key, source) :: t[key]
  }

  /** What a builder deletes before it upserts. */
  function Cleared(t: Alerts, job: Job): Alerts {
    match job
    case File(file) => WithoutFile(t, file)
    case Transfers => WithoutSource(t, Inheritance)
    case Memories => WithoutSource(t, Memory)
  }

  function JobSpecs(v: Vault, job: Job): seq<Spec> {
    match job
    case File(file) => if file in v.docs then FileSpecs(file, v.docs[file], v.today) else []
    case Transfers => InheritanceSpecs(v)
    case Memories => MemorySpecs(v)
  }

  /** A builder run with replacement. */
  function Built(style: Style, t: Alerts, v: Vault, job: Job): Alerts {
    Committed(style, t, Cleared(t, job), JobSpecs(v, job))
  }

  function BuiltAll(style: Style, t: Alerts, v: Vault, jobs: seq<Job>): Alerts {
    if jobs == [] then t else Built(style, BuiltAll(style, t, v, jobs[..|jobs| - 1]), v, jobs[|jobs| - 1])
  }

  function AllSpecs(v: Vault, walk: seq<string>): seq<Spec>
    requires InDocs(v, walk)
  {
    WalkSpecs(v, walk) + InheritanceSpecs(v) + MemorySpecs(v)
  }

  function Rebuilt(style: Style, t: Alerts, v: Vault, walk: seq<string>): Alerts
    requires InDocs(v, walk)
  {
    Committed(style, t, map[], AllSpecs(v, walk))
  }

  class AlertTable {
    const style: Style
    var alerts: Alerts

    constructor (style: Style, alerts: Alerts)
      ensures this.style == style && this.alerts == alerts
    {
      this.style := style;
      this.alerts := alerts;
    }

    /** Upserts inside a transaction; a statement that raises ends it, with nothing committed. */
    method UpsertEach(before: Alerts, specs: seq<Spec>)
      modifies this`alerts
      ensures alerts == Committed(style, before, old(alerts), specs)
    {
      for i := 0 to |specs|
        invariant alerts == UpsertAll(old(alerts), specs[..i])
        invariant forall k :: 0 <= k < i ==> !Raises(style, specs[k])
      {
        assert specs[..i + 1][..i] == specs[..i];
        if Acceptable(specs[i]) {
          if !HasArbiter(style, specs[i].source) {
            assert Raises(style, specs[i]);
            alerts := before;
            return;
          }
          alerts := alerts[KeyOf(specs[i]) := AlertOf(specs[i])];
        }
      }
      assert specs[..|specs|] == specs;
    }

    /** A file without metadata has its alerts deleted when replacing, and is skipped otherwise. */
    method BuildForFile(v: Vault, file: string, replace: bool)
      modifies this`alerts
      ensures replace ==> alerts == Built(style, old(alerts), v, File(file))
      ensures !replace ==> alerts == Committed(style, old(alerts), old(alerts), JobSpecs(v, File(file)))
    {
      var before := alerts;
      if replace {
        alerts := map key | key in alerts && !OfFile(key, file) :: alerts[key];
      }
      if file in v.docs {
        UpsertEach(before, FileSpecs(file, v.docs[file], v.today));
      }
    }

    method BuildForInheritance(v: Vault)
      modifies this`alerts
      ensures alerts == Built(style, old(alerts), v, Transfers)
    {
      var specs := DetectDates(Inheritance, InheritanceTransfer, v.transfers, v.today);
      var before := alerts;
      alerts := map key | key in alerts && !OfSource(key, Inheritance) :: alerts[key];
      UpsertEach(before, specs);
    }

    method BuildForMemory(v: Vault)
      modifies this`alerts
      ensures alerts == Built(style, old(alerts), v, Memories)
    {
      var specs := DetectDates(Memory, Custom, v.memories, v.today);
      var before := alerts;
      alerts := map key | key in alerts && !OfSource(key, Memory) :: alerts[key];
      UpsertEach(before, specs);
    }

    method Rebuild(v: Vault, walk: seq<string>)
      requires InDocs(v, walk)
      modifies this`alerts
      ensures alerts == Rebuilt(style, old(alerts), v, walk)
    {
      var specs := [];
      for i := 0 to |walk|
        invariant specs == WalkSpecs(v, walk[..i])
      {
        assert walk[..i + 1][..i] == walk[..i];
        specs := specs + FileSpecs(walk[i], v.docs[walk[i]], v.today);
      }
      assert walk[..|walk|] == walk;
      var transfers := DetectDates(Inheritance, InheritanceTransfer, v.transfers, v.today);
      var memories := DetectDates(Memory, Custom, v.memories, v.today);
      var before := alerts;
      alerts := map[];
      UpsertEach(before, specs + transfers + memories);
    }
  }

  method DetectDates(source: Source, kind: ExpiryType, days: seq<int>, today: int) returns (specs: seq<Spec>)
    ensures specs == DateSpecs(source, kind, days, today)
  {
    specs := [];
    for i := 0 to |days|
      invariant specs == DateSpecs(source, kind, days[..i], today)
    {
      assert days[..i + 1][..i] == days[..i];
      var spec := MakeAlert(source, None, kind, days[i], today);
      if spec.Some? {
        specs := specs + [spec.value];
      }
    }
    assert days[..|days|] == days;
  }

  // ----- incremental builds against a full rebuild -----

  function Owner(key: Key): Option<Job> {
    match key
    case FileKey(file, _, _) => Some(File(file))
    case ItemKey(_, _, _) => None
    case SourceKey(source, _, _, _) =>
      if source == Inheritance then Some(Transfers) else if source == Memory then Some(Memories) else None
  }

  predicate Writes(s: Spec, key: Key) { Acceptable(s) && KeyOf(s) == key }

  ghost predicate WrittenBy(specs: seq<Spec>, key: Key) {
    exists k :: 0 <= k < |specs| && Writes(specs[k], key)
  }

  /** Specs that write one key write the same alert. */
  ghost predicate Coherent(specs: seq<Spec>) {
    forall j, k, key :: 0 <= j < |specs| && 0 <= k < |specs| && Writes(specs[j], key) && Writes(specs[k], key) ==>
      AlertOf(specs[j]) == AlertOf(specs[k])
  }

  /** After upserting, a key some spec writes holds that spec's alert; others keep theirs. */
  lemma {:induction false} UpsertAllAt(t: Alerts, specs: seq<Spec>, key: Key)
    requires Coherent(specs)
    ensures var after := UpsertAll(t, specs);
            && (key in after <==> key in t || WrittenBy(specs, key))
            && (forall k :: 0 <= k < |specs| && Writes(specs[k], key) ==>
                key in after && after[key] == AlertOf(specs[k]))
            && (key in t && !WrittenBy(specs, key) ==> after[key] == t[key])
  {
    if specs != [] {
      var n := |specs| - 1;
      var shorter, last := specs[..n], specs[n];
      assert forall k :: 0 <= k < n ==> shorter[k] == specs[k];
      UpsertAllAt(t, shorter, key);
      assert WrittenBy(specs, key) <==> WrittenBy(shorter, key) || Writes(last, key);
    }
  }

  /** What a vault calls for: the specs some source of it yields today. */
  ghost predicate Detected(v: Vault, s: Spec) {
    match s.source
    case UploadedFile => s.file.Some? && s.file.value in v.docs
      && s in FileSpecs(s.file.value, v.docs[s.file.value], v.today)
    case VaultItem => false
    case Inheritance => s in InheritanceSpecs(v)
    case Memory => s in MemorySpecs(v)
  }

  /** The source a spec came from and the severity its window has. */
  predicate Sourced(s: Spec, source: Source, file: Option<string>) {
    && s.source == source && s.file == file && s.item.None?
    && Some(s.severity) == SeverityForWindow(s.window, Windows(s.kind))
  }

  lemma FileSpecsSourced(file: string, doc: Doc, today: int)
    ensures var specs := FileSpecs(file, doc, today);
            |specs| <= 1 && (|specs| == 1 ==> Sourced(specs[0], UploadedFile, Some(file)))
  {
    hide WindowFor, Windows, SeverityForWindow;
  }

  lemma {:induction false} DateSpecsSourced(source: Source, kind: ExpiryType, days: seq<int>, today: int)
    ensures forall s :: s in DateSpecs(source, kind, days, today) ==> Sourced(s, source, None)
  {
    hide WindowFor, Windows, SeverityForWindow;
    if days != [] {
      DateSpecsSourced(source, kind, days[..|days| - 1], today);
    }
  }

  lemma {:induction false} WalkDetects(v: Vault, walk: seq<string>, s: Spec)
    requires InDocs(v, walk)
    ensures s in WalkSpecs(v, walk) <==> s.source == UploadedFile && Detected(v, s) && s.file.value in walk
  {
    hide FileSpecs, Sourced, InheritanceSpecs, MemorySpecs;
    if walk != [] {
      var shorter, file := walk[..|walk| - 1], walk[|walk| - 1];
      WalkDetects(v, shorter, s);
      FileSpecsSourced(file, v.docs[file], v.today);
      SourcedFields(v, file, s);
      assert walk == shorter + [file];
    }
  }

  lemma SourcedFields(v: Vault, file: string, s: Spec)
    requires file in v.docs
    ensures s in FileSpecs(file, v.docs[file], v.today) ==> s.source == UploadedFile && s.file == Some(file)
  {
    FileSpecsSourced(file, v.docs[file], v.today);
  }

  /** A builder's specs are the detected ones whose keys it owns. */
  lemma JobDetects(v: Vault, job: Job, s: Spec)
    ensures s in JobSpecs(v, job) ==> Detected(v, s)
    ensures forall key :: Writes(s, key) && Detected(v, s) ==>
              (Owner(key) == Some(job) <==> s in JobSpecs(v, job)) && Owner(key).Some?
              && (Owner(key).value.File? ==> Owner(key).value.file in v.docs)
  {
    hide FileSpecs, WindowFor, Windows, SeverityForWindow;
    DateSpecsSourced(Inheritance, InheritanceTransfer, v.transfers, v.today);
    DateSpecsSourced(Memory, Custom, v.memories, v.today);
    if job.File? && job.file in v.docs {
      SourcedFields(v, job.file, s);
    }
  }

  lemma DetectedSeverity(v: Vault, s: Spec)
    requires Detected(v, s)
    ensures Some(s.severity) == SeverityForWindow(s.window, Windows(s.kind))
  {
    hide WindowFor, Windows, SeverityForWindow, FileSpecs;
    DateSpecsSourced(Inheritance, InheritanceTransfer, v.transfers, v.today);
    DateSpecsSourced(Memory, Custom, v.memories, v.today);
    if s.source.UploadedFile? {
      FileSpecsSourced(s.file.value, v.docs[s.file.value], v.today);
    }
  }

  lemma DetectedIsCoherent(v: Vault, a: Spec, b: Spec, key: Key)
    requires Detected(v, a) && Detected(v, b) && Writes(a, key) && Writes(b, key)
    ensures AlertOf(a) == AlertOf(b)
  {
    hide FileSpecs, InheritanceSpecs, MemorySpecs, SeverityForWindow, Windows;
    DetectedSeverity(v, a);
    DetectedSeverity(v, b);
    if a.source.UploadedFile? {
      FileSpecsSourced(a.file.value, v.docs[a.file.value], v.today);
    }
  }

  /** At this key the table holds exactly what the vault calls for. */
  ghost predicate Fits(t: Alerts, v: Vault, key: Key) {
    && (key in t ==> exists s :: Detected(v, s) && Writes(s, key))
    && (forall s :: Detected(v, s) && Writes(s, key) ==> key in t && t[key] == AlertOf(s))
  }

  lemma SpecsFit(t: Alerts, v: Vault, specs: seq<Spec>, key: Key)
    requires forall s :: s in specs ==> Detected(v, s)
    requires forall s :: Detected(v, s) && Writes(s, key) ==> s in specs
    requires key !in t
    ensures Fits(UpsertAll(t, specs), v, key)
  {
    hide Detected, Writes, AlertOf, UpsertAll;
    forall j, k, other | 0 <= j < |specs| && 0 <= k < |specs| && Writes(specs[j], other) && Writes(specs[k], other)
      ensures AlertOf(specs[j]) == AlertOf(specs[k])
    {
      DetectedIsCoherent(v, specs[j], specs[k], other);
    }
    UpsertAllAt(t, specs, key);
  }

  lemma AllSpecsAreDetected(v: Vault, walk: seq<string>, s: Spec)
    requires IsWalk(v, walk)
    ensures s in AllSpecs(v, walk) <==> Detected(v, s)
  {
    WalkDetects(v, walk, s);
    DateSpecsSourced(Inheritance, InheritanceTransfer, v.transfers, v.today);
    DateSpecsSourced(Memory, Custom, v.memories, v.today);
  }

  lemma QualifiedNeverRaises(specs: seq<Spec>)
    ensures !SomeRaises(Qualified, specs)
  {
    forall k | 0 <= k < |specs|
      ensures !Raises(Qualified, specs[k])
    {
      ArbiterNeedsPredicate(Qualified, specs[k].source);
    }
  }

  lemma RebuiltFits(t: Alerts, v: Vault, walk: seq<string>, key: Key)
    requires IsWalk(v, walk)
    ensures Fits(Rebuilt(Qualified, t, v, walk), v, key)
  {
    var specs := AllSpecs(v, walk);
    hide Detected, AllSpecs, Fits, IsWalk, UpsertAll;
    forall s: Spec
      ensures s in specs <==> Detected(v, s)
    {
      AllSpecsAreDetected(v, walk, s);
    }
    QualifiedNeverRaises(specs);
    SpecsFit(map[], v, specs, key);
  }

  lemma BuiltFits(t: Alerts, v: Vault, job: Job, key: Key)
    requires Owner(key) == Some(job)
    ensures Fits(Built(Qualified, t, v, job), v, key)
  {
    hide Detected, FileSpecs, InheritanceSpecs, MemorySpecs, Fits, UpsertAll, Writes, JobSpecs;
    forall s: Spec
      ensures s in JobSpecs(v, job) ==> Detected(v, s)
      ensures Detected(v, s) && Writes(s, key) ==> s in JobSpecs(v, job)
    {
      JobDetects(v, job, s);
    }
    QualifiedNeverRaises(JobSpecs(v, job));
    SpecsFit(Cleared(t, job), v, JobSpecs(v, job), key);
  }

  /** A builder leaves alone every alert it does not own, whatever its clauses infer. */
  lemma BuiltElsewhere(style: Style, t: Alerts, v: Vault, job: Job, key: Key)
    requires Owner(key) != Some(job)
    ensures key in Built(style, t, v, job) <==> key in t
    ensures key in t ==> Built(style, t, v, job)[key] == t[key]
  {
    var specs := JobSpecs(v, job);
    hide FileSpecs, InheritanceSpecs, MemorySpecs, JobSpecs, UpsertAll, Detected, Writes, AlertOf, SomeRaises;
    forall s | s in specs
      ensures Detected(v, s) && !Writes(s, key)
    {
      JobDetects(v, job, s);
    }
    forall j, k, other | 0 <= j < |specs| && 0 <= k < |specs| && Writes(specs[j], other) && Writes(specs[k], other)
      ensures AlertOf(specs[j]) == AlertOf(specs[k])
    {
      DetectedIsCoherent(v, specs[j], specs[k], other);
    }
    UpsertAllAt(Cleared(t, job), specs, key);
  }

  lemma {:induction false} BuiltAllAt(t: Alerts, v: Vault, jobs: seq<Job>, key: Key)
    ensures var after := BuiltAll(Qualified, t, v, jobs);
            if Owner(key).Some? && Owner(key).value in jobs then Fits(after, v, key)
            else (key in after <==> key in t) && (key in t ==> after[key] == t[key])
  {
    hide Built, Fits, Owner;
    if jobs != [] {
      var before, last := jobs[..|jobs| - 1], jobs[|jobs| - 1];
      var table := BuiltAll(Qualified, t, v, before);
      BuiltAllAt(t, v, before, key);
      assert jobs == before + [last];
      if Owner(key) == Some(last) {
        BuiltFits(table, v, last, key);
      } else {
        BuiltElsewhere(Qualified, table, v, last, key);
        if Owner(key).Some? && Owner(key).value in before {
          FitsAgain(table, Built(Qualified, table, v, last), v, key);
        }
      }
    }
  }

  lemma FitsAgain(a: Alerts, b: Alerts, v: Vault, key: Key)
    requires Fits(a, v, key) && (key in b <==> key in a) && (key in a ==> b[key] == a[key])
    ensures Fits(b, v, key)
  {
    hide Detected, Writes, AlertOf;
  }

  lemma BothFit(a: Alerts, b: Alerts, v: Vault, key: Key)
    requires Fits(a, v, key) && Fits(b, v, key)
    ensures (key in a <==> key in b) && (key in a ==> a[key] == b[key])
  {
    hide Detected, Writes, AlertOf;
  }

  ghost predicate Covers(v: Vault, jobs: seq<Job>) {
    Transfers in jobs && Memories in jobs && forall file :: file in v.docs ==> File(file) in jobs
  }

  predicate Covered(key: Key, jobs: seq<Job>) {
    Owner(key).Some? && Owner(key).value in jobs
  }

  lemma UncoveredIsNotCalledFor(t: Alerts, v: Vault, jobs: seq<Job>, key: Key)
    requires Covers(v, jobs) && Fits(t, v, key) && key in t
    ensures Covered(key, jobs)
  {
    var s :| Detected(v, s) && Writes(s, key);
    JobDetects(v, Transfers, s);
    hide Detected, Writes, Fits, JobSpecs;
    assert Owner(key).Some?;
  }

  /** With conflict clauses that repeat the index predicates: builders run in any order and any
      number of times, once at least for every file with metadata, for the transfers and for the
      memories, on one day, leave the table of a full rebuild exactly when every alert that was
      there belongs to a source some builder ran for. */
  lemma IncrementalIsRebuild(t: Alerts, v: Vault, jobs: seq<Job>, walk: seq<string>)
    requires IsWalk(v, walk) && Covers(v, jobs)
    ensures BuiltAll(Qualified, t, v, jobs) == Rebuilt(Qualified, t, v, walk) <==>
            forall key :: key in t ==> Covered(key, jobs)
  {
    var after, rebuilt := BuiltAll(Qualified, t, v, jobs), Rebuilt(Qualified, t, v, walk);
    hide BuiltAll, Rebuilt, Owner, Fits, Covers, IsWalk;
    forall key: Key
      ensures Covered(key, jobs) ==> (key in after <==> key in rebuilt) && (key in after ==> after[key] == rebuilt[key])
      ensures !Covered(key, jobs) ==> (key in after <==> key in t) && key !in rebuilt
    {
      BuiltAllAt(t, v, jobs, key);
      RebuiltFits(t, v, walk, key);
      if Covered(key, jobs) {
        BothFit(after, rebuilt, v, key);
      } else if key in rebuilt {
        UncoveredIsNotCalledFor(rebuilt, v, jobs, key);
      }
    }
    if forall key :: key in t ==> Covered(key, jobs) {
      assert after.Keys == rebuilt.Keys;
    }
  }

  /** With such clauses a rebuild does not depend on the order in which the documents are walked. */
  lemma WalkOrderDoesNotMatter(t: Alerts, v: Vault, one: seq<string>, other: seq<string>)
    requires IsWalk(v, one) && IsWalk(v, other)
    ensures Rebuilt(Qualified, t, v, one) == Rebuilt(Qualified, t, v, other)
  {
    var a, b := Rebuilt(Qualified, t, v, one), Rebuilt(Qualified, t, v, other);
    hide Rebuilt, Fits, IsWalk;
    forall key: Key
      ensures (key in a <==> key in b) && (key in a ==> a[key] == b[key])
    {
      RebuiltFits(t, v, one, key);
      RebuiltFits(t, v, other, key);
      BothFit(a, b, v, key);
    }
    assert a.Keys == b.Keys;
  }

  // ----- the clauses as written -----

  predicate NoneAcceptable(specs: seq<Spec>) {
    forall k :: 0 <= k < |specs| ==> !Acceptable(specs[k])
  }

  lemma BareRaises(specs: seq<Spec>)
    ensures SomeRaises(Bare, specs) <==> !NoneAcceptable(specs)
  {
    forall k | 0 <= k < |specs|
      ensures Raises(Bare, specs[k]) <==> Acceptable(specs[k])
    {
      ArbiterNeedsPredicate(Bare, specs[k].source);
    }
  }

  lemma {:induction false} NothingUpserted(t: Alerts, specs: seq<Spec>)
    requires NoneAcceptable(specs)
    ensures UpsertAll(t, specs) == t
  {
    if specs != [] {
      NothingUpserted(t, specs[..|specs| - 1]);
    }
  }

  /** As written a builder commits if and only if none of its specs is acceptable, and then it
      only deletes; otherwise it leaves the table as it was. */
  lemma BareBuilderOnlyDeletes(t: Alerts, v: Vault, job: Job)
    ensures Built(Bare, t, v, job) == if NoneAcceptable(JobSpecs(v, job)) then Cleared(t, job) else t
  {
    hide JobSpecs, Cleared, NoneAcceptable, SomeRaises, UpsertAll;
    BareRaises(JobSpecs(v, job));
    if NoneAcceptable(JobSpecs(v, job)) {
      NothingUpserted(Cleared(t, job), JobSpecs(v, job));
    }
  }

  /** The same of a rebuild: it empties the table, or leaves it as it was. */
  lemma BareRebuildOnlyDeletes(t: Alerts, v: Vault, walk: seq<string>)
    requires InDocs(v, walk)
    ensures Rebuilt(Bare, t, v, walk) == if NoneAcceptable(AllSpecs(v, walk)) then map[] else t
  {
    var specs := AllSpecs(v, walk);
    hide AllSpecs, NoneAcceptable, SomeRaises, UpsertAll;
    BareRaises(specs);
    if NoneAcceptable(specs) {
      NothingUpserted(map[], specs);
    }
  }

  predicate CallsForNothing(v: Vault, job: Job) { NoneAcceptable(JobSpecs(v, job)) }

  lemma ClearedAt(t: Alerts, job: Job, key: Key)
    ensures key in Cleared(t, job) <==> key in t && Owner(key) != Some(job)
    ensures key in Cleared(t, job) ==> Cleared(t, job)[key] == t[key]
  {}

  /** As written an alert disappears exactly when a builder of its source ran that had nothing to
      write, and changes never. */
  lemma {:induction false} BareBuiltAllAt(t: Alerts, v: Vault, jobs: seq<Job>, key: Key)
    ensures var after := BuiltAll(Bare, t, v, jobs);
            && (key in after <==> key in t && !(Covered(key, jobs) && CallsForNothing(v, Owner(key).value)))
            && (key in after ==> after[key] == t[key])
  {
    hide Built, Owner, JobSpecs, NoneAcceptable, Cleared, CallsForNothing;
    if jobs != [] {
      var before, last := jobs[..|jobs| - 1], jobs[|jobs| - 1];
      var table := BuiltAll(Bare, t, v, before);
      BareBuiltAllAt(t, v, before, key);
      assert jobs == before + [last];
      BareBuiltAt(table, v, last, key);
    }
  }

  lemma BareBuiltAt(t: Alerts, v: Vault, job: Job, key: Key)
    ensures var after := Built(Bare, t, v, job);
            && (key in after <==> key in t && !(Owner(key) == Some(job) && CallsForNothing(v, job)))
            && (key in after ==> after[key] == t[key])
  {
    hide Built, Owner, JobSpecs, NoneAcceptable, Cleared;
    BareBuilderOnlyDeletes(t, v, job);
    ClearedAt(t, job, key);
  }

  /** No source of the vault yields a spec that would be written. */
  ghost predicate QuietVault(v: Vault) {
    forall s :: Detected(v, s) ==> !Acceptable(s)
  }

  lemma QuietMeansNoneAcceptable(v: Vault, walk: seq<string>)
    requires IsWalk(v, walk)
    ensures QuietVault(v) <==> NoneAcceptable(AllSpecs(v, walk))
    ensures QuietVault(v) ==> forall job :: CallsForNothing(v, job)
  {
    var specs := AllSpecs(v, walk);
    hide Detected, AllSpecs, Acceptable, JobSpecs, IsWalk;
    forall s: Spec
      ensures s in specs <==> Detected(v, s)
    {
      AllSpecsAreDetected(v, walk, s);
    }
    forall job, s | s in JobSpecs(v, job)
      ensures Detected(v, s)
    {
      JobDetects(v, job, s);
    }
    assert NoneAcceptable(specs) <==> forall s :: s in specs ==> !Acceptable(s);
  }

  /** As written, builders that cover every source leave the table of a rebuild if and only if: on
      a quiet vault, every alert belongs to a source some builder ran for; otherwise, no builder
      ran for the source of an alert without having anything to write there. */
  lemma IncrementalAsWritten(t: Alerts, v: Vault, jobs: seq<Job>, walk: seq<string>)
    requires IsWalk(v, walk) && Covers(v, jobs)
    ensures BuiltAll(Bare, t, v, jobs) == Rebuilt(Bare, t, v, walk) <==>
            if QuietVault(v) then forall key :: key in t ==> Covered(key, jobs)
            else forall key :: key in t && Covered(key, jobs) ==> !CallsForNothing(v, Owner(key).value)
  {
    var after, rebuilt := BuiltAll(Bare, t, v, jobs), Rebuilt(Bare, t, v, walk);
    QuietMeansNoneAcceptable(v, walk);
    BareRebuildOnlyDeletes(t, v, walk);
    hide BuiltAll, Rebuilt, Owner, Covers, IsWalk, QuietVault, CallsForNothing, NoneAcceptable, AllSpecs;
    forall key: Key
      ensures key in after <==> key in t && !(Covered(key, jobs) && CallsForNothing(v, Owner(key).value))
      ensures key in after ==> after[key] == t[key]
    {
      BareBuiltAllAt(t, v, jobs, key);
    }
    assert after == rebuilt <==> after.Keys == rebuilt.Keys;
  }

  /** File a has an alert and nothing to write any more, file b a passport due in twenty days. */
  function DivergingVault(a: string, b: string, today: int): Vault {
    Vault(map[a := Doc(OtherDoc, Absent, Absent, Absent), b := Doc(PassportDoc, On(today + 20), Absent, Absent)],
          [], [], today)
  }

  lemma DivergingSpecs(a: string, b: string, today: int)
    requires a != b && b != ""
    ensures var v := DivergingVault(a, b, today);
            var due := Spec(UploadedFile, Some(b), None, Passport, today + 20, 30, Critical);
            && JobSpecs(v, File(a)) == [] && InheritanceSpecs(v) == [] && MemorySpecs(v) == []
            && JobSpecs(v, File(b)) == [due] && Acceptable(due)
  {
    var window := WindowFor(20, [365, 180, 90, 30]);
    assert 30 in [365, 180, 90, 30] && window == Some(30);
    hide WindowFor;
    assert MakeAlert(UploadedFile, Some(b), Passport, today + 20, today).Some?;
  }

  lemma DivergingRebuild(a: string, b: string, today: int, t: Alerts)
    requires a != b && b != ""
    ensures var v, walk := DivergingVault(a, b, today), [a, b];
            && IsWalk(v, walk)
            && Rebuilt(Bare, t, v, walk) == t
            && Rebuilt(Qualified, t, v, walk) == map[FileKey(b, Passport, 30) := Alert(today + 20, Critical, Active)]
  {
    var v, walk := DivergingVault(a, b, today), [a, b];
    var due := Spec(UploadedFile, Some(b), None, Passport, today + 20, 30, Critical);
    DivergingSpecs(a, b, today);
    hide FileSpecs, InheritanceSpecs, MemorySpecs;
    assert walk[..1] == [a] && [a][..0] == [];
    assert WalkSpecs(v, [a]) == WalkSpecs(v, []) + FileSpecs(a, v.docs[a], v.today);
    assert AllSpecs(v, walk) == [due];
    BareRebuildOnlyDeletes(t, v, walk);
    QualifiedNeverRaises([due]);
    assert [due][..0] == [];
    assert UpsertAll(map[], [due]) == Upsert(UpsertAll(map[], []), due);
  }

  /** The builders take away a's alert, the rebuild leaves it, and neither writes b's; with clauses
      that repeat the predicates both leave b's alert alone. */
  lemma WrittenClausesDiverge(a: string, b: string, today: int, kind: ExpiryType, window: int, was: Alert)
    requires a != b && b != ""
    ensures var v, t := DivergingVault(a, b, today), map[FileKey(a, kind, window) := was];
            var jobs, walk := [File(a), File(b), Transfers, Memories], [a, b];
            var due := map[FileKey(b, Passport, 30) := Alert(today + 20, Critical, Active)];
            && IsWalk(v, walk) && Covers(v, jobs)
            && BuiltAll(Bare, t, v, jobs) == map[] && Rebuilt(Bare, t, v, walk) == t
            && BuiltAll(Qualified, t, v, jobs) == due && Rebuilt(Qualified, t, v, walk) == due
  {
    var v, t := DivergingVault(a, b, today), map[FileKey(a, kind, window) := was];
    var jobs, walk := [File(a), File(b), Transfers, Memories], [a, b];
    DivergingRebuild(a, b, today, t);
    assert jobs[0] == File(a) && jobs[1] == File(b) && jobs[2] == Transfers && jobs[3] == Memories;
    var key := FileKey(a, kind, window);
    assert Covered(key, jobs);
    hide BuiltAll, Rebuilt;
    IncrementalIsRebuild(t, v, jobs, walk);
    DivergingBuilders(a, b, today, key, was, jobs);
  }

  lemma DivergingBuilders(a: string, b: string, today: int, key: Key, was: Alert, jobs: seq<Job>)
    requires a != b && b != "" && OfFile(key, a) && Covered(key, jobs)
    ensures BuiltAll(Bare, map[key := was], DivergingVault(a, b, today), jobs) == map[]
  {
    var v, t := DivergingVault(a, b, today), map[key := was];
    DivergingSpecs(a, b, today);
    assert CallsForNothing(v, File(a));
    hide JobSpecs, BuiltAll, CallsForNothing, Covered;
    var after := BuiltAll(Bare, t, v, jobs);
    forall k: Key
      ensures k !in after
    {
      BareBuiltAllAt(t, v, jobs, k);
    }
    assert after.Keys == {};
  }

  /** One call: a builder on one day's vault, or a rebuild of it along a walk. */
  datatype Call = Build(v: Vault, job: Job) | RebuildAll(rv: Vault, walk: seq<string>)

  ghost predicate CallInDocs(call: Call) {
    call.RebuildAll? ==> InDocs(call.rv, call.walk)
  }

  function Called(style: Style, t: Alerts, call: Call): Alerts
    requires CallInDocs(call)
  {
    match call
    case Build(v, job) => Built(style, t, v, job)
    case RebuildAll(v, walk) => Rebuilt(style, t, v, walk)
  }

  function CalledAll(style: Style, t: Alerts, calls: seq<Call>): Alerts
    requires forall k :: 0 <= k < |calls| ==> CallInDocs(calls[k])
  {
    if calls == [] then t else Called(style, CalledAll(style, t, calls[..|calls| - 1]), calls[|calls| - 1])
  }

  /** As written no run of builders and rebuilds, on whatever days and vaults, ever adds or
      changes an alert. */
  lemma {:induction false} BareRunAddsNothing(t: Alerts, calls: seq<Call>)
    requires forall k :: 0 <= k < |calls| ==> CallInDocs(calls[k])
    ensures forall key :: key in CalledAll(Bare, t, calls) ==> key in t && CalledAll(Bare, t, calls)[key] == t[key]
  {
    hide Built, Rebuilt, JobSpecs, NoneAcceptable;
    if calls != [] {
      var before, last := CalledAll(Bare, t, calls[..|calls| - 1]), calls[|calls| - 1];
      BareRunAddsNothing(t, calls[..|calls| - 1]);
      match last
      case Build(v, job) => BareBuilderOnlyDeletes(before, v, job);
      case RebuildAll(v, walk) => BareRebuildOnlyDeletes(before, v, walk);
    }
  }

  /** So a run from an empty table stays empty. */
  lemma BareRunStaysEmpty(calls: seq<Call>)
    requires forall k :: 0 <= k < |calls| ==> CallInDocs(calls[k])
    ensures CalledAll(Bare, map[], calls) == map[]
  {
    BareRunAddsNothing(map[], calls);
    hide CalledAll;
    assert CalledAll(Bare, map[], calls).Keys == {};
  }
}
