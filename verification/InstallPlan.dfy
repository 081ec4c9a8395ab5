/** What install, update and rollback plan before they touch anything, and the disks they pass through. */
module InstallPlan {
  import opened Wrappers
  import opened InstallModel
  import opened InstallRecovery

  /** Semantic version comparison, taken as any total preorder. */
  type Compare = (Version, Version) -> int

  ghost predicate TotalPreorder(compare: Compare) {
    && (forall a, b :: compare(a, b) < 0 <==> compare(b, a) > 0)
    && (forall a, b, c :: compare(a, b) <= 0 && compare(b, c) <= 0 ==> compare(a, c) <= 0)
  }

  datatype Compatibility = Compatibility(minimumCli: Option<Version>, minimumAdapter: Option<nat>, minimumSource: Option<Version>)

  /** `semantic` and `prerelease` are what parsing the version text yields. */
  datatype Release = Release(version: Version, semantic: bool, prerelease: bool, requiresUserAction: bool, compatibility: Compatibility)

  datatype Bundle = Bundle(release: Release, platform: string, artifact: Artifact, files: Files)

  datatype Options = Options(includePrerelease: bool, acceptUserAction: bool, managed: bool)

  /** The promotion checkpoint a companion supplies, and whether it denies the call before or after the old tree moves. */
  datatype Hook = NoHook | Hook(deniedFirst: bool, deniedSecond: bool)

  /** What another program does to the active path during a call: nothing, or files put there before or after the move. */
  datatype Outside = Quiet | BeforeMove(files: Files) | AfterPromotion(files: Files)

  /** One install call: the verified download, the release re-read before promotion, and what the API said in between. */
  datatype Request = Request(slug: Slug, bundle: Bundle, provenance: Provenance, library: Option<string>, now: string,
                             options: Options, interveningAction: bool, reread: Release, rereadArtifact: Artifact, hook: Hook, outside: Outside)

  function Eligibility(compare: Compare, cli: Version, release: Release, existing: Option<Record>, options: Options): (r: Option<Ineligibility>)
    ensures r.None? && existing.Some? ==> compare(release.version, existing.value.version) >= 0
  {
    var c := release.compatibility;
    if !release.semantic then Some(BadVersion)
    else if release.prerelease && !options.includePrerelease then Some(Prerelease)
    else if existing.Some? && compare(release.version, existing.value.version) < 0 then Some(Downgrade)
    else if c.minimumCli.Some? && compare(cli, c.minimumCli.value) < 0 then Some(NewerCli)
    else if c.minimumAdapter.Some? && c.minimumAdapter.value > (if options.managed then 2 else 1) then Some(NewerAdapter)
    else if c.minimumSource.Some? && (existing.None? || compare(existing.value.version, c.minimumSource.value) < 0) then Some(OtherSource)
    else if release.requiresUserAction && !options.acceptUserAction then Some(UserAction)
    else None
  }

  function Entry(d: Disk, s: Slug): Option<Record> {
    if s in d.registry then Some(d.registry[s]) else None
  }

  /** The recorded installation with its digest migrated, as every mutation reads it. */
  function Existing(d: Disk, s: Slug): Option<Record> {
    if s in d.registry then Some(MigratedRecord(d.registry[s])) else None
  }

  predicate ForeignTo(r: Option<Provenance>, p: Provenance) { r != Some(p) }

  /** Why an install stops before it stages anything. */
  function InstallRefusal(compare: Compare, cli: Version, d: Disk, q: Request): Option<Refusal> {
    var recorded, existing, active := Entry(d, q.slug), Existing(d, q.slug), Active(q.slug);
    var eligibility := Eligibility(compare, cli, q.bundle.release, existing, q.options);
    if recorded.Some? && ForeignTo(recorded.value.provenance, q.provenance) then Some(ForeignRegistry)
    else if recorded.Some? && !Matches(d.fs, active, recorded.value.digest) then Some(LocalDrift)
    else if eligibility.Some? then Some(Ineligible(eligibility.value))
    else if existing.Some? && compare(q.bundle.release.version, existing.value.version) > 0
            && !q.options.acceptUserAction && q.interveningAction then Some(InterveningAction)
    else if existing.Some? && existing.value.version == q.bundle.release.version
            && existing.value.artifact.sha256 != q.bundle.artifact.sha256 then Some(ArtifactChanged)
    else if existing.None? && active in d.fs then Some(Unregistered)
    else None
  }

  /** Why the re-read release stops an install that is already staged. */
  function RereadRefusal(compare: Compare, cli: Version, d: Disk, q: Request): Option<Refusal> {
    var eligibility := Eligibility(compare, cli, q.reread, Existing(d, q.slug), q.options);
    if q.rereadArtifact != q.bundle.artifact then Some(ReleaseChanged)
    else if eligibility.Some? then Some(Ineligible(eligibility.value))
    else None
  }

  function Archive(r: Record, provenance: Option<Provenance>, path: Loc): HistoryEntry {
    HistoryEntry(r.version, r.platform, r.installedAt, r.artifact, r.digest, provenance, path)
  }

  /** The registry entry an install commits. */
  function InstalledRecord(d: Disk, id: TxId, q: Request): Record {
    var history := match Existing(d, q.slug)
      case None => []
      case Some(e) => e.history + [Archive(e, Some(q.provenance), Snapshot(q.slug, e.version, id))];
    Record(q.bundle.release.version, q.bundle.platform, q.now, q.bundle.artifact, Ordinal(q.bundle.files), Some(q.provenance), history, q.library)
  }

  function InstallTransaction(d: Disk, q: Request): Transaction {
    var existing := Existing(d, q.slug);
    Transaction(if existing.Some? then Update else Install, Prepared, q.slug, q.bundle.release.version, q.bundle.platform,
                q.bundle.artifact, Ordinal(q.bundle.files), existing, existing.Some?, None)
  }

  /** Why a rollback stops before it stages anything. */
  function RollbackRefusal(d: Disk, s: Slug): Option<Refusal> {
    match Entry(d, s)
    case None => Some(NoSnapshot)
    case Some(e) =>
      if e.history == [] then Some(NoSnapshot) else
      var last := e.history[|e.history| - 1];
      if Active(s) !in d.fs || last.path !in d.fs then Some(SnapshotMissing)
      else if !Matches(d.fs, Active(s), e.digest) then Some(LocalDrift)
      else if e.provenance.None? || last.provenance.None? then Some(NoProvenance)
      else if e.provenance != last.provenance then Some(ForeignRegistry)
      else if last.digest.NoDigest? then Some(SnapshotUnverified)
      else if !Matches(d.fs, last.path, last.digest) then Some(SnapshotModified)
      else None
  }

  /** The registry entry a rollback commits. */
  function RolledBackRecord(e: Record, files: Files, now: string): Record
    requires e.history != []
  {
    var last := e.history[|e.history| - 1];
    Record(last.version, last.platform, now, last.artifact, Ordinal(files), last.provenance, e.history[..|e.history| - 1], e.library)
  }

  function RollbackTransaction(e: Record, s: Slug, files: Files): Transaction
    requires e.history != []
  {
    var last := e.history[|e.history| - 1];
    Transaction(Rollback, Prepared, s, last.version, last.platform, last.artifact, Ordinal(files), Some(e), true, Some(last.path))
  }

  // ---------- The disks a mutation passes through ----------

  function Staged(fs: FileSystem, id: TxId, files: Files): FileSystem { fs[Staging(id) := files] }

  /** The previous package, if any, has moved to its snapshot path. */
  function Aside(fs: FileSystem, id: TxId, t: Transaction): FileSystem {
    if t.previous.Some? && Active(t.slug) in fs then Renamed(fs, Active(t.slug), RecoverySnapshot(id, t)) else fs
  }

  function Promoted(fs: FileSystem, id: TxId, s: Slug): FileSystem {
    if Staging(id) in fs then Renamed(fs, Staging(id), Active(s)) else fs
  }

  /** A transaction identifier no path on the disk and no journal uses yet. */
  ghost predicate Fresh(d: Disk, id: TxId) {
    && id !in d.journals
    && (forall l: Loc :: l in d.fs && !l.Active? ==> l.tx != id)
    && (forall s, i :: s in d.registry && 0 <= i < |d.registry[s].history| && d.registry[s].history[i].path.Snapshot? ==>
          d.registry[s].history[i].path.tx != id)
  }

  /** Nothing but the fresh staging directory differs. */
  ghost predicate OnlyStaging(d: Disk, d': Disk, id: TxId) {
    && d' == d.(fs := d'.fs)
    && forall l: Loc :: l != Staging(id) ==> (l in d'.fs <==> l in d.fs) && (l in d.fs ==> d'.fs[l] == d.fs[l])
  }

  /** The part of a transaction that its state field does not touch. */
  predicate SameTransaction(t: Transaction, u: Transaction) { t.(state := Prepared) == u.(state := Prepared) }

  /** Between staging and the registry commit: the disk differs from `d0` only by this transaction's own moves. */
  ghost predicate InFlight(d0: Disk, d: Disk, id: TxId, t: Transaction, files: Files) {
    && d.managed == d0.managed && d.registry == d0.registry
    && d.journals.Keys == {id} && SameTransaction(d.journals[id], t)
    && var staged := Staged(d0.fs, id, files);
       (d.fs == staged || d.fs == Aside(staged, id, t) || d.fs == Promoted(Aside(staged, id, t), id, t.slug))
  }

  /** What install, update and rollback rely on: a settled root, a fresh identifier and a verified plan. */
  ghost predicate Planned(d0: Disk, id: TxId, t: Transaction, files: Files) {
    && d0.journals == map[] && Fresh(d0, id)
    && t.state.Prepared? && t.digest == Ordinal(files) && files != map[]
    && t.previous == Existing(d0, t.slug)
    && (t.op.Install? <==> t.previous.None?) && (t.snapshotCreated <==> t.previous.Some?)
    && (t.source.Some? <==> t.op.Rollback?) && (t.source.Some? ==> t.source.value.Snapshot?)
    && (if t.previous.Some? then Matches(d0.fs, Active(t.slug), d0.registry[t.slug].digest) else Active(t.slug) !in d0.fs)
  }

  /** A rollback's plan: its target is the last history entry, and recovery can tell it from the current package. */
  ghost predicate RollbackPlanned(d0: Disk, t: Transaction) {
    t.op.Rollback? ==>
      && t.previous.Some? && |t.previous.value.history| > 0
      && t.source == Some(t.previous.value.history[|t.previous.value.history| - 1].path)
      && Distinguishable(t.previous.value, t)
  }

  lemma PreparedIsInFlight(d0: Disk, d: Disk, id: TxId, t: Transaction, files: Files)
    requires d == d0.(fs := Staged(d0.fs, id, files), journals := map[id := t])
    ensures InFlight(d0, d, id, t, files)
  {
  }

  /** The skill's history entries name their snapshots. */
  ghost predicate HistoryKept(d: Disk, s: Slug) { s in d.registry ==> HistoryOk(d.fs, s, d.registry[s].history) }

  lemma RecoveredKeepsHistories(d: Disk, s: Slug)
    requires Inv(d) && d.journals == map[]
    ensures Settled(d, s) && HistoryKept(d, s)
  {
    assert !Busy(d, s);
  }

  lemma PlannedIsWellFormed(d0: Disk, id: TxId, t: Transaction, files: Files)
    requires Planned(d0, id, t, files) && HistoryKept(d0, t.slug) && RollbackPlanned(d0, t)
    ensures TxWellFormed(id, t)
    ensures t.previous.Some? ==> HistoryOk(d0.fs, t.slug, t.previous.value.history)
  {
    if t.previous.Some? {
      var h := t.previous.value.history;
      assert h == d0.registry[t.slug].history;
      if t.op.Rollback? { assert h[|h| - 1].path.slug == t.slug; }
    }
  }

  /** Whatever the moves have reached, only three of the disk's places differ from before. */
  lemma InFlightIsLocal(d0: Disk, d: Disk, id: TxId, t: Transaction, files: Files)
    requires Planned(d0, id, t, files) && InFlight(d0, d, id, t, files)
    ensures forall l: Loc :: l != Active(t.slug) && l != Staging(id) && (t.previous.None? || l != RecoverySnapshot(id, t)) ==>
              (l in d.fs <==> l in d0.fs) && (l in d0.fs ==> d.fs[l] == d0.fs[l])
  {
  }

  lemma InFlightIsUncommitted(d0: Disk, d: Disk, id: TxId, t: Transaction, files: Files)
    requires Planned(d0, id, t, files) && HistoryKept(d0, t.slug) && RollbackPlanned(d0, t)
    requires InFlight(d0, d, id, t, files)
    ensures Uncommitted(d, id, t)
  {
    hide HistoryOk;
    PlannedIsWellFormed(d0, id, t, files);
    InFlightIsLocal(d0, d, id, t, files);
    if t.previous.Some? { HistorySurvives(d0, d, id, t); }
  }

  /** Every disk a mutation passes through before the commit satisfies the invariant. */
  lemma InFlightKeepsInv(d0: Disk, d: Disk, id: TxId, t: Transaction, files: Files)
    requires Planned(d0, id, t, files) && Inv(d0) && RollbackPlanned(d0, t)
    requires InFlight(d0, d, id, t, files)
    ensures Inv(d) && Uncommitted(d, id, d.journals[id])
  {
    hide HistoryOk, Staged, Aside, Promoted;
    RecoveredKeepsHistories(d0, t.slug);
    PlannedIsWellFormed(d0, id, t, files);
    InFlightIsUncommitted(d0, d, id, t, files);
    InFlightIsLocal(d0, d, id, t, files);
    OthersStaySettled(d0, d, id, t);
  }

  /** A single journaled transaction that changed only its own places leaves every other skill settled. */
  lemma OthersStaySettled(d0: Disk, d: Disk, id: TxId, t: Transaction)
    requires Inv(d0) && d0.journals == map[] && d.journals.Keys == {id} && d.journals[id].slug == t.slug
    requires forall s :: s != t.slug ==> (s in d.registry <==> s in d0.registry) && (s in d0.registry ==> d.registry[s] == d0.registry[s])
    requires forall l: Loc :: l != Active(t.slug) && l != Staging(id) && (t.previous.None? || l != RecoverySnapshot(id, t)) ==>
               (l in d.fs <==> l in d0.fs) && (l in d0.fs ==> d.fs[l] == d0.fs[l])
    ensures forall s :: !Busy(d, s) ==> Settled(d, s)
  {
    forall s | !Busy(d, s) ensures Settled(d, s) {
      assert id in d.journals && s != t.slug;
      assert !Busy(d0, s);
      assert Settled(d0, s);
    }
  }

  /** The registry entry a transaction commits names its target, and its history is the previous one, pushed or popped. */
  ghost predicate Targets(rec: Record, id: TxId, t: Transaction) {
    && SameIdentity(rec, t)
    && match t.op
       case Install => rec.history == []
       case Update =>
         && t.previous.Some? && |rec.history| == |t.previous.value.history| + 1
         && rec.history[..|t.previous.value.history|] == t.previous.value.history
         && rec.history[|t.previous.value.history|].path == RecoverySnapshot(id, t)
         && rec.history[|t.previous.value.history|].digest == t.previous.value.digest
       case Rollback =>
         && t.previous.Some? && |t.previous.value.history| > 0
         && rec.history == t.previous.value.history[..|t.previous.value.history| - 1]
  }

  /** The disk right after the registry commit. */
  ghost predicate JustCommitted(d0: Disk, d: Disk, id: TxId, t: Transaction, files: Files, rec: Record) {
    && d.managed == d0.managed && d.registry == d0.registry[t.slug := rec]
    && d.journals.Keys == {id} && SameTransaction(d.journals[id], t)
    && d.fs == Promoted(Aside(Staged(d0.fs, id, files), id, t), id, t.slug)
  }

  lemma InFlightIs(d0: Disk, d: Disk, id: TxId, t: Transaction, files: Files)
    requires InFlight(d0, d, id, t, files)
    ensures id in d.journals && d.registry == d0.registry && d.journals[id].slug == t.slug && d.journals[id].digest == t.digest
  {
  }

  lemma EntryCommitted(d0: Disk, d: Disk, d': Disk, id: TxId, t: Transaction, files: Files, rec: Record)
    requires InFlight(d0, d, id, t, files) && d.fs == Promoted(Aside(Staged(d0.fs, id, files), id, t), id, t.slug)
    requires d' == d.(registry := d.registry[t.slug := rec])
    ensures JustCommitted(d0, d', id, t, files, rec)
  {
  }

  lemma EntryStaysCommitted(d0: Disk, d: Disk, d': Disk, id: TxId, t: Transaction, files: Files, rec: Record, state: TxState)
    requires JustCommitted(d0, d, id, t, files, rec) && id in d.journals
    requires d' == d || d' == d.(journals := d.journals[id := d.journals[id].(state := state)])
    ensures JustCommitted(d0, d', id, t, files, rec)
  {
  }

  /** Once promoted, the target is active and the previous package is whole at its snapshot path. */
  lemma PromotedPlaces(d0: Disk, fs: FileSystem, id: TxId, t: Transaction, files: Files)
    requires Planned(d0, id, t, files) && fs == Promoted(Aside(Staged(d0.fs, id, files), id, t), id, t.slug)
    ensures Active(t.slug) in fs && fs[Active(t.slug)] == files && Matches(fs, Active(t.slug), t.digest) && Staging(id) !in fs
    ensures t.previous.Some? ==> Matches(fs, RecoverySnapshot(id, t), t.previous.value.digest)
    ensures t.previous.Some? ==> fs[RecoverySnapshot(id, t)] == d0.fs[Active(t.slug)]
  {
  }

  /** Pushing the archived package, or popping the target, leaves a history of existing snapshots. */
  lemma CommittedHistory(fs: FileSystem, id: TxId, t: Transaction, rec: Record)
    requires TxWellFormed(id, t) && Targets(rec, id, t) && t.previous.Some?
    requires HistoryOk(fs, t.slug, t.previous.value.history)
    requires Matches(fs, RecoverySnapshot(id, t), t.previous.value.digest)
    ensures HistoryOk(fs, t.slug, rec.history)
    ensures t.op.Rollback? ==> NotInHistory(RecoverySnapshot(id, t), rec.history) && NotInHistory(t.source.value, rec.history)
  {
    hide Matches;
    var h := t.previous.value.history;
    if t.op.Rollback? {
      assert forall i :: 0 <= i < |rec.history| ==> rec.history[i] == h[i];
    } else {
      assert forall i :: 0 <= i < |h| ==> rec.history[i] == rec.history[..|h|][i] == h[i];
    }
  }

  lemma CommitIsCommitted(d0: Disk, d: Disk, id: TxId, t: Transaction, files: Files, rec: Record)
    requires Planned(d0, id, t, files) && HistoryKept(d0, t.slug) && RollbackPlanned(d0, t)
    requires JustCommitted(d0, d, id, t, files, rec) && Targets(rec, id, t)
    ensures Committed(d, id, t)
  {
    hide Staged, Aside, Promoted;
    PlannedIsWellFormed(d0, id, t, files);
    var before := d.(registry := d0.registry);
    InFlightIsLocal(d0, before, id, t, files);
    PromotedPlaces(d0, d.fs, id, t, files);
    if t.previous.Some? {
      HistorySurvives(d0, before, id, t);
      hide HistoryOk, NotInHistory, Matches;
      CommittedHistory(d.fs, id, t, rec);
    }
  }

  /** The registry commit keeps the invariant. */
  lemma CommitKeepsInv(d0: Disk, d: Disk, id: TxId, t: Transaction, files: Files, rec: Record)
    requires Planned(d0, id, t, files) && Inv(d0) && RollbackPlanned(d0, t)
    requires JustCommitted(d0, d, id, t, files, rec) && Targets(rec, id, t)
    ensures Inv(d) && Committed(d, id, d.journals[id]) && CandidateCommitted(d, d.journals[id])
  {
    hide HistoryOk, Staged, Aside, Promoted;
    RecoveredKeepsHistories(d0, t.slug);
    PlannedIsWellFormed(d0, id, t, files);
    CommitIsCommitted(d0, d, id, t, files, rec);
    InFlightIsLocal(d0, d.(registry := d0.registry), id, t, files);
    OthersStaySettled(d0, d, id, t);
  }

  lemma HistorySurvives(d0: Disk, d: Disk, id: TxId, t: Transaction)
    requires t.previous.Some? && Fresh(d0, id) && t.slug in d0.registry && d0.registry[t.slug].history == t.previous.value.history
    requires HistoryOk(d0.fs, t.slug, t.previous.value.history)
    requires forall l: Loc :: l != Active(t.slug) && l != Staging(id) && l != RecoverySnapshot(id, t) ==>
               (l in d.fs <==> l in d0.fs) && (l in d0.fs ==> d.fs[l] == d0.fs[l])
    ensures HistoryOk(d.fs, t.slug, t.previous.value.history)
  {
    var h := t.previous.value.history;
    forall i | 0 <= i < |h| ensures Matches(d.fs, h[i].path, h[i].digest) {
      assert d0.registry[t.slug].history[i].path.tx != id;
    }
  }

  /** Before the commit, the previous package's bytes are at one of their two places; no removal has happened yet. */
  lemma InFlightKeepsPrevious(d0: Disk, d: Disk, id: TxId, t: Transaction, files: Files)
    requires Planned(d0, id, t, files) && InFlight(d0, d, id, t, files)
    ensures Guarded(d, id, t)
  {
    if t.previous.Some? {
      var f := d0.fs[Active(t.slug)];
      assert Describes(d0.registry[t.slug].digest, f) && Describes(t.previous.value.digest, f);
    }
  }

  /** Where a mutation can leave the disk once its transaction is journaled, whatever stopped it. */
  ghost predicate Halted(d0: Disk, d: Disk, id: TxId, t: Transaction, files: Files, rec: Record) {
    || InFlight(d0, d, id, t, files)
    || JustCommitted(d0, d, id, t, files, rec)
    || exists mid, o :: InFlight(d0, mid, id, t, files) && RecoverAllCall(mid, d, o)
  }

  /** Until the registry commit, a halted mutation still has the previous package's exact bytes. */
  lemma HaltedKeepsPrevious(d0: Disk, d: Disk, id: TxId, t: Transaction, files: Files, rec: Record)
    requires Planned(d0, id, t, files) && Halted(d0, d, id, t, files, rec)
    requires !JustCommitted(d0, d, id, t, files, rec)
    ensures KeepsPrevious(d, id, t)
  {
    hide Staged, Aside, Promoted;
    if InFlight(d0, d, id, t, files) {
      InFlightKeepsPrevious(d0, d, id, t, files);
    } else {
      var mid, o :| InFlight(d0, mid, id, t, files) && RecoverAllCall(mid, d, o);
      InFlightKeepsPrevious(d0, mid, id, t, files);
      hide Planned, Fresh;
      RecoveringKeepsPrevious(mid, d, id, t, o);
    }
  }

  lemma RecoveringKeepsPrevious(d: Disk, d': Disk, id: TxId, t: Transaction, o: Outcome)
    requires d.journals.Keys == {id} && SameTransaction(d.journals[id], t)
    requires Guarded(d, id, t) && RecoverAllCall(d, d', o)
    ensures KeepsPrevious(d', id, t)
  {
    hide Confined, CandidateCommitted, RecoveryRefusal, Recovered, Describes;
    var id' :| id' in d.journals && RecoveryCall(d, d', id', o);
    SameGuard(d, id, d.journals[id], t);
    SameGuard(d', id, d.journals[id], t);
  }

  lemma SameGuard(d: Disk, id: TxId, t: Transaction, u: Transaction)
    requires SameTransaction(t, u)
    ensures Guarded(d, id, t) == Guarded(d, id, u) && KeepsPrevious(d, id, t) == KeepsPrevious(d, id, u)
  {
  }

  // ---------- Whole calls ----------

  function PromotedFs(fs: FileSystem, id: TxId, t: Transaction, files: Files): FileSystem {
    Promoted(Aside(Staged(fs, id, files), id, t), id, t.slug)
  }

  /** The disk after an install or update that ran to its end. */
  function AfterInstall(d: Disk, id: TxId, q: Request): Disk {
    d.(fs := PromotedFs(d.fs, id, InstallTransaction(d, q), q.bundle.files),
       registry := d.registry[q.slug := InstalledRecord(d, id, q)])
  }

  lemma InstallIsPlanned(compare: Compare, cli: Version, d: Disk, id: TxId, q: Request)
    requires d.journals == map[] && Fresh(d, id) && q.bundle.files != map[]
    requires InstallRefusal(compare, cli, d, q).None?
    ensures Planned(d, id, InstallTransaction(d, q), q.bundle.files)
    ensures RollbackPlanned(d, InstallTransaction(d, q))
    ensures Targets(InstalledRecord(d, id, q), id, InstallTransaction(d, q))
  {
  }

  /** What an install or update does to any recovered root, at every point it can stop. */
  ghost predicate InstallCall(compare: Compare, cli: Version, d: Disk, d': Disk, id: TxId, q: Request, o: Outcome) {
    var t, rec := InstallTransaction(d, q), InstalledRecord(d, id, q);
    && (o.Completed? ==> InstallRefusal(compare, cli, d, q).None? && q.bundle.files != map[] && d' == AfterInstall(d, id, q))
    && (InstallRefusal(compare, cli, d, q).Some? ==> d' == d && !o.Completed?)
    && (!o.Completed? ==>
          || OnlyStaging(d, d', id)
          || (InstallRefusal(compare, cli, d, q).None? && q.bundle.files != map[] && Halted(d, d', id, t, q.bundle.files, rec)))
  }

  function Last(history: seq<HistoryEntry>): HistoryEntry
    requires history != []
  {
    history[|history| - 1]
  }

  function RollbackFiles(d: Disk, s: Slug): Files
    requires RollbackRefusal(d, s).None?
  {
    d.fs[Last(d.registry[s].history).path]
  }

  function RollbackTx(d: Disk, s: Slug): Transaction
    requires RollbackRefusal(d, s).None?
  {
    RollbackTransaction(MigratedRecord(d.registry[s]), s, RollbackFiles(d, s))
  }

  function RollbackRecord(d: Disk, s: Slug, now: string): Record
    requires RollbackRefusal(d, s).None?
  {
    RolledBackRecord(d.registry[s], RollbackFiles(d, s), now)
  }

  /** The disk after a rollback that ran to its end. */
  function AfterRollback(d: Disk, id: TxId, s: Slug, now: string): Disk
    requires RollbackRefusal(d, s).None?
  {
    var t := RollbackTx(d, s);
    d.(fs := Removed(Removed(PromotedFs(d.fs, id, t, RollbackFiles(d, s)), RecoverySnapshot(id, t)), t.source.value),
       registry := d.registry[s := RollbackRecord(d, s, now)])
  }

  /** Recovery can tell the rollback's target from the package it replaces. */
  predicate RollbackDistinct(d: Disk, s: Slug) {
    RollbackRefusal(d, s).None? ==> Distinguishable(d.registry[s], RollbackTx(d, s))
  }

  lemma RollbackIsPlanned(d: Disk, id: TxId, s: Slug, now: string)
    requires d.journals == map[] && Fresh(d, id) && RollbackRefusal(d, s).None? && Last(d.registry[s].history).path.Snapshot?
    ensures Planned(d, id, RollbackTx(d, s), RollbackFiles(d, s))
    ensures Distinguishable(d.registry[s], RollbackTx(d, s)) ==> RollbackPlanned(d, RollbackTx(d, s))
    ensures Targets(RollbackRecord(d, s, now), id, RollbackTx(d, s))
  {
  }

  /** Committed, with any part of the two spare copies already gone. */
  ghost predicate CleaningUp(d0: Disk, d: Disk, id: TxId, t: Transaction, files: Files, rec: Record) {
    && d.managed == d0.managed && d.registry == d0.registry[t.slug := rec]
    && d.journals.Keys == {id} && SameTransaction(d.journals[id], t)
    && var fs := PromotedFs(d0.fs, id, t, files);
       OnlyCopies(fs, d.fs, id, t)
  }

  /** What a rollback does to any recovered root, at every point it can stop. */
  ghost predicate RollbackCall(d: Disk, d': Disk, id: TxId, s: Slug, now: string, o: Outcome) {
    if RollbackRefusal(d, s).Some? then d' == d && !o.Completed?
    else
      var t, files, rec := RollbackTx(d, s), RollbackFiles(d, s), RollbackRecord(d, s, now);
      if o.Completed? then d' == AfterRollback(d, id, s, now)
      else OnlyStaging(d, d', id) || Halted(d, d', id, t, files, rec) || CleaningUp(d, d', id, t, files, rec)
  }

  // ---------- What a call needs in order to complete ----------

  /** The release may be installed: everything the registry, the user and the installed version have to agree to. */
  predicate Eligible(compare: Compare, cli: Version, release: Release, installed: Option<Version>, options: Options) {
    var c := release.compatibility;
    && release.semantic
    && (release.prerelease ==> options.includePrerelease)
    && (installed.Some? ==> compare(release.version, installed.value) >= 0)
    && (c.minimumCli.Some? ==> compare(cli, c.minimumCli.value) >= 0)
    && (c.minimumAdapter.Some? ==> c.minimumAdapter.value <= if options.managed then 2 else 1)
    && (c.minimumSource.Some? ==> installed.Some? && compare(installed.value, c.minimumSource.value) >= 0)
    && (release.requiresUserAction ==> options.acceptUserAction)
  }

  function InstalledVersion(d: Disk, s: Slug): Option<Version> {
    if s in d.registry then Some(d.registry[s].version) else None
  }

  /** What is checked before anything is staged. */
  predicate Permitted(compare: Compare, cli: Version, d: Disk, q: Request) {
    && Eligible(compare, cli, q.bundle.release, InstalledVersion(d, q.slug), q.options)
    && if q.slug in d.registry then
         var r := d.registry[q.slug];
         && r.provenance == Some(q.provenance)
         && Matches(d.fs, Active(q.slug), r.digest)
         && (compare(q.bundle.release.version, r.version) > 0 && q.interveningAction ==> q.options.acceptUserAction)
         && (q.bundle.release.version == r.version ==> q.bundle.artifact.sha256 == r.artifact.sha256)
       else Active(q.slug) !in d.fs
  }

  /** What is checked again before the old tree moves: the checkpoint, or the release as the registry has it now. */
  predicate Reconfirmed(compare: Compare, cli: Version, d: Disk, q: Request) {
    match q.hook
    case Hook(deniedFirst, _) => !deniedFirst
    case NoHook =>
      q.rereadArtifact == q.bundle.artifact && Eligible(compare, cli, q.reread, InstalledVersion(d, q.slug), q.options)
  }

  predicate DeniedLate(hook: Hook) { hook.Hook? && hook.deniedSecond }

  lemma EligibleExactly(compare: Compare, cli: Version, release: Release, existing: Option<Record>, options: Options)
    ensures Eligibility(compare, cli, release, existing, options).None?
       <==> Eligible(compare, cli, release, if existing.Some? then Some(existing.value.version) else None, options)
  {
  }

  lemma PermittedExactly(compare: Compare, cli: Version, d: Disk, q: Request)
    ensures InstallRefusal(compare, cli, d, q).None? <==> Permitted(compare, cli, d, q)
  {
    EligibleExactly(compare, cli, q.bundle.release, Existing(d, q.slug), q.options);
    hide Eligible, Eligibility;
  }

  lemma ReconfirmedExactly(compare: Compare, cli: Version, d: Disk, q: Request)
    ensures Reconfirmed(compare, cli, d, q) <==>
              if q.hook.NoHook? then RereadRefusal(compare, cli, d, q).None? else !q.hook.deniedFirst
  {
    EligibleExactly(compare, cli, q.reread, Existing(d, q.slug), q.options);
    hide Eligible, Eligibility;
  }

  /** What a rollback needs: verified current bytes, and a verified snapshot of the same registry. */
  predicate CanRollBack(d: Disk, s: Slug) {
    && s in d.registry && d.registry[s].history != []
    && var r := d.registry[s];
       var last := r.history[|r.history| - 1];
       && Matches(d.fs, Active(s), r.digest) && Matches(d.fs, last.path, last.digest)
       && r.provenance.Some? && r.provenance == last.provenance
  }

  lemma CanRollBackExactly(d: Disk, s: Slug)
    ensures RollbackRefusal(d, s).None? <==> CanRollBack(d, s)
  {
  }

  // ---------- Edits from outside ----------

  function WithActive(d: Disk, s: Slug, files: Files): Disk { d.(fs := d.fs[Active(s) := files]) }

  /** The edit puts something else at the active path than what the call verified there. */
  predicate Intrudes(d: Disk, s: Slug, target: Files, outside: Outside) {
    match outside
    case Quiet => false
    case BeforeMove(files) => s in d.registry ==> !Describes(d.registry[s].digest, files)
    case AfterPromotion(files) => files != target
  }

  /** The registry as it was, or with the previous record written again. */
  ghost predicate NotCommitted(d0: Disk, d: Disk, t: Transaction) {
    d.registry == d0.registry || d.registry == Written(d0.registry, t.slug, t.previous)
  }

  /** A mutation that meets foreign files never commits: it stopped before them, or they are where they were put. */
  ghost predicate IntrudedCall(d0: Disk, d: Disk, id: TxId, t: Transaction, files: Files, rec: Record, outside: Outside, o: Outcome) {
    && !o.Completed?
    && (|| OnlyStaging(d0, d, id)
        || (Halted(d0, d, id, t, files, rec) && NotCommitted(d0, d, t))
        || (!outside.Quiet? && exists p :: InFlight(d0, p, id, t, files) && d == WithActive(p, t.slug, outside.files)))
  }

  /** Enough effects for any call: none ever makes more. */
  const CallBudget: nat := 22

  /** A denied second checkpoint ran recovery over the disk with the old tree aside. */
  ghost predicate UndoneAfterDenial(d0: Disk, d: Disk, id: TxId, t: Transaction, files: Files, effects: int) {
    exists p, e: nat, recovery ::
      InFlight(d0, p, id, t, files) && p.fs == Aside(Staged(d0.fs, id, files), id, t) && e >= effects && RecoverWith(p, d, e, recovery)
  }

  /** The first checkpoint was denied, or the re-read release is not the planned one any more. */
  predicate Held(hook: Hook, changed: Option<Refusal>) { if hook.Hook? then hook.deniedFirst else changed.Some? }

  /** A mutation from its prepared journal: held back before the move, denied after it and undone, stopped, or committed. */
  ghost predicate MutatedWith(d0: Disk, d: Disk, id: TxId, t: Transaction, files: Files, rec: Record, held: bool, hook: Hook,
                              effects: int, o: Outcome) {
    && Halted(d0, d, id, t, files, rec)
    && (o.Completed? ==> JustCommitted(d0, d, id, t, files, rec))
    && (held ==> !o.Completed? && d.registry == d0.registry && OnlyStagingMoved(d0, d, id))
    && (o.Refused? && !held ==> DeniedLate(hook) && UndoneAfterDenial(d0, d, id, t, files, effects))
    && (DeniedLate(hook) ==> !o.Completed?)
  }

  /** A mutation from its staging on: it ended with only the stage written, or it was journaled. */
  ghost predicate CarriedWith(d0: Disk, d: Disk, id: TxId, t: Transaction, files: Files, rec: Record, held: bool, hook: Hook,
                              effects: int, o: Outcome) {
    || (OnlyStaging(d0, d, id) && !o.Completed? && (o.Refused? ==> files == map[]))
    || (files != map[] && MutatedWith(d0, d, id, t, files, rec, held, hook, effects, o))
  }

  /**
    Install or update with these effects left: a forbidden one leaves the disk as it was; one that is not reconfirmed moves
    nothing; one denied late is undone; any other completes given enough effects.
  */
  ghost predicate InstallWith(compare: Compare, cli: Version, d: Disk, d': Disk, id: TxId, q: Request, effects: nat, o: Outcome) {
    var t, rec, files := InstallTransaction(d, q), InstalledRecord(d, id, q), q.bundle.files;
    && InstallCall(compare, cli, d, d', id, q, o)
    && (!Permitted(compare, cli, d, q) ==> d' == d && !o.Completed?)
    && (!Reconfirmed(compare, cli, d, q) ==> !o.Completed? && d'.registry == d.registry && OnlyStagingMoved(d, d', id))
    && (DeniedLate(q.hook) ==> !o.Completed?)
    && (effects >= CallBudget && Permitted(compare, cli, d, q) && files != map[] && Reconfirmed(compare, cli, d, q) ==>
          if DeniedLate(q.hook) then UndoneAfterDenial(d, d', id, t, files, effects - 7) else o.Completed?)
  }

  ghost predicate OnlyStagingMoved(d: Disk, d': Disk, id: TxId) {
    forall l: Loc :: l != Staging(id) ==> SameAt(d.fs, d'.fs, l)
  }

  /** The same for rollback. */
  ghost predicate RollbackWith(d: Disk, d': Disk, id: TxId, s: Slug, now: string, hook: Hook, effects: nat, o: Outcome) {
    && RollbackCall(d, d', id, s, now, o)
    && (!CanRollBack(d, s) ==> d' == d && !o.Completed?)
    && (hook.Hook? && hook.deniedFirst ==> !o.Completed? && d'.registry == d.registry && OnlyStagingMoved(d, d', id))
    && (DeniedLate(hook) ==> !o.Completed?)
    && (effects >= CallBudget && RollbackRefusal(d, s).None? && !(hook.Hook? && hook.deniedFirst) ==>
          if DeniedLate(hook) then UndoneAfterDenial(d, d', id, RollbackTx(d, s), RollbackFiles(d, s), effects - 6) else o.Completed?)
  }

  // ---------- The steps of a call, one at a time ----------

  lemma TargetDescribes(d0: Disk, id: TxId, t: Transaction, files: Files)
    requires Planned(d0, id, t, files)
    ensures forall f: Files :: Describes(t.digest, f) <==> f == files
  {
  }

  /** Where a promotion that did not complete leaves the disk. */
  lemma PromotionHalts(d0: Disk, d: Disk, id: TxId, t: Transaction, files: Files, rec: Record, effects: int, o: Outcome)
    requires o.Stopped? ==> InFlight(d0, d, id, t, files)
    requires o.Refused? ==> UndoneAfterDenial(d0, d, id, t, files, effects)
    requires !o.Completed?
    ensures Halted(d0, d, id, t, files, rec) && NotCommitted(d0, d, t)
  {
    hide Staged, Aside, Promoted, RecoveryCall;
    if o.Refused? {
      var p, e: nat, recovery :|
        InFlight(d0, p, id, t, files) && p.fs == Aside(Staged(d0.fs, id, files), id, t) && e >= effects && RecoverWith(p, d, e, recovery);
      assert id in p.journals;
      var id' :| id' in p.journals && RecoveryCall(p, d, id', recovery);
      RecoveryWritesPrevious(p, d, id', recovery);
    }
  }

  lemma RecoveryWritesPrevious(d: Disk, d': Disk, id: TxId, o: Outcome)
    requires id in d.journals && RecoveryCall(d, d', id, o)
    ensures d'.registry == d.registry || d'.registry == Written(d.registry, d.journals[id].slug, d.journals[id].previous)
  {
  }

  lemma PreparedMovedNothing(d0: Disk, d: Disk, id: TxId, t: Transaction, files: Files)
    requires d == d0.(fs := Staged(d0.fs, id, files), journals := map[id := t])
    ensures d.registry == d0.registry && OnlyStagingMoved(d0, d, id)
  {
  }

  /** The last look at the active path before the move: foreign files are seen there, and anything else is what was planned over. */
  lemma VerifiedBytes(d0: Disk, prepared: Disk, id: TxId, t: Transaction, files: Files, outside: Outside)
    requires Planned(d0, id, t, files) && prepared == d0.(fs := Staged(d0.fs, id, files), journals := map[id := t])
    ensures var d := if outside.BeforeMove? then WithActive(prepared, t.slug, outside.files) else prepared;
            var seen := if t.previous.Some? then Matches(d.fs, Active(t.slug), t.previous.value.digest) else Active(t.slug) !in d.fs;
            && (seen <==> !(outside.BeforeMove? && Intrudes(d0, t.slug, files, outside)))
            && (seen ==> d == prepared)
  {
    if t.previous.Some? {
      var f := d0.fs[Active(t.slug)];
      assert Describes(d0.registry[t.slug].digest, f) && Describes(t.previous.value.digest, f);
      if outside.BeforeMove? && outside.files == f {
        assert WithActive(prepared, t.slug, f).fs == prepared.fs;
      }
    }
  }

  /** What a late denial leaves, told for fewer effects. */
  lemma FewerEffects(d0: Disk, d: Disk, id: TxId, t: Transaction, files: Files, rec: Record, hook: Hook, effects: int, fewer: int, o: Outcome)
    requires fewer <= effects
    ensures UndoneAfterDenial(d0, d, id, t, files, effects) ==> UndoneAfterDenial(d0, d, id, t, files, fewer)
    ensures forall held :: MutatedWith(d0, d, id, t, files, rec, held, hook, effects, o) ==>
              MutatedWith(d0, d, id, t, files, rec, held, hook, fewer, o)
  {
    hide InFlight, RecoverWith, Aside, Staged, Halted, JustCommitted;
  }

  /** A call that was held back, or stopped, before the move. */
  lemma HeldBack(d0: Disk, d: Disk, id: TxId, t: Transaction, files: Files, rec: Record, held: bool, hook: Hook, outside: Outside,
                 effects: int, o: Outcome)
    requires InFlight(d0, d, id, t, files) && d.registry == d0.registry && OnlyStagingMoved(d0, d, id)
    requires !o.Completed? && (o.Refused? ==> held)
    ensures MutatedWith(d0, d, id, t, files, rec, held, hook, effects, o) && IntrudedCall(d0, d, id, t, files, rec, outside, o)
  {
    hide InFlight, OnlyStagingMoved, UndoneAfterDenial;
  }

  lemma IntruderStays(d0: Disk, p: Disk, id: TxId, t: Transaction, files: Files, rec: Record, outside: Outside, o: Outcome)
    requires InFlight(d0, p, id, t, files) && !outside.Quiet? && !o.Completed?
    ensures IntrudedCall(d0, WithActive(p, t.slug, outside.files), id, t, files, rec, outside, o)
  {
    hide InFlight, Halted;
  }
}
