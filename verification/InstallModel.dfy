/**
  The installation root on disk: package directories, the registry, transaction journals, and what recovery does to
  them. Digests are injective, so a digest is the digested file set together with the scheme that ordered it.
*/
module InstallModel {
  import opened Wrappers

  type Slug = string
  type Version = string
  type TxId = string

  /** Relative path to content. A directory with no files at all is never a valid package. */
  type Files = map<string, string>

  datatype Loc = Active(slug: Slug) | Snapshot(slug: Slug, version: Version, tx: TxId) | Staging(tx: TxId)
  type FileSystem = map<Loc, Files>

  /** `Legacy` is the original locale-dependent order, `Ordinal` the current scheme, `NoDigest` an unverified record. */
  datatype Digest = Ordinal(files: Files) | Legacy(files: Files) | NoDigest

  datatype Artifact = Artifact(sha256: string, byteSize: nat)
  datatype Provenance = Provenance(origin: string, instanceId: string)

  datatype HistoryEntry = HistoryEntry(version: Version, platform: string, installedAt: string, artifact: Artifact,
                                       digest: Digest, provenance: Option<Provenance>, path: Loc)

  datatype Record = Record(version: Version, platform: string, installedAt: string, artifact: Artifact, digest: Digest,
                           provenance: Option<Provenance>, history: seq<HistoryEntry>, library: Option<string>)

  datatype Operation = Install | Update | Rollback
  datatype TxState = Prepared | PreviousStaged | Installed | RegistryCommitted

  datatype Transaction = Transaction(op: Operation, state: TxState, slug: Slug, version: Version, platform: string,
                                     artifact: Artifact, digest: Digest, previous: Option<Record>,
                                     snapshotCreated: bool, source: Option<Loc>)

  /** `managed` tells whether the root carries a workspace binding. */
  datatype Disk = Disk(fs: FileSystem, registry: map<Slug, Record>, journals: map<TxId, Transaction>, managed: bool)

  datatype Refusal =
    | ForeignRegistry | LocalDrift | Ineligible(why: Ineligibility) | ArtifactChanged | InterveningAction | Unregistered
    | StageDrift | CheckpointFailed | ReleaseChanged | AppearedAfterPlanning | PromotionDrift
    | NoSnapshot | SnapshotMissing | NoProvenance | SnapshotUnverified | SnapshotModified
    | ActiveUnknown | WorkspaceRecovery | RecoverySnapshotDrift | RecoverySnapshotMissing
  datatype Ineligibility =
    | BadVersion | Prerelease | Downgrade | NewerCli | NewerAdapter | OtherSource | UserAction

  // ---------- Directories and digests ----------

  predicate Describes(d: Digest, files: Files) {
    files != map[] && (d == Ordinal(files) || d == Legacy(files))
  }

  predicate Matches(fs: FileSystem, l: Loc, d: Digest) { l in fs && Describes(d, fs[l]) }

  /** The current scheme's digest of the bytes a verified record names. */
  function Migrated(d: Digest): Digest {
    if d.Legacy? then Ordinal(d.files) else d
  }

  function MigratedRecord(r: Record): Record { r.(digest := Migrated(r.digest)) }

  /** A record as it was, up to migration of its digest to the current scheme. */
  predicate SameUpToMigration(r: Record, q: Record) { MigratedRecord(r) == MigratedRecord(q) }

  function Removed(fs: FileSystem, l: Loc): FileSystem { fs - {l} }

  function Renamed(fs: FileSystem, from: Loc, to: Loc): FileSystem
    requires from in fs
  {
    (fs - {from})[to := fs[from]]
  }

  function Written(registry: map<Slug, Record>, s: Slug, r: Option<Record>): map<Slug, Record> {
    match r
    case None => registry - {s}
    case Some(rec) => registry[s := rec]
  }

  // ---------- Recovery of one transaction ----------

  function SnapshotOf(id: TxId, t: Transaction): Option<Loc> {
    if t.previous.Some? && t.snapshotCreated then Some(RecoverySnapshot(id, t)) else None
  }

  function RecoverySnapshot(id: TxId, t: Transaction): Loc
    requires t.previous.Some?
  {
    Snapshot(t.slug, t.previous.value.version, id)
  }

  predicate SameIdentity(r: Record, t: Transaction) {
    r.version == t.version && r.platform == t.platform && r.artifact.sha256 == t.artifact.sha256 && r.digest == t.digest
  }

  /** Recovery's test for a transaction whose registry entry was already written. */
  predicate CandidateCommitted(d: Disk, t: Transaction) {
    t.slug in d.registry && SameIdentity(d.registry[t.slug], t) && Matches(d.fs, Active(t.slug), t.digest)
  }

  predicate PreviousAtOutput(d: Disk, t: Transaction) {
    t.previous.Some? && Matches(d.fs, Active(t.slug), t.previous.value.digest)
  }

  predicate Present(fs: FileSystem, l: Option<Loc>) { l.Some? && l.value in fs }

  function RemovedIf(fs: FileSystem, l: Option<Loc>): FileSystem {
    if l.Some? then Removed(fs, l.value) else fs
  }

  /** Why recovery refuses to touch a transaction's trees, if it does. */
  function RecoveryRefusal(d: Disk, id: TxId, t: Transaction): Option<Refusal> {
    var active, snapshot, atOutput := Active(t.slug), SnapshotOf(id, t), PreviousAtOutput(d, t);
    if CandidateCommitted(d, t) then None
    else if active in d.fs && !atOutput && !Matches(d.fs, active, t.digest) then Some(ActiveUnknown)
    else if Present(d.fs, snapshot) && !atOutput && d.managed then Some(WorkspaceRecovery)
    else if Present(d.fs, snapshot) then
      if Matches(d.fs, snapshot.value, t.previous.value.digest) then None else Some(RecoverySnapshotDrift)
    else if t.snapshotCreated && !atOutput then Some(RecoverySnapshotMissing)
    else None
  }

  /** The directories once recovery has put the previous package back, or removed a first install. */
  function RestoredTrees(d: Disk, id: TxId, t: Transaction): FileSystem {
    var active, snapshot := Active(t.slug), SnapshotOf(id, t);
    if Present(d.fs, snapshot) then
      if PreviousAtOutput(d, t) then d.fs else Renamed(d.fs, snapshot.value, active)
    else if !t.snapshotCreated && (t.previous.None? || !t.state.Prepared?) then Removed(d.fs, active)
    else d.fs
  }

  /** The directories after recovery has finished with a transaction it does not refuse. */
  function RecoveredTrees(d: Disk, id: TxId, t: Transaction): FileSystem {
    var active, snapshot, atOutput := Active(t.slug), SnapshotOf(id, t), PreviousAtOutput(d, t);
    if CandidateCommitted(d, t) then
      var fs := Removed(d.fs, Staging(id));
      if t.op.Rollback? then RemovedIf(RemovedIf(fs, snapshot), t.source) else fs
    else
      var fs' := Removed(RestoredTrees(d, id, t), Staging(id));
      if atOutput then RemovedIf(fs', snapshot) else fs'
  }

  /** The whole disk after recovery has finished with one transaction. */
  function Recovered(d: Disk, id: TxId): Disk
    requires id in d.journals
  {
    var t := d.journals[id];
    d.(fs := RecoveredTrees(d, id, t),
       registry := if CandidateCommitted(d, t) then d.registry else Written(d.registry, t.slug, t.previous),
       journals := d.journals - {id})
  }

  // ---------- What a healthy disk looks like ----------

  /** Every history entry names its own existing snapshot of this skill, with the recorded bytes. */
  ghost predicate HistoryOk(fs: FileSystem, s: Slug, history: seq<HistoryEntry>) {
    && (forall i :: 0 <= i < |history| ==>
          history[i].path.Snapshot? && history[i].path.slug == s && Matches(fs, history[i].path, history[i].digest))
    && (forall i, j :: 0 <= i < j < |history| ==> history[i].path != history[j].path)
  }

  ghost predicate Settled(d: Disk, s: Slug) {
    s in d.registry ==> Matches(d.fs, Active(s), d.registry[s].digest) && HistoryOk(d.fs, s, d.registry[s].history)
  }

  predicate Distinguishable(r: Record, t: Transaction) { !SameIdentity(MigratedRecord(r), t) }

  ghost predicate NotInHistory(l: Loc, history: seq<HistoryEntry>) {
    forall i :: 0 <= i < |history| ==> history[i].path != l
  }

  /** Facts every journaled transaction carries from the moment it is prepared. */
  ghost predicate TxWellFormed(id: TxId, t: Transaction) {
    && t.digest.Ordinal? && t.digest.files != map[]
    && (t.op.Install? <==> t.previous.None?)
    && (t.snapshotCreated <==> t.previous.Some?)
    && (t.source.Some? <==> t.op.Rollback?)
    && (t.previous.Some? ==>
          && t.previous.value.digest.Ordinal? && t.previous.value.digest.files != map[]
          && NotInHistory(RecoverySnapshot(id, t), t.previous.value.history))
    && (t.op.Rollback? ==>
          && |t.previous.value.history| > 0
          && t.source.value.Snapshot? && t.source.value.slug == t.slug
          && t.source == Some(t.previous.value.history[|t.previous.value.history| - 1].path))
  }

  predicate Empty(fs: FileSystem, l: Loc) { l !in fs }

  /** The registry does not know the target yet: the previous package is whole, at its path or in the snapshot. */
  ghost predicate Uncommitted(d: Disk, id: TxId, t: Transaction) {
    var active := Active(t.slug);
    match t.previous
    case None => t.slug !in d.registry && (Empty(d.fs, active) || Matches(d.fs, active, t.digest))
    case Some(p) =>
      var snapshot := RecoverySnapshot(id, t);
      && t.slug in d.registry && SameUpToMigration(d.registry[t.slug], p) && !d.registry[t.slug].digest.NoDigest?
      && HistoryOk(d.fs, t.slug, p.history)
      && (|| (Matches(d.fs, active, p.digest) && (Empty(d.fs, snapshot) || Matches(d.fs, snapshot, p.digest)))
          || (Empty(d.fs, active) && Matches(d.fs, snapshot, p.digest))
          || (Matches(d.fs, active, t.digest) && Matches(d.fs, snapshot, p.digest)))
  }

  /** The registry names the target, and its history no longer needs what recovery may still remove. */
  ghost predicate Committed(d: Disk, id: TxId, t: Transaction) {
    && t.slug in d.registry && SameIdentity(d.registry[t.slug], t)
    && Matches(d.fs, Active(t.slug), t.digest)
    && HistoryOk(d.fs, t.slug, d.registry[t.slug].history)
    && (t.op.Rollback? ==>
          && t.previous.Some? && t.source.Some?
          && NotInHistory(RecoverySnapshot(id, t), d.registry[t.slug].history)
          && NotInHistory(t.source.value, d.registry[t.slug].history))
  }

  /** A journaled transaction at any of its crash points. */
  ghost predicate TxFits(d: Disk, id: TxId, t: Transaction) {
    && TxWellFormed(id, t)
    && (t.op.Rollback? ==> Distinguishable(t.previous.value, t))
    && (Uncommitted(d, id, t) || Committed(d, id, t))
  }

  ghost predicate Busy(d: Disk, s: Slug) { exists id :: id in d.journals && d.journals[id].slug == s }

  /** What every crash point of install, update, rollback and recovery leaves behind. */
  ghost predicate Inv(d: Disk) {
    && (forall id, id' :: id in d.journals && id' in d.journals ==> id == id')
    && (forall id :: id in d.journals ==> TxFits(d, id, d.journals[id]))
    && (forall s :: !Busy(d, s) ==> Settled(d, s))
  }

  /** Nothing of any other skill changed. */
  ghost predicate OnlySlug(d: Disk, d': Disk, s: Slug) {
    && (forall s' :: s' != s ==> (s' in d'.registry <==> s' in d.registry) && (s' in d.registry ==> d'.registry[s'] == d.registry[s']))
    && (forall l: Loc :: !l.Staging? && l.slug != s ==> (l in d'.fs <==> l in d.fs) && (l in d.fs ==> d'.fs[l] == d.fs[l]))
  }
}
