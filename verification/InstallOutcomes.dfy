/** What a completed install, update or rollback had to satisfy, and what it leaves at every path and in every field. */
module InstallOutcomes {
  import opened Wrappers
  import opened InstallModel
  import opened InstallRecovery
  import opened InstallPlan

  /** Nothing completes without the user's consent, against the version order, or over an unchanged version's artifact. */
  lemma CompletedInstallWasAllowed(compare: Compare, cli: Version, d: Disk, d': Disk, id: TxId, q: Request, effects: nat, o: Outcome)
    requires InstallWith(compare, cli, d, d', id, q, effects, o) && o.Completed?
    ensures q.bundle.release.requiresUserAction ==> q.options.acceptUserAction
    ensures q.bundle.release.semantic && (q.bundle.release.prerelease ==> q.options.includePrerelease)
    ensures q.hook.NoHook? ==> q.rereadArtifact == q.bundle.artifact && (q.reread.requiresUserAction ==> q.options.acceptUserAction)
    ensures q.hook.Hook? ==> !q.hook.deniedFirst && !q.hook.deniedSecond
    ensures if q.slug in d.registry then
              var r := d.registry[q.slug];
              && r.provenance == Some(q.provenance)
              && compare(q.bundle.release.version, r.version) >= 0
              && (compare(q.bundle.release.version, r.version) > 0 && q.interveningAction ==> q.options.acceptUserAction)
              && (q.bundle.release.version == r.version ==> q.bundle.artifact.sha256 == r.artifact.sha256)
            else Active(q.slug) !in d.fs
  {
    hide InstallCall;
  }

  /** Every path and every field after a completed install or update. */
  lemma CompletedInstallIs(compare: Compare, cli: Version, d: Disk, d': Disk, id: TxId, q: Request, o: Outcome)
    requires d.journals == map[] && Fresh(d, id) && InstallCall(compare, cli, d, d', id, q, o) && o.Completed?
    ensures d'.journals == map[] && d'.managed == d.managed
    ensures Active(q.slug) in d'.fs && d'.fs[Active(q.slug)] == q.bundle.files && Staging(id) !in d'.fs
    ensures q.slug in d'.registry && d'.registry == d.registry[q.slug := d'.registry[q.slug]]
    ensures InstalledFields(d'.registry[q.slug], q)
    ensures if q.slug in d.registry then
              var r, copy := d.registry[q.slug], Snapshot(q.slug, d.registry[q.slug].version, id);
              && Active(q.slug) in d.fs && copy in d'.fs && d'.fs[copy] == d.fs[Active(q.slug)]
              && Pushed(r, d'.registry[q.slug].history, copy)
              && forall l: Loc :: l != Active(q.slug) && l != Staging(id) && l != copy ==> SameAt(d.fs, d'.fs, l)
            else
              && d'.registry[q.slug].history == []
              && forall l: Loc :: l != Active(q.slug) && l != Staging(id) ==> SameAt(d.fs, d'.fs, l)
  {
    hide Staged, Aside, Promoted, Planned;
    InstallIsPlanned(compare, cli, d, id, q);
    var t := InstallTransaction(d, q);
    PromotedPlaces(d, d'.fs, id, t, q.bundle.files);
    InFlightIsLocal(d, Disk(d'.fs, d.registry, map[id := t], d.managed), id, t, q.bundle.files);
  }

  ghost predicate InstalledFields(r: Record, q: Request) {
    && r.version == q.bundle.release.version && r.platform == q.bundle.platform && r.installedAt == q.now
    && r.artifact == q.bundle.artifact && r.digest == Ordinal(q.bundle.files)
    && r.provenance == Some(q.provenance) && r.library == q.library
  }

  /** The replaced package is the newest history entry, kept at `copy`. */
  ghost predicate Pushed(r: Record, history: seq<HistoryEntry>, copy: Loc) {
    && |history| == |r.history| + 1 && history[..|r.history|] == r.history
    && var e := history[|r.history|];
       && e.version == r.version && e.platform == r.platform && e.installedAt == r.installedAt && e.artifact == r.artifact
       && e.provenance == r.provenance && e.path == copy
       && e.digest == (if r.digest.Legacy? then Ordinal(r.digest.files) else r.digest)
  }

  /** Every path and every field after a completed rollback. */
  lemma CompletedRollbackIs(d: Disk, d': Disk, id: TxId, s: Slug, now: string, o: Outcome)
    requires d.journals == map[] && Fresh(d, id) && RollbackCall(d, d', id, s, now, o) && o.Completed?
    requires s in d.registry ==> forall i :: 0 <= i < |d.registry[s].history| ==> d.registry[s].history[i].path.Snapshot?
    ensures CanRollBack(d, s)
    ensures d'.journals == map[] && d'.managed == d.managed
    ensures s in d'.registry && d'.registry == d.registry[s := d'.registry[s]]
    ensures var r, r', copy := d.registry[s], d'.registry[s], Snapshot(s, d.registry[s].version, id);
            var last := r.history[|r.history| - 1];
            && RolledBackFields(r', r, last, now)
            && last.path in d.fs && Active(s) in d'.fs && d'.fs[Active(s)] == d.fs[last.path] && r'.digest == Ordinal(d.fs[last.path])
            && last.path !in d'.fs && copy !in d'.fs && Staging(id) !in d'.fs
            && forall l: Loc :: l != Active(s) && l != Staging(id) && l != copy && l != last.path ==> SameAt(d.fs, d'.fs, l)
  {
    hide Staged, Aside, Promoted, Planned;
    CanRollBackExactly(d, s);
    RollbackIsPlanned(d, id, s, now);
    var t, files := RollbackTx(d, s), RollbackFiles(d, s);
    var fs := PromotedFs(d.fs, id, t, files);
    PromotedPlaces(d, fs, id, t, files);
    InFlightIsLocal(d, Disk(fs, d.registry, map[id := t], d.managed), id, t, files);
  }

  ghost predicate RolledBackFields(r': Record, r: Record, last: HistoryEntry, now: string)
    requires r.history != []
  {
    && r'.version == last.version && r'.platform == last.platform && r'.installedAt == now && r'.artifact == last.artifact
    && r'.provenance == last.provenance && r'.library == r.library && r'.history == r.history[..|r.history| - 1]
  }

  /** When recovery can tell a rollback's target from the installed package, in the terms of the two packages. */
  lemma RollbackDistinctExactly(d: Disk, s: Slug)
    requires CanRollBack(d, s)
    ensures var r := d.registry[s];
            var last := r.history[|r.history| - 1];
            RollbackDistinct(d, s) <==>
              !(&& last.version == r.version && last.platform == r.platform && last.artifact.sha256 == r.artifact.sha256
                && d.fs[last.path] == d.fs[Active(s)])
  {
    CanRollBackExactly(d, s);
  }

  // ---------- Reasons ----------

  /** The reason an install is refused for is a fault it has. */
  predicate InstallFault(compare: Compare, d: Disk, q: Request, reason: Refusal) {
    if q.slug in d.registry then
      var r := d.registry[q.slug];
      match reason
      case ForeignRegistry => r.provenance != Some(q.provenance)
      case LocalDrift => !Matches(d.fs, Active(q.slug), r.digest)
      case InterveningAction => q.interveningAction && !q.options.acceptUserAction && compare(q.bundle.release.version, r.version) > 0
      case ArtifactChanged => q.bundle.release.version == r.version && q.bundle.artifact.sha256 != r.artifact.sha256
      case Ineligible(why) => ReleaseFault(compare, q.bundle.release, Some(r.version), q.options, why)
      case _ => false
    else
      match reason
      case Unregistered => Active(q.slug) in d.fs
      case Ineligible(why) => ReleaseFault(compare, q.bundle.release, None, q.options, why)
      case _ => false
  }

  /** What makes a release ineligible for the reason given; a client too old is named for the client's own version. */
  predicate ReleaseFault(compare: Compare, release: Release, installed: Option<Version>, options: Options, why: Ineligibility) {
    var c := release.compatibility;
    match why
    case BadVersion => !release.semantic
    case Prerelease => release.prerelease && !options.includePrerelease
    case Downgrade => installed.Some? && compare(release.version, installed.value) < 0
    case NewerCli => c.minimumCli.Some?
    case NewerAdapter => c.minimumAdapter.Some? && c.minimumAdapter.value > if options.managed then 2 else 1
    case OtherSource => c.minimumSource.Some? && (installed.None? || compare(installed.value, c.minimumSource.value) < 0)
    case UserAction => release.requiresUserAction && !options.acceptUserAction
  }

  lemma InstallReasonIsAFault(compare: Compare, cli: Version, d: Disk, q: Request)
    requires InstallRefusal(compare, cli, d, q).Some?
    ensures InstallFault(compare, d, q, InstallRefusal(compare, cli, d, q).value)
  {
  }

  /** The reason a rollback is refused for is a fault it has. */
  predicate RollbackFault(d: Disk, s: Slug, reason: Refusal) {
    if s !in d.registry || d.registry[s].history == [] then reason.NoSnapshot?
    else
      var r := d.registry[s];
      var last := r.history[|r.history| - 1];
      match reason
      case SnapshotMissing => Active(s) !in d.fs || last.path !in d.fs
      case LocalDrift => !Matches(d.fs, Active(s), r.digest)
      case NoProvenance => r.provenance.None? || last.provenance.None?
      case ForeignRegistry => r.provenance.Some? && last.provenance.Some? && r.provenance != last.provenance
      case SnapshotUnverified => last.digest.NoDigest?
      case SnapshotModified => !last.digest.NoDigest? && !Matches(d.fs, last.path, last.digest)
      case _ => false
  }

  lemma RollbackReasonIsAFault(d: Disk, s: Slug)
    requires RollbackRefusal(d, s).Some?
    ensures RollbackFault(d, s, RollbackRefusal(d, s).value)
  {
  }

  /** The reason a recovery is refused for is what it may not touch. */
  predicate RecoveryFault(d: Disk, id: TxId, t: Transaction, reason: Refusal) {
    var away := t.previous.Some? ==> !Matches(d.fs, Active(t.slug), t.previous.value.digest);
    var kept := t.previous.Some? && t.snapshotCreated && RecoverySnapshot(id, t) in d.fs;
    match reason
    case ActiveUnknown => away && Active(t.slug) in d.fs && !Matches(d.fs, Active(t.slug), t.digest)
    case WorkspaceRecovery => away && kept && d.managed
    case RecoverySnapshotDrift => kept && !Matches(d.fs, RecoverySnapshot(id, t), t.previous.value.digest)
    case RecoverySnapshotMissing => away && t.snapshotCreated && !kept
    case _ => false
  }

  lemma RecoveryReasonIsAFault(d: Disk, id: TxId, t: Transaction)
    requires RecoveryRefusal(d, id, t).Some?
    ensures RecoveryFault(d, id, t, RecoveryRefusal(d, id, t).value)
  {
  }
}
