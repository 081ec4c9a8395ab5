/**
  The history's snapshots, whatever stops a command and wherever a removal tears: what every call and every recovery
  keeps of them, and the one case that loses one.
*/
module InstallHistory {
  import opened Wrappers
  import opened InstallModel
  import opened InstallRecovery
  import opened InstallPlan

  /** The registry does not know the target yet. */
  ghost predicate KeptBefore(d: Disk, t: Transaction) {
    match t.previous
    case None => t.slug !in d.registry
    case Some(p) => t.slug in d.registry && SameUpToMigration(d.registry[t.slug], p)
  }

  /** The registry names the target, its bytes are active, and its history does not need what recovery may still take. */
  ghost predicate KeptAfter(d: Disk, id: TxId, t: Transaction) {
    && t.slug in d.registry && SameIdentity(d.registry[t.slug], t) && Matches(d.fs, Active(t.slug), t.digest)
    && (t.op.Rollback? ==>
          && t.previous.Some? && t.source.Some?
          && NotInHistory(RecoverySnapshot(id, t), d.registry[t.slug].history)
          && NotInHistory(t.source.value, d.registry[t.slug].history))
  }

  /** A journaled transaction that no recovery can make lose a snapshot. */
  ghost predicate Harmless(d: Disk, id: TxId, t: Transaction) {
    && TxWellFormed(id, t)
    && (t.op.Rollback? ==> Distinguishable(t.previous.value, t))
    && (KeptBefore(d, t) || KeptAfter(d, id, t))
  }

  /** Every history entry names an existing snapshot with the recorded bytes, and whatever is journaled is harmless. */
  ghost predicate Kept(d: Disk) {
    && AtMostOneJournal(d)
    && (forall id :: id in d.journals ==> Harmless(d, id, d.journals[id]))
    && (forall s :: HistoryKept(d, s))
  }

  /** A snapshot path outside a history stays outside; snapshots inside it were spared. */
  lemma HistoryStays(fs: FileSystem, fs': FileSystem, s: Slug, history: seq<HistoryEntry>)
    requires HistoryOk(fs, s, history)
    requires forall i :: 0 <= i < |history| ==> SameAt(fs, fs', history[i].path)
    ensures HistoryOk(fs', s, history)
  {
  }

  // ---------- Recovery ----------

  /** Recovery never takes an uncommitted rollback for committed. */
  lemma BeforeIsNoCandidate(d: Disk, id: TxId, t: Transaction)
    requires Harmless(d, id, t) && KeptBefore(d, t) && t.op.Rollback?
    ensures !CandidateCommitted(d, t)
  {
    MigratedIdentity(d.registry[t.slug], t.previous.value, t);
  }

  lemma MigratedIdentity(r: Record, p: Record, t: Transaction)
    requires SameUpToMigration(r, p) && t.digest.Ordinal?
    ensures SameIdentity(r, t) ==> SameIdentity(MigratedRecord(p), t)
  {
    assert MigratedRecord(r).digest == MigratedRecord(p).digest;
  }

  lemma RecoverySparesHistory(d: Disk, d': Disk, id: TxId, o: Outcome, s: Slug)
    requires Kept(d) && id in d.journals && RecoveryCall(d, d', id, o)
    requires s in d.registry
    ensures HistoryOk(d'.fs, s, d.registry[s].history)
  {
    var t, h := d.journals[id], d.registry[s].history;
    assert Harmless(d, id, t) && HistoryKept(d, s);
    if KeptBefore(d, t) && t.op.Rollback? { BeforeIsNoCandidate(d, id, t); }
    if s == t.slug && t.previous.Some? && KeptBefore(d, t) { assert h == t.previous.value.history by { SameHistory(d.registry[s], t.previous.value); } }
    forall i | 0 <= i < |h| ensures SameAt(d.fs, d'.fs, h[i].path) {
      assert h[i].path.Snapshot? && h[i].path.slug == s;
      assert !MayTake(d, id, t, h[i].path);
    }
    HistoryStays(d.fs, d'.fs, s, h);
  }

  lemma SameHistory(r: Record, p: Record)
    requires SameUpToMigration(r, p)
    ensures r.history == p.history
  {
    assert MigratedRecord(r).history == r.history && MigratedRecord(p).history == p.history;
  }

  /** Recovery, stopped, refused or complete, keeps every history, with removals that may tear. */
  lemma RecoveryKeeps(d: Disk, d': Disk, o: Outcome)
    requires Kept(d) && RecoverAllCall(d, d', o)
    ensures Kept(d')
  {
    if d.journals != map[] {
      var id :| id in d.journals && RecoveryCall(d, d', id, o);
      var t := d.journals[id];
      assert Harmless(d, id, t);
      forall s ensures HistoryKept(d', s) {
        if s in d'.registry { KeptEntry(d, d', id, o, s); }
      }
      JournalStaysHarmless(d, d', id, o);
    }
  }

  lemma KeptEntry(d: Disk, d': Disk, id: TxId, o: Outcome, s: Slug)
    requires Kept(d) && id in d.journals && RecoveryCall(d, d', id, o) && s in d'.registry
    ensures HistoryOk(d'.fs, s, d'.registry[s].history)
  {
    var t := d.journals[id];
    assert Harmless(d, id, t);
    assert s in d.registry by { EntryStays(d, d', id, t, o, s); }
    RecoverySparesHistory(d, d', id, o, s);
    EntryStays(d, d', id, t, o, s);
  }

  /** Recovery writes at most the previous record, whose history is the one the registry has before the commit. */
  lemma EntryStays(d: Disk, d': Disk, id: TxId, t: Transaction, o: Outcome, s: Slug)
    requires Harmless(d, id, t) && id in d.journals && t == d.journals[id] && RecoveryCall(d, d', id, o)
    ensures s in d'.registry ==> s in d.registry && d'.registry[s].history == d.registry[s].history
  {
    if KeptBefore(d, t) {
      if t.previous.Some? { SameHistory(d.registry[t.slug], t.previous.value); }
    } else {
      assert CandidateCommitted(d, t);
    }
  }

  lemma JournalStaysHarmless(d: Disk, d': Disk, id: TxId, o: Outcome)
    requires Kept(d) && id in d.journals && RecoveryCall(d, d', id, o)
    ensures AtMostOneJournal(d') && forall id' :: id' in d'.journals ==> Harmless(d', id', d'.journals[id'])
  {
    var t := d.journals[id];
    assert Harmless(d, id, t);
    if o.Stopped? {
      if KeptBefore(d, t) { StaysBefore(d, d', id, o); } else { assert CandidateCommitted(d, t) && Parsed(t); }
    }
  }

  lemma StaysBefore(d: Disk, d': Disk, id: TxId, o: Outcome)
    requires id in d.journals && KeptBefore(d, d.journals[id]) && RecoveryCall(d, d', id, o)
    ensures KeptBefore(d', d.journals[id])
  {
  }

  // ---------- Mutations ----------

  lemma OtherHistories(d0: Disk, d: Disk, id: TxId, t: Transaction)
    requires forall s :: HistoryKept(d0, s)
    requires forall s :: s != t.slug ==> (s in d.registry <==> s in d0.registry) && (s in d0.registry ==> d.registry[s] == d0.registry[s])
    requires forall l: Loc :: l != Active(t.slug) && l != Staging(id) && (t.previous.None? || l != RecoverySnapshot(id, t)) ==>
               (l in d.fs <==> l in d0.fs) && (l in d0.fs ==> d.fs[l] == d0.fs[l])
    ensures forall s :: s != t.slug ==> HistoryKept(d, s)
  {
    forall s | s != t.slug ensures HistoryKept(d, s) {
      assert HistoryKept(d0, s);
      if s in d.registry { HistoryStays(d0.fs, d.fs, s, d0.registry[s].history); }
    }
  }

  lemma InFlightKeeps(d0: Disk, d: Disk, id: TxId, t: Transaction, files: Files)
    requires Kept(d0) && Planned(d0, id, t, files) && RollbackPlanned(d0, t) && InFlight(d0, d, id, t, files)
    ensures Kept(d)
  {
    assert HistoryKept(d0, t.slug);
    PlannedIsWellFormed(d0, id, t, files);
    InFlightIsLocal(d0, d, id, t, files);
    OtherHistories(d0, d, id, t);
    hide HistoryOk, Staged, Aside, Promoted;
    if t.previous.Some? { HistorySurvives(d0, d, id, t); }
    assert Harmless(d, id, d.journals[id]) by { SameRest(d, id, t); }
  }

  /** What a transaction is judged by does not depend on its state. */
  lemma SameRest(d: Disk, id: TxId, t: Transaction)
    requires id in d.journals && SameTransaction(d.journals[id], t) && TxWellFormed(id, t)
    requires (t.op.Rollback? ==> Distinguishable(t.previous.value, t)) && (KeptBefore(d, t) || KeptAfter(d, id, t))
    ensures Harmless(d, id, d.journals[id])
  {
  }

  lemma CommittedKeeps(d0: Disk, d: Disk, id: TxId, t: Transaction, files: Files, rec: Record)
    requires Kept(d0) && Planned(d0, id, t, files) && RollbackPlanned(d0, t) && Targets(rec, id, t)
    requires JustCommitted(d0, d, id, t, files, rec)
    ensures Kept(d)
  {
    assert HistoryKept(d0, t.slug);
    PlannedIsWellFormed(d0, id, t, files);
    CommitIsCommitted(d0, d, id, t, files, rec);
    CommittedIsHarmless(d, id, t);
    InFlightIsLocal(d0, d.(registry := d0.registry), id, t, files);
    hide HistoryKept, Staged, Aside, Promoted, Committed, Harmless, TxWellFormed, Targets, Planned, RollbackPlanned;
    OtherHistories(d0, d, id, t);
  }

  lemma CommittedIsHarmless(d: Disk, id: TxId, t: Transaction)
    requires Committed(d, id, t) && TxWellFormed(id, t) && (t.op.Rollback? ==> Distinguishable(t.previous.value, t))
    requires id in d.journals && SameTransaction(d.journals[id], t)
    ensures Harmless(d, id, d.journals[id]) && HistoryKept(d, t.slug)
  {
    assert KeptAfter(d, id, t);
    SameRest(d, id, t);
  }

  /** Wherever a mutation halts, every history entry still names its snapshot. */
  lemma HaltedKeeps(d0: Disk, d: Disk, id: TxId, t: Transaction, files: Files, rec: Record)
    requires Kept(d0) && Planned(d0, id, t, files) && RollbackPlanned(d0, t) && Targets(rec, id, t)
    requires Halted(d0, d, id, t, files, rec)
    ensures Kept(d)
  {
    hide Kept, Planned, RollbackPlanned, Targets, InFlight, JustCommitted, RecoverAllCall;
    if InFlight(d0, d, id, t, files) {
      InFlightKeeps(d0, d, id, t, files);
    } else if JustCommitted(d0, d, id, t, files, rec) {
      CommittedKeeps(d0, d, id, t, files, rec);
    } else {
      var mid, o :| InFlight(d0, mid, id, t, files) && RecoverAllCall(mid, d, o);
      InFlightKeeps(d0, mid, id, t, files);
      RecoveryKeeps(mid, d, o);
    }
  }

  // ---------- Whole calls ----------

  /** The disk right after the registry commit of a planned transaction. */
  function CommittedDisk(d0: Disk, id: TxId, t: Transaction, files: Files, rec: Record): Disk {
    Disk(PromotedFs(d0.fs, id, t, files), d0.registry[t.slug := rec], map[id := t], d0.managed)
  }

  lemma NothingJournaled(d: Disk, d': Disk)
    requires Kept(d) && d'.fs == d.fs && d'.registry == d.registry && d'.journals == map[]
    ensures Kept(d')
  {
    forall s ensures HistoryKept(d', s) { assert HistoryKept(d, s); }
  }

  lemma StagingKeeps(d: Disk, d': Disk, id: TxId)
    requires Kept(d) && d.journals == map[] && OnlyStaging(d, d', id)
    ensures Kept(d')
  {
    forall s ensures HistoryKept(d', s) {
      assert HistoryKept(d, s);
      if s in d.registry { HistoryStays(d.fs, d'.fs, s, d.registry[s].history); }
    }
  }

  /** Install and update keep every history, wherever they stop and whatever tears. */
  lemma InstallKeeps(compare: Compare, cli: Version, d: Disk, d': Disk, id: TxId, q: Request, o: Outcome)
    requires Kept(d) && d.journals == map[] && Fresh(d, id) && InstallCall(compare, cli, d, d', id, q, o)
    ensures Kept(d')
  {
    hide Kept, Fresh, InstallRefusal, InstalledRecord, Halted, Staged, Aside, Promoted;
    var t, rec, files := InstallTransaction(d, q), InstalledRecord(d, id, q), q.bundle.files;
    if InstallRefusal(compare, cli, d, q).None? && files != map[] {
      InstallIsPlanned(compare, cli, d, id, q);
      var c := CommittedDisk(d, id, t, files, rec);
      if o.Completed? {
        CommittedKeeps(d, c, id, t, files, rec);
        NothingJournaled(c, d');
      } else if OnlyStaging(d, d', id) {
        StagingKeeps(d, d', id);
      } else {
        HaltedKeeps(d, d', id, t, files, rec);
      }
    } else {
      assert OnlyStaging(d, d', id);
      StagingKeeps(d, d', id);
    }
  }

  /** Taking the two spare copies of a committed rollback takes nothing from a history. */
  lemma CopiesGone(c: Disk, d: Disk, id: TxId, t: Transaction)
    requires Kept(c) && c.journals == map[id := t] && KeptAfter(c, id, t) && t.op.Rollback?
    requires d.registry == c.registry && OnlyCopies(c.fs, d.fs, id, t)
    requires d.journals == map[] || (d.journals.Keys == {id} && SameTransaction(d.journals[id], t))
    ensures Kept(d)
  {
    assert id in c.journals && c.journals[id] == t;
    assert Harmless(c, id, t);
    forall s ensures HistoryKept(d, s) {
      assert HistoryKept(c, s);
      if s in d.registry { HistoryStays(c.fs, d.fs, s, d.registry[s].history); }
    }
    if d.journals != map[] { SameRest(d, id, t); }
  }

  /** Rollback keeps every history in the same sense, when its target differs from the installed package. */
  lemma RollbackKeeps(d: Disk, d': Disk, id: TxId, s: Slug, now: string, o: Outcome)
    requires Kept(d) && d.journals == map[] && Fresh(d, id) && RollbackDistinct(d, s)
    requires RollbackCall(d, d', id, s, now, o)
    ensures Kept(d')
  {
    if RollbackRefusal(d, s).None? {
      var t, rec, files := RollbackTx(d, s), RollbackRecord(d, s, now), RollbackFiles(d, s);
      RollbackIsReady(d, id, s, now);
      var c := CommittedDisk(d, id, t, files, rec);
      RollbackFacts(d, id, s, now);
      hide Kept, Fresh, Halted, Staged, Aside, Promoted, PromotedFs, RollbackRefusal, RollbackTx, RollbackRecord, RollbackFiles, Planned, Targets;
      if OnlyStaging(d, d', id) {
        StagingKeeps(d, d', id);
      } else if Halted(d, d', id, t, files, rec) && !o.Completed? {
        HaltedKeeps(d, d', id, t, files, rec);
      } else {
        CopiesGone(c, d', id, t);
      }
    }
  }

  lemma RollbackIsReady(d: Disk, id: TxId, s: Slug, now: string)
    requires Kept(d) && d.journals == map[] && Fresh(d, id) && RollbackDistinct(d, s) && RollbackRefusal(d, s).None?
    ensures var t := RollbackTx(d, s);
            Planned(d, id, t, RollbackFiles(d, s)) && RollbackPlanned(d, t) && Targets(RollbackRecord(d, s, now), id, t)
  {
    assert HistoryKept(d, s);
    RollbackIsPlanned(d, id, s, now);
  }

  lemma RollbackFacts(d: Disk, id: TxId, s: Slug, now: string)
    requires Kept(d) && d.journals == map[] && Fresh(d, id) && RollbackDistinct(d, s) && RollbackRefusal(d, s).None?
    ensures var t := RollbackTx(d, s);
            var c := CommittedDisk(d, id, t, RollbackFiles(d, s), RollbackRecord(d, s, now));
            t.op.Rollback? && Kept(c) && KeptAfter(c, id, t)
  {
    var t, rec, files := RollbackTx(d, s), RollbackRecord(d, s, now), RollbackFiles(d, s);
    RollbackIsReady(d, id, s, now);
    var c := CommittedDisk(d, id, t, files, rec);
    CommittedKeeps(d, c, id, t, files, rec);
    assert HistoryKept(d, s);
    CommitIsCommitted(d, c, id, t, files, rec);
  }

  /** A healthy root keeps its histories. */
  lemma HealthyIsKept(d: Disk)
    requires Inv(d)
    ensures Kept(d)
  {
    forall id | id in d.journals ensures Harmless(d, id, d.journals[id]) { assert TxFits(d, id, d.journals[id]); }
    forall s ensures HistoryKept(d, s) {
      if s in d.registry && Busy(d, s) {
        var id :| id in d.journals && d.journals[id].slug == s;
        assert TxFits(d, id, d.journals[id]);
        if Uncommitted(d, id, d.journals[id]) { SameHistory(d.registry[s], d.journals[id].previous.value); }
      } else if s in d.registry {
        assert Settled(d, s);
      }
    }
  }
}
