/** Recovery of interrupted transactions, effect by effect, and what it converges to. */
module InstallRecovery {
  import opened Wrappers
  import opened InstallModel

  // ---------- Effects keep the invariant one transaction at a time ----------

  lemma KeepTransaction(d: Disk, d': Disk, id: TxId)
    requires Inv(d) && id in d.journals && d'.journals.Keys == d.journals.Keys
    requires d'.journals[id].slug == d.journals[id].slug && OnlySlug(d, d', d.journals[id].slug)
    requires TxFits(d', id, d'.journals[id])
    ensures Inv(d')
  {
    var s := d.journals[id].slug;
    forall s' | !Busy(d', s') ensures Settled(d', s') {
      assert id in d'.journals && s' != s;
      assert !Busy(d, s');
    }
  }

  lemma FinishTransaction(d: Disk, d': Disk, id: TxId)
    requires Inv(d) && id in d.journals && d' == d.(journals := d.journals - {id})
    requires Settled(d, d.journals[id].slug)
    ensures Inv(d') && d'.journals == map[]
  {
    assert forall id' :: id' in d'.journals ==> id' in d.journals && id' != id;
    forall s' | !Busy(d', s') && s' != d.journals[id].slug ensures Settled(d', s') {
      assert !Busy(d, s');
    }
  }

  lemma StagingIsFree(d: Disk, d': Disk, id: TxId, tx: TxId)
    requires d' == d.(fs := d'.fs) && id in d.journals
    requires forall l: Loc :: l != Staging(tx) ==> (l in d'.fs <==> l in d.fs) && (l in d.fs ==> d'.fs[l] == d.fs[l])
    ensures TxFits(d, id, d.journals[id]) ==> TxFits(d', id, d.journals[id])
    ensures Uncommitted(d, id, d.journals[id]) ==> Uncommitted(d', id, d.journals[id])
    ensures Committed(d, id, d.journals[id]) ==> Committed(d', id, d.journals[id])
  {
  }

  lemma StagingChangeKeepsInv(d: Disk, d': Disk, tx: TxId)
    requires Inv(d) && d' == d.(fs := d'.fs)
    requires forall l: Loc :: l != Staging(tx) ==> (l in d'.fs <==> l in d.fs) && (l in d.fs ==> d'.fs[l] == d.fs[l])
    ensures Inv(d')
    ensures forall s :: Settled(d, s) ==> Settled(d', s)
    ensures forall id :: id in d.journals && Committed(d, id, d.journals[id]) ==> Committed(d', id, d.journals[id])
  {
    forall id | id in d.journals ensures TxFits(d', id, d.journals[id]) {
      StagingIsFree(d, d', id, tx);
    }
    forall s | !Busy(d', s) ensures Settled(d', s) {
      assert !Busy(d, s);
    }
  }

  /** What recovery takes for committed is settled, and for a rollback it really is committed. */
  lemma CandidateIsSettled(d: Disk, id: TxId)
    requires Inv(d) && id in d.journals && CandidateCommitted(d, d.journals[id])
    ensures Settled(d, d.journals[id].slug)
    ensures d.journals[id].op.Rollback? ==> Committed(d, id, d.journals[id])
  {
    var t := d.journals[id];
    if Uncommitted(d, id, t) && t.previous.Some? {
      var e, p := d.registry[t.slug], t.previous.value;
      assert MigratedRecord(e) == e == MigratedRecord(p) && e.history == p.history;
    }
  }

  lemma CommittedIsSettled(d: Disk, id: TxId)
    requires id in d.journals && Committed(d, id, d.journals[id])
    ensures Settled(d, d.journals[id].slug)
  {
  }

  /** A committed rollback no longer needs its recovery snapshot or its source. */
  lemma CommittedOutlivesCleanup(d: Disk, d': Disk, id: TxId, l: Loc)
    requires Inv(d) && id in d.journals && d.journals[id].op.Rollback? && Committed(d, id, d.journals[id])
    requires l == RecoverySnapshot(id, d.journals[id]) || Some(l) == d.journals[id].source
    requires d' == d.(fs := Removed(d.fs, l))
    ensures Inv(d') && Committed(d', id, d.journals[id])
  {
    var t := d.journals[id];
    KeepTransaction(d, d', id);
  }

  /** The previous package's exact bytes are at the active path or at the transaction's snapshot path. */
  ghost predicate KeepsPrevious(d: Disk, id: TxId, t: Transaction) {
    t.previous.Some? ==>
      || Matches(d.fs, Active(t.slug), t.previous.value.digest)
      || Matches(d.fs, RecoverySnapshot(id, t), t.previous.value.digest)
  }

  /** Journals are parsed with their source inside the history directory. */
  predicate Parsed(t: Transaction) { t.source.Some? ==> t.source.value.Snapshot? }

  /** The registry still carries the previous record. */
  ghost predicate BeforeCommit(d: Disk, t: Transaction) {
    t.previous.Some? ==> t.slug in d.registry && SameUpToMigration(d.registry[t.slug], t.previous.value)
  }

  /** Before the registry commit, with the previous bytes in one of their two places. */
  ghost predicate Guarded(d: Disk, id: TxId, t: Transaction) {
    Parsed(t) && (t.previous.Some? ==> t.snapshotCreated) && BeforeCommit(d, t) && KeepsPrevious(d, id, t)
  }

  /** Uncommitted, with the previous package at its own path again or the first install gone. */
  ghost predicate Restored(d: Disk, id: TxId, t: Transaction) {
    && TxFits(d, id, t)
    && Uncommitted(d, id, t)
    && (if t.previous.Some? then Matches(d.fs, Active(t.slug), t.previous.value.digest) else Empty(d.fs, Active(t.slug)))
  }

  /** Writing the previous record, and then dropping the spare snapshot, keep the invariant. */
  lemma RestoredKeepsInv(d: Disk, d': Disk, id: TxId)
    requires Inv(d) && id in d.journals && Restored(d, id, d.journals[id])
    requires || d' == d.(fs := Removed(d.fs, Staging(id)))
             || d' == d.(registry := Written(d.registry, d.journals[id].slug, d.journals[id].previous))
             || d' == d.(fs := RemovedIf(d.fs, SnapshotOf(id, d.journals[id])))
    ensures Inv(d') && Restored(d', id, d.journals[id])
  {
    var t := d.journals[id];
    if t.previous.Some? {
      assert RecoverySnapshot(id, t) != Active(t.slug);
    }
    KeepTransaction(d, d', id);
  }

  /** With the previous record written, the skill is settled as it was. */
  lemma RestoredIsSettled(d: Disk, id: TxId)
    requires id in d.journals && Restored(d, id, d.journals[id])
    requires d.registry == Written(d.registry, d.journals[id].slug, d.journals[id].previous)
    ensures Settled(d, d.journals[id].slug)
  {
  }

  /** What recovery leaves of a transaction that it takes for committed. */
  lemma CommittedIsRecovered(d: Disk, id: TxId)
    requires id in d.journals && CandidateCommitted(d, d.journals[id])
    ensures var t := d.journals[id];
            var fs := Removed(d.fs, Staging(id));
            Recovered(d, id) == d.(fs := if t.op.Rollback? then RemovedIf(RemovedIf(fs, SnapshotOf(id, t)), t.source) else fs,
                                   journals := d.journals - {id})
  {
  }

  /** The snapshots recovery may take: the two copies of a committed rollback, or the one an uncommitted transaction made. */
  predicate MayTake(d: Disk, id: TxId, t: Transaction, l: Loc) {
    if CandidateCommitted(d, t) then t.op.Rollback? && (Some(l) == SnapshotOf(id, t) || Some(l) == t.source)
    else Some(l) == SnapshotOf(id, t)
  }

  ghost predicate SparesSnapshots(d: Disk, d': Disk, id: TxId, t: Transaction) {
    forall l: Loc :: l.Snapshot? && !MayTake(d, id, t, l) ==> SameAt(d.fs, d'.fs, l)
  }

  /** A call that used at most `budget` effects, and stopped only for want of one. */
  ghost predicate Spent(before: nat, after: nat, budget: nat, o: Outcome) {
    after <= before <= after + budget && (o.Stopped? ==> after == 0)
  }

  /** How many effects are enough to recover one transaction. */
  const RecoveryBudget: nat := 7

  /** What one transaction's recovery does to any disk at all, at every point it can stop. */
  ghost predicate RecoveryCall(d: Disk, d': Disk, id: TxId, o: Outcome)
    requires id in d.journals
  {
    var t := d.journals[id];
    && Confined(d, d', id, t)
    && (CandidateCommitted(d, t) ==> d'.registry == d.registry)
    && (CandidateCommitted(d, t) && Parsed(t) ==> SameAt(d.fs, d'.fs, Active(t.slug)))
    && SparesSnapshots(d, d', id, t)
    && (o.Completed? ==> RecoveryRefusal(d, id, t).None? && d' == Recovered(d, id))
    && (o.Refused? ==> RecoveryRefusal(d, id, t) == Some(o.reason) && d' == d)
    && (o.Stopped? ==> RecoveryRefusal(d, id, t).None? && d'.journals == d.journals)
    && (Guarded(d, id, t) ==> KeepsPrevious(d', id, t))
  }

  ghost predicate AtMostOneJournal(d: Disk) {
    forall id, id' :: id in d.journals && id' in d.journals ==> id == id'
  }

  lemma SingleJournal(d: Disk)
    requires d.journals != map[] && AtMostOneJournal(d)
    ensures |d.journals.Keys| == 1
  {
    var id :| id in d.journals;
    assert d.journals.Keys == {id};
  }

  /** What recovering the root does when at most one transaction is journaled. */
  ghost predicate RecoverAllCall(d: Disk, d': Disk, o: Outcome) {
    if d.journals == map[] then d' == d && o.Completed?
    else exists id :: id in d.journals && RecoveryCall(d, d', id, o)
  }

  /** The same with the effects left: it stops only for want of them. */
  ghost predicate RecoverWith(d: Disk, d': Disk, effects: nat, o: Outcome) {
    RecoverAllCall(d, d', o) && (o.Stopped? ==> effects < RecoveryBudget)
  }

  /** What recovering the root does with any number of journals, taken one after the other in any order. */
  ghost predicate RecoverEach(d: Disk, d': Disk, o: Outcome)
    decreases d.journals.Keys
  {
    if d.journals == map[] then d' == d && o.Completed?
    else exists id :: id in d.journals && EachFrom(d, d', id, o)
  }

  ghost predicate EachFrom(d: Disk, d': Disk, id: TxId, o: Outcome)
    requires id in d.journals
    decreases d.journals.Keys, 0
  {
    var next := Recovered(d, id);
    assert next.journals.Keys == d.journals.Keys - {id};
    || (RecoveryCall(d, d', id, o) && !o.Completed?)
    || (RecoveryCall(d, next, id, Completed) && RecoverEach(next, d', o))
  }

  /** A recovery that has come as far as `mid`. */
  ghost predicate Continues(d: Disk, mid: Disk) {
    forall d', o :: RecoverEach(mid, d', o) ==> RecoverEach(d, d', o)
  }

  lemma Reflexive(d: Disk)
    ensures Continues(d, d)
  {
  }

  lemma EachStep(d: Disk, mid: Disk, d': Disk, id: TxId, o: Outcome)
    requires Continues(d, mid) && id in mid.journals && RecoveryCall(mid, d', id, o)
    ensures if o.Completed? then Continues(d, d') else RecoverEach(d, d', o)
  {
    hide RecoveryCall, Recovered;
    if o.Completed? {
      CompletedIsRecovered(mid, d', id);
      forall d'', o' | RecoverEach(d', d'', o') ensures RecoverEach(d, d'', o') {
        assert EachFrom(mid, d'', id, o');
      }
    } else {
      assert EachFrom(mid, d', id, o);
    }
  }

  lemma CompletedIsRecovered(d: Disk, d': Disk, id: TxId)
    requires id in d.journals && RecoveryCall(d, d', id, Completed)
    ensures d' == Recovered(d, id) && d'.journals == d.journals - {id}
  {
  }

  lemma EachEnds(d: Disk, d': Disk)
    requires Continues(d, d') && d'.journals == map[]
    ensures RecoverEach(d, d', Completed)
  {
    assert RecoverEach(d', d', Completed);
  }

  lemma NothingLeft(d: Disk, d': Disk, o: Outcome)
    requires d.journals.Keys == {} && RecoverEach(d, d', o)
    ensures d' == d && o.Completed?
  {
    assert d.journals == map[];
  }

  /** With at most one journal this is the recovery of that one. */
  lemma EachIsAll(d: Disk, d': Disk, before: nat, after: nat, o: Outcome)
    requires RecoverEach(d, d', o)
    ensures AtMostOneJournal(d) && Spent(before, after, 6 * |d.journals.Keys|, o) ==> RecoverWith(d, d', before, o)
  {
    hide RecoveryCall, Recovered;
    if AtMostOneJournal(d) && d.journals != map[] {
      var id :| id in d.journals && EachFrom(d, d', id, o);
      assert d.journals.Keys == {id};
      if !(RecoveryCall(d, d', id, o) && !o.Completed?) {
        CompletedIsRecovered(d, Recovered(d, id), id);
        assert Recovered(d, id).journals.Keys == {};
        NothingLeft(Recovered(d, id), d', o);
      }
    }
  }

  /** What has to hold of a restoring recovery, wherever it stops. */
  lemma AsRecovery(d: Disk, d': Disk, id: TxId, o: Outcome)
    requires id in d.journals && !CandidateCommitted(d, d.journals[id]) && RecoveryRefusal(d, id, d.journals[id]).None?
    requires Confined(d, d', id, d.journals[id]) && SparesAllBut(d.fs, d'.fs, SnapshotOf(id, d.journals[id]))
    requires !o.Refused? && (o.Completed? ==> d' == Recovered(d, id)) && (o.Stopped? ==> d'.journals == d.journals)
    requires Guarded(d, id, d.journals[id]) ==> KeepsPrevious(d', id, d.journals[id])
    ensures RecoveryCall(d, d', id, o)
  {
    hide CandidateCommitted, RecoveryRefusal, Confined, Recovered, Guarded, KeepsPrevious;
  }

  /** Restored trees, then the stage gone and the entry written, then the spare copy and the journal gone. */
  lemma RecoveredInSteps(d: Disk, d1: Disk, d2: Disk, d3: Disk, id: TxId)
    requires id in d.journals && !CandidateCommitted(d, d.journals[id])
    requires d1 == d.(fs := RestoredTrees(d, id, d.journals[id]))
    requires d2 == d1.(fs := Removed(d1.fs, Staging(id)), registry := Written(d1.registry, d.journals[id].slug, d.journals[id].previous))
    requires d3.registry == d2.registry && d3.managed == d2.managed && d3.journals == d2.journals - {id}
    requires d3.fs == if PreviousAtOutput(d, d.journals[id]) then RemovedIf(d2.fs, SnapshotOf(id, d.journals[id])) else d2.fs
    ensures d3 == Recovered(d, id)
  {
    hide CandidateCommitted, RestoredTrees, PreviousAtOutput;
  }

  /** Removing what is active, in part or whole, leaves the verified snapshot. */
  lemma RemovingActive(d: Disk, d': Disk, id: TxId, t: Transaction)
    requires d' == d.(fs := d'.fs) && (d'.fs == Removed(d.fs, Active(t.slug)) || Torn(d.fs, d'.fs, Active(t.slug)))
    requires Present(d.fs, SnapshotOf(id, t)) && Matches(d.fs, SnapshotOf(id, t).value, t.previous.value.digest)
    ensures Confined(d, d', id, t) && SparesAllBut(d.fs, d'.fs, SnapshotOf(id, t)) && KeepsPrevious(d', id, t)
  {
    hide Describes;
  }

  /** Then the snapshot takes its place. */
  lemma BroughtBack(d: Disk, d': Disk, id: TxId, t: Transaction)
    requires Present(d.fs, SnapshotOf(id, t)) && Matches(d.fs, SnapshotOf(id, t).value, t.previous.value.digest)
    requires d' == d.(fs := Renamed(Removed(d.fs, Active(t.slug)), SnapshotOf(id, t).value, Active(t.slug)))
    ensures d'.fs == Renamed(d.fs, SnapshotOf(id, t).value, Active(t.slug))
    ensures Confined(d, d', id, t) && SparesAllBut(d.fs, d'.fs, SnapshotOf(id, t)) && KeepsPrevious(d', id, t)
  {
    hide Describes;
  }

  /** Clearing up after a commit takes the stage, and the two copies only of a rollback. */
  lemma CopiesAreSpared(d0: Disk, d1: Disk, d2: Disk, id: TxId, t: Transaction)
    requires CandidateCommitted(d0, t)
    requires forall l :: l != Staging(id) ==> SameAt(d0.fs, d1.fs, l)
    requires d2.fs == d1.fs || (t.op.Rollback? && OnlyCopies(d1.fs, d2.fs, id, t))
    ensures SparesSnapshots(d0, d2, id, t)
    ensures Parsed(t) ==> SameAt(d0.fs, d2.fs, Active(t.slug))
  {
    hide CandidateCommitted;
    forall l: Loc | l != Staging(id) && (!t.op.Rollback? || (Some(l) != SnapshotOf(id, t) && Some(l) != t.source))
      ensures SameAt(d0.fs, d2.fs, l)
    {
      assert SameAt(d0.fs, d1.fs, l);
    }
  }

  /** Dropping the stage touches no snapshot and neither place of the previous package. */
  lemma StageIsSpared(d0: Disk, d1: Disk, d2: Disk, id: TxId, t: Transaction)
    requires SparesAllBut(d0.fs, d1.fs, SnapshotOf(id, t))
    requires forall l: Loc :: l != Staging(id) ==> (l in d2.fs <==> l in d1.fs) && (l in d2.fs ==> d2.fs[l] == d1.fs[l])
    ensures SparesAllBut(d0.fs, d2.fs, SnapshotOf(id, t)) && (KeepsPrevious(d1, id, t) ==> KeepsPrevious(d2, id, t))
  {
  }

  /** Nor does dropping the spare copy, while the previous package is active. */
  lemma SpareIsSpared(d0: Disk, d1: Disk, d2: Disk, d3: Disk, id: TxId, t: Transaction)
    requires d1.fs == RestoredTrees(d0, id, t) && SparesAllBut(d0.fs, d2.fs, SnapshotOf(id, t))
    requires d2.fs == Removed(d1.fs, Staging(id))
    requires forall l :: !PreviousAtOutput(d0, t) || Some(l) != SnapshotOf(id, t) ==>
               (l in d3.fs <==> l in d2.fs) && (l in d3.fs ==> d3.fs[l] == d2.fs[l])
    ensures SparesAllBut(d0.fs, d3.fs, SnapshotOf(id, t))
    ensures Guarded(d0, id, t) && KeepsPrevious(d2, id, t) ==> KeepsPrevious(d3, id, t)
  {
    hide Describes;
  }

  lemma RestoredTreesAreRestored(d: Disk, d': Disk, id: TxId)
    requires Inv(d) && id in d.journals && !CandidateCommitted(d, d.journals[id])
    requires RecoveryRefusal(d, id, d.journals[id]).None?
    requires d' == d.(fs := RestoredTrees(d, id, d.journals[id])) && Uncommitted(d', id, d.journals[id])
    ensures Restored(d', id, d.journals[id])
  {
  }

  /** What recovery does not take for committed is uncommitted. */
  lemma NotCandidateIsUncommitted(d: Disk, id: TxId)
    requires Inv(d) && id in d.journals && !CandidateCommitted(d, d.journals[id])
    ensures Uncommitted(d, id, d.journals[id])
  {
    assert TxFits(d, id, d.journals[id]);
  }

  lemma SnapshotFollowsPrevious(d: Disk, id: TxId)
    requires Inv(d) && id in d.journals
    ensures d.journals[id].snapshotCreated <==> d.journals[id].previous.Some?
    ensures d.journals[id].op.Rollback? ==> d.journals[id].previous.Some? && d.journals[id].source.Some?
  {
    assert TxFits(d, id, d.journals[id]);
  }

  /** Recovery of an unmanaged healthy root is never refused. */
  lemma RecoveryIsNotRefused(d: Disk, id: TxId)
    requires Inv(d) && !d.managed && id in d.journals
    ensures RecoveryRefusal(d, id, d.journals[id]).None?
  {
    assert TxFits(d, id, d.journals[id]);
    if !CandidateCommitted(d, d.journals[id]) { NotCandidateIsUncommitted(d, id); }
  }

  /** On a healthy unmanaged root a recovery with enough effects left completes. */
  lemma RecoveryCompletes(d: Disk, d': Disk, effects: nat, o: Outcome)
    requires Inv(d) && !d.managed && RecoverWith(d, d', effects, o) && effects >= RecoveryBudget
    ensures o.Completed? && d'.journals == map[]
  {
    hide Inv, Recovered, RecoveryRefusal;
    if d.journals != map[] {
      var id :| id in d.journals && RecoveryCall(d, d', id, o);
      RecoveryIsNotRefused(d, id);
      OneJournal(d, id);
      if o.Completed? { CompletedIsRecovered(d, d', id); }
    }
  }

  lemma HealthyRecovery(d: Disk, d': Disk, effects: nat, o: Outcome)
    requires AtMostOneJournal(d) ==> RecoverWith(d, d', effects, o)
    ensures Inv(d) && !d.managed && effects >= RecoveryBudget ==> o.Completed?
  {
    if Inv(d) && !d.managed && effects >= RecoveryBudget { RecoveryCompletes(d, d', effects, o); }
  }

  lemma OneJournal(d: Disk, id: TxId)
    requires Inv(d) && id in d.journals
    ensures d.journals - {id} == map[]
  {
  }

  /** Clearing the active path is safe while the verified snapshot, or nothing, stands behind it. */
  lemma VacatedKeepsInv(d: Disk, d': Disk, id: TxId)
    requires Inv(d) && id in d.journals && Uncommitted(d, id, d.journals[id])
    requires var t := d.journals[id];
             t.previous.Some? ==> Matches(d.fs, RecoverySnapshot(id, t), t.previous.value.digest)
    requires d' == d.(fs := Removed(d.fs, Active(d.journals[id].slug)))
    ensures Inv(d') && Uncommitted(d', id, d.journals[id])
  {
    KeepTransaction(d, d', id);
  }

  lemma BroughtBackKeepsInv(d: Disk, d': Disk, id: TxId)
    requires Inv(d) && id in d.journals && d.journals[id].previous.Some?
    requires var t := d.journals[id];
             && Uncommitted(d, id, t) && Active(t.slug) !in d.fs
             && Matches(d.fs, RecoverySnapshot(id, t), t.previous.value.digest)
             && d' == d.(fs := Renamed(d.fs, RecoverySnapshot(id, t), Active(t.slug)))
    ensures Inv(d') && Uncommitted(d', id, d.journals[id])
  {
    assert TxFits(d, id, d.journals[id]);
    KeepTransaction(d, d', id);
  }

  /** No edits outside the transaction's own trees, its skill's registry entry and its journal. */
  ghost predicate Confined(d: Disk, d': Disk, id: TxId, t: Transaction) {
    && d'.managed == d.managed
    && (d'.registry == d.registry || d'.registry == Written(d.registry, t.slug, t.previous))
    && (forall l: Loc :: l != Active(t.slug) && l != Staging(id) && Some(l) != SnapshotOf(id, t) && Some(l) != t.source ==>
          (l in d'.fs <==> l in d.fs) && (l in d.fs ==> d'.fs[l] == d.fs[l]))
  }

  lemma ConfinedComposes(d0: Disk, d1: Disk, d2: Disk, id: TxId, t: Transaction)
    requires Confined(d0, d1, id, t) && Confined(d1, d2, id, t)
    ensures Confined(d0, d2, id, t)
  {
  }

  datatype Outcome = Completed | Stopped | Refused(reason: Refusal) {
    predicate IsFailure() { !Completed? }

    function PropagateFailure(): Outcome
      requires IsFailure()
    {
      this
    }
  }

  /** An interrupted removal leaves the tree alone, or any part of it. */
  ghost predicate Torn(fs: FileSystem, fs': FileSystem, l: Loc) {
    fs' == fs || (l in fs && l in fs' && fs' == fs[l := fs'[l]] && fs'[l].Items <= fs[l].Items)
  }

  ghost predicate SameAt(fs: FileSystem, fs': FileSystem, l: Loc) {
    (l in fs' <==> l in fs) && (l in fs ==> fs'[l] == fs[l])
  }

  /** No snapshot differs but, perhaps, one. */
  ghost predicate SparesAllBut(fs: FileSystem, fs': FileSystem, one: Option<Loc>) {
    forall l: Loc :: l.Snapshot? && Some(l) != one ==> SameAt(fs, fs', l)
  }

  lemma StagingIsConfined(d: Disk, d': Disk, id: TxId, t: Transaction)
    requires d' == d.(fs := d'.fs) && (d'.fs == Removed(d.fs, Staging(id)) || Torn(d.fs, d'.fs, Staging(id)))
    ensures Confined(d, d', id, t) && forall l :: l != Staging(id) ==> SameAt(d.fs, d'.fs, l)
  {
  }

  /** Nothing but a transaction's two spare copies differs. */
  ghost predicate OnlyCopies(fs: FileSystem, fs': FileSystem, id: TxId, t: Transaction) {
    forall l :: Some(l) != SnapshotOf(id, t) && Some(l) != t.source ==> (l in fs' <==> l in fs) && (l in fs ==> fs'[l] == fs[l])
  }

  lemma OnlyCopiesCompose(fs: FileSystem, fs': FileSystem, fs'': FileSystem, id: TxId, t: Transaction)
    requires OnlyCopies(fs, fs', id, t) && OnlyCopies(fs', fs'', id, t)
    ensures OnlyCopies(fs, fs'', id, t)
  {
  }

  lemma CopyIsConfined(d: Disk, d': Disk, id: TxId, t: Transaction, l: Option<Loc>)
    requires l == SnapshotOf(id, t) || l == t.source
    requires d' == d.(fs := d'.fs)
    requires d'.fs == RemovedIf(d.fs, l) || (l.Some? && Torn(d.fs, d'.fs, l.value))
    ensures Confined(d, d', id, t) && OnlyCopies(d.fs, d'.fs, id, t)
  {
  }

  lemma EntryIsConfined(d: Disk, d': Disk, id: TxId, t: Transaction)
    requires d' == d || d' == d.(registry := Written(d.registry, t.slug, t.previous))
    ensures Confined(d, d', id, t)
  {
  }

  lemma JournalIsConfined(d: Disk, d': Disk, id: TxId, t: Transaction)
    requires d' == d.(journals := d'.journals)
    ensures Confined(d, d', id, t)
  {
  }
}
