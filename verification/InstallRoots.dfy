/** The installation root as the command line client drives it, one filesystem effect at a time. */
module InstallRoots {
  import opened Wrappers
  import opened InstallModel
  import opened InstallRecovery
  import opened InstallPlan

  class InstallRoot {
    const compare: Compare
    const cliVersion: Version
    const atomicRemoval: bool
    var disk: Disk
    var steps: nat

    // ---------- Effects ----------

    method Proceed() returns (o: Outcome)
      modifies this`steps
      ensures o == if old(steps) == 0 then Stopped else Completed
      ensures steps == if old(steps) == 0 then 0 else old(steps) - 1
    {
      if steps == 0 { return Stopped; }
      steps := steps - 1;
      o := Completed;
    }

    method WriteJournal(id: TxId, t: Transaction) returns (o: Outcome)
      modifies this`steps, this`disk
      ensures !o.Refused? && Spent(old(steps), steps, 1, o)
      ensures disk == if o.Completed? then old(disk).(journals := old(disk).journals[id := t]) else old(disk)
      ensures o.Completed? ==> steps == old(steps) - 1
    {
      o := Proceed();
      if o.Completed? { disk := disk.(journals := disk.journals[id := t]); }
    }

    method DropJournal(id: TxId) returns (o: Outcome)
      modifies this`steps, this`disk
      ensures !o.Refused? && Spent(old(steps), steps, 1, o)
      ensures disk == if o.Completed? then old(disk).(journals := old(disk).journals - {id}) else old(disk)
      ensures o.Completed? ==> steps == old(steps) - 1
    {
      o := Proceed();
      if o.Completed? { disk := disk.(journals := disk.journals - {id}); }
    }

    method WriteRegistry(registry: map<Slug, Record>) returns (o: Outcome)
      modifies this`steps, this`disk
      ensures !o.Refused? && Spent(old(steps), steps, 1, o)
      ensures disk == if o.Completed? then old(disk).(registry := registry) else old(disk)
      ensures o.Completed? ==> steps == old(steps) - 1
    {
      o := Proceed();
      if o.Completed? { disk := disk.(registry := registry); }
    }

    method RenameTree(from: Loc, to: Loc) returns (o: Outcome)
      requires from in disk.fs && to !in disk.fs
      modifies this`steps, this`disk
      ensures !o.Refused? && Spent(old(steps), steps, 1, o)
      ensures disk == if o.Completed? then old(disk).(fs := Renamed(old(disk).fs, from, to)) else old(disk)
      ensures o.Completed? ==> steps == old(steps) - 1
    {
      o := Proceed();
      if o.Completed? { disk := disk.(fs := Renamed(disk.fs, from, to)); }
    }

    method RemoveTree(l: Loc) returns (o: Outcome)
      modifies this`steps, this`disk
      ensures !o.Refused? && Spent(old(steps), steps, 1, o)
      ensures disk == old(disk).(fs := disk.fs)
      ensures o.Completed? ==> disk.fs == Removed(old(disk).fs, l)
      ensures o.Stopped? ==> Torn(old(disk).fs, disk.fs, l) && (atomicRemoval ==> disk == old(disk))
      ensures o.Completed? ==> steps == old(steps) - 1
    {
      o := Proceed();
      if o.Completed? {
        disk := disk.(fs := Removed(disk.fs, l));
      } else if !atomicRemoval && l in disk.fs {
        var part: Files :| part.Items <= disk.fs[l].Items;
        disk := disk.(fs := disk.fs[l := part]);
      }
    }

    method RemoveIfAny(l: Option<Loc>) returns (o: Outcome)
      modifies this`steps, this`disk
      ensures !o.Refused? && Spent(old(steps), steps, 1, o)
      ensures disk == old(disk).(fs := disk.fs)
      ensures o.Completed? ==> disk.fs == RemovedIf(old(disk).fs, l)
      ensures o.Stopped? ==> l.Some? && Torn(old(disk).fs, disk.fs, l.value) && (atomicRemoval ==> disk == old(disk))
      ensures o.Completed? ==> steps == if l.Some? then old(steps) - 1 else old(steps)
    {
      if l.None? { return Completed; }
      o := RemoveTree(l.value);
    }

    // ---------- Recovery ----------

    method RemoveRollbackCopies(id: TxId) returns (o: Outcome)
      requires id in disk.journals && disk.journals[id].op.Rollback?
      modifies this`steps, this`disk
      ensures !o.Refused? && Spent(old(steps), steps, 2, o) && disk == old(disk).(fs := disk.fs)
      ensures o.Completed? ==> disk.fs == RemovedIf(RemovedIf(old(disk).fs, SnapshotOf(id, disk.journals[id])), disk.journals[id].source)
      ensures Confined(old(disk), disk, id, disk.journals[id])
      ensures OnlyCopies(old(disk).fs, disk.fs, id, disk.journals[id])
      ensures atomicRemoval && Inv(old(disk)) && Committed(old(disk), id, disk.journals[id]) ==>
                Inv(disk) && Committed(disk, id, disk.journals[id])
      ensures o.Completed? && disk.journals[id].source.Some? && SnapshotOf(id, disk.journals[id]).Some? ==> steps == old(steps) - 2
    {
      hide Inv, Committed, Confined, Torn, OnlyCopies;
      var t := disk.journals[id];
      ghost var sound := atomicRemoval && Inv(disk) && Committed(disk, id, t);
      if sound { SnapshotFollowsPrevious(disk, id); }
      ghost var d0 := disk;
      o := RemoveIfAny(SnapshotOf(id, t));
      CopyIsConfined(d0, disk, id, t, SnapshotOf(id, t));
      if !o.Completed? { return; }
      if sound { CommittedOutlivesCleanup(d0, disk, id, RecoverySnapshot(id, t)); }
      ghost var d1 := disk;
      o := RemoveIfAny(t.source);
      CopyIsConfined(d1, disk, id, t, t.source);
      ConfinedComposes(d0, d1, disk, id, t);
      OnlyCopiesCompose(d0.fs, d1.fs, disk.fs, id, t);
      if sound && o.Completed? { CommittedOutlivesCleanup(d1, disk, id, t.source.value); }
    }

    /** Removes the stage of a committed transaction, and the spare copies of a rollback. */
    method ClearCopies(id: TxId) returns (o: Outcome)
      requires id in disk.journals && CandidateCommitted(disk, disk.journals[id])
      modifies this`steps, this`disk
      ensures !o.Refused? && Spent(old(steps), steps, 3, o) && disk == old(disk).(fs := disk.fs)
      ensures o.Completed? ==> disk.(journals := disk.journals - {id}) == Recovered(old(disk), id)
      ensures Confined(old(disk), disk, id, disk.journals[id])
      ensures SparesSnapshots(old(disk), disk, id, disk.journals[id])
      ensures Parsed(disk.journals[id]) ==> SameAt(old(disk).fs, disk.fs, Active(disk.journals[id].slug))
      ensures atomicRemoval && Inv(old(disk)) ==> Inv(disk) && (o.Completed? ==> Settled(disk, disk.journals[id].slug))
    {
      hide Inv, Committed, Settled, HistoryOk, Torn, Confined, CandidateCommitted, SparesSnapshots, OnlyCopies, Uncommitted, Recovered;
      var t := disk.journals[id];
      ghost var sound, d0 := atomicRemoval && Inv(disk), disk;
      if sound { CandidateIsSettled(disk, id); }
      CommittedIsRecovered(d0, id);
      o := RemoveTree(Staging(id));
      StagingIsConfined(d0, disk, id, t);
      CopiesAreSpared(d0, disk, disk, id, t);
      if !o.Completed? { return; }
      if sound { StagingChangeKeepsInv(d0, disk, id); }
      ghost var d1 := disk;
      if t.op.Rollback? {
        o := RemoveRollbackCopies(id);
        ConfinedComposes(d0, d1, disk, id, t);
        CopiesAreSpared(d0, d1, disk, id, t);
        if sound && o.Completed? { CommittedIsSettled(disk, id); }
      }
    }

    /** Clears what a committed transaction left behind. */
    method FinishCommitted(id: TxId) returns (o: Outcome)
      requires id in disk.journals && CandidateCommitted(disk, disk.journals[id])
      modifies this`steps, this`disk
      ensures !o.Refused? && Spent(old(steps), steps, 4, o)
      ensures o.Completed? ==> disk == Recovered(old(disk), id)
      ensures o.Stopped? ==> disk == old(disk).(fs := disk.fs)
      ensures disk.registry == old(disk).registry
      ensures Confined(old(disk), disk, id, old(disk).journals[id])
      ensures SparesSnapshots(old(disk), disk, id, old(disk).journals[id])
      ensures Parsed(old(disk).journals[id]) ==> SameAt(old(disk).fs, disk.fs, Active(old(disk).journals[id].slug))
      ensures atomicRemoval && Inv(old(disk)) ==> Inv(disk)
    {
      hide Inv, Settled, Confined, CandidateCommitted, Recovered;
      ghost var d0, t := disk, disk.journals[id];
      o := ClearCopies(id);
      if !o.Completed? { return; }
      ghost var cleared := disk;
      o := DropJournal(id);
      JournalIsConfined(cleared, disk, id, t);
      ConfinedComposes(d0, cleared, disk, id, t);
      if atomicRemoval && Inv(d0) && o.Completed? { FinishTransaction(cleared, disk, id); }
    }

    /** Replaces whatever is active by the verified snapshot. */
    method BringBack(id: TxId) returns (o: Outcome)
      requires id in disk.journals && Present(disk.fs, SnapshotOf(id, disk.journals[id]))
      requires Matches(disk.fs, SnapshotOf(id, disk.journals[id]).value, disk.journals[id].previous.value.digest)
      modifies this`steps, this`disk
      ensures !o.Refused? && Spent(old(steps), steps, 2, o) && disk == old(disk).(fs := disk.fs)
      ensures o.Completed? ==> disk.fs == Renamed(old(disk).fs, SnapshotOf(id, disk.journals[id]).value, Active(disk.journals[id].slug))
      ensures Confined(old(disk), disk, id, disk.journals[id])
      ensures KeepsPrevious(disk, id, disk.journals[id])
      ensures SparesAllBut(old(disk).fs, disk.fs, SnapshotOf(id, disk.journals[id]))
      ensures atomicRemoval && Inv(old(disk)) && Uncommitted(old(disk), id, disk.journals[id]) ==>
                Inv(disk) && Uncommitted(disk, id, disk.journals[id])
    {
      hide Inv, Uncommitted, HistoryOk, Confined, KeepsPrevious, SparesAllBut, Describes, Torn;
      ghost var t := disk.journals[id];
      ghost var sound, d0 := atomicRemoval && Inv(disk) && Uncommitted(disk, id, t), disk;
      var active, snapshot := Active(disk.journals[id].slug), SnapshotOf(id, disk.journals[id]);
      o := RemoveTree(active);
      RemovingActive(d0, disk, id, t);
      if !o.Completed? { return; }
      if sound { VacatedKeepsInv(d0, disk, id); }
      ghost var d1 := disk;
      o := RenameTree(snapshot.value, active);
      if o.Completed? {
        BroughtBack(d0, disk, id, t);
        if sound { BroughtBackKeepsInv(d1, disk, id); }
      }
    }

    /** Puts the previous package back from its snapshot, or removes a first install. */
    method RestoreTrees(id: TxId) returns (o: Outcome)
      requires id in disk.journals && !CandidateCommitted(disk, disk.journals[id])
      requires RecoveryRefusal(disk, id, disk.journals[id]).None?
      modifies this`steps, this`disk
      ensures !o.Refused? && Spent(old(steps), steps, 2, o) && disk == old(disk).(fs := disk.fs)
      ensures o.Completed? ==> disk.fs == RestoredTrees(old(disk), id, disk.journals[id])
      ensures Confined(old(disk), disk, id, disk.journals[id])
      ensures Guarded(old(disk), id, disk.journals[id]) ==> KeepsPrevious(disk, id, disk.journals[id])
      ensures SparesAllBut(old(disk).fs, disk.fs, SnapshotOf(id, disk.journals[id]))
      ensures atomicRemoval && Inv(old(disk)) ==> Inv(disk) && Uncommitted(disk, id, disk.journals[id])
    {
      hide Inv, Uncommitted, HistoryOk, Torn;
      ghost var sound, d0 := atomicRemoval && Inv(disk), disk;
      var t := disk.journals[id];
      if sound { NotCandidateIsUncommitted(disk, id); SnapshotFollowsPrevious(disk, id); }
      o := Completed;
      if Present(disk.fs, SnapshotOf(id, t)) {
        if !PreviousAtOutput(disk, t) { o := BringBack(id); }
      } else if !t.snapshotCreated && (t.previous.None? || !t.state.Prepared?) {
        o := RemoveTree(Active(t.slug));
        if sound && o.Completed? { VacatedKeepsInv(d0, disk, id); }
      }
    }

    /** Discards the stage and writes the previous record back. */
    method CommitPrevious(id: TxId) returns (o: Outcome)
      requires id in disk.journals
      modifies this`steps, this`disk
      ensures !o.Refused? && Spent(old(steps), steps, 2, o)
      ensures disk == old(disk).(fs := disk.fs, registry := disk.registry)
      ensures Confined(old(disk), disk, id, disk.journals[id])
      ensures forall l: Loc :: l != Staging(id) ==> (l in disk.fs <==> l in old(disk).fs) && (l in disk.fs ==> disk.fs[l] == old(disk).fs[l])
      ensures disk.registry == old(disk).registry || disk.registry == Written(old(disk).registry, disk.journals[id].slug, disk.journals[id].previous)
      ensures o.Completed? ==> disk.fs == Removed(old(disk).fs, Staging(id))
      ensures o.Completed? ==> disk.registry == Written(old(disk).registry, disk.journals[id].slug, disk.journals[id].previous)
      ensures atomicRemoval && Inv(old(disk)) && Restored(old(disk), id, disk.journals[id]) ==> Inv(disk) && Restored(disk, id, disk.journals[id])
    {
      hide Inv, Restored, Confined, SameUpToMigration;
      var t := disk.journals[id];
      ghost var sound, d0 := atomicRemoval && Inv(disk) && Restored(disk, id, t), disk;
      o := RemoveTree(Staging(id));
      StagingIsConfined(d0, disk, id, t);
      if !o.Completed? { return; }
      if sound { RestoredKeepsInv(d0, disk, id); }
      ghost var d1 := disk;
      o := WriteRegistry(Written(disk.registry, t.slug, t.previous));
      EntryIsConfined(d1, disk, id, t);
      ConfinedComposes(d0, d1, disk, id, t);
      if sound && o.Completed? { RestoredKeepsInv(d1, disk, id); }
    }

    /** Lets go of the last spare copy, and then of the journal. */
    method DropSpare(id: TxId, atOutput: bool) returns (o: Outcome)
      requires id in disk.journals
      requires disk.registry == Written(disk.registry, disk.journals[id].slug, disk.journals[id].previous)
      modifies this`steps, this`disk
      ensures !o.Refused? && Spent(old(steps), steps, 2, o) && disk == old(disk).(fs := disk.fs, journals := disk.journals)
      ensures Confined(old(disk), disk, id, old(disk).journals[id])
      ensures forall l :: !atOutput || Some(l) != SnapshotOf(id, old(disk).journals[id]) ==>
                (l in disk.fs <==> l in old(disk).fs) && (l in disk.fs ==> disk.fs[l] == old(disk).fs[l])
      ensures o.Stopped? ==> disk.journals == old(disk).journals
      ensures o.Completed? ==> disk.journals == old(disk).journals - {id}
      ensures o.Completed? ==> disk.fs == if atOutput then RemovedIf(old(disk).fs, SnapshotOf(id, old(disk).journals[id])) else old(disk).fs
      ensures atomicRemoval && Inv(old(disk)) && Restored(old(disk), id, old(disk).journals[id]) ==> Inv(disk)
    {
      hide Inv, Restored, Settled, Confined, SameUpToMigration;
      var t := disk.journals[id];
      ghost var sound, d0 := atomicRemoval && Inv(disk) && Restored(disk, id, t), disk;
      if atOutput {
        o := RemoveIfAny(SnapshotOf(id, t));
        CopyIsConfined(d0, disk, id, t, SnapshotOf(id, t));
        if !o.Completed? { return; }
        if sound { RestoredKeepsInv(d0, disk, id); }
      }
      ghost var d1 := disk;
      o := DropJournal(id);
      JournalIsConfined(d1, disk, id, t);
      if atOutput { ConfinedComposes(d0, d1, disk, id, t); }
      if sound && o.Completed? { RestoredIsSettled(d1, id); FinishTransaction(d1, disk, id); }
    }

    method RestorePrevious(id: TxId) returns (o: Outcome)
      requires id in disk.journals && !CandidateCommitted(disk, disk.journals[id])
      requires RecoveryRefusal(disk, id, disk.journals[id]).None?
      modifies this`steps, this`disk
      ensures !o.Refused? && RecoveryCall(old(disk), disk, id, o)
      ensures Spent(old(steps), steps, 6, o)
      ensures atomicRemoval && Inv(old(disk)) ==> Inv(disk)
    {
      hide Inv, Restored, Uncommitted, Confined, SparesAllBut, RecoveryCall, Recovered, RecoveryRefusal, CandidateCommitted, RestoredTrees,
           Guarded, KeepsPrevious, PreviousAtOutput;
      ghost var sound, d0 := atomicRemoval && Inv(disk), disk;
      ghost var t := disk.journals[id];
      var atOutput := PreviousAtOutput(disk, disk.journals[id]);
      o := RestoreTrees(id);
      if !o.Completed? {
        AsRecovery(d0, disk, id, o);
        return;
      }
      if sound { RestoredTreesAreRestored(d0, disk, id); }
      ghost var d1 := disk;
      o := CommitPrevious(id);
      ConfinedComposes(d0, d1, disk, id, t);
      StageIsSpared(d0, d1, disk, id, t);
      if !o.Completed? {
        AsRecovery(d0, disk, id, o);
        return;
      }
      ghost var d2 := disk;
      o := DropSpare(id, atOutput);
      ConfinedComposes(d0, d2, disk, id, t);
      SpareIsSpared(d0, d1, d2, disk, id, t);
      if o.Completed? { RecoveredInSteps(d0, d1, d2, disk, id); }
      AsRecovery(d0, disk, id, o);
    }

    method RecoverOne(id: TxId) returns (o: Outcome)
      requires id in disk.journals
      modifies this`steps, this`disk
      ensures RecoveryCall(old(disk), disk, id, o)
      ensures Spent(old(steps), steps, RecoveryBudget - 1, o)
      ensures o.Completed? ==> disk.journals == old(disk).journals - {id}
      ensures atomicRemoval && Inv(old(disk)) ==> Inv(disk)
    {
      hide Inv;
      var t := disk.journals[id];
      if CandidateCommitted(disk, t) {
        o := FinishCommitted(id);
        return;
      }
      var active, snapshot, atOutput := Active(t.slug), SnapshotOf(id, t), PreviousAtOutput(disk, t);
      if active in disk.fs && !atOutput && !Matches(disk.fs, active, t.digest) { return Refused(ActiveUnknown); }
      if Present(disk.fs, snapshot) && !atOutput && disk.managed { return Refused(WorkspaceRecovery); }
      if Present(disk.fs, snapshot) {
        if !Matches(disk.fs, snapshot.value, t.previous.value.digest) { return Refused(RecoverySnapshotDrift); }
      } else if t.snapshotCreated && !atOutput {
        return Refused(RecoverySnapshotMissing);
      }
      o := RestorePrevious(id);
    }

    /** Recovers every journaled transaction; the listing order is left open. */
    method Recover() returns (o: Outcome)
      modifies this`steps, this`disk
      ensures atomicRemoval && Inv(old(disk)) ==> Inv(disk)
      ensures o.Completed? ==> disk.journals == map[]
      ensures RecoverEach(old(disk), disk, o)
      ensures AtMostOneJournal(old(disk)) ==> RecoverWith(old(disk), disk, old(steps), o)
      ensures Spent(old(steps), steps, 6 * |old(disk).journals.Keys|, o)
      ensures Inv(old(disk)) && !old(disk).managed && old(steps) >= RecoveryBudget ==> o.Completed?
    {
      hide Inv, RecoveryCall, Recovered, RecoverEach, Continues, RecoverWith;
      var todo := disk.journals.Keys;
      ghost var done: nat := 0;
      Reflexive(disk);
      while todo != {}
        invariant disk.journals.Keys == todo && done + |todo| == |old(disk).journals.Keys|
        invariant steps <= old(steps) <= steps + 6 * done
        invariant atomicRemoval && Inv(old(disk)) ==> Inv(disk)
        invariant Continues(old(disk), disk)
      {
        var id :| id in todo;
        ghost var before := disk;
        o := RecoverOne(id);
        EachStep(old(disk), before, disk, id, o);
        done := done + 1;
        if !o.Completed? {
          EachIsAll(old(disk), disk, old(steps), steps, o);
          HealthyRecovery(old(disk), disk, old(steps), o);
          return;
        }
        todo := todo - {id};
      }
      o := Completed;
      EachEnds(old(disk), disk);
      EachIsAll(old(disk), disk, old(steps), steps, o);
    }

    // ---------- Mutations ----------

    /** Writes a package tree at a new path; an interrupted write leaves any part of it. */
    method WriteNewTree(l: Loc, files: Files) returns (o: Outcome)
      requires l !in disk.fs
      modifies this`steps, this`disk
      ensures !o.Refused? && Spent(old(steps), steps, 1, o) && disk == old(disk).(fs := disk.fs)
      ensures o.Completed? ==> disk.fs == old(disk).fs[l := files]
      ensures forall k :: k != l ==> (k in disk.fs <==> k in old(disk).fs) && (k in disk.fs ==> disk.fs[k] == old(disk).fs[k])
      ensures o.Completed? ==> steps == old(steps) - 1
    {
      o := Proceed();
      if o.Completed? {
        disk := disk.(fs := disk.fs[l := files]);
      } else if * {
        var part: Files :| part.Items <= files.Items;
        disk := disk.(fs := disk.fs[l := part]);
      }
    }

    /** Stages and verifies the target, then journals the transaction. */
    method Prepare(id: TxId, t: Transaction, files: Files) returns (o: Outcome)
      requires disk.journals == map[] && Fresh(disk, id) && t.digest == Ordinal(files)
      modifies this`steps, this`disk
      ensures Spent(old(steps), steps, 2, o) && (o.Refused? ==> files == map[])
      ensures o.Completed? ==> files != map[] && disk == old(disk).(fs := Staged(old(disk).fs, id, files), journals := map[id := t])
      ensures !o.Completed? ==> OnlyStaging(old(disk), disk, id)
      ensures o.Completed? ==> steps == old(steps) - 2
    {
      ghost var d0 := disk;
      o := WriteNewTree(Staging(id), files);
      if !o.Completed? { return; }
      if !Matches(disk.fs, Staging(id), t.digest) { return Refused(StageDrift); }
      o := WriteJournal(id, t);
    }

    method SetState(id: TxId, state: TxState) returns (o: Outcome)
      requires id in disk.journals
      modifies this`steps, this`disk
      ensures !o.Refused? && Spent(old(steps), steps, 2, o)
      ensures disk == old(disk) || disk == old(disk).(journals := old(disk).journals[id := old(disk).journals[id].(state := state)])
      ensures o.Completed? ==> disk.journals[id].state == state
      ensures o.Completed? ==> steps == old(steps) - 2
    {
      o := WriteJournal(id, disk.journals[id].(state := state));
      if o.Completed? { o := Proceed(); }
    }

    /** Moves the previous package to its snapshot path. */
    method MoveAside(id: TxId, ghost d0: Disk, ghost t: Transaction, ghost files: Files) returns (o: Outcome)
      requires Planned(d0, id, t, files) && InFlight(d0, disk, id, t, files) && disk.fs == Staged(d0.fs, id, files)
      modifies this`steps, this`disk
      ensures InFlight(d0, disk, id, t, files) && !o.Refused? && Spent(old(steps), steps, 3, o)
      ensures o.Completed? ==> disk.fs == Aside(Staged(d0.fs, id, files), id, t)
      ensures o.Completed? && t.previous.Some? ==> disk.journals[id].state.PreviousStaged?
      ensures o.Completed? ==> steps == if t.previous.Some? then old(steps) - 3 else old(steps)
    {
      var tx := disk.journals[id];
      o := Completed;
      if tx.previous.Some? {
        o := RenameTree(Active(tx.slug), RecoverySnapshot(id, tx));
        if o.Completed? { o := SetState(id, PreviousStaged); }
      }
    }

    /** Promotes the stage over the vacated path. */
    method PromoteStage(id: TxId, ghost d0: Disk, ghost t: Transaction, ghost files: Files) returns (o: Outcome)
      requires Planned(d0, id, t, files) && InFlight(d0, disk, id, t, files) && disk.fs == Aside(Staged(d0.fs, id, files), id, t)
      modifies this`steps, this`disk
      ensures InFlight(d0, disk, id, t, files) && !o.Refused? && Spent(old(steps), steps, 3, o)
      ensures o.Completed? ==> disk.fs == Promoted(Aside(Staged(d0.fs, id, files), id, t), id, t.slug)
      ensures o.Completed? ==> disk.journals[id].state.Installed?
      ensures o.Completed? ==> steps == old(steps) - 3
    {
      o := RenameTree(Staging(id), Active(disk.journals[id].slug));
      if o.Completed? { o := SetState(id, Installed); }
    }

    /** A denied checkpoint after the old tree moved restores it before the call fails. */
    method Checkpoint(hook: Hook) returns (o: Outcome)
      requires disk.journals != map[] && AtMostOneJournal(disk)
      modifies this`steps, this`disk
      ensures o == if DeniedLate(hook) then Refused(CheckpointFailed) else Completed
      ensures o.Completed? ==> disk == old(disk) && steps == old(steps)
      ensures o.Refused? ==> exists recovery :: RecoverWith(old(disk), disk, old(steps), recovery)
      ensures steps <= old(steps) <= steps + 6
      ensures atomicRemoval && Inv(old(disk)) ==> Inv(disk)
    {
      hide Inv, RecoverWith, RecoverEach;
      SingleJournal(disk);
      o := Completed;
      if hook.Hook? && hook.deniedSecond {
        var recovery := Recover();
        o := Refused(CheckpointFailed);
      }
    }

    /** Commits the registry entry of verified promoted bytes and journals that. */
    method CommitRecord(id: TxId, rec: Record, ghost d0: Disk, ghost t: Transaction, ghost files: Files) returns (o: Outcome)
      requires Planned(d0, id, t, files) && InFlight(d0, disk, id, t, files)
      requires disk.fs == Promoted(Aside(Staged(d0.fs, id, files), id, t), id, t.slug)
      modifies this`steps, this`disk
      ensures !o.Refused? && Spent(old(steps), steps, 3, o)
      ensures o.Completed? ==> JustCommitted(d0, disk, id, t, files, rec) && id in disk.journals && disk.journals[id].state.RegistryCommitted?
      ensures InFlight(d0, disk, id, t, files) || JustCommitted(d0, disk, id, t, files, rec)
      ensures atomicRemoval && Inv(d0) && RollbackPlanned(d0, t) && Targets(rec, id, t) ==> Inv(disk)
      ensures o.Completed? ==> steps == old(steps) - 3
    {
      InFlightIs(d0, disk, id, t, files);
      hide Inv, Staged, Aside, Promoted, Planned, Targets, RollbackPlanned, InFlight, JustCommitted;
      ghost var sound := atomicRemoval && Inv(d0) && RollbackPlanned(d0, t) && Targets(rec, id, t);
      if sound { InFlightKeepsInv(d0, disk, id, t, files); }
      ghost var before := disk;
      o := WriteRegistry(disk.registry[disk.journals[id].slug := rec]);
      if !o.Completed? { return; }
      EntryCommitted(d0, before, disk, id, t, files, rec);
      ghost var committed := disk;
      o := SetState(id, RegistryCommitted);
      EntryStaysCommitted(d0, committed, disk, id, t, files, rec, RegistryCommitted);
      if sound { CommitKeepsInv(d0, disk, id, t, files, rec); }
    }

    /** From the prepared journal to the promoted stage: the old tree moves, the checkpoint may deny, the new tree moves. */
    method Promote(id: TxId, hook: Hook, ghost d0: Disk, ghost t: Transaction, ghost files: Files) returns (o: Outcome)
      requires Planned(d0, id, t, files) && InFlight(d0, disk, id, t, files) && disk.fs == Staged(d0.fs, id, files)
      modifies this`steps, this`disk
      ensures o.Completed? ==> InFlight(d0, disk, id, t, files) && disk.fs == Promoted(Aside(Staged(d0.fs, id, files), id, t), id, t.slug)
      ensures o.Stopped? ==> InFlight(d0, disk, id, t, files)
      ensures o.Refused? ==> DeniedLate(hook) && UndoneAfterDenial(d0, disk, id, t, files, old(steps) - 3)
      ensures DeniedLate(hook) ==> !o.Completed?
      ensures Spent(old(steps), steps, 12, o)
      ensures atomicRemoval && Inv(d0) && RollbackPlanned(d0, t) ==> Inv(disk)
      ensures o.Completed? ==> steps == old(steps) - if t.previous.Some? then 6 else 3
    {
      hide Inv, Staged, Aside, Promoted, Planned, RecoverWith;
      ghost var sound := atomicRemoval && Inv(d0) && RollbackPlanned(d0, t);
      o := MoveAside(id, d0, t, files);
      if sound { InFlightKeepsInv(d0, disk, id, t, files); }
      if !o.Completed? { return; }
      ghost var aside, left := disk, steps;
      o := Checkpoint(hook);
      if !o.Completed? {
        assert UndoneAfterDenial(d0, disk, id, t, files, old(steps) - 3) by { assert InFlight(d0, aside, id, t, files) && left >= old(steps) - 3; }
        return;
      }
      o := PromoteStage(id, d0, t, files);
      if sound { InFlightKeepsInv(d0, disk, id, t, files); }
    }

    /** Reads the promoted bytes back, whatever another program did to them meanwhile, and commits them. */
    method ReadBackAndCommit(id: TxId, rec: Record, outside: Outside, ghost d0: Disk, ghost t: Transaction, ghost files: Files)
        returns (o: Outcome)
      requires Planned(d0, id, t, files) && InFlight(d0, disk, id, t, files)
      requires disk.fs == Promoted(Aside(Staged(d0.fs, id, files), id, t), id, t.slug)
      modifies this`steps, this`disk
      ensures if outside.AfterPromotion? && outside.files != files then
                o.Refused? && disk == WithActive(old(disk), t.slug, outside.files)
              else
                && !o.Refused? && (InFlight(d0, disk, id, t, files) || JustCommitted(d0, disk, id, t, files, rec))
                && (o.Completed? ==> JustCommitted(d0, disk, id, t, files, rec))
                && (atomicRemoval && Inv(d0) && RollbackPlanned(d0, t) && Targets(rec, id, t) ==> Inv(disk))
      ensures Spent(old(steps), steps, 3, o)
      ensures o.Completed? ==> steps == old(steps) - 3
    {
      PromotedPlaces(d0, disk.fs, id, t, files);
      InFlightIs(d0, disk, id, t, files);
      TargetDescribes(d0, id, t, files);
      hide Inv, Staged, Aside, Promoted, Planned, Targets, RollbackPlanned, InFlight, JustCommitted;
      ghost var before := disk;
      if outside.AfterPromotion? {
        disk := WithActive(disk, disk.journals[id].slug, outside.files);
      }
      if !Matches(disk.fs, Active(disk.journals[id].slug), disk.journals[id].digest) { return Refused(PromotionDrift); }
      o := CommitRecord(id, rec, d0, t, files);
    }

    /** The last look at the active path before the move, after whatever another program does to it. */
    method LookAgain(id: TxId, outside: Outside, ghost d0: Disk, ghost t: Transaction, ghost files: Files) returns (o: Outcome)
      requires Planned(d0, id, t, files) && disk == d0.(fs := Staged(d0.fs, id, files), journals := map[id := t])
      modifies this`disk
      ensures if outside.BeforeMove? && Intrudes(d0, t.slug, files, outside) then
                o.Refused? && disk == WithActive(old(disk), t.slug, outside.files)
              else o.Completed? && disk == old(disk)
    {
      ghost var prepared := disk;
      var tx := disk.journals[id];
      if outside.BeforeMove? { disk := WithActive(disk, tx.slug, outside.files); }
      VerifiedBytes(d0, prepared, id, t, files, outside);
      hide Planned, Staged, Intrudes;
      if tx.previous.Some? && !Matches(disk.fs, Active(tx.slug), tx.previous.value.digest) { return Refused(LocalDrift); }
      if tx.previous.None? && Active(tx.slug) in disk.fs { return Refused(AppearedAfterPlanning); }
      o := Completed;
    }

    /** From the prepared journal to the registry commit and its record in the journal. */
    method Mutate(id: TxId, files: Files, rec: Record, hook: Hook, outside: Outside, ghost d0: Disk, ghost t: Transaction)
        returns (o: Outcome)
      requires Planned(d0, id, t, files) && InFlight(d0, disk, id, t, files) && disk.fs == Staged(d0.fs, id, files)
      modifies this`steps, this`disk
      ensures if outside.AfterPromotion? && outside.files != files then IntrudedCall(d0, disk, id, t, files, rec, outside, o)
              else
                && MutatedWith(d0, disk, id, t, files, rec, false, hook, old(steps) - 3, o)
                && (atomicRemoval && Inv(d0) && RollbackPlanned(d0, t) && Targets(rec, id, t) ==> Inv(disk))
      ensures Spent(old(steps), steps, 15, o)
      ensures o.Completed? ==> steps == old(steps) - if t.previous.Some? then 9 else 6
    {
      hide Inv, Staged, Aside, Promoted, Planned, Targets, RecoverWith, JustCommitted, InFlight, UndoneAfterDenial;
      o := Promote(id, hook, d0, t, files);
      if !o.Completed? {
        PromotionHalts(d0, disk, id, t, files, rec, old(steps) - 3, o);
        return;
      }
      ghost var promoted := disk;
      o := ReadBackAndCommit(id, rec, outside, d0, t, files);
    }

    /** Asks the first checkpoint and the registry again, looks at the active path for the last time, and mutates. */
    method Reconfirm(id: TxId, files: Files, rec: Record, hook: Hook, changed: Option<Refusal>, outside: Outside,
                     ghost d0: Disk, ghost t: Transaction) returns (o: Outcome)
      requires Planned(d0, id, t, files) && disk == d0.(fs := Staged(d0.fs, id, files), journals := map[id := t])
      modifies this`steps, this`disk
      ensures if Intrudes(d0, t.slug, files, outside) then IntrudedCall(d0, disk, id, t, files, rec, outside, o)
              else
                && MutatedWith(d0, disk, id, t, files, rec, Held(hook, changed), hook, old(steps) - 4, o)
                && (atomicRemoval && Inv(d0) && RollbackPlanned(d0, t) && Targets(rec, id, t) ==> Inv(disk))
      ensures Spent(old(steps), steps, 16, o)
      ensures o.Completed? ==> steps == old(steps) - if t.previous.Some? then 10 else 7
    {
      PreparedIsInFlight(d0, disk, id, t, files);
      if atomicRemoval && Inv(d0) && RollbackPlanned(d0, t) { InFlightKeepsInv(d0, disk, id, t, files); }
      PreparedMovedNothing(d0, disk, id, t, files);
      hide Inv, Planned, InFlight, Halted, JustCommitted, Targets, RollbackPlanned, Staged, Aside, Promoted, UndoneAfterDenial,
           OnlyStagingMoved, MutatedWith, IntrudedCall;
      o := HoldBack(hook, changed);
      if !o.Completed? {
        HeldBack(d0, disk, id, t, files, rec, Held(hook, changed), hook, outside, old(steps) - 4, o);
        return;
      }
      ghost var left: int := steps;
      o := Perform(id, files, rec, hook, outside, d0, t);
      FewerEffects(d0, disk, id, t, files, rec, hook, left - 3, old(steps) - 4, o);
    }

    /** Asks the first checkpoint, or takes the refusal of the re-read release. */
    method HoldBack(hook: Hook, changed: Option<Refusal>) returns (o: Outcome)
      modifies this`steps
      ensures o.Refused? ==> Held(hook, changed)
      ensures o.Completed? ==> !Held(hook, changed) && steps == old(steps) - 1
      ensures Spent(old(steps), steps, 1, o)
    {
      o := Proceed();
      if !o.Completed? { return; }
      if hook.Hook? {
        if hook.deniedFirst { return Refused(CheckpointFailed); }
      } else if changed.Some? {
        return Refused(changed.value);
      }
    }

    /** The last look at the active path, and the mutation. */
    method Perform(id: TxId, files: Files, rec: Record, hook: Hook, outside: Outside, ghost d0: Disk, ghost t: Transaction) returns (o: Outcome)
      requires Planned(d0, id, t, files) && disk == d0.(fs := Staged(d0.fs, id, files), journals := map[id := t])
      modifies this`steps, this`disk
      ensures if Intrudes(d0, t.slug, files, outside) then IntrudedCall(d0, disk, id, t, files, rec, outside, o)
              else
                && MutatedWith(d0, disk, id, t, files, rec, false, hook, old(steps) - 3, o)
                && (atomicRemoval && Inv(d0) && RollbackPlanned(d0, t) && Targets(rec, id, t) ==> Inv(disk))
      ensures Spent(old(steps), steps, 15, o)
      ensures o.Completed? ==> steps == old(steps) - if t.previous.Some? then 9 else 6
    {
      PreparedIsInFlight(d0, disk, id, t, files);
      hide Inv, Planned, InFlight, Halted, JustCommitted, Targets, RollbackPlanned, Staged, Aside, Promoted, UndoneAfterDenial;
      ghost var prepared := disk;
      o := LookAgain(id, outside, d0, t, files);
      if !o.Completed? {
        IntruderStays(d0, prepared, id, t, files, rec, outside, o);
        return;
      }
      o := Mutate(id, files, rec, hook, outside, d0, t);
    }

    /** Stages and journals the target, and carries the mutation to its registry commit. */
    method Carry(id: TxId, t: Transaction, files: Files, rec: Record, hook: Hook, changed: Option<Refusal>, outside: Outside, ghost d0: Disk)
        returns (o: Outcome)
      requires disk == d0 && d0.journals == map[] && Fresh(d0, id) && t.digest == Ordinal(files)
      requires files != map[] ==> Planned(d0, id, t, files)
      modifies this`steps, this`disk
      ensures if Intrudes(d0, t.slug, files, outside) then IntrudedCall(d0, disk, id, t, files, rec, outside, o)
              else
                && CarriedWith(d0, disk, id, t, files, rec, Held(hook, changed), hook, old(steps) - 6, o)
                && (atomicRemoval && Inv(d0) && (files == map[] || (RollbackPlanned(d0, t) && Targets(rec, id, t))) ==> Inv(disk))
      ensures Spent(old(steps), steps, 18, o)
      ensures o.Completed? ==> files != map[] && steps == old(steps) - if t.previous.Some? then 12 else 9
    {
      hide Inv, Fresh, Planned, InFlight, JustCommitted, Halted, Targets, RollbackPlanned, Staged, Aside, Promoted, UndoneAfterDenial, Intrudes;
      o := Prepare(id, t, files);
      if !o.Completed? {
        if atomicRemoval && Inv(d0) { StagingChangeKeepsInv(d0, disk, id); }
        return;
      }
      ghost var left: int := steps;
      o := Reconfirm(id, files, rec, hook, changed, outside, d0, t);
      FewerEffects(d0, disk, id, t, files, rec, hook, left - 4, old(steps) - 6, o);
    }

    /** The caller has recovered the root and read the registry under the same lock. */
    method InstallSkillVersion(id: TxId, q: Request) returns (o: Outcome)
      requires disk.journals == map[] && Fresh(disk, id)
      modifies this`steps, this`disk
      ensures if Intrudes(old(disk), q.slug, q.bundle.files, q.outside) then
                IntrudedCall(old(disk), disk, id, InstallTransaction(old(disk), q), q.bundle.files, InstalledRecord(old(disk), id, q), q.outside, o)
              else
                && InstallWith(compare, cliVersion, old(disk), disk, id, q, old(steps), o)
                && (atomicRemoval && Inv(old(disk)) ==> Inv(disk))
      ensures InstallRefusal(compare, cliVersion, old(disk), q).Some? ==>
                o == Refused(InstallRefusal(compare, cliVersion, old(disk), q).value)
      ensures Spent(old(steps), steps, CallBudget - 1, o)
      ensures o.Completed? ==> steps == old(steps) - if q.slug in old(disk).registry then 14 else 11
    {
      hide Inv, Fresh, InstalledRecord, InFlight, JustCommitted, Planned, Targets, RollbackPlanned, Staged, Aside, Promoted, Eligibility,
           Permitted, Reconfirmed, UndoneAfterDenial, InstallRefusal, Halted;
      ghost var d0 := disk;
      PermittedExactly(compare, cliVersion, disk, q);
      ReconfirmedExactly(compare, cliVersion, disk, q);
      var refusal := InstallRefusal(compare, cliVersion, disk, q);
      if refusal.Some? { return Refused(refusal.value); }
      :- Proceed();
      var t, rec := InstallTransaction(disk, q), InstalledRecord(disk, id, q);
      if q.bundle.files != map[] { InstallIsPlanned(compare, cliVersion, d0, id, q); }
      ghost var left: int := steps;
      o := Carry(id, t, q.bundle.files, rec, q.hook, RereadRefusal(compare, cliVersion, disk, q), q.outside, d0);
      FewerEffects(d0, disk, id, t, q.bundle.files, rec, q.hook, left - 6, old(steps) - 7, o);
      if !o.Completed? { return; }
      o := Finish(id, d0, t, q.bundle.files, rec);
    }

    /** Drops the journal of a committed install or update. */
    method Finish(id: TxId, ghost d0: Disk, ghost t: Transaction, ghost files: Files, ghost rec: Record) returns (o: Outcome)
      requires JustCommitted(d0, disk, id, t, files, rec) && d0.journals == map[]
      modifies this`steps, this`disk
      ensures !o.Refused? && Spent(old(steps), steps, 1, o)
      ensures disk == if o.Completed? then d0.(fs := PromotedFs(d0.fs, id, t, files), registry := d0.registry[t.slug := rec]) else old(disk)
      ensures Inv(old(disk)) && Planned(d0, id, t, files) && Inv(d0) && RollbackPlanned(d0, t) && Targets(rec, id, t) ==> Inv(disk)
      ensures o.Completed? ==> steps == old(steps) - 1
    {
      hide Inv, Planned, Targets, RollbackPlanned, Staged, Aside, Promoted;
      ghost var before := disk;
      if Inv(disk) && Planned(d0, id, t, files) && Inv(d0) && RollbackPlanned(d0, t) && Targets(rec, id, t) {
        CommitKeepsInv(d0, disk, id, t, files, rec);
        CommittedIsSettled(disk, id);
        FinishTransaction(disk, disk.(journals := disk.journals - {id}), id);
      }
      o := DropJournal(id);
      assert o.Completed? ==> disk.journals == map[];
    }

    /** The caller has recovered the root and read the registry under the same lock. */
    method Rollback(id: TxId, s: Slug, now: string, hook: Hook, outside: Outside) returns (o: Outcome)
      requires disk.journals == map[] && Fresh(disk, id)
      requires s in disk.registry ==> forall i :: 0 <= i < |disk.registry[s].history| ==> disk.registry[s].history[i].path.Snapshot?
      modifies this`steps, this`disk
      ensures if RollbackRefusal(old(disk), s).None? && Intrudes(old(disk), s, RollbackFiles(old(disk), s), outside) then
                IntrudedCall(old(disk), disk, id, RollbackTx(old(disk), s), RollbackFiles(old(disk), s),
                             RollbackRecord(old(disk), s, now), outside, o)
              else
                && RollbackWith(old(disk), disk, id, s, now, hook, old(steps), o)
                && (atomicRemoval && Inv(old(disk)) && RollbackDistinct(old(disk), s) ==> Inv(disk))
      ensures RollbackRefusal(old(disk), s).Some? ==> o == Refused(RollbackRefusal(old(disk), s).value)
      ensures Spent(old(steps), steps, CallBudget - 1, o)
      ensures o.Completed? ==> steps == old(steps) - 15
    {
      hide Inv, Fresh, InFlight, JustCommitted, Planned, Targets, RollbackPlanned, Staged, Aside, Promoted, Distinguishable,
           UndoneAfterDenial, CanRollBack, Halted;
      ghost var d0 := disk;
      CanRollBackExactly(disk, s);
      var refusal := RollbackRefusal(disk, s);
      if refusal.Some? { return Refused(refusal.value); }
      var e := MigratedRecord(disk.registry[s]);
      var files := disk.fs[Last(e.history).path];
      var t, rec := RollbackTransaction(e, s, files), RolledBackRecord(e, files, now);
      RollbackIsPlanned(d0, id, s, now);
      ghost var sound := atomicRemoval && Inv(d0) && Distinguishable(d0.registry[s], t);
      o := Carry(id, t, files, rec, hook, None, outside, d0);
      if !o.Completed? { return; }
      if sound { CommitKeepsInv(d0, disk, id, t, files, rec); }
      o := FinishRollback(id, d0, t, files, rec);
    }

    /** Removes the spare copies of a committed rollback and drops its journal. */
    method FinishRollback(id: TxId, ghost d0: Disk, ghost t: Transaction, ghost files: Files, ghost rec: Record) returns (o: Outcome)
      requires JustCommitted(d0, disk, id, t, files, rec) && d0.journals == map[]
      requires t.op.Rollback? && t.previous.Some? && t.snapshotCreated && t.source.Some?
      modifies this`steps, this`disk
      ensures !o.Refused? && Spent(old(steps), steps, 3, o)
      ensures o.Completed? ==> disk == d0.(fs := Removed(Removed(PromotedFs(d0.fs, id, t, files), RecoverySnapshot(id, t)), t.source.value),
                                           registry := d0.registry[t.slug := rec])
      ensures !o.Completed? ==> CleaningUp(d0, disk, id, t, files, rec)
      ensures atomicRemoval && Inv(old(disk)) && Committed(old(disk), id, old(disk).journals[id]) ==> Inv(disk)
      ensures o.Completed? ==> steps == old(steps) - 3
    {
      hide Inv, Committed, Staged, Aside, Promoted;
      ghost var sound, d1 := atomicRemoval && Inv(disk) && Committed(disk, id, disk.journals[id]), disk;
      assert disk.journals[id].op.Rollback? && disk.journals[id].source == t.source && SnapshotOf(id, disk.journals[id]) == Some(RecoverySnapshot(id, t));
      o := RemoveRollbackCopies(id);
      if !o.Completed? { return; }
      if sound { CommittedIsSettled(disk, id); FinishTransaction(disk, disk.(journals := disk.journals - {id}), id); }
      o := DropJournal(id);
      assert o.Completed? ==> disk.journals == map[];
    }
  }
}
