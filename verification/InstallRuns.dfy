/**
  Whole histories of an installation root: mutations stopped anywhere, recoveries stopped anywhere.

  Calls are known only by the contracts their methods prove (`InstallCall`, `RollbackCall`, `RecoverAllCall`), so the
  theorems hold of every schedule of crashes, denied checkpoints and refusals.
*/
module InstallRuns {
  import opened Wrappers
  import opened InstallModel
  import opened InstallRecovery
  import opened InstallPlan
  import opened InstallHistory

  // ---------- Crash atomicity ----------

  /** Registry entry and active bytes are what they were before, up to migration of the digest scheme. */
  ghost predicate AsBefore(d0: Disk, d: Disk, s: Slug) {
    && (s in d.registry <==> s in d0.registry)
    && (s in d.registry ==> SameUpToMigration(d.registry[s], d0.registry[s]))
    && (Active(s) in d.fs <==> Active(s) in d0.fs)
    && (Active(s) in d.fs ==> d.fs[Active(s)] == d0.fs[Active(s)])
  }

  /** Registry entry and active bytes are the target's. */
  ghost predicate AsTarget(d: Disk, s: Slug, rec: Record, files: Files) {
    s in d.registry && d.registry[s] == rec && Active(s) in d.fs && d.fs[Active(s)] == files
  }

  ghost predicate EntryBefore(d0: Disk, d: Disk, s: Slug) {
    (s in d.registry <==> s in d0.registry) && (s in d.registry ==> SameUpToMigration(d.registry[s], d0.registry[s]))
  }

  ghost predicate OthersUntouched(d0: Disk, d: Disk, s: Slug) {
    forall s' :: s' != s ==> (s' in d.registry <==> s' in d0.registry) && (s' in d.registry ==> d.registry[s'] == d0.registry[s'])
  }

  /**
    At one of the two outcomes once nothing is journaled; on the way between them while the transaction is: before the
    commit with the previous bytes in one of their two places, or after it with the target's bytes active.
  */
  ghost predicate Between(d0: Disk, d: Disk, id: TxId, t: Transaction, files: Files, rec: Record) {
    && d.managed == d0.managed && OthersUntouched(d0, d, t.slug)
    && if d.journals == map[] then AsBefore(d0, d, t.slug) || AsTarget(d, t.slug, rec, files)
       else && d.journals.Keys == {id} && SameTransaction(d.journals[id], t)
            && (BeforeIt(d0, d, id, t) || AfterIt(d, t, rec))
  }

  ghost predicate BeforeIt(d0: Disk, d: Disk, id: TxId, t: Transaction) {
    EntryBefore(d0, d, t.slug) && KeepsPrevious(d, id, t)
  }

  ghost predicate AfterIt(d: Disk, t: Transaction, rec: Record) {
    t.slug in d.registry && d.registry[t.slug] == rec && Matches(d.fs, Active(t.slug), t.digest)
  }

  lemma MigrationIsShared(r: Record, p: Record, files: Files)
    requires SameUpToMigration(r, p) && Describes(r.digest, files)
    ensures forall g :: Describes(p.digest, g) ==> g == files
  {
    assert Migrated(r.digest) == MigratedRecord(r).digest == MigratedRecord(p).digest == Migrated(p.digest);
  }

  /** Recovery, interrupted, refused or complete, stays between the two outcomes, and reaches one of them when it completes. */
  lemma RecoveryStaysBetween(d0: Disk, d: Disk, d': Disk, id: TxId, t: Transaction, files: Files, rec: Record, o: Outcome)
    requires Planned(d0, id, t, files) && Targets(rec, id, t)
    requires Between(d0, d, id, t, files, rec) && RecoverAllCall(d, d', o)
    ensures Between(d0, d', id, t, files, rec)
    ensures o.Completed? ==> d'.journals == map[]
  {
    hide Planned, Targets, Recovered, RecoveryRefusal, CandidateCommitted, AsBefore, AsTarget, BeforeIt, AfterIt, Guarded, Confined, KeepsPrevious;
    if d.journals != map[] {
      var id' :| id' in d.journals && RecoveryCall(d, d', id', o);
      assert id' == id;
      RecoveryIsLocal(d0, d, d', id, t, files, o);
      if o.Refused? {
      } else if BeforeIt(d0, d, id, t) {
        RecoveryBeforeCommit(d0, d, d', id, t, files, o);
      } else {
        RecoveryAfterCommit(d0, d, d', id, t, files, rec, o);
      }
    }
  }

  lemma RecoveryIsLocal(d0: Disk, d: Disk, d': Disk, id: TxId, t: Transaction, files: Files, o: Outcome)
    requires d.managed == d0.managed && OthersUntouched(d0, d, t.slug)
    requires d.journals.Keys == {id} && SameTransaction(d.journals[id], t) && RecoveryCall(d, d', id, o)
    ensures d'.managed == d0.managed && OthersUntouched(d0, d', t.slug)
    ensures o.Completed? ==> d'.journals == map[]
    ensures o.Stopped? ==> d'.journals == d.journals
    ensures o.Refused? ==> d' == d
  {
  }

  lemma RecoveryBeforeCommit(d0: Disk, d: Disk, d': Disk, id: TxId, t: Transaction, files: Files, o: Outcome)
    requires Planned(d0, id, t, files) && BeforeIt(d0, d, id, t)
    requires d.journals.Keys == {id} && SameTransaction(d.journals[id], t) && RecoveryCall(d, d', id, o)
    ensures BeforeIt(d0, d', id, t)
    ensures o.Completed? ==> AsBefore(d0, d', t.slug)
  {
    var u := d.journals[id];
    PlannedIsGuarded(d0, d, id, t, u, files);
    EntryStaysBefore(d0, d, d', id, t, files, o);
    SameGuard(d', id, u, t);
    if o.Completed? {
      if CandidateCommitted(d, u) { CandidateIsAsBefore(d0, d, id, t, files); } else { RestoredIsAsBefore(d0, d, id, t, files); }
    }
  }

  lemma PlannedIsGuarded(d0: Disk, d: Disk, id: TxId, t: Transaction, u: Transaction, files: Files)
    requires Planned(d0, id, t, files) && BeforeIt(d0, d, id, t) && SameTransaction(u, t)
    ensures Guarded(d, id, u)
  {
  }

  /** Recovery leaves the registry alone or writes the previous record, which is the one from before. */
  lemma EntryStaysBefore(d0: Disk, d: Disk, d': Disk, id: TxId, t: Transaction, files: Files, o: Outcome)
    requires Planned(d0, id, t, files) && EntryBefore(d0, d, t.slug)
    requires id in d.journals && SameTransaction(d.journals[id], t) && RecoveryCall(d, d', id, o)
    ensures EntryBefore(d0, d', t.slug)
  {
  }

  /** A transaction taken for committed before its commit has the same bytes as the package it replaces. */
  lemma CandidateIsAsBefore(d0: Disk, d: Disk, id: TxId, t: Transaction, files: Files)
    requires Planned(d0, id, t, files) && EntryBefore(d0, d, t.slug)
    requires d.journals.Keys == {id} && SameTransaction(d.journals[id], t) && CandidateCommitted(d, d.journals[id])
    ensures AsBefore(d0, Recovered(d, id), t.slug)
  {
    MigrationIsShared(d.registry[t.slug], d0.registry[t.slug], files);
  }

  lemma RestoredIsAsBefore(d0: Disk, d: Disk, id: TxId, t: Transaction, files: Files)
    requires Planned(d0, id, t, files) && EntryBefore(d0, d, t.slug)
    requires d.journals.Keys == {id} && SameTransaction(d.journals[id], t) && !CandidateCommitted(d, d.journals[id])
    requires RecoveryRefusal(d, id, d.journals[id]).None?
    ensures AsBefore(d0, Recovered(d, id), t.slug)
  {
    var d' := Recovered(d, id);
    if t.previous.Some? {
      var f := d0.fs[Active(t.slug)];
      assert Describes(d0.registry[t.slug].digest, f) && Describes(t.previous.value.digest, f);
      assert Matches(d'.fs, Active(t.slug), t.previous.value.digest);
    } else {
      assert Active(t.slug) !in d'.fs;
    }
  }

  lemma RecoveryAfterCommit(d0: Disk, d: Disk, d': Disk, id: TxId, t: Transaction, files: Files, rec: Record, o: Outcome)
    requires Planned(d0, id, t, files) && Targets(rec, id, t) && AfterIt(d, t, rec)
    requires d.journals.Keys == {id} && SameTransaction(d.journals[id], t) && RecoveryCall(d, d', id, o)
    ensures AfterIt(d', t, rec)
    ensures o.Completed? ==> AsTarget(d', t.slug, rec, files)
  {
    assert CandidateCommitted(d, d.journals[id]) && Parsed(d.journals[id]);
  }

  lemma InFlightIsBetween(d0: Disk, d: Disk, id: TxId, t: Transaction, files: Files, rec: Record)
    requires Planned(d0, id, t, files) && InFlight(d0, d, id, t, files)
    ensures Between(d0, d, id, t, files, rec)
  {
    InFlightKeepsPrevious(d0, d, id, t, files);
    assert id in d.journals;
  }

  lemma CommittedIsBetween(d0: Disk, d: Disk, id: TxId, t: Transaction, files: Files, rec: Record)
    requires Planned(d0, id, t, files) && JustCommitted(d0, d, id, t, files, rec)
    ensures Between(d0, d, id, t, files, rec)
  {
    PromotedPlaces(d0, d.fs, id, t, files);
    assert id in d.journals;
  }

  /** Wherever a mutation halts, it halts between the two outcomes. */
  lemma HaltedIsBetween(d0: Disk, d: Disk, id: TxId, t: Transaction, files: Files, rec: Record)
    requires Planned(d0, id, t, files) && Targets(rec, id, t) && Halted(d0, d, id, t, files, rec)
    ensures Between(d0, d, id, t, files, rec)
  {
    hide Planned, Targets, InFlight, JustCommitted, Between, RecoverAllCall;
    if InFlight(d0, d, id, t, files) {
      InFlightIsBetween(d0, d, id, t, files, rec);
    } else if JustCommitted(d0, d, id, t, files, rec) {
      CommittedIsBetween(d0, d, id, t, files, rec);
    } else {
      var mid, o :| InFlight(d0, mid, id, t, files) && RecoverAllCall(mid, d, o);
      InFlightIsBetween(d0, mid, id, t, files, rec);
      RecoveryStaysBetween(d0, mid, d, id, t, files, rec, o);
    }
  }

  /** Recoveries of one root, one after the other, each possibly interrupted or refused, with removals that may tear. */
  ghost predicate Recoveries(ds: seq<Disk>, os: seq<Outcome>) {
    |ds| == |os| + 1 && forall i :: 0 <= i < |os| ==> RecoverAllCall(ds[i], ds[i + 1], os[i])
  }

  lemma {:induction false} RecoveriesStayBetween(d0: Disk, ds: seq<Disk>, os: seq<Outcome>, id: TxId, t: Transaction, files: Files, rec: Record)
    requires Planned(d0, id, t, files) && Targets(rec, id, t)
    requires Recoveries(ds, os) && Between(d0, ds[0], id, t, files, rec)
    ensures Between(d0, ds[|os|], id, t, files, rec)
    ensures os != [] && os[|os| - 1].Completed? ==> ds[|os|].journals == map[]
  {
    hide Planned, Targets, Between, RecoverAllCall;
    if os != [] {
      var n := |os| - 1;
      RecoveriesStayBetween(d0, ds[..n + 1], os[..n], id, t, files, rec);
      RecoveryStaysBetween(d0, ds[n], ds[n + 1], id, t, files, rec, os[n]);
    }
  }

  /** Install and update are atomic: stop them anywhere, interrupt recovery as often as you like, and let it finish once. */
  lemma InstallIsAtomic(compare: Compare, cli: Version, d0: Disk, ds: seq<Disk>, os: seq<Outcome>, id: TxId, q: Request, o: Outcome)
    requires d0.journals == map[] && Fresh(d0, id)
    requires |ds| > 0 && InstallCall(compare, cli, d0, ds[0], id, q, o)
    requires Recoveries(ds, os) && os != [] && os[|os| - 1].Completed?
    ensures var d := ds[|os|];
            d.journals == map[] && OthersUntouched(d0, d, q.slug)
            && (AsBefore(d0, d, q.slug) || AsTarget(d, q.slug, InstalledRecord(d0, id, q), q.bundle.files))
  {
    hide Fresh, InstallTransaction, InstalledRecord, InstallRefusal, Staged, Aside, Promoted, Targets, Planned, Halted, Between;
    var t, rec, files := InstallTransaction(d0, q), InstalledRecord(d0, id, q), q.bundle.files;
    if OnlyStaging(d0, ds[0], id) {
      UntouchedRecovers(d0, ds, os, id);
    } else {
      InstallIsPlanned(compare, cli, d0, id, q);
      InstallEndsBetween(compare, cli, d0, ds[0], id, q, o);
      RecoveriesStayBetween(d0, ds, os, id, t, files, rec);
      BetweenSettles(d0, ds[|os|], id, t, files, rec);
    }
  }

  lemma BetweenSettles(d0: Disk, d: Disk, id: TxId, t: Transaction, files: Files, rec: Record)
    requires Between(d0, d, id, t, files, rec) && d.journals == map[]
    ensures OthersUntouched(d0, d, t.slug) && (AsBefore(d0, d, t.slug) || AsTarget(d, t.slug, rec, files))
  {
  }

  lemma InstallEndsBetween(compare: Compare, cli: Version, d0: Disk, d: Disk, id: TxId, q: Request, o: Outcome)
    requires d0.journals == map[] && Fresh(d0, id)
    requires InstallCall(compare, cli, d0, d, id, q, o) && !OnlyStaging(d0, d, id)
    ensures InstallRefusal(compare, cli, d0, q).None? && q.bundle.files != map[] && InstallTransaction(d0, q).slug == q.slug
    ensures Between(d0, d, id, InstallTransaction(d0, q), q.bundle.files, InstalledRecord(d0, id, q))
  {
    hide Staged, Aside, Promoted, Targets, Halted;
    var t, rec, files := InstallTransaction(d0, q), InstalledRecord(d0, id, q), q.bundle.files;
    InstallIsPlanned(compare, cli, d0, id, q);
    if o.Completed? {
      PromotedPlaces(d0, d.fs, id, t, files);
    } else {
      HaltedIsBetween(d0, d, id, t, files, rec);
    }
  }

  lemma {:induction false} UntouchedRecovers(d0: Disk, ds: seq<Disk>, os: seq<Outcome>, id: TxId)
    requires Recoveries(ds, os) && d0.journals == map[] && OnlyStaging(d0, ds[0], id)
    ensures ds[|os|] == ds[0]
  {
    if os != [] {
      UntouchedRecovers(d0, ds[..|os|], os[..|os| - 1], id);
      assert RecoverAllCall(ds[|os| - 1], ds[|os|], os[|os| - 1]);
    }
  }

  /** Rollback is atomic in the same sense. */
  lemma RollbackIsAtomic(d0: Disk, ds: seq<Disk>, os: seq<Outcome>, id: TxId, s: Slug, now: string, o: Outcome)
    requires d0.journals == map[] && Fresh(d0, id)
    requires RollbackRefusal(d0, s).None? && Last(d0.registry[s].history).path.Snapshot?
    requires |ds| > 0 && RollbackCall(d0, ds[0], id, s, now, o)
    requires Recoveries(ds, os) && os != [] && os[|os| - 1].Completed?
    ensures var d := ds[|os|];
            d.journals == map[] && OthersUntouched(d0, d, s)
            && (AsBefore(d0, d, s) || AsTarget(d, s, RollbackRecord(d0, s, now), RollbackFiles(d0, s)))
  {
    var t, rec, files := RollbackTx(d0, s), RollbackRecord(d0, s, now), RollbackFiles(d0, s);
    RollbackIsPlanned(d0, id, s, now);
    hide Fresh, RollbackTransaction, RolledBackRecord, Staged, Aside, Promoted, Targets, Planned, Halted, Between;
    if OnlyStaging(d0, ds[0], id) {
      UntouchedRecovers(d0, ds, os, id);
    } else {
      RollbackEndsBetween(d0, ds[0], id, s, now, o);
      RecoveriesStayBetween(d0, ds, os, id, t, files, rec);
      BetweenSettles(d0, ds[|os|], id, t, files, rec);
    }
  }

  lemma RollbackEndsBetween(d0: Disk, d: Disk, id: TxId, s: Slug, now: string, o: Outcome)
    requires d0.journals == map[] && Fresh(d0, id)
    requires RollbackRefusal(d0, s).None? && Last(d0.registry[s].history).path.Snapshot?
    requires RollbackCall(d0, d, id, s, now, o) && !OnlyStaging(d0, d, id)
    ensures Between(d0, d, id, RollbackTx(d0, s), RollbackFiles(d0, s), RollbackRecord(d0, s, now))
  {
    var t, rec, files := RollbackTx(d0, s), RollbackRecord(d0, s, now), RollbackFiles(d0, s);
    RollbackIsPlanned(d0, id, s, now);
    PromotedPlaces(d0, PromotedFs(d0.fs, id, t, files), id, t, files);
    if !o.Completed? {
      if CleaningUp(d0, d, id, t, files, rec) {
        assert id in d.journals;
      } else {
        HaltedIsBetween(d0, d, id, t, files, rec);
      }
    }
  }

  // ---------- Convergence ----------

  /** Recoveries with atomic removals, each with the effects it had left. */
  ghost predicate AtomicRecoveries(ds: seq<Disk>, effects: seq<nat>, os: seq<Outcome>) {
    |ds| == |os| + 1 && |effects| == |os|
    && forall i :: 0 <= i < |os| ==> RecoverWith(ds[i], ds[i + 1], effects[i], os[i]) && (Inv(ds[i]) ==> Inv(ds[i + 1]))
  }

  lemma {:induction false} RecoveriesStayHealthy(ds: seq<Disk>, effects: seq<nat>, os: seq<Outcome>)
    requires AtomicRecoveries(ds, effects, os) && Inv(ds[0])
    ensures Inv(ds[|os|]) && ds[|os|].managed == ds[0].managed
  {
    hide Inv;
    if os != [] {
      var n := |os| - 1;
      RecoveriesStayHealthy(ds[..n + 1], effects[..n], os[..n]);
      assert RecoverWith(ds[n], ds[n + 1], effects[n], os[n]);
      RecoveryKeepsBinding(ds[n], ds[n + 1], os[n]);
    }
  }

  lemma RecoveryKeepsBinding(d: Disk, d': Disk, o: Outcome)
    requires RecoverAllCall(d, d', o)
    ensures d'.managed == d.managed
  {
  }

  /** The last of such recoveries completes when it has effects enough. */
  lemma LastRecoveryCompletes(ds: seq<Disk>, effects: seq<nat>, os: seq<Outcome>)
    requires AtomicRecoveries(ds, effects, os) && Inv(ds[0]) && !ds[0].managed
    requires os != [] && effects[|os| - 1] >= RecoveryBudget
    ensures Recoveries(ds, os) && os[|os| - 1].Completed?
  {
    hide Inv, RecoverAllCall;
    var n := |os| - 1;
    RecoveriesStayHealthy(ds[..n + 1], effects[..n], os[..n]);
    RecoveryCompletes(ds[n], ds[n + 1], effects[n], os[n]);
  }

  /** On an unmanaged root with atomic removals, one recovery with enough effects settles a stopped install. */
  lemma InstallConverges(compare: Compare, cli: Version, d0: Disk, ds: seq<Disk>, effects: seq<nat>, os: seq<Outcome>, id: TxId,
                         q: Request, o: Outcome)
    requires d0.journals == map[] && Fresh(d0, id) && !d0.managed
    requires |ds| > 0 && InstallCall(compare, cli, d0, ds[0], id, q, o) && Inv(ds[0])
    requires AtomicRecoveries(ds, effects, os) && os != [] && effects[|os| - 1] >= RecoveryBudget
    ensures var d := ds[|os|];
            os[|os| - 1].Completed? && d.journals == map[] && OthersUntouched(d0, d, q.slug)
            && (AsBefore(d0, d, q.slug) || AsTarget(d, q.slug, InstalledRecord(d0, id, q), q.bundle.files))
  {
    hide Inv, Fresh, InstallRefusal, AtomicRecoveries, Recoveries, AsBefore, AsTarget, Halted, Between;
    if !OnlyStaging(d0, ds[0], id) {
      InstallEndsBetween(compare, cli, d0, ds[0], id, q, o);
      BetweenKeepsBinding(d0, ds[0], id, InstallTransaction(d0, q), q.bundle.files, InstalledRecord(d0, id, q));
    }
    LastRecoveryCompletes(ds, effects, os);
    InstallIsAtomic(compare, cli, d0, ds, os, id, q, o);
  }

  /** The same for a stopped rollback. */
  lemma RollbackConverges(d0: Disk, ds: seq<Disk>, effects: seq<nat>, os: seq<Outcome>, id: TxId, s: Slug, now: string, o: Outcome)
    requires d0.journals == map[] && Fresh(d0, id) && !d0.managed
    requires RollbackRefusal(d0, s).None? && Last(d0.registry[s].history).path.Snapshot?
    requires |ds| > 0 && RollbackCall(d0, ds[0], id, s, now, o) && Inv(ds[0])
    requires AtomicRecoveries(ds, effects, os) && os != [] && effects[|os| - 1] >= RecoveryBudget
    ensures var d := ds[|os|];
            os[|os| - 1].Completed? && d.journals == map[] && OthersUntouched(d0, d, s)
            && (AsBefore(d0, d, s) || AsTarget(d, s, RollbackRecord(d0, s, now), RollbackFiles(d0, s)))
  {
    hide Inv, Fresh, AtomicRecoveries, Recoveries, AsBefore, AsTarget, Halted, Between, CleaningUp, RollbackTransaction, RolledBackRecord;
    if !OnlyStaging(d0, ds[0], id) {
      RollbackEndsBetween(d0, ds[0], id, s, now, o);
      BetweenKeepsBinding(d0, ds[0], id, RollbackTx(d0, s), RollbackFiles(d0, s), RollbackRecord(d0, s, now));
    }
    LastRecoveryCompletes(ds, effects, os);
    RollbackIsAtomic(d0, ds, os, id, s, now, o);
  }

  lemma BetweenKeepsBinding(d0: Disk, d: Disk, id: TxId, t: Transaction, files: Files, rec: Record)
    requires Between(d0, d, id, t, files, rec)
    ensures d.managed == d0.managed
  {
  }

  // ---------- No loss ----------

  /** Recovery never moves a root past the registry commit, and never loses the previous bytes before it. */
  lemma RecoveryStaysGuarded(d: Disk, d': Disk, id: TxId, t: Transaction, o: Outcome)
    requires AtMostOneJournal(d) && id in d.journals && d.journals[id] == t
    requires Guarded(d, id, t) && RecoverAllCall(d, d', o)
    ensures Guarded(d', id, t)
    ensures d'.journals == d.journals || d'.journals == map[]
  {
  }

  /** Removals may tear: however often recovery is interrupted or refuses, the previous bytes stay at one of their two places. */
  lemma {:induction false} PreviousBytesSurvive(ds: seq<Disk>, os: seq<Outcome>, id: TxId, t: Transaction)
    requires Recoveries(ds, os) && AtMostOneJournal(ds[0]) && id in ds[0].journals && ds[0].journals[id] == t
    requires Guarded(ds[0], id, t)
    ensures Guarded(ds[|os|], id, t)
    ensures ds[|os|].journals == ds[0].journals || ds[|os|].journals == map[]
  {
    if os != [] {
      var n := |os| - 1;
      PreviousBytesSurvive(ds[..n + 1], os[..n], id, t);
      if ds[n].journals == ds[0].journals {
        RecoveryStaysGuarded(ds[n], ds[n + 1], id, t, os[n]);
      }
    }
  }

  /** A refused recovery has changed nothing at all. */
  lemma RefusalChangesNothing(d: Disk, d': Disk, o: Outcome)
    requires RecoverAllCall(d, d', o) && o.Refused?
    ensures d' == d && exists id :: id in d.journals && RecoveryRefusal(d, id, d.journals[id]) == Some(o.reason)
  {
    var id :| id in d.journals && RecoveryCall(d, d', id, o);
  }

  /** The places of a transaction. */
  predicate PlaceOf(id: TxId, t: Transaction, l: Loc) {
    l == Active(t.slug) || l == Staging(id) || Some(l) == SnapshotOf(id, t) || Some(l) == t.source
  }

  /** A place of this transaction and of no other that is journaled. */
  ghost predicate OnlyPlaceOf(d: Disk, id: TxId, l: Loc)
    requires id in d.journals
  {
    PlaceOf(id, d.journals[id], l) && forall other :: other in d.journals && other != id ==> !PlaceOf(other, d.journals[other], l)
  }

  /** Recovery of `d` came to `d'`, where it refuses this transaction, whose own places are all as they were. */
  ghost predicate RefusedIntact(d: Disk, d': Disk, id: TxId, reason: Refusal) {
    && id in d.journals && id in d'.journals && d'.journals[id] == d.journals[id]
    && RecoveryRefusal(d', id, d.journals[id]) == Some(reason)
    && forall l :: OnlyPlaceOf(d, id, l) ==> SameAt(d.fs, d'.fs, l)
  }

  /** With any number of journals: the transaction that is refused has lost and moved nothing. */
  lemma {:induction false} RefusalSparesItsTransaction(d: Disk, d': Disk, o: Outcome)
    requires RecoverEach(d, d', o) && o.Refused?
    ensures exists id :: RefusedIntact(d, d', id, o.reason)
    decreases d.journals.Keys
  {
    hide RecoveryRefusal, CandidateCommitted;
    var first :| first in d.journals && EachFrom(d, d', first, o);
    if RecoveryCall(d, d', first, o) && !o.Completed? {
      assert RefusedIntact(d, d', first, o.reason);
    } else {
      var mid := Recovered(d, first);
      CompletedIsRecovered(d, mid, first);
      assert mid.journals.Keys == d.journals.Keys - {first};
      RefusalSparesItsTransaction(mid, d', o);
      var id :| RefusedIntact(mid, d', id, o.reason);
      RefusedFurther(d, mid, d', first, id, o.reason);
    }
  }

  lemma RefusedFurther(d: Disk, mid: Disk, d': Disk, first: TxId, id: TxId, reason: Refusal)
    requires first in d.journals && Confined(d, mid, first, d.journals[first]) && mid.journals == d.journals - {first}
    requires RefusedIntact(mid, d', id, reason)
    ensures RefusedIntact(d, d', id, reason)
  {
    hide RecoveryRefusal;
    assert id != first;
    forall l | OnlyPlaceOf(d, id, l) ensures SameAt(d.fs, d'.fs, l) {
      assert !PlaceOf(first, d.journals[first], l);
      assert OnlyPlaceOf(mid, id, l);
    }
  }

  // ---------- Fail closed ----------

  /** Files no digest in the transaction describes: neither the previous package nor the target. */
  predicate ForeignAt(d: Disk, t: Transaction) {
    && Active(t.slug) in d.fs && !Matches(d.fs, Active(t.slug), t.digest)
    && (t.previous.Some? ==> !Matches(d.fs, Active(t.slug), t.previous.value.digest))
  }

  /** The registry entry and the active bytes are the target's, field by field. */
  predicate TargetInPlace(d: Disk, t: Transaction) {
    && t.slug in d.registry && Matches(d.fs, Active(t.slug), t.digest)
    && var r := d.registry[t.slug];
       r.version == t.version && r.platform == t.platform && r.artifact.sha256 == t.artifact.sha256 && r.digest == t.digest
  }

  predicate PreviousInPlace(d: Disk, t: Transaction) {
    t.previous.Some? && Matches(d.fs, Active(t.slug), t.previous.value.digest)
  }

  /** A recovery copy that is not the previous package. */
  predicate CopyDrifted(d: Disk, id: TxId, t: Transaction) {
    t.previous.Some? && t.snapshotCreated && RecoverySnapshot(id, t) in d.fs
    && !Matches(d.fs, RecoverySnapshot(id, t), t.previous.value.digest)
  }

  /** The previous package is nowhere: its copy is gone and something else, or nothing, is active. */
  predicate CopyMissing(d: Disk, id: TxId, t: Transaction) {
    t.snapshotCreated && !PreviousInPlace(d, t) && (t.previous.Some? ==> RecoverySnapshot(id, t) !in d.fs)
  }

  /** Bringing the copy back would need the authority of a managed workspace. */
  predicate NeedsAuthority(d: Disk, id: TxId, t: Transaction) {
    d.managed && t.previous.Some? && t.snapshotCreated && RecoverySnapshot(id, t) in d.fs && !PreviousInPlace(d, t)
  }

  /** What recovery may not touch: the disk is not the target's, and one of the four holds. */
  predicate HandsOff(d: Disk, id: TxId, t: Transaction) {
    !TargetInPlace(d, t) && (ForeignAt(d, t) || CopyDrifted(d, id, t) || CopyMissing(d, id, t) || NeedsAuthority(d, id, t))
  }

  /** A recovery of such a transaction ends without changing the disk. */
  lemma HandsOffIsKept(d: Disk, d': Disk, id: TxId, o: Outcome)
    requires d.journals.Keys == {id} && HandsOff(d, id, d.journals[id]) && RecoverAllCall(d, d', o)
    ensures d' == d && o.Refused?
  {
    assert id in d.journals;
    var id' :| id' in d.journals && RecoveryCall(d, d', id', o);
    assert id' == id;
  }

  /**
    Whatever the journal, registry and disk say: over any number of recoveries, stopped anywhere, files that belong to
    neither package, a drifted or missing recovery copy, and a managed workspace stay exactly as they are, and no recovery
    completes.
  */
  lemma {:induction false} RecoveryFailsClosed(ds: seq<Disk>, os: seq<Outcome>, id: TxId)
    requires Recoveries(ds, os) && ds[0].journals.Keys == {id} && HandsOff(ds[0], id, ds[0].journals[id])
    ensures ds[|os|] == ds[0] && forall i :: 0 <= i < |os| ==> os[i].Refused?
  {
    hide HandsOff, RecoverAllCall;
    if os != [] {
      var n := |os| - 1;
      RecoveryFailsClosed(ds[..n + 1], os[..n], id);
      HandsOffIsKept(ds[n], ds[n + 1], id, os[n]);
    }
  }

  /** Files that another program put at the active path during a mutation, and that are neither package's, outlive every recovery. */
  lemma ForeignFilesSurvive(d0: Disk, p: Disk, ds: seq<Disk>, os: seq<Outcome>, id: TxId, t: Transaction, files: Files, foreign: Files)
    requires Planned(d0, id, t, files) && InFlight(d0, p, id, t, files)
    requires !Describes(t.digest, foreign) && (t.previous.Some? ==> !Describes(t.previous.value.digest, foreign))
    requires Recoveries(ds, os) && ds[0] == WithActive(p, t.slug, foreign)
    ensures ds[|os|] == ds[0] && ds[|os|].fs[Active(t.slug)] == foreign && forall i :: 0 <= i < |os| ==> os[i].Refused?
  {
    hide Staged, Aside, Promoted, RecoverAllCall, Describes;
    assert id in p.journals;
    RecoveryFailsClosed(ds, os, id);
  }

  /** Nothing else is refused: with effects enough, any other recovery completes. */
  lemma OnlyHandsOffIsRefused(d: Disk, d': Disk, id: TxId, effects: nat, o: Outcome)
    requires d.journals.Keys == {id} && RecoverWith(d, d', effects, o)
    ensures o.Refused? <==> HandsOff(d, id, d.journals[id])
    ensures effects >= RecoveryBudget && !HandsOff(d, id, d.journals[id]) ==> o.Completed? && d'.journals == map[]
  {
    assert id in d.journals;
    var id' :| id' in d.journals && RecoveryCall(d, d', id', o);
    assert id' == id;
    RefusedExactly(d, id);
    if o.Completed? { CompletedIsRecovered(d, d', id); assert d'.journals.Keys == {}; }
  }

  lemma RefusedExactly(d: Disk, id: TxId)
    requires id in d.journals
    ensures RecoveryRefusal(d, id, d.journals[id]).Some? <==> HandsOff(d, id, d.journals[id])
  {
  }

  /** From any disk at all, what a completed recovery leaves of a transaction whose target is in place. */
  lemma CompletedOverTarget(d: Disk, d': Disk, id: TxId)
    requires d.journals.Keys == {id} && RecoverAllCall(d, d', Completed) && TargetInPlace(d, d.journals[id])
    ensures var t := d.journals[id];
            && d'.journals == map[] && d'.registry == d.registry && Staging(id) !in d'.fs
            && (t.op.Rollback? ==> !Present(d'.fs, SnapshotOf(id, t)) && !Present(d'.fs, t.source))
            && forall l: Loc :: l != Staging(id) && (!t.op.Rollback? || (Some(l) != SnapshotOf(id, t) && Some(l) != t.source)) ==>
                 SameAt(d.fs, d'.fs, l)
  {
    assert id in d.journals;
    CompletedIsRecovered(d, d', id) by { var id' :| id' in d.journals && RecoveryCall(d, d', id', Completed); assert id' == id; }
    assert d'.journals.Keys == {};
  }

  /** And of any other: the previous entry and package again, or neither, with nothing of the transaction left behind. */
  lemma CompletedOverPrevious(d: Disk, d': Disk, id: TxId)
    requires d.journals.Keys == {id} && RecoverAllCall(d, d', Completed) && !TargetInPlace(d, d.journals[id])
    ensures d'.journals == map[] && Reverted(d, d', id, d.journals[id])
  {
    assert id in d.journals;
    CompletedIsRecovered(d, d', id) by { var id' :| id' in d.journals && RecoveryCall(d, d', id', Completed); assert id' == id; }
    assert d'.journals.Keys == {};
    RefusedExactly(d, id);
    hide RecoveryCall, Recovered;
    RecoveredIsReverted(d, id);
  }

  ghost predicate Reverted(d: Disk, d': Disk, id: TxId, t: Transaction) {
    && Staging(id) !in d'.fs
    && d'.registry == (if t.previous.Some? then d.registry[t.slug := t.previous.value] else d.registry - {t.slug})
    && (t.previous.Some? && t.snapshotCreated ==>
          Matches(d'.fs, Active(t.slug), t.previous.value.digest) && RecoverySnapshot(id, t) !in d'.fs)
    && (t.previous.None? ==> Active(t.slug) !in d'.fs)
    && forall l: Loc :: l != Staging(id) && l != Active(t.slug) && Some(l) != SnapshotOf(id, t) ==> SameAt(d.fs, d'.fs, l)
  }

  lemma RecoveredIsReverted(d: Disk, id: TxId)
    requires id in d.journals && !TargetInPlace(d, d.journals[id]) && !HandsOff(d, id, d.journals[id])
    ensures Reverted(d, Recovered(d, id), id, d.journals[id])
  {
  }

  /** A late denial after which recovery had effects enough leaves entry and bytes as before, unless the root is managed. */
  lemma DenialIsUndone(d0: Disk, d: Disk, id: TxId, t: Transaction, files: Files, effects: int)
    requires Planned(d0, id, t, files)
    requires UndoneAfterDenial(d0, d, id, t, files, effects) && effects >= RecoveryBudget
    ensures if d0.managed && t.previous.Some? then
              InFlight(d0, d, id, t, files) && d.fs == Aside(Staged(d0.fs, id, files), id, t)
            else d.journals == map[] && AsBefore(d0, d, t.slug) && Staging(id) !in d.fs && OthersUntouched(d0, d, t.slug)
  {
    var p, e: nat, recovery :|
      InFlight(d0, p, id, t, files) && p.fs == Aside(Staged(d0.fs, id, files), id, t) && e >= effects && RecoverWith(p, d, e, recovery);
    AsideIsRecoverable(d0, p, id, t, files);
    OnlyHandsOffIsRefused(p, d, id, e, recovery);
    hide Planned, Aside, Staged, HandsOff, RecoveryCall, BeforeIt, AsBefore;
    assert id in p.journals;
    var id' :| id' in p.journals && RecoveryCall(p, d, id', recovery);
    if HandsOff(p, id, p.journals[id]) {
      RecoveryIsLocal(d0, p, d, id, t, files, recovery);
    } else {
      CompletedOverPrevious(p, d, id);
      RecoveryIsLocal(d0, p, d, id, t, files, recovery);
      RecoveryBeforeCommit(d0, p, d, id, t, files, recovery);
    }
  }

  /** With the old tree aside and the new one not yet promoted, recovery is only refused on a managed root. */
  lemma AsideIsRecoverable(d0: Disk, p: Disk, id: TxId, t: Transaction, files: Files)
    requires Planned(d0, id, t, files)
    requires InFlight(d0, p, id, t, files) && p.fs == Aside(Staged(d0.fs, id, files), id, t)
    ensures HandsOff(p, id, p.journals[id]) <==> d0.managed && t.previous.Some?
    ensures !TargetInPlace(p, p.journals[id]) && BeforeIt(d0, p, id, t)
  {
    if t.previous.Some? {
      var f := d0.fs[Active(t.slug)];
      assert Describes(d0.registry[t.slug].digest, f) && Describes(t.previous.value.digest, f);
      assert Matches(p.fs, RecoverySnapshot(id, t), t.previous.value.digest);
    }
  }

  // ---------- The one case recovery confuses ----------

  /**
    One uninterrupted recovery of a rollback stopped anywhere before its registry commit keeps the history's snapshots
    exactly when the old tree had been moved aside and nothing was promoted yet, or the recorded entry is not the target's.
  */
  lemma RecoveredRollbackKeepsHistoryIff(d: Disk, p: Disk, id: TxId, s: Slug)
    requires Kept(d) && d.journals == map[] && Fresh(d, id) && RollbackRefusal(d, s).None?
    requires InFlight(d, p, id, RollbackTx(d, s), RollbackFiles(d, s))
    ensures var d' := Recovered(p, id);
            s in d'.registry
            && (HistoryOk(d'.fs, s, d'.registry[s].history) <==> Active(s) !in p.fs || !SameIdentity(d.registry[s], RollbackTx(d, s)))
  {
    assert HistoryKept(d, s);
    RollbackIsPlanned(d, id, s, "");
    if Active(s) !in p.fs || !SameIdentity(d.registry[s], RollbackTx(d, s)) {
      RestoredRollbackKeepsHistory(d, p, id, RollbackTx(d, s), RollbackFiles(d, s));
    } else {
      ActiveIsTarget(d, p, id, s);
      SnapshotLost(d, Recovered(p, id), s);
    }
  }

  lemma RestoredRollbackKeepsHistory(d: Disk, p: Disk, id: TxId, t: Transaction, files: Files)
    requires HistoryKept(d, t.slug) && Planned(d, id, t, files) && t.op.Rollback? && InFlight(d, p, id, t, files)
    requires Active(t.slug) !in p.fs || !SameIdentity(d.registry[t.slug], t)
    ensures t.slug in Recovered(p, id).registry && HistoryKept(Recovered(p, id), t.slug)
  {
    var d' := Recovered(p, id);
    assert !CandidateCommitted(p, p.journals[id]);
    InFlightIsLocal(d, p, id, t, files);
    hide Staged, Aside, Promoted, InFlight;
    HistorySurvives(d, d', id, t);
  }

  lemma ActiveIsTarget(d: Disk, p: Disk, id: TxId, s: Slug)
    requires d.journals == map[] && Fresh(d, id) && RollbackRefusal(d, s).None? && Last(d.registry[s].history).path.Snapshot?
    requires InFlight(d, p, id, RollbackTx(d, s), RollbackFiles(d, s)) && Active(s) in p.fs
    requires SameIdentity(d.registry[s], RollbackTx(d, s))
    ensures Last(d.registry[s].history).path !in Recovered(p, id).fs && Recovered(p, id).registry == d.registry
  {
    RollbackIsPlanned(d, id, s, "");
    assert Describes(d.registry[s].digest, d.fs[Active(s)]);
    assert CandidateCommitted(p, p.journals[id]);
  }

  lemma {:induction false} RecoveriesKeep(ds: seq<Disk>, os: seq<Outcome>)
    requires Recoveries(ds, os) && Kept(ds[0])
    ensures Kept(ds[|os|])
  {
    hide Kept, RecoverAllCall;
    if os != [] {
      var n := |os| - 1;
      RecoveriesKeep(ds[..n + 1], os[..n]);
      RecoveryKeeps(ds[n], ds[n + 1], os[n]);
    }
  }

  /**
    A rollback stopped anywhere before its commit keeps the history's snapshots under every schedule of recoveries exactly
    when its target differs from the installed package: a recovery interrupted after it migrated the entry makes the next
    one take the rollback for committed.
  */
  lemma RollbackKeepsHistoryIff(d: Disk, id: TxId, s: Slug)
    requires Kept(d) && d.journals == map[] && Fresh(d, id) && RollbackRefusal(d, s).None?
    ensures RollbackDistinct(d, s) <==>
            forall ds, os :: Recoveries(ds, os) && InFlight(d, ds[0], id, RollbackTx(d, s), RollbackFiles(d, s)) ==> HistoryKept(ds[|os|], s)
  {
    var t, files := RollbackTx(d, s), RollbackFiles(d, s);
    if RollbackDistinct(d, s) {
      RollbackIsReady(d, id, s, "");
      forall ds, os | Recoveries(ds, os) && InFlight(d, ds[0], id, t, files) ensures HistoryKept(ds[|os|], s) {
        InFlightKeeps(d, ds[0], id, t, files);
        RecoveriesKeep(ds, os);
      }
    } else {
      var ds := ConfusedRecoveries(d, id, s);
      assert Recoveries(ds, [Stopped, Completed]) && InFlight(d, ds[0], id, t, files) && !HistoryKept(ds[2], s);
    }
  }

  /** The disk after a recovery that stopped right after it wrote the previous record. */
  function EntryRestored(d: Disk, id: TxId): Disk
    requires id in d.journals
  {
    d.(fs := Removed(d.fs, Staging(id)), registry := Written(d.registry, d.journals[id].slug, d.journals[id].previous))
  }

  /** A rollback's transaction whose target cannot be told from the installed package. */
  ghost predicate Confusable(d: Disk, id: TxId, t: Transaction, files: Files) {
    && d.journals == map[] && t.op.Rollback? && t.slug in d.registry && t.previous == Some(MigratedRecord(d.registry[t.slug]))
    && t.snapshotCreated && t.source.Some? && t.source.value.Snapshot? && t.digest == Ordinal(files) && files != map[]
    && SameIdentity(t.previous.value, t) && RecoverySnapshot(id, t) !in d.fs
    && Active(t.slug) in d.fs && d.fs[Active(t.slug)] == files && Describes(d.registry[t.slug].digest, files)
  }

  lemma IndistinctIsConfusable(d: Disk, id: TxId, s: Slug)
    requires HistoryKept(d, s) && d.journals == map[] && Fresh(d, id) && RollbackRefusal(d, s).None? && !RollbackDistinct(d, s)
    ensures Confusable(d, id, RollbackTx(d, s), RollbackFiles(d, s))
    ensures Last(d.registry[s].history).path.Snapshot? && RollbackTx(d, s).source == Some(Last(d.registry[s].history).path)
  {
    var t := RollbackTx(d, s);
    RollbackIsPlanned(d, id, s, "");
    assert Describes(d.registry[s].digest, d.fs[Active(s)]);
    assert t.previous.value.digest == t.digest;
  }

  function PreparedDisk(d: Disk, id: TxId, t: Transaction, files: Files): Disk {
    d.(fs := Staged(d.fs, id, files), journals := map[id := t])
  }

  lemma ConfusedRecoveries(d: Disk, id: TxId, s: Slug) returns (ds: seq<Disk>)
    requires Kept(d) && d.journals == map[] && Fresh(d, id) && RollbackRefusal(d, s).None? && !RollbackDistinct(d, s)
    ensures Recoveries(ds, [Stopped, Completed]) && |ds| == 3
    ensures InFlight(d, ds[0], id, RollbackTx(d, s), RollbackFiles(d, s)) && !HistoryKept(ds[2], s)
  {
    var t, files := RollbackTx(d, s), RollbackFiles(d, s);
    assert HistoryKept(d, s);
    IndistinctIsConfusable(d, id, s);
    var p := PreparedDisk(d, id, t, files);
    var p' := EntryRestored(p, id);
    var d' := Recovered(p', id);
    PreparedIsInFlight(d, p, id, t, files);
    StopsAfterEntry(d, id, t, files);
    TakenForCommitted(d, id, t, files);
    SnapshotLost(d, d', s);
    ds := [p, p', d'];
    assert p.journals == p'.journals == map[id := t];
    hide *;
    OneStep(p, p', id, Stopped);
    OneStep(p', d', id, Completed);
    TwoSteps(p, p', d', Stopped, Completed);
  }

  lemma OneStep(d: Disk, d': Disk, id: TxId, o: Outcome)
    requires id in d.journals && RecoveryCall(d, d', id, o)
    ensures RecoverAllCall(d, d', o)
  {
    hide RecoveryCall;
  }

  lemma TwoSteps(d: Disk, d': Disk, d'': Disk, o: Outcome, o': Outcome)
    requires RecoverAllCall(d, d', o) && RecoverAllCall(d', d'', o')
    ensures Recoveries([d, d', d''], [o, o'])
  {
    hide RecoverAllCall;
  }

  lemma StopsAfterEntry(d: Disk, id: TxId, t: Transaction, files: Files)
    requires Confusable(d, id, t, files)
    ensures var p := PreparedDisk(d, id, t, files); RecoveryCall(p, EntryRestored(p, id), id, Stopped)
  {
    var p := PreparedDisk(d, id, t, files);
    if CandidateCommitted(p, t) { assert Written(p.registry, t.slug, t.previous) == p.registry; }
  }

  lemma TakenForCommitted(d: Disk, id: TxId, t: Transaction, files: Files)
    requires Confusable(d, id, t, files)
    ensures var p := EntryRestored(PreparedDisk(d, id, t, files), id);
            && RecoveryCall(p, Recovered(p, id), id, Completed)
            && t.source.value !in Recovered(p, id).fs && Recovered(p, id).registry == d.registry[t.slug := t.previous.value]
  {
    assert CandidateCommitted(EntryRestored(PreparedDisk(d, id, t, files), id), t);
  }

  lemma SnapshotLost(d: Disk, d': Disk, s: Slug)
    requires s in d.registry && d.registry[s].history != [] && Last(d.registry[s].history).path !in d'.fs
    requires s in d'.registry && d'.registry[s].history == d.registry[s].history
    ensures !HistoryKept(d', s)
  {
    var h := d.registry[s].history;
    assert h[|h| - 1].path !in d'.fs;
  }

  // ---------- A root that loses a snapshot ----------

  function AnyOrder(a: Version, b: Version): int { 0 }

  const SomeFiles: Files := map["SKILL.md" := "x"]
  const EmptyRoot: Disk := Disk(map[], map[], map[], false)

  function SomeRelease(): Release { Release("1.0.0", true, false, false, Compatibility(None, None, None)) }

  /** One version of one skill, installed as the registry offers it. */
  function SomeRequest(): Request {
    Request("a", Bundle(SomeRelease(), "codex", Artifact("00", 1), SomeFiles), Provenance("https://registry", "1"), None, "",
            Options(false, false, false), false, SomeRelease(), Artifact("00", 1), NoHook, Quiet)
  }

  /** The root after installing that version twice. */
  function TwiceInstalled(): Disk { AfterInstall(AfterInstall(EmptyRoot, "t0", SomeRequest()), "t1", SomeRequest()) }

  lemma TwiceInstalledIs()
    ensures var q, kept := SomeRequest(), Snapshot("a", "1.0.0", "t1");
            var entry := HistoryEntry("1.0.0", "codex", "", Artifact("00", 1), Ordinal(SomeFiles), Some(q.provenance), kept);
            TwiceInstalled() == Disk(
              map[Active("a") := SomeFiles, kept := SomeFiles],
              map["a" := Record("1.0.0", "codex", "", Artifact("00", 1), Ordinal(SomeFiles), Some(q.provenance), [entry], None)],
              map[], false)
  {
    var q := SomeRequest();
    var d1 := AfterInstall(EmptyRoot, "t0", q);
    assert d1 == Disk(map[Active("a") := SomeFiles],
                      map["a" := Record("1.0.0", "codex", "", Artifact("00", 1), Ordinal(SomeFiles), Some(q.provenance), [], None)], map[], false);
    var d2 := AfterInstall(d1, "t1", q);
    assert d2.fs == map[Active("a") := SomeFiles, Snapshot("a", "1.0.0", "t1") := SomeFiles];
    var rec := InstalledRecord(d1, "t1", q);
    assert rec.history == [HistoryEntry("1.0.0", "codex", "", Artifact("00", 1), Ordinal(SomeFiles), Some(q.provenance), Snapshot("a", "1.0.0", "t1"))];
    assert d2.registry == map["a" := rec];
  }

  /** Both installs are allowed, the second over a healthy root. */
  lemma BothInstallsAreAllowed()
    ensures TotalPreorder(AnyOrder)
    ensures var q, d1 := SomeRequest(), AfterInstall(EmptyRoot, "t0", SomeRequest());
            && Fresh(EmptyRoot, "t0") && InstallRefusal(AnyOrder, "1.0.0", EmptyRoot, q).None?
            && Fresh(d1, "t1") && InstallRefusal(AnyOrder, "1.0.0", d1, q).None? && RereadRefusal(AnyOrder, "1.0.0", d1, q).None?
  {
    var q := SomeRequest();
    var d1 := AfterInstall(EmptyRoot, "t0", q);
    assert d1.fs == map[Active("a") := SomeFiles];
    assert "SKILL.md" in SomeFiles;
  }

  /** Rolling back there and stopping right after the journal was written: one recovery takes the snapshot the history names. */
  lemma ReinstalledVersionLosesItsSnapshot()
    ensures var d := TwiceInstalled();
            && Kept(d) && d.journals == map[] && Fresh(d, "tx") && RollbackRefusal(d, "a").None?
            && var p := PreparedDisk(d, "tx", RollbackTx(d, "a"), RollbackFiles(d, "a"));
               var d' := Recovered(p, "tx");
               RecoveryRefusal(p, "tx", p.journals["tx"]).None? && "a" in d'.registry && !HistoryOk(d'.fs, "a", d'.registry["a"].history)
  {
    TwiceInstalledIs();
    hide TwiceInstalled;
    var d := TwiceInstalled();
    assert "SKILL.md" in SomeFiles;
    var h := d.registry["a"].history;
    assert Last(h).path == Snapshot("a", "1.0.0", "t1") && Matches(d.fs, Last(h).path, Last(h).digest);
    assert forall s :: HistoryKept(d, s);
    var p := PreparedDisk(d, "tx", RollbackTx(d, "a"), RollbackFiles(d, "a"));
    PreparedIsInFlight(d, p, "tx", RollbackTx(d, "a"), RollbackFiles(d, "a"));
    RecoveredRollbackKeepsHistoryIff(d, p, "tx", "a");
  }
}
