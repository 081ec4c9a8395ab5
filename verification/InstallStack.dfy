/** The version stack of one skill: its history followed by the installed version. */
module InstallStack {
  import opened Wrappers
  import opened InstallModel
  import opened InstallRecovery
  import opened InstallPlan
  import opened InstallHistory

  // ---------- Properties of stacks that every call keeps ----------

  /** What recovery compares of one package, with the digest in the current scheme. */
  datatype Item = Item(version: Version, platform: string, sha256: string, digest: Digest)

  function EntryItem(e: HistoryEntry): Item { Item(e.version, e.platform, e.artifact.sha256, Migrated(e.digest)) }

  function RecordItem(r: Record): Item { Item(r.version, r.platform, r.artifact.sha256, Migrated(r.digest)) }

  /** The history, oldest first, followed by the installed package. */
  function Stack(r: Record): seq<Item> {
    seq(|r.history|, i requires 0 <= i < |r.history| => EntryItem(r.history[i])) + [RecordItem(r)]
  }

  type StackProperty = seq<Item> -> bool

  ghost predicate PrefixClosed(ok: StackProperty) { forall vs, n :: 0 <= n <= |vs| && ok(vs) ==> ok(vs[..n]) }

  /** Every record on the disk, in the registry or waiting in a journal to be put back, has such a stack. */
  ghost predicate StacksOk(ok: StackProperty, d: Disk) {
    && (forall s :: s in d.registry ==> ok(Stack(d.registry[s])))
    && (forall id :: id in d.journals && d.journals[id].previous.Some? ==> ok(Stack(d.journals[id].previous.value)))
  }

  lemma MigrationKeepsStack(r: Record)
    ensures Stack(MigratedRecord(r)) == Stack(r)
  {
  }

  /** An install pushes the target on the stack. */
  lemma InstallPushes(d: Disk, id: TxId, q: Request)
    ensures Stack(InstalledRecord(d, id, q)) ==
            (if q.slug in d.registry then Stack(d.registry[q.slug]) else []) + [RecordItem(InstalledRecord(d, id, q))]
  {
    if q.slug in d.registry {
      var h, h' := d.registry[q.slug].history, InstalledRecord(d, id, q).history;
      assert forall i :: 0 <= i < |h| ==> h'[i] == h[i];
    }
  }

  /** A rollback pops it. */
  lemma RollbackPops(d: Disk, s: Slug, now: string)
    requires RollbackRefusal(d, s).None?
    ensures Stack(RollbackRecord(d, s, now)) == Stack(d.registry[s])[..|d.registry[s].history|]
  {
    var h := d.registry[s].history;
    assert Describes(Last(h).digest, RollbackFiles(d, s));
  }

  /** The only records a halted mutation can leave are old ones, the previous one, and the new one. */
  lemma HaltedKeepsStacks(ok: StackProperty, d0: Disk, d: Disk, id: TxId, t: Transaction, files: Files, rec: Record)
    requires StacksOk(ok, d0) && ok(Stack(rec))
    requires t.previous == Existing(d0, t.slug) && Halted(d0, d, id, t, files, rec)
    ensures StacksOk(ok, d)
  {
    if t.previous.Some? { MigrationKeepsStack(d0.registry[t.slug]); }
    hide Stack, Staged, Aside, Promoted, StacksOk, RecoverAllCall;
    if InFlight(d0, d, id, t, files) {
      BeforeCommitKeepsStacks(ok, d0, d, id, t);
    } else if JustCommitted(d0, d, id, t, files, rec) {
      CommitKeepsStacks(ok, d0, d, id, t, rec);
    } else {
      var mid, o :| InFlight(d0, mid, id, t, files) && RecoverAllCall(mid, d, o);
      BeforeCommitKeepsStacks(ok, d0, mid, id, t);
      RecoveryKeepsStacks(ok, mid, d, o);
    }
  }

  lemma BeforeCommitKeepsStacks(ok: StackProperty, d0: Disk, d: Disk, id: TxId, t: Transaction)
    requires StacksOk(ok, d0) && d.registry == d0.registry && d.journals.Keys == {id} && SameTransaction(d.journals[id], t)
    requires t.previous.Some? ==> ok(Stack(t.previous.value))
    ensures StacksOk(ok, d)
  {
    hide Stack;
  }

  lemma CommitKeepsStacks(ok: StackProperty, d0: Disk, d: Disk, id: TxId, t: Transaction, rec: Record)
    requires StacksOk(ok, d0) && d.registry == d0.registry[t.slug := rec] && ok(Stack(rec))
    requires d.journals.Keys == {id} && SameTransaction(d.journals[id], t)
    requires t.previous.Some? ==> ok(Stack(t.previous.value))
    ensures StacksOk(ok, d)
  {
    hide Stack;
  }

  lemma RecoveryKeepsStacks(ok: StackProperty, d: Disk, d': Disk, o: Outcome)
    requires StacksOk(ok, d) && RecoverAllCall(d, d', o)
    ensures StacksOk(ok, d')
  {
    hide Stack, RecoveredTrees, RecoveryRefusal, CandidateCommitted, KeepsPrevious;
  }

  /** Wherever an install stops, on any disk and with removals that tear. */
  lemma InstallKeepsStacks(ok: StackProperty, compare: Compare, cli: Version, d: Disk, d': Disk, id: TxId, q: Request, o: Outcome)
    requires StacksOk(ok, d) && d.journals == map[] && InstallCall(compare, cli, d, d', id, q, o)
    requires InstallRefusal(compare, cli, d, q).None? ==> ok(Stack(InstalledRecord(d, id, q)))
    ensures StacksOk(ok, d')
  {
    hide Stack, Halted, InstallRefusal, InstalledRecord;
    if !OnlyStaging(d, d', id) && !o.Completed? {
      HaltedKeepsStacks(ok, d, d', id, InstallTransaction(d, q), q.bundle.files, InstalledRecord(d, id, q));
    }
  }

  lemma RollbackKeepsStacks(ok: StackProperty, d: Disk, d': Disk, id: TxId, s: Slug, now: string, o: Outcome)
    requires PrefixClosed(ok) && StacksOk(ok, d) && d.journals == map[]
    requires RollbackCall(d, d', id, s, now, o)
    ensures StacksOk(ok, d')
  {
    if RollbackRefusal(d, s).None? {
      RollbackPops(d, s, now);
      hide Stack, Halted, RollbackRefusal, RolledBackRecord;
      var t, files, rec := RollbackTx(d, s), RollbackFiles(d, s), RollbackRecord(d, s, now);
      RollbackReplaces(d, s);
      MigrationKeepsStack(d.registry[s]);
      assert ok(Stack(rec));
      if !o.Completed? && !OnlyStaging(d, d', id) && !CleaningUp(d, d', id, t, files, rec) {
        HaltedKeepsStacks(ok, d, d', id, t, files, rec);
      }
    }
  }

  lemma RollbackReplaces(d: Disk, s: Slug)
    requires RollbackRefusal(d, s).None?
    ensures s in d.registry && RollbackTx(d, s).previous == Existing(d, s)
    ensures |d.registry[s].history| < |Stack(d.registry[s])|
  {
  }

  // ---------- Order ----------

  ghost predicate NonDecreasing(compare: Compare, vs: seq<Item>) {
    forall i, j :: 0 <= i < j < |vs| ==> compare(vs[i].version, vs[j].version) <= 0
  }

  /** Eligibility lets an install push only a version that is at least the installed one. */
  lemma PushKeepsOrder(compare: Compare, cli: Version, d: Disk, id: TxId, q: Request)
    requires TotalPreorder(compare) && InstallRefusal(compare, cli, d, q).None?
    requires q.slug in d.registry ==> NonDecreasing(compare, Stack(d.registry[q.slug]))
    ensures NonDecreasing(compare, Stack(InstalledRecord(d, id, q)))
  {
    InstallPushes(d, id, q);
    if q.slug in d.registry {
      var vs, v, top := Stack(d.registry[q.slug]), q.bundle.release.version, d.registry[q.slug].version;
      assert vs[|vs| - 1].version == top && compare(v, top) >= 0;
      forall i | 0 <= i < |vs| ensures compare(vs[i].version, v) <= 0 {
        assert compare(top, v) <= 0;
        if i < |vs| - 1 { assert compare(vs[i].version, vs[|vs| - 1].version) <= 0; }
      }
    }
  }

  // ---------- Whole histories ----------

  datatype Event =
    | Installs(id: TxId, q: Request, o: Outcome)
    | RollsBackTo(id: TxId, slug: Slug, now: string, o: Outcome)
    | Recovers(o: Outcome)

  /** One command or recovery, as its method's contract describes it. */
  ghost predicate Step(compare: Compare, cli: Version, d: Disk, d': Disk, e: Event) {
    match e
    case Installs(id, q, o) => d.journals == map[] && Fresh(d, id) && InstallCall(compare, cli, d, d', id, q, o)
    case RollsBackTo(id, s, now, o) => d.journals == map[] && Fresh(d, id) && RollbackCall(d, d', id, s, now, o)
    case Recovers(o) => RecoverAllCall(d, d', o)
  }

  ghost predicate History(compare: Compare, cli: Version, ds: seq<Disk>, es: seq<Event>) {
    |ds| == |es| + 1 && forall i :: 0 <= i < |es| ==> Step(compare, cli, ds[i], ds[i + 1], es[i])
  }

  lemma HistoryPrefix(compare: Compare, cli: Version, ds: seq<Disk>, es: seq<Event>)
    requires History(compare, cli, ds, es) && es != []
    ensures var n := |es| - 1;
            History(compare, cli, ds[..n + 1], es[..n]) && Step(compare, cli, ds[n], ds[n + 1], es[n])
  {
    hide Step;
  }

  /** The version stack of every skill is non-decreasing in every state of every history, crashes and refusals included. */
  lemma {:induction false} StacksStayOrdered(compare: Compare, cli: Version, ds: seq<Disk>, es: seq<Event>)
    requires TotalPreorder(compare) && History(compare, cli, ds, es)
    requires StacksOk((vs: seq<Item>) => NonDecreasing(compare, vs), ds[0])
    ensures StacksOk((vs: seq<Item>) => NonDecreasing(compare, vs), ds[|es|])
  {
    hide Step, StacksOk, TotalPreorder, NonDecreasing;
    if es != [] {
      var n := |es| - 1;
      HistoryPrefix(compare, cli, ds, es);
      StacksStayOrdered(compare, cli, ds[..n + 1], es[..n]);
      var ok := (vs: seq<Item>) => NonDecreasing(compare, vs);
      StepKeepsOrder(ok, compare, cli, ds[n], ds[n + 1], es[n]);
    }
  }

  lemma StepKeepsOrder(ok: StackProperty, compare: Compare, cli: Version, d: Disk, d': Disk, e: Event)
    requires TotalPreorder(compare) && Step(compare, cli, d, d', e) && StacksOk(ok, d)
    requires forall vs :: ok(vs) <==> NonDecreasing(compare, vs)
    ensures StacksOk(ok, d')
  {
    hide Inv, Fresh, TotalPreorder, InstallCall, RollbackCall, RecoverAllCall, InstallRefusal, InstalledRecord;
    match e
    case Installs(id, q, o) =>
      if InstallRefusal(compare, cli, d, q).None? { PushKeepsOrder(compare, cli, d, id, q); }
      InstallKeepsStacks(ok, compare, cli, d, d', id, q, o);
    case RollsBackTo(id, s, now, o) =>
      assert PrefixClosed(ok);
      RollbackKeepsStacks(ok, d, d', id, s, now, o);
    case Recovers(o) =>
      RecoveryKeepsStacks(ok, d, d', o);
  }

  // ---------- Registry and disk agree ----------

  predicate AdjacentDistinct(vs: seq<Item>) { forall i :: 0 <= i < |vs| - 1 ==> vs[i] != vs[i + 1] }

  /** The install's target differs from the installed package in version, platform, artifact or bytes. */
  predicate InstallDistinct(d: Disk, q: Request) {
    q.slug in d.registry ==>
      RecordItem(d.registry[q.slug]) != Item(q.bundle.release.version, q.bundle.platform, q.bundle.artifact.sha256, Ordinal(q.bundle.files))
  }

  lemma DistinctStackRollsBackDistinctly(d: Disk, s: Slug)
    requires s in d.registry ==> AdjacentDistinct(Stack(d.registry[s]))
    ensures RollbackDistinct(d, s)
  {
    if RollbackRefusal(d, s).None? {
      var r := d.registry[s];
      var n := |r.history|;
      assert Stack(r)[n - 1] == EntryItem(Last(r.history)) && Stack(r)[n] == RecordItem(r);
      assert Describes(Last(r.history).digest, RollbackFiles(d, s));
    }
  }

  /**
    In every state of every history whose installs each bring something new, every history entry in the registry names
    an existing snapshot with the recorded bytes. Removals may tear.
  */
  lemma {:induction false} RegistryMatchesDisk(compare: Compare, cli: Version, ds: seq<Disk>, es: seq<Event>)
    requires History(compare, cli, ds, es) && Kept(ds[0]) && StacksOk(AdjacentDistinct, ds[0])
    requires forall i :: 0 <= i < |es| && es[i].Installs? ==> InstallDistinct(ds[i], es[i].q)
    ensures Kept(ds[|es|]) && StacksOk(AdjacentDistinct, ds[|es|])
    ensures forall s :: s in ds[|es|].registry ==> HistoryOk(ds[|es|].fs, s, ds[|es|].registry[s].history)
  {
    if es != [] {
      var n := |es| - 1;
      HistoryPrefix(compare, cli, ds, es);
      hide Step, StacksOk, Kept, InstallDistinct, HistoryOk;
      RegistryMatchesDisk(compare, cli, ds[..n + 1], es[..n]);
      StepKeepsDistinct(compare, cli, ds[n], ds[n + 1], es[n]);
    }
    KeptNamesSnapshots(ds[|es|]);
  }

  lemma KeptNamesSnapshots(d: Disk)
    requires Kept(d)
    ensures forall s :: s in d.registry ==> HistoryOk(d.fs, s, d.registry[s].history)
  {
    forall s | s in d.registry ensures HistoryOk(d.fs, s, d.registry[s].history) { assert HistoryKept(d, s); }
  }

  lemma StepKeepsDistinct(compare: Compare, cli: Version, d: Disk, d': Disk, e: Event)
    requires Step(compare, cli, d, d', e) && Kept(d) && StacksOk(AdjacentDistinct, d)
    requires e.Installs? ==> InstallDistinct(d, e.q)
    ensures Kept(d') && StacksOk(AdjacentDistinct, d')
  {
    hide Kept, Fresh, InstallCall, RollbackCall, RecoverAllCall, InstallRefusal, RollbackDistinct, Stack;
    match e
    case Installs(id, q, o) =>
      InstallPushes(d, id, q);
      if q.slug in d.registry { StackTop(d.registry[q.slug]); }
      InstallKeepsStacks(AdjacentDistinct, compare, cli, d, d', id, q, o);
      InstallKeeps(compare, cli, d, d', id, q, o);
    case RollsBackTo(id, s, now, o) =>
      DistinctStackRollsBackDistinctly(d, s);
      RollbackKeepsStacks(AdjacentDistinct, d, d', id, s, now, o);
      RollbackKeeps(d, d', id, s, now, o);
    case Recovers(o) =>
      RecoveryKeepsStacks(AdjacentDistinct, d, d', o);
      RecoveryKeeps(d, d', o);
  }

  /** The same when removals are atomic: then a healthy root stays healthy at every stop. */
  ghost predicate AtomicStep(compare: Compare, cli: Version, d: Disk, d': Disk, e: Event) {
    && Step(compare, cli, d, d', e)
    && (Inv(d) && (e.RollsBackTo? ==> RollbackDistinct(d, e.slug)) ==> Inv(d'))
  }

  /** With atomic removals such a history also keeps the whole root healthy. */
  lemma {:induction false} HealthyHistories(compare: Compare, cli: Version, ds: seq<Disk>, es: seq<Event>)
    requires History(compare, cli, ds, es) && Inv(ds[0]) && StacksOk(AdjacentDistinct, ds[0])
    requires forall i :: 0 <= i < |es| ==> AtomicStep(compare, cli, ds[i], ds[i + 1], es[i])
    requires forall i :: 0 <= i < |es| && es[i].Installs? ==> InstallDistinct(ds[i], es[i].q)
    ensures Inv(ds[|es|]) && StacksOk(AdjacentDistinct, ds[|es|])
  {
    if es != [] {
      var n := |es| - 1;
      HistoryPrefix(compare, cli, ds, es);
      hide Step, Inv, InstallDistinct, Kept, RollbackDistinct, StacksOk, Stack;
      HealthyHistories(compare, cli, ds[..n + 1], es[..n]);
      HealthyIsKept(ds[n]);
      StepKeepsDistinct(compare, cli, ds[n], ds[n + 1], es[n]);
      assert AtomicStep(compare, cli, ds[n], ds[n + 1], es[n]);
      DistinctStacks(ds[n]);
    }
  }

  lemma DistinctStacks(d: Disk)
    requires StacksOk(AdjacentDistinct, d)
    ensures forall s :: RollbackDistinct(d, s)
  {
    forall s ensures RollbackDistinct(d, s) { DistinctStackRollsBackDistinctly(d, s); }
  }

  lemma StackTop(r: Record)
    ensures Stack(r) != [] && Stack(r)[|Stack(r)| - 1] == RecordItem(r)
  {
  }

  // ---------- Updates undone by rollbacks ----------

  /** The same package, whatever the install time, library binding and digest scheme say. */
  ghost predicate SamePackage(d: Disk, d': Disk, s: Slug) {
    && s in d.registry && s in d'.registry
    && (var r, r' := d.registry[s], d'.registry[s];
        && r.version == r'.version && r.platform == r'.platform && r.artifact == r'.artifact
        && r.provenance == r'.provenance && r.history == r'.history
        && (forall i :: 0 <= i < |r.history| ==>
              r.history[i].path in d.fs && r.history[i].path in d'.fs && d.fs[r.history[i].path] == d'.fs[r.history[i].path]))
    && Active(s) in d.fs && Active(s) in d'.fs && d.fs[Active(s)] == d'.fs[Active(s)]
  }

  /** A completed update of an installed skill. */
  ghost predicate Updates(compare: Compare, cli: Version, d: Disk, d': Disk, id: TxId, q: Request) {
    && d.journals == map[] && Fresh(d, id) && q.slug in d.registry && q.bundle.files != map[]
    && InstallRefusal(compare, cli, d, q).None? && d' == AfterInstall(d, id, q)
  }

  /** A completed rollback. */
  ghost predicate RollsBack(d: Disk, d': Disk, id: TxId, s: Slug, now: string) {
    d.journals == map[] && Fresh(d, id) && RollbackRefusal(d, s).None? && d' == AfterRollback(d, id, s, now)
  }

  /** What a completed update leaves: the pushed entry, the archived bytes, and the older snapshots as they were. */
  lemma UpdateReaches(compare: Compare, cli: Version, d: Disk, d': Disk, id: TxId, q: Request)
    requires Updates(compare, cli, d, d', id, q) && Settled(d, q.slug)
    ensures q.slug in d'.registry && Active(q.slug) in d.fs
    ensures var r, r', path := d.registry[q.slug], d'.registry[q.slug], Snapshot(q.slug, d.registry[q.slug].version, id);
            && r.provenance == r'.provenance == Some(q.provenance)
            && r'.history == r.history + [Archive(MigratedRecord(r), r.provenance, path)]
            && path in d'.fs && d'.fs[path] == d.fs[Active(q.slug)]
            && (forall i :: 0 <= i < |r.history| ==>
                  r.history[i].path in d.fs && r.history[i].path in d'.fs && d'.fs[r.history[i].path] == d.fs[r.history[i].path])
  {
    var s, t := q.slug, InstallTransaction(d, q);
    InstallIsPlanned(compare, cli, d, id, q);
    PromotedPlaces(d, d'.fs, id, t, q.bundle.files);
    InFlightIsLocal(d, Disk(d'.fs, d.registry, map[id := t], d.managed), id, t, q.bundle.files);
    forall i | 0 <= i < |d.registry[s].history|
      ensures d.registry[s].history[i].path in d'.fs && d'.fs[d.registry[s].history[i].path] == d.fs[d.registry[s].history[i].path]
    {
      assert d.registry[s].history[i].path.tx != id;
    }
  }

  /** Where a completed rollback finds its bytes, and what it leaves alone. */
  lemma RollbackReaches(d: Disk, d': Disk, id: TxId, s: Slug, now: string)
    requires RollsBack(d, d', id, s, now) && Settled(d, s)
    ensures var h := d.registry[s].history;
            && s in d'.registry && d'.registry[s] == RollbackRecord(d, s, now)
            && Active(s) in d'.fs && d'.fs[Active(s)] == d.fs[Last(h).path]
            && (forall i :: 0 <= i < |h| - 1 ==> h[i].path in d'.fs && d'.fs[h[i].path] == d.fs[h[i].path])
  {
    hide Staged, Aside, Promoted, Planned, PromotedFs;
    var h, t, files := d.registry[s].history, RollbackTx(d, s), RollbackFiles(d, s);
    var fs := PromotedFs(d.fs, id, t, files);
    assert Last(h).path.Snapshot?;
    RollbackIsPlanned(d, id, s, now);
    PromotedIs(d.fs, id, t, files);
    PromotedPlaces(d, fs, id, t, files);
    hide RollbackTransaction, RolledBackRecord;
    OlderSnapshotsStay(d, fs, id, s, t, files);
  }

  lemma PromotedIs(fs: FileSystem, id: TxId, t: Transaction, files: Files)
    ensures PromotedFs(fs, id, t, files) == Promoted(Aside(Staged(fs, id, files), id, t), id, t.slug)
  {
  }

  /** The moves of a rollback touch no history snapshot but, later, the newest. */
  lemma OlderSnapshotsStay(d: Disk, fs: FileSystem, id: TxId, s: Slug, t: Transaction, files: Files)
    requires Planned(d, id, t, files) && t.slug == s && s in d.registry && HistoryOk(d.fs, s, d.registry[s].history)
    requires fs == PromotedFs(d.fs, id, t, files)
    ensures var h := d.registry[s].history;
            forall i :: 0 <= i < |h| ==>
              h[i].path != Active(s) && h[i].path != Staging(id) && (t.previous.Some? ==> h[i].path != RecoverySnapshot(id, t))
              && h[i].path in fs && fs[h[i].path] == d.fs[h[i].path]
  {
    hide Staged, Aside, Promoted;
    var h := d.registry[s].history;
    InFlightIsLocal(d, Disk(fs, d.registry, map[id := t], d.managed), id, t, files);
    forall i | 0 <= i < |h|
      ensures h[i].path != Active(s) && h[i].path != Staging(id) && (t.previous.Some? ==> h[i].path != RecoverySnapshot(id, t))
              && h[i].path in fs && fs[h[i].path] == d.fs[h[i].path]
    {
      assert Matches(d.fs, h[i].path, h[i].digest) && d.registry[s].history[i].path.tx != id;
    }
  }

  /** A root equivalent to an updated one can be rolled back. */
  lemma UpdatedCanRollBack(compare: Compare, cli: Version, d0: Disk, d1: Disk, e1: Disk, id: TxId, q: Request)
    requires Updates(compare, cli, d0, d1, id, q) && Settled(d0, q.slug)
    requires SamePackage(d1, e1, q.slug) && Settled(e1, q.slug)
    ensures RollbackRefusal(e1, q.slug).None?
  {
    hide Fresh, InstallRefusal, AfterInstall;
    UpdateReaches(compare, cli, d0, d1, id, q);
    var h := e1.registry[q.slug].history;
    assert Matches(e1.fs, h[|h| - 1].path, h[|h| - 1].digest);
  }

  /** Rolling such a root back brings the package from before the update back. */
  lemma RollbackUndoesUpdate(compare: Compare, cli: Version, d0: Disk, d1: Disk, e1: Disk, e2: Disk, id: TxId, id': TxId, q: Request, now: string)
    requires Updates(compare, cli, d0, d1, id, q) && Settled(d0, q.slug)
    requires SamePackage(d1, e1, q.slug) && Settled(e1, q.slug)
    requires RollsBack(e1, e2, id', q.slug, now)
    ensures SamePackage(d0, e2, q.slug)
  {
    hide Fresh, InstallRefusal, AfterInstall, AfterRollback, HistoryOk;
    UpdateReaches(compare, cli, d0, d1, id, q);
    RollbackReaches(e1, e2, id', q.slug, now);
    var h, h1 := d0.registry[q.slug].history, e1.registry[q.slug].history;
    assert h1[..|h1| - 1] == h;
    assert h1[|h1| - 1].path in d1.fs;
    forall i | 0 <= i < |h|
      ensures h[i].path in d0.fs && h[i].path in e2.fs && d0.fs[h[i].path] == e2.fs[h[i].path]
    {
      assert h1[i] == h[i] && h1[i].path in d1.fs;
    }
  }

  /** A climb of completed updates, followed by a descent of as many completed rollbacks. */
  ghost predicate UpAndDown(compare: Compare, cli: Version, up: seq<Disk>, down: seq<Disk>, s: Slug,
                            ids: seq<TxId>, qs: seq<Request>, ids': seq<TxId>, nows: seq<string>) {
    && |up| == |qs| + 1 == |ids| + 1 && |down| == |up| && |ids'| == |nows| == |qs|
    && down[0] == up[|qs|]
    && (forall i :: 0 <= i < |qs| ==> qs[i].slug == s && Updates(compare, cli, up[i], up[i + 1], ids[i], qs[i]))
    && (forall i :: 0 <= i < |qs| ==> RollsBack(down[i], down[i + 1], ids'[i], s, nows[i]))
    && Settled(up[0], s)
  }

  lemma UpdateSettles(compare: Compare, cli: Version, d: Disk, d': Disk, id: TxId, q: Request)
    requires Updates(compare, cli, d, d', id, q) && Settled(d, q.slug)
    ensures Settled(d', q.slug)
  {
    var s, t := q.slug, InstallTransaction(d, q);
    UpdateReaches(compare, cli, d, d', id, q);
    InstallIsPlanned(compare, cli, d, id, q);
    PromotedPlaces(d, d'.fs, id, t, q.bundle.files);
    hide Staged, Aside, Promoted, Planned, InstallRefusal;
    var h, h' := d.registry[s].history, d'.registry[s].history;
    forall i, j | 0 <= i < j < |h'| ensures h'[i].path != h'[j].path {
      assert h'[i] == h[i];
      if j < |h| { assert h'[j] == h[j]; } else { assert h[i].path.tx != id; }
    }
    forall i | 0 <= i < |h'| ensures h'[i].path.Snapshot? && h'[i].path.slug == s && Matches(d'.fs, h'[i].path, h'[i].digest) {
      if i < |h| { assert h'[i] == h[i]; }
    }
    assert Matches(d'.fs, Active(s), d'.registry[s].digest);
  }

  lemma RollbackSettles(d: Disk, d': Disk, id: TxId, s: Slug, now: string)
    requires RollsBack(d, d', id, s, now) && Settled(d, s)
    ensures Settled(d', s)
  {
    RollbackReaches(d, d', id, s, now);
    hide AfterRollback, Fresh;
    var h := d.registry[s].history;
    assert d'.registry[s].history == h[..|h| - 1] && d'.registry[s].digest == Ordinal(RollbackFiles(d, s));
    assert Matches(d.fs, Last(h).path, Last(h).digest);
  }

  lemma {:induction false} UpStaysSettled(compare: Compare, cli: Version, up: seq<Disk>, down: seq<Disk>, s: Slug,
                                          ids: seq<TxId>, qs: seq<Request>, ids': seq<TxId>, nows: seq<string>, k: nat)
    requires UpAndDown(compare, cli, up, down, s, ids, qs, ids', nows) && k <= |qs|
    ensures Settled(up[k], s)
  {
    hide Settled, Updates, RollsBack;
    if k > 0 {
      UpStaysSettled(compare, cli, up, down, s, ids, qs, ids', nows, k - 1);
      UpdateSettles(compare, cli, up[k - 1], up[k], ids[k - 1], qs[k - 1]);
    }
  }

  lemma {:induction false} DownStaysSettled(compare: Compare, cli: Version, up: seq<Disk>, down: seq<Disk>, s: Slug,
                                            ids: seq<TxId>, qs: seq<Request>, ids': seq<TxId>, nows: seq<string>, k: nat)
    requires UpAndDown(compare, cli, up, down, s, ids, qs, ids', nows) && k <= |qs|
    ensures Settled(down[k], s)
  {
    hide Settled, Updates, RollsBack;
    if k > 0 {
      DownStaysSettled(compare, cli, up, down, s, ids, qs, ids', nows, k - 1);
      RollbackSettles(down[k - 1], down[k], ids'[k - 1], s, nows[k - 1]);
    } else {
      UpStaysSettled(compare, cli, up, down, s, ids, qs, ids', nows, |qs|);
    }
  }

  /** After n updates, the k-th rollback restores the package the k-th last update replaced. */
  lemma {:induction false} RollbacksUndoUpdates(compare: Compare, cli: Version, up: seq<Disk>, down: seq<Disk>, s: Slug,
                                                ids: seq<TxId>, qs: seq<Request>, ids': seq<TxId>, nows: seq<string>, k: nat)
    requires UpAndDown(compare, cli, up, down, s, ids, qs, ids', nows)
    requires k <= |qs| && |qs| > 0
    ensures SamePackage(up[|qs| - k], down[k], s)
  {
    hide Settled, SamePackage, RollsBack, Fresh, InstallRefusal, AfterInstall;
    if k == 0 {
      UpStaysSettled(compare, cli, up, down, s, ids, qs, ids', nows, |qs| - 1);
      UpStaysSettled(compare, cli, up, down, s, ids, qs, ids', nows, |qs|);
      UpdateReaches(compare, cli, up[|qs| - 1], up[|qs|], ids[|qs| - 1], qs[|qs| - 1]);
      SettledIsSame(up[|qs|], s);
    } else {
      RollbacksUndoUpdates(compare, cli, up, down, s, ids, qs, ids', nows, k - 1);
      var i := |qs| - k;
      UpStaysSettled(compare, cli, up, down, s, ids, qs, ids', nows, i);
      DownStaysSettled(compare, cli, up, down, s, ids, qs, ids', nows, k - 1);
      RollbackUndoesUpdate(compare, cli, up[i], up[i + 1], down[k - 1], down[k], ids[i], ids'[k - 1], qs[i], nows[k - 1]);
    }
  }

  lemma SettledIsSame(d: Disk, s: Slug)
    requires Settled(d, s) && s in d.registry
    ensures SamePackage(d, d, s)
  {
  }
}
