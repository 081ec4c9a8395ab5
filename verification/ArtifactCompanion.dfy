/**
  The local companion of a whole-artifact run: apply, verify and rollback over the journaled directory moves.

  `steps` is the number of effects and requests the process still gets to make. When it reaches zero the next one
  stops the run, which stands for a crash, a refused fence, a failing request or a fault point alike. A property that
  holds of every outcome therefore holds at every crash point.
*/
module ArtifactCompanion {
  import opened Wrappers
  import opened ArtifactModel

  datatype Refusal =
    | UnreadableTree | Collision | Drift | RelocatedDrift | AmbiguousBaseline | DestinationExists
    | BaselineChanged | ManifestChanged | StrangerInNamespace | NoLease | AlreadyClaimed
    | JournalInvalid | NeedsRecovery | PartialArtifact | OtherTreeActive | ReceiptMissing | AlteredBytes

  datatype Outcome = Completed | Stopped | Refused(reason: Refusal) {
    predicate IsFailure() { !Completed? }

    function PropagateFailure(): Outcome
      requires IsFailure()
    {
      this
    }
  }

  datatype RunState = Open | Succeeded | Undone

  /** What the API answers during one call: the run's state, the claim decision with its
      fencing token, and the closing state check. */
  datatype Remote = Remote(run: RunState, claimed: bool, token: nat, confirmed: bool)

  // ---------- Readback ----------

  function ReadTree(fs: FileSystem, l: Loc): (r: Result<Tree, Refusal>)
    ensures r.Ok? ==> Holds(fs, l.place, l.path, r.value)
    ensures r.Err? ==> forall t :: !Holds(fs, l.place, l.path, t)
  {
    if l !in fs then Ok(map[])
    else match fs[l]
      case Dir(files) => if files == map[] then Err(UnreadableTree) else Ok(files)
      case Unreadable => Err(UnreadableTree)
  }

  function MatchTree(fs: FileSystem, p: Path, expected: Tree): (o: Outcome)
    ensures o.Completed? <==> Holds(fs, Active, p, expected)
    ensures !o.Stopped?
  {
    match ReadTree(fs, Loc(Active, p))
    case Err(e) => Refused(e)
    case Ok(actual) =>
      if expected == map[] && Loc(Active, p) in fs then Refused(Collision)
      else if actual != expected then Refused(Drift)
      else Completed
  }

  function MatchRelocated(fs: FileSystem, l: Loc, expected: Tree): (o: Outcome)
    ensures o.Completed? <==> Holds(fs, l.place, l.path, expected)
    ensures !o.Stopped?
  {
    match ReadTree(fs, l)
    case Err(e) => Refused(e)
    case Ok(actual) => if actual != expected then Refused(RelocatedDrift) else Completed
  }

  /** A call that used at most `budget` effects, and stopped only for want of one. */
  ghost predicate Spent(before: nat, after: nat, budget: nat, o: Outcome) {
    after <= before <= after + budget && (o.Stopped? ==> after == 0)
  }

  /** Whatever is neither the recorded old nor the recorded next tree of its path stays where it is. */
  ghost predicate ForeignStays(fs: FileSystem, fs': FileSystem, m: Manifest) {
    forall l: Loc :: l in fs && fs[l] != Dir(Old(m, l.path)) && fs[l] != Dir(Next(m, l.path)) ==> l in fs' && fs'[l] == fs[l]
  }

  lemma ForeignStaysOn(a: FileSystem, b: FileSystem, c: FileSystem, m: Manifest)
    requires ForeignStays(a, b, m) && ForeignStays(b, c, m)
    ensures ForeignStays(a, c, m)
  {
  }

  /** What one move's work on owned path `i` may change, at every point it can stop. */
  ghost predicate MoveStep(w: World, w': World, m: Manifest, i: nat)
    requires i < |Owned(m)| == |w.journal.phases|
  {
    && |w'.journal.phases| == |w.journal.phases|
    && w'.journal == w.journal.(phases := w.journal.phases[i := w'.journal.phases[i]])
    && w'.manifest == w.manifest && w'.receipts == w.receipts
    && OnlyPath(w.fs, w'.fs, Owned(m)[i])
    && Conserved(w.fs, w'.fs) && ForeignStays(w.fs, w'.fs, m)
    && (w.journal.phases[i].Done? ==> w'.journal.phases[i].Done?)
    && (PhaseFits(w.fs, m, Owned(m)[i], w.journal.phases[i]) ==>
          PhaseFits(w'.fs, m, Owned(m)[i], w'.journal.phases[i]))
  }

  /** The active place is empty, and the old tree, if any, is in the baseline copy. */
  predicate OldIsAside(fs: FileSystem, m: Manifest, p: Path) {
    Holds(fs, Active, p, map[]) && (Old(m, p) != map[] ==> Holds(fs, Backup, p, Old(m, p)))
  }

  lemma OtherPathsFit(fs: FileSystem, fs': FileSystem, m: Manifest, p: Path, q: Path, phase: Phase)
    requires OnlyPath(fs, fs', p) && q != p
    ensures PhaseFits(fs', m, q, phase) == PhaseFits(fs, m, q, phase)
  {
  }

  lemma MoveStepKeepsInv(w: World, w': World, m: Manifest, i: nat)
    requires Inv(w, m) && (w.journal.state.Applying? || w.journal.state.Promoted?)
    requires i < |Owned(m)| && MoveStep(w, w', m, i)
    ensures Inv(w', m)
  {
    hide PhaseFits, ReceiptHonest;
    forall j | 0 <= j < |Owned(m)| && j != i
      ensures PhaseFits(w'.fs, m, Owned(m)[j], w'.journal.phases[j])
    {
      assert Owned(m)[j] != Owned(m)[i];
      OtherPathsFit(w.fs, w'.fs, m, Owned(m)[i], Owned(m)[j], w.journal.phases[j]);
      assert PhaseFits(w.fs, m, Owned(m)[j], w.journal.phases[j]);
    }
  }

  lemma MoveStepsCompose(w: World, w1: World, w2: World, m: Manifest, i: nat)
    requires i < |Owned(m)| == |w.journal.phases| && MoveStep(w, w1, m, i) && MoveStep(w1, w2, m, i)
    ensures MoveStep(w, w2, m, i)
    ensures PhaseFits(w.fs, m, Owned(m)[i], w.journal.phases[i]) ==> PhaseFits(w1.fs, m, Owned(m)[i], w1.journal.phases[i])
  {
    hide PhaseFits;
  }

  lemma StandsStill(w: World, m: Manifest, i: nat)
    requires i < |Owned(m)| == |w.journal.phases|
    ensures MoveStep(w, w, m, i)
  {
  }

  /** Receipts requested between two worlds were all of this kind, each over exactly this intent's trees. */
  ghost predicate NewReceipts(w: World, w': World, kind: ReceiptKind, intent: Intent) {
    && w.receipts <= w'.receipts
    && forall k :: |w.receipts| <= k < |w'.receipts| ==> w'.receipts[k].kind == kind && AggregateHolds(w'.receipts[k].fs, intent)
  }

  /** The manifest on disk names this run. */
  predicate NamesRun(w: World, m: Manifest) { w.manifest.Some? && w.manifest.value.runId == m.runId }

  lemma MemberIndex<T>(s: seq<T>, t: T) returns (i: nat)
    requires t in s
    ensures i < |s| && s[i] == t
  {
    i :| i < |s| && s[i] == t;
  }

  /** Once every move is done the active trees are the run's, whichever way they are asked about. */
  lemma DoneIsPromoted(w: World, m: Manifest)
    requires Inv(w, m) && Forward(w.journal.state) && AllDone(w.journal.phases)
    ensures AllNext(w.fs, m) && AggregateHolds(w.fs, m.intent)
  {
    forall p | p in Owned(m) ensures Holds(w.fs, Active, p, Next(m, p)) {
      var i := MemberIndex(Owned(m), p);
      assert PhaseFits(w.fs, m, Owned(m)[i], w.journal.phases[i]);
    }
    forall p | p in m.intent.removals ensures p in Owned(m) && Next(m, p) == map[] {
      var j := MemberIndex(m.intent.removals, p);
      assert Owned(m)[|m.intent.placements| + j] == p;
      forall i | 0 <= i < |m.intent.placements| ensures m.intent.placements[i] != p {
        assert Owned(m)[i] == m.intent.placements[i];
      }
    }
    forall p | p in m.intent.placements ensures p in Owned(m) {
    }
  }

  /** A journal that says promoted or receipted stands over the promoted tree and its manifest. */
  lemma PromotedIsDone(w: World, m: Manifest)
    requires Inv(w, m) && (w.journal.state.Promoted? || w.journal.state.Receipted?)
    ensures |w.journal.phases| == |Owned(m)| && NamesRun(w, m) && AggregateHolds(w.fs, m.intent)
    ensures w.journal.state.Promoted? ==> w.journal.fence.Some?
  {
    DoneIsPromoted(w, m);
  }

  lemma JournalFits(w: World, m: Manifest)
    requires Inv(w, m)
    ensures |w.journal.phases| == |Owned(m)|
    ensures w.journal.state.Applying? || w.journal.state.Promoted? ==> w.journal.fence.Some?
  {
  }

  /** No manifest is replaced but the run's own and its baseline's. */
  predicate MayReplaceManifest(w: World, m: Manifest) {
    w.manifest.None? || NamesRun(w, m) || (m.intent.baseline.Some? && w.manifest.value.runId == m.intent.baseline.value.runId)
  }

  /** What apply and verify leave behind, from any disk at all and at every point they can stop. */
  ghost predicate ForwardCall(w: World, w': World, m: Manifest, o: Outcome) {
    && Conserved(w.fs, w'.fs) && ForeignStays(w.fs, w'.fs, m)
    && (w'.manifest == w.manifest || (w'.manifest == Some(m) && MayReplaceManifest(w, m)))
    && NewReceipts(w, w', Promotion, m.intent)
    && (o.Completed? ==> w'.journal.state.Receipted? && NamesRun(w', m) && AggregateHolds(w'.fs, m.intent))
    && (Inv(w, m) ==> Inv(w', m))
    && (if Forward(w.journal.state) then Forward(w'.journal.state) else w' == w && o.Refused?)
  }

  /** A run that has not been rolled back, whose claim and closing state check the API answers in its favour. */
  ghost predicate Resumable(w: World, m: Manifest, remote: Remote) {
    && Inv(w, m)
    && Forward(w.journal.state)
    && (w.journal.state.Prepared? ==> remote.claimed)
    && remote.confirmed
  }

  /** How many effects are enough for apply, and for rollback, to run to their end. */
  function ApplyBudget(m: Manifest): nat { 15 * |Owned(m)| + 14 }
  function RollbackBudget(m: Manifest): nat { 7 * |Owned(m)| + 10 }

  /** What is read back before the claim is requested: staging, the recorded baseline, and no unknown discovery name. */
  ghost predicate ReadyToClaim(w: World, m: Manifest) {
    && (forall p :: p in Owned(m) && Next(m, p) != map[] ==> Holds(w.fs, Stage, p, Next(m, p)))
    && BaselineInPlace(w, m)
  }

  ghost predicate BaselineInPlace(w: World, m: Manifest) {
    var placed := if m.intent.baseline.None? then [] else m.intent.baseline.value.intent.placements;
    && w.manifest == m.intent.baseline
    && (forall p :: p in Owned(m) || p in placed ==> Holds(w.fs, Active, p, Old(m, p)))
    && (forall l :: l in w.fs && l.place.Active? && IsDiscovery(l.path) ==> l.path in placed)
  }

  /** The API has its receipt, or the journal says so: only verification is left. */
  predicate Sealed(w: World, remote: Remote) {
    w.journal.state.Receipted? || (w.journal.state.Promoted? && remote.run.Succeeded?)
  }

  /** Verify with these answers: besides, it moves nothing, and completes only with the API's closing confirmation. */
  ghost predicate VerifyCall(w: World, w': World, m: Manifest, remote: Remote, o: Outcome) {
    && ForwardCall(w, w', m, o)
    && w'.fs == w.fs && w'.manifest == w.manifest
    && (o.Completed? ==> remote.confirmed)
  }

  /**
    Apply with these answers and effects left: besides, it never refuses where it can resume, and completes given enough. A
    prepared run stays as it is when its claim is lost, or while staging or baseline do not read back.
  */
  ghost predicate ApplyCall(w: World, w': World, m: Manifest, remote: Remote, effects: nat, o: Outcome) {
    && ForwardCall(w, w', m, o)
    && (Sealed(w, remote) ==> VerifyCall(w, w', m, remote, o))
    && (w.journal.state.Prepared? && !(remote.claimed && ReadyToClaim(w, m)) ==> w' == w && !o.Completed?)
    && w'.journal.fence == (if w.journal.state.Prepared? && w' != w then Some(remote.token) else w.journal.fence)
    && (Resumable(w, m, remote) ==> !o.Refused? && (effects >= ApplyBudget(m) ==> o.Completed?))
  }

  /** What one move's rollback on owned path `i` may change, at every point it can stop. */
  ghost predicate UndoStep(w: World, w': World, m: Manifest, i: nat)
    requires i < |Owned(m)|
  {
    && w'.journal == w.journal && w'.manifest == w.manifest && w'.receipts == w.receipts
    && OnlyPath(w.fs, w'.fs, Owned(m)[i])
    && Conserved(w.fs, w'.fs) && ForeignStays(w.fs, w'.fs, m)
    && (Undoable(w.fs, m, Owned(m)[i]) ==> Undoable(w'.fs, m, Owned(m)[i]))
    && (Restored(w.fs, m, Owned(m)[i]) ==> Restored(w'.fs, m, Owned(m)[i]))
  }

  lemma OtherPathsUndoable(fs: FileSystem, fs': FileSystem, m: Manifest, p: Path, q: Path)
    requires OnlyPath(fs, fs', p) && q != p
    ensures Undoable(fs', m, q) == Undoable(fs, m, q) && Restored(fs', m, q) == Restored(fs, m, q)
  {
  }

  lemma UndoStepKeepsInv(w: World, w': World, m: Manifest, i: nat)
    requires Inv(w, m) && w.journal.state.RollingBack?
    requires i < |Owned(m)| && UndoStep(w, w', m, i)
    ensures Inv(w', m)
    ensures forall j :: 0 <= j < |Owned(m)| && j != i && Restored(w.fs, m, Owned(m)[j]) ==> Restored(w'.fs, m, Owned(m)[j])
  {
    hide Undoable, Restored, ReceiptHonest;
    forall j | 0 <= j < |Owned(m)| && j != i
      ensures Undoable(w'.fs, m, Owned(m)[j])
      ensures Restored(w.fs, m, Owned(m)[j]) ==> Restored(w'.fs, m, Owned(m)[j])
    {
      assert Owned(m)[j] != Owned(m)[i];
      assert Undoable(w.fs, m, Owned(m)[j]);
      OtherPathsUndoable(w.fs, w'.fs, m, Owned(m)[i], Owned(m)[j]);
    }
  }

  /** Once every move is restored the active trees are the baseline's, whichever way they are asked about. */
  lemma RestoredIsBaseline(w: World, m: Manifest)
    requires WellFormed(m) && NoStrangers(w.fs, m) && AllRestored(w.fs, m)
    ensures AllOld(w.fs, m)
    ensures m.intent.baseline.Some? ==> AggregateHolds(w.fs, m.intent.baseline.value.intent)
  {
    forall p | p in Owned(m) ensures Holds(w.fs, Active, p, Old(m, p)) {
      var i := MemberIndex(Owned(m), p);
      assert Restored(w.fs, m, Owned(m)[i]);
    }
  }

  /** What rollback reads back: the baseline's aggregate, or nothing active at all when the run had none. */
  ghost predicate BaselineHolds(fs: FileSystem, m: Manifest) {
    match m.intent.baseline
    case Some(b) => AggregateHolds(fs, b.intent)
    case None => forall p :: p in Owned(m) ==> Holds(fs, Active, p, map[])
  }

  /** Receipts requested between two worlds were all of the restoration, each over the baseline read back. */
  ghost predicate RestorationReceipts(w: World, w': World, m: Manifest) {
    && w.receipts <= w'.receipts
    && forall k :: |w.receipts| <= k < |w'.receipts| ==> w'.receipts[k].kind.Restoration? && BaselineHolds(w'.receipts[k].fs, m)
  }

  /** Journaling the start of a rollback keeps the invariant, whatever the run had reached. */
  lemma BeginRollbackKeepsInv(w: World, m: Manifest, token: nat)
    ensures Inv(w, m) && !w.journal.state.RolledBack? ==>
              Inv(w.(journal := w.journal.(fence := Some(token), state := RollingBack)), m)
  {
    if Inv(w, m) && Forward(w.journal.state) {
      forall i | 0 <= i < |Owned(m)| ensures Undoable(w.fs, m, Owned(m)[i]) {
        assert PhaseFits(w.fs, m, Owned(m)[i], w.journal.phases[i]);
      }
    }
  }

  /** The journal says, or the API does, that the rollback is over: only its receipt is requested again. */
  predicate Replayed(w: World, remote: Remote) {
    w.journal.state.RolledBack? || (w.journal.state.RollingBack? && remote.run.Undone?)
  }

  /** What rollback leaves behind, from any disk at all, with these answers and effects and at every point it can stop. */
  ghost predicate RollbackCall(w: World, w': World, m: Manifest, remote: Remote, effects: nat, o: Outcome) {
    && Conserved(w.fs, w'.fs) && ForeignStays(w.fs, w'.fs, m)
    && RestorationReceipts(w, w', m)
    && (w'.manifest == w.manifest || (w'.manifest == m.intent.baseline && (m.intent.baseline.None? ==> NamesRun(w, m))))
    && (Replayed(w, remote) ==> w'.fs == w.fs && w'.manifest == w.manifest && w'.journal.fence == w.journal.fence)
    && (w'.journal.fence == w.journal.fence || w'.journal.fence == Some(remote.token))
    && (o.Completed? && !Replayed(w, remote) ==> w'.journal.fence == Some(remote.token))
    && (o.Completed? ==> w'.journal.state.RolledBack? && BaselineHolds(w'.fs, m) && |w'.receipts| == |w.receipts| + 1)
    && (Inv(w, m) ==>
          && Inv(w', m)
          && !o.Refused? && (effects >= RollbackBudget(m) ==> o.Completed?)
          && (o.Completed? ==> w'.journal.state.RolledBack? && AllOld(w'.fs, m) && w'.manifest == m.intent.baseline))
  }

  class Companion {
    const run: Manifest
    var world: World
    var journal: Journal
    var steps: nat
    ghost var fenced: bool    // the API granted the fence, and nothing was written or moved since

    // ---------- Effects ----------

    method Proceed() returns (o: Outcome)
      modifies this`steps
      ensures o == if old(steps) == 0 then Stopped else Completed
      ensures steps == if old(steps) == 0 then 0 else old(steps) - 1
    {
      if steps == 0 { return Stopped; }
      steps := steps - 1;
      o := Completed;
    }

    method Fence() returns (o: Outcome)
      modifies this`steps, this`fenced
      ensures Spent(old(steps), steps, 1, o) && (o.Completed? ==> steps == old(steps) - 1)
      ensures o.Refused? <==> journal.fence.None?
      ensures fenced == o.Completed?
    {
      fenced := false;
      if journal.fence.None? { return Refused(NoLease); }
      o := Proceed();
      fenced := o.Completed?;
    }

    method WriteJournal() returns (o: Outcome)
      modifies this`steps, this`world, this`fenced
      ensures Spent(old(steps), steps, 1, o) && (o.Completed? ==> steps == old(steps) - 1) && !o.Refused?
      ensures world == if o.Completed? then old(world).(journal := journal) else old(world)
      ensures !fenced
    {
      fenced := false;
      o := Proceed();
      if o.Completed? { world := world.(journal := journal); }
    }

    method WriteManifest(manifest: Option<Manifest>) returns (o: Outcome)
      requires fenced
      modifies this`steps, this`world, this`fenced
      ensures Spent(old(steps), steps, 1, o) && (o.Completed? ==> steps == old(steps) - 1) && !o.Refused?
      ensures world == if o.Completed? then old(world).(manifest := manifest) else old(world)
      ensures !fenced
    {
      fenced := false;
      o := Proceed();
      if o.Completed? { world := world.(manifest := manifest); }
    }

    /**
      Under a fence, or once the API already says that the run has ended so. The response may be lost after the request
      took effect, so a stop can follow the request as well.
    */
    method RequestReceipt(kind: ReceiptKind, ghost ended: bool) returns (o: Outcome)
      requires fenced || ended
      modifies this`steps, this`world, this`fenced
      ensures Spent(old(steps), steps, 2, o) && !o.Refused?
      ensures o.Completed? ==> steps == old(steps) - 2
      ensures world == old(world) || world == old(world).(receipts := old(world).receipts + [Receipt(kind, old(world).fs, old(world).manifest)])
      ensures o.Completed? ==> world != old(world)
    {
      o := Proceed();
      if o.Completed? {
        world := world.(receipts := world.receipts + [Receipt(kind, world.fs, world.manifest)]);
        o := Proceed();
      }
    }

    /** Renames a directory just read to be the recorded old or next tree, right after a fence, never onto an existing name. */
    method MoveDirectory(from: Loc, to: Loc, ghost expected: Tree) returns (o: Outcome)
      requires from.path == to.path && fenced
      requires expected == Old(run, from.path) || expected == Next(run, from.path)
      requires expected != map[] && Holds(world.fs, from.place, from.path, expected)
      modifies this`steps, this`world, this`fenced
      ensures Spent(old(steps), steps, 1, o) && (o.Completed? ==> steps == old(steps) - 1)
      ensures o.Refused? <==> to in old(world).fs
      ensures world == if o.Completed? then old(world).(fs := Renamed(old(world).fs, from, to)) else old(world)
      ensures Conserved(old(world).fs, world.fs) && ForeignStays(old(world).fs, world.fs, run) && !fenced
    {
      fenced := false;
      if to in world.fs { return Refused(DestinationExists); }
      :- Proceed();
      RenameConserves(world.fs, from, to);
      world := world.(fs := Renamed(world.fs, from, to));
      o := Completed;
    }

    method SetPhase(i: nat, phase: Phase) returns (o: Outcome)
      requires i < |journal.phases|
      modifies this`steps, this`world, this`journal, this`fenced
      ensures journal == old(journal).(phases := old(journal).phases[i := phase])
      ensures Spent(old(steps), steps, 2, o) && !o.Refused?
      ensures world == old(world) || world == old(world).(journal := journal)
      ensures o.Completed? ==> world == old(world).(journal := journal)
    {
      journal := journal.(phases := journal.phases[i := phase]);
      :- WriteJournal();
      o := Proceed();
    }

    // ---------- One move of apply ----------

    predicate Synced(i: nat)
      reads this`world, this`journal
    {
      journal == world.journal && i < |Owned(run)| == |journal.phases|
    }

    method RecordIntent(i: nat) returns (o: Outcome)
      requires Synced(i)
      modifies this`steps, this`world, this`journal, this`fenced
      ensures MoveStep(old(world), world, run, i)
      ensures Spent(old(steps), steps, 2, o)
      ensures o.Completed? ==> Synced(i) && !journal.phases[i].Pending?
      ensures world.journal != old(world).journal ==> Holds(world.fs, Active, Owned(run)[i], Old(run, Owned(run)[i]))
      ensures PhaseFits(old(world).fs, run, Owned(run)[i], old(world).journal.phases[i]) ==> !o.Refused?
    {
      if journal.phases[i].Pending? {
        var p := Owned(run)[i];
        :- MatchTree(world.fs, p, Old(run, p));
        :- SetPhase(i, OldIntent);
      }
      o := Completed;
    }

    method SetOldAside(i: nat) returns (o: Outcome)
      requires Synced(i) && !journal.phases[i].Pending?
      modifies this`steps, this`world, this`journal, this`fenced
      ensures MoveStep(old(world), world, run, i)
      ensures Spent(old(steps), steps, 5, o)
      ensures o.Completed? ==> Synced(i) && !journal.phases[i].Pending? && !journal.phases[i].OldIntent?
      ensures world.journal != old(world).journal ==> OldIsAside(world.fs, run, Owned(run)[i])
      ensures PhaseFits(old(world).fs, run, Owned(run)[i], old(world).journal.phases[i]) && old(journal).fence.Some? ==> !o.Refused?
    {
      o := Completed;
      if journal.phases[i].OldIntent? {
        o := PlaceOld(i);
        if !o.Completed? { return; }
        o := SetPhase(i, OldMoved);
      }
    }

    /** Brings the old tree to the baseline copy, or finds that it is there already. */
    method PlaceOld(i: nat) returns (o: Outcome)
      requires Synced(i) && journal.phases[i].OldIntent?
      modifies this`steps, this`world, this`fenced
      ensures MoveStep(old(world), world, run, i) && world.journal == old(world).journal
      ensures Spent(old(steps), steps, 3, o)
      ensures o.Completed? ==> OldIsAside(world.fs, run, Owned(run)[i])
      ensures PhaseFits(old(world).fs, run, Owned(run)[i], OldIntent) ==>
                (o.Completed? ==> OldAside(world.fs, run, Owned(run)[i])) && (journal.fence.Some? ==> !o.Refused?)
    {
      var p := Owned(run)[i];
      if Old(run, p) == map[] {
        o := MatchTree(world.fs, p, map[]);
      } else if Loc(Backup, p) in world.fs {
        :- MatchRelocated(world.fs, Loc(Backup, p), Old(run, p));
        o := if Loc(Active, p) in world.fs then Refused(AmbiguousBaseline) else Completed;
      } else {
        :- MatchTree(world.fs, p, Old(run, p));
        :- Fence();
        :- MoveDirectory(Loc(Active, p), Loc(Backup, p), Old(run, p));
        o := Proceed();
      }
    }

    method CheckCleared(i: nat) returns (o: Outcome)
      requires Synced(i) && !journal.phases[i].Pending? && !journal.phases[i].OldIntent?
      modifies this`steps, this`world, this`journal, this`fenced
      ensures MoveStep(old(world), world, run, i)
      ensures Spent(old(steps), steps, 2, o)
      ensures o.Completed? ==> Synced(i) && (journal.phases[i].NewIntent? || journal.phases[i].Done?)
      ensures world.journal != old(world).journal ==> Holds(world.fs, Active, Owned(run)[i], map[])
      ensures PhaseFits(old(world).fs, run, Owned(run)[i], old(world).journal.phases[i]) ==> !o.Refused?
    {
      if journal.phases[i].OldMoved? {
        :- MatchTree(world.fs, Owned(run)[i], map[]);
        :- SetPhase(i, NewIntent);
      }
      o := Completed;
    }

    method Expose(i: nat) returns (o: Outcome)
      requires Synced(i) && (journal.phases[i].NewIntent? || journal.phases[i].Done?)
      modifies this`steps, this`world, this`journal, this`fenced
      ensures MoveStep(old(world), world, run, i)
      ensures Spent(old(steps), steps, 5, o)
      ensures o.Completed? ==> Synced(i) && journal.phases[i].Done?
      ensures world.journal != old(world).journal ==> Holds(world.fs, Active, Owned(run)[i], Next(run, Owned(run)[i]))
      ensures PhaseFits(old(world).fs, run, Owned(run)[i], old(world).journal.phases[i]) && old(journal).fence.Some? ==> !o.Refused?
    {
      o := Completed;
      if journal.phases[i].NewIntent? {
        o := PlaceNext(i);
        if !o.Completed? { return; }
        o := SetPhase(i, Done);
      }
    }

    /** Brings the staged tree to the cleared active place, or finds that it is there already. */
    method PlaceNext(i: nat) returns (o: Outcome)
      requires Synced(i) && journal.phases[i].NewIntent?
      modifies this`steps, this`world, this`fenced
      ensures MoveStep(old(world), world, run, i) && world.journal == old(world).journal
      ensures Spent(old(steps), steps, 3, o)
      ensures Next(run, Owned(run)[i]) != map[] && Loc(Stage, Owned(run)[i]) in old(world).fs && Loc(Active, Owned(run)[i]) in old(world).fs ==>
                o.Refused? && steps == old(steps) && world == old(world)
      ensures o.Completed? ==> Holds(world.fs, Active, Owned(run)[i], Next(run, Owned(run)[i]))
      ensures PhaseFits(old(world).fs, run, Owned(run)[i], NewIntent) ==>
                (o.Completed? ==> Exposed(world.fs, run, Owned(run)[i])) && (journal.fence.Some? ==> !o.Refused?)
    {
      var p := Owned(run)[i];
      if Next(run, p) == map[] {
        o := MatchTree(world.fs, p, map[]);
      } else if Loc(Stage, p) in world.fs {
        :- MatchRelocated(world.fs, Loc(Stage, p), Next(run, p));
        :- MatchTree(world.fs, p, map[]);
        :- Fence();
        :- MoveDirectory(Loc(Stage, p), Loc(Active, p), Next(run, p));
        o := Proceed();
      } else {
        o := MatchTree(world.fs, p, Next(run, p));
      }
    }

    method ApplyMove(i: nat) returns (o: Outcome)
      requires Synced(i)
      modifies this`steps, this`world, this`journal, this`fenced
      ensures MoveStep(old(world), world, run, i)
      ensures Spent(old(steps), steps, 15, o)
      ensures old(journal).fence.None? ==> !o.Completed? && world == old(world)
      ensures o.Completed? ==> Synced(i) && journal.phases[i].Done? && Holds(world.fs, Active, Owned(run)[i], Next(run, Owned(run)[i]))
      ensures PhaseFits(old(world).fs, run, Owned(run)[i], old(world).journal.phases[i]) && old(journal).fence.Some? ==> !o.Refused?
    {
      hide MoveStep;
      var p := Owned(run)[i];
      ghost var w0 := world;
      StandsStill(world, run, i);
      :- Fence();
      :- RecordIntent(i);
      ghost var w1 := world;
      o := SetOldAside(i);
      MoveStepsCompose(w0, w1, world, run, i);
      if !o.Completed? { return; }
      ghost var w2 := world;
      o := CheckCleared(i);
      MoveStepsCompose(w0, w2, world, run, i);
      if !o.Completed? { return; }
      ghost var w3 := world;
      o := Expose(i);
      MoveStepsCompose(w0, w3, world, run, i);
      if !o.Completed? { return; }
      MoveStepsCompose(w0, world, world, run, i) by { StandsStill(world, run, i); }
      o := MatchTree(world.fs, p, Next(run, p));
    }

    // ---------- Whole-tree checks ----------

    method VerifyAggregate(intent: Intent) returns (o: Outcome)
      ensures o.Completed? <==> AggregateHolds(world.fs, intent)
      ensures !o.Stopped?
    {
      for i := 0 to |intent.placements|
        invariant forall k :: 0 <= k < i ==> Holds(world.fs, Active, intent.placements[k], TreeOf(intent, intent.placements[k]))
      {
        :- MatchTree(world.fs, intent.placements[i], TreeOf(intent, intent.placements[i]));
      }
      for i := 0 to |intent.removals|
        invariant forall k :: 0 <= k < i ==> Holds(world.fs, Active, intent.removals[k], map[])
      {
        :- MatchTree(world.fs, intent.removals[i], map[]);
      }
      o := Completed;
    }

    method VerifyStaging() returns (o: Outcome)
      ensures o.Completed? <==> forall p :: p in Owned(run) && Next(run, p) != map[] ==> Holds(world.fs, Stage, p, Next(run, p))
      ensures !o.Stopped?
    {
      for i := 0 to |Owned(run)|
        invariant forall k :: 0 <= k < i && Next(run, Owned(run)[k]) != map[] ==> Holds(world.fs, Stage, Owned(run)[k], Next(run, Owned(run)[k]))
      {
        var p := Owned(run)[i];
        if Next(run, p) != map[] {
          :- MatchRelocated(world.fs, Loc(Stage, p), Next(run, p));
        }
      }
      o := Completed;
    }

    /** The active tree and manifest are exactly the recorded baseline, with no unknown name in the namespace. */
    method AssertBaseline() returns (o: Outcome)
      ensures o.Completed? <==> BaselineInPlace(world, run)
      ensures WellFormed(run) && world.manifest == run.intent.baseline && AllOld(world.fs, run) && NoStrangers(world.fs, run) ==> o.Completed?
      ensures !o.Stopped?
    {
      if world.manifest != run.intent.baseline { return Refused(BaselineChanged); }
      var placed := if run.intent.baseline.None? then [] else run.intent.baseline.value.intent.placements;
      if l :| l in world.fs && l.place.Active? && IsDiscovery(l.path) && l.path !in placed {
        assert WellFormed(run) && AllOld(world.fs, run) && l.path in Owned(run) ==> Old(run, l.path) == map[];
        return Refused(StrangerInNamespace);
      }
      for i := 0 to |Owned(run)|
        invariant forall k :: 0 <= k < i ==> Holds(world.fs, Active, Owned(run)[k], Old(run, Owned(run)[k]))
      {
        :- MatchTree(world.fs, Owned(run)[i], Old(run, Owned(run)[i]));
      }
      for i := 0 to |placed|
        invariant forall k :: 0 <= k < i ==> Holds(world.fs, Active, placed[k], Old(run, placed[k]))
      {
        :- MatchTree(world.fs, placed[i], Old(run, placed[i]));
      }
      o := Completed;
    }

    // ---------- Apply ----------

    /** The loop over all moves, from whatever phases the journal records. */
    method ApplyMoves() returns (o: Outcome)
      requires journal == world.journal && |journal.phases| == |Owned(run)|
      requires journal.state.Applying? || journal.state.Promoted?
      modifies this`steps, this`world, this`journal, this`fenced
      ensures world.manifest == old(world).manifest && world.receipts == old(world).receipts
      ensures world.journal == old(world).journal.(phases := world.journal.phases)
      ensures Conserved(old(world).fs, world.fs) && ForeignStays(old(world).fs, world.fs, run)
      ensures Spent(old(steps), steps, 15 * |Owned(run)|, o)
      ensures o.Completed? ==> journal == world.journal && |journal.phases| == |Owned(run)| && AllDone(journal.phases)
      ensures Inv(old(world), run) ==> Inv(world, run) && !o.Refused?
    {
      for i := 0 to |Owned(run)|
        invariant journal == world.journal && |journal.phases| == |Owned(run)|
        invariant world.journal == old(world).journal.(phases := world.journal.phases)
        invariant world.manifest == old(world).manifest && world.receipts == old(world).receipts
        invariant Conserved(old(world).fs, world.fs) && ForeignStays(old(world).fs, world.fs, run)
        invariant steps <= old(steps) <= steps + 15 * i
        invariant forall k :: 0 <= k < i ==> journal.phases[k].Done?
        invariant Inv(old(world), run) ==> Inv(world, run)
      {
        ghost var before := world;
        o := ApplyMove(i);
        if Inv(before, run) { MoveStepKeepsInv(before, world, run, i); }
        if !o.Completed? { return; }
      }
      o := Completed;
    }

    /** Requests the promotion receipt for a verified tree and records that it was given. */
    method SealReceipt(ghost ended: bool) returns (o: Outcome)
      requires journal == world.journal && AggregateHolds(world.fs, run.intent) && (fenced || ended)
      modifies this`steps, this`world, this`journal, this`fenced
      ensures Spent(old(steps), steps, 4, o) && !o.Refused?
      ensures o.Completed? ==> steps == old(steps) - 4
      ensures world.fs == old(world).fs && world.manifest == old(world).manifest
      ensures NewReceipts(old(world), world, Promotion, run.intent)
      ensures world.journal == old(world).journal || world.journal == old(world).journal.(state := Receipted)
      ensures o.Completed? ==> journal == world.journal && journal.state.Receipted?
      ensures o.Completed? ==> world.receipts == old(world).receipts + [Receipt(Promotion, world.fs, world.manifest)]
      ensures Inv(old(world), run) && old(world).journal.state.Promoted? ==> Inv(world, run)
    {
      o := RequestReceipt(Promotion, ended);
      if !o.Completed? { return; }
      :- Proceed();
      journal := journal.(state := Receipted);
      :- WriteJournal();
      o := Completed;
    }

    method Verify(remote: Remote) returns (o: Outcome)
      modifies this`steps, this`world, this`journal, this`fenced
      ensures VerifyCall(old(world), world, run, remote, o) && world.journal.fence == old(world).journal.fence
      ensures Spent(old(steps), steps, 5, o)
      ensures |old(world).journal.phases| != |Owned(run)| ==> o.Refused? && world == old(world)
      ensures Inv(old(world), run) && remote.confirmed && (old(world).journal.state.Promoted? || old(world).journal.state.Receipted?) ==> !o.Refused?
    {
      hide Inv, AggregateHolds;
      journal := world.journal;
      if Inv(world, run) && (journal.state.Promoted? || journal.state.Receipted?) { PromotedIsDone(world, run); }
      if |journal.phases| != |Owned(run)| { return Refused(JournalInvalid); }
      if journal.state.Promoted? {
        if !remote.run.Succeeded? { :- Fence(); }
        :- VerifyAggregate(run.intent);
        :- SealReceipt(remote.run.Succeeded?);
      }
      if !journal.state.Receipted? { return Refused(PartialArtifact); }
      if !NamesRun(world, run) { return Refused(OtherTreeActive); }
      :- VerifyAggregate(run.intent);
      if !remote.confirmed { return Refused(ReceiptMissing); }
      o := Completed;
    }

    /** Approval and claim: staging and baseline are read back first, and the fence is journaled last. */
    method Claim(remote: Remote) returns (o: Outcome)
      requires journal == world.journal && journal.state.Prepared?
      modifies this`steps, this`world, this`journal, this`fenced
      ensures world == old(world) || world == old(world).(journal := old(world).journal.(state := Applying, fence := Some(remote.token)))
      ensures o.Completed? ==> world != old(world) && journal == world.journal
      ensures !(remote.claimed && ReadyToClaim(old(world), run)) ==> world == old(world) && !o.Completed?
      ensures Spent(old(steps), steps, 3, o)
      ensures o.Completed? ==> steps == old(steps) - 3
      ensures Inv(old(world), run) ==> Inv(world, run)
      ensures Inv(old(world), run) && remote.claimed ==> !o.Refused?
    {
      if Inv(world, run) {
        forall p | p in Owned(run) ensures AtStart(world.fs, run, p) {
          var i := MemberIndex(Owned(run), p);
          assert PhaseFits(world.fs, run, Owned(run)[i], world.journal.phases[i]);
        }
      }
      :- VerifyStaging();
      :- AssertBaseline();
      :- Proceed();
      :- Proceed();
      if !remote.claimed { return Refused(AlreadyClaimed); }
      journal := journal.(state := Applying, fence := Some(remote.token));
      :- WriteJournal();
      o := Completed;
    }

    /** Writes the ownership manifest over a fully promoted tree and journals it. */
    method PublishManifest() returns (o: Outcome)
      requires journal == world.journal && AllDone(journal.phases) && |journal.phases| == |Owned(run)|
      requires journal.state.Applying? || journal.state.Promoted?
      modifies this`steps, this`world, this`journal, this`fenced
      ensures world.fs == old(world).fs && world.receipts == old(world).receipts && world.journal.fence == old(world).journal.fence
      ensures world.manifest == old(world).manifest || (world.manifest == Some(run) && MayReplaceManifest(old(world), run))
      ensures o.Completed? ==> journal == world.journal == old(journal).(state := Promoted) && world.manifest == Some(run)
      ensures o.Completed? ==> AggregateHolds(world.fs, run.intent)
      ensures Spent(old(steps), steps, 4, o)
      ensures o.Completed? ==> steps == old(steps) - 4
      ensures Forward(world.journal.state)
      ensures Inv(old(world), run) ==> Inv(world, run) && !o.Refused?
    {
      if Inv(world, run) { DoneIsPromoted(world, run); }
      :- Fence();
      :- VerifyAggregate(run.intent);
      if world.manifest.Some? && !NamesRun(world, run)
         && (run.intent.baseline.None? || world.manifest.value.runId != run.intent.baseline.value.runId) {
        return Refused(ManifestChanged);
      }
      :- WriteManifest(Some(run));
      journal := journal.(state := Promoted);
      :- WriteJournal();
      :- Proceed();
      o := Completed;
    }

    method Apply(remote: Remote) returns (o: Outcome)
      modifies this`steps, this`world, this`journal, this`fenced
      ensures ApplyCall(old(world), world, run, remote, old(steps), o)
      ensures Spent(old(steps), steps, ApplyBudget(run) - 1, o)
      ensures |old(world).journal.phases| != |Owned(run)| ==> o.Refused? && world == old(world)
    {
      hide Inv, AggregateHolds;
      if Inv(world, run) { JournalFits(world, run); }
      journal := world.journal;
      if |journal.phases| != |Owned(run)| { return Refused(JournalInvalid); }
      if (journal.state.Promoted? && remote.run.Succeeded?) || journal.state.Receipted? {
        o := Verify(remote);
        return;
      }
      if journal.state.Prepared? {
        o := Claim(remote);
        if !o.Completed? { return; }
      }
      if !journal.state.Applying? && !journal.state.Promoted? { return Refused(NeedsRecovery); }
      o := Deliver();
    }

    /** The claimed part of apply: every move, the manifest, and the receipt over the readback. */
    method Deliver() returns (o: Outcome)
      requires journal == world.journal && |journal.phases| == |Owned(run)|
      requires journal.state.Applying? || journal.state.Promoted?
      modifies this`steps, this`world, this`journal, this`fenced
      ensures ForwardCall(old(world), world, run, o) && world.journal.fence == old(world).journal.fence
      ensures Spent(old(steps), steps, 15 * |Owned(run)| + 9, o)
      ensures Inv(old(world), run) ==> !o.Refused?
    {
      hide Inv, AggregateHolds;
      o := ApplyMoves();
      if !o.Completed? { return; }
      o := PublishManifest();
      if !o.Completed? { return; }
      if Inv(world, run) { JournalFits(world, run); }
      :- Fence();
      o := VerifyAggregate(run.intent);
      if o.Completed? { o := SealReceipt(false); }
    }

    // ---------- Rollback ----------

    /** Sets promoted bytes aside; anything but the run's own next tree is refused. */
    method QuarantineActive(i: nat, current: Tree) returns (o: Outcome)
      requires journal == world.journal && i < |Owned(run)|
      requires Holds(world.fs, Active, Owned(run)[i], current) && !Restored(world.fs, run, Owned(run)[i])
      modifies this`steps, this`world, this`fenced
      ensures UndoStep(old(world), world, run, i)
      ensures Spent(old(steps), steps, 3, o)
      ensures o.Completed? ==> steps == if current == map[] then old(steps) else old(steps) - 3
      ensures current != map[] && current != Next(run, Owned(run)[i]) ==> o == Refused(AlteredBytes) && world == old(world)
      ensures o.Completed? ==> Holds(world.fs, Active, Owned(run)[i], map[])
      ensures Undoable(old(world).fs, run, Owned(run)[i]) && journal.fence.Some? ==> !o.Refused?
      ensures Undoable(old(world).fs, run, Owned(run)[i]) && o.Completed? ==>
                OldAside(world.fs, run, Owned(run)[i]) || NextAside(world.fs, run, Owned(run)[i])
    {
      var p := Owned(run)[i];
      if current != map[] {
        if current != Next(run, p) { return Refused(AlteredBytes); }
        :- Fence();
        :- MoveDirectory(Loc(Active, p), Loc(Quarantine, p), current);
        :- Proceed();
      }
      o := Completed;
    }

    /** Brings the baseline copy back to a vacated active path. */
    method PutOldBack(i: nat) returns (o: Outcome)
      requires journal == world.journal && i < |Owned(run)|
      modifies this`steps, this`world, this`fenced
      ensures UndoStep(old(world), world, run, i)
      ensures Spent(old(steps), steps, 3, o)
      ensures o.Completed? ==> steps == if Old(run, Owned(run)[i]) == map[] then old(steps) else old(steps) - 3
      ensures Old(run, Owned(run)[i]) != map[] && Loc(Active, Owned(run)[i]) in old(world).fs ==>
                o.Refused? && steps == old(steps) && world == old(world)
      ensures o.Completed? ==> Holds(world.fs, Active, Owned(run)[i], Old(run, Owned(run)[i]))
      ensures (OldAside(old(world).fs, run, Owned(run)[i]) || NextAside(old(world).fs, run, Owned(run)[i])) && journal.fence.Some?
              ==> !o.Refused? && (o.Completed? ==> Restored(world.fs, run, Owned(run)[i]))
    {
      var p := Owned(run)[i];
      if Old(run, p) != map[] {
        :- MatchRelocated(world.fs, Loc(Backup, p), Old(run, p));
        :- MatchTree(world.fs, p, map[]);
        :- Fence();
        :- MoveDirectory(Loc(Backup, p), Loc(Active, p), Old(run, p));
        :- Proceed();
      }
      o := MatchTree(world.fs, p, Old(run, p));
    }

    method RollbackMove(i: nat) returns (o: Outcome)
      requires journal == world.journal && i < |Owned(run)|
      modifies this`steps, this`world, this`fenced
      ensures UndoStep(old(world), world, run, i)
      ensures Spent(old(steps), steps, 7, o)
      ensures journal.fence.None? ==> !o.Completed? && world == old(world)
      ensures o.Completed? ==> Holds(world.fs, Active, Owned(run)[i], Old(run, Owned(run)[i]))
      ensures Undoable(old(world).fs, run, Owned(run)[i]) && journal.fence.Some?
              ==> !o.Refused? && (o.Completed? ==> Restored(world.fs, run, Owned(run)[i]))
    {
      var p := Owned(run)[i];
      :- Fence();
      var read := ReadTree(world.fs, Loc(Active, p));
      if read.Err? { return Refused(read.error); }
      if read.value == Old(run, p) && (Old(run, p) == map[] || Loc(Backup, p) !in world.fs) { return Completed; }
      :- QuarantineActive(i, read.value);
      o := PutOldBack(i);
    }

    method RollbackMoves() returns (o: Outcome)
      requires journal == world.journal && journal.state.RollingBack?
      modifies this`steps, this`world, this`fenced
      ensures world == old(world).(fs := world.fs)
      ensures Conserved(old(world).fs, world.fs) && ForeignStays(old(world).fs, world.fs, run)
      ensures Spent(old(steps), steps, 7 * |Owned(run)|, o)
      ensures Inv(old(world), run) ==> Inv(world, run) && !o.Refused? && (o.Completed? ==> AllRestored(world.fs, run))
    {
      var i := |Owned(run)|;
      while i > 0
        invariant 0 <= i <= |Owned(run)|
        invariant world == old(world).(fs := world.fs)
        invariant Conserved(old(world).fs, world.fs) && ForeignStays(old(world).fs, world.fs, run)
        invariant steps <= old(steps) <= steps + 7 * (|Owned(run)| - i)
        invariant Inv(old(world), run) ==> Inv(world, run)
        invariant Inv(old(world), run) ==> forall j :: i <= j < |Owned(run)| ==> Restored(world.fs, run, Owned(run)[j])
      {
        i := i - 1;
        ghost var before := world;
        o := RollbackMove(i);
        if Inv(before, run) { UndoStepKeepsInv(before, world, run, i); }
        if !o.Completed? { return; }
      }
      o := Completed;
    }

    /** The check that stands in for an aggregate readback when the run had no baseline. */
    method MatchAllAbsent() returns (o: Outcome)
      ensures o.Completed? <==> forall p :: p in Owned(run) ==> Holds(world.fs, Active, p, map[])
      ensures !o.Stopped?
    {
      for i := 0 to |Owned(run)|
        invariant forall k :: 0 <= k < i ==> Holds(world.fs, Active, Owned(run)[k], map[])
      {
        :- MatchTree(world.fs, Owned(run)[i], map[]);
      }
      o := Completed;
    }

    method VerifyBaseline() returns (o: Outcome)
      ensures !o.Stopped?
      ensures o.Completed? <==> BaselineHolds(world.fs, run)
      ensures WellFormed(run) && NoStrangers(world.fs, run) && AllRestored(world.fs, run) ==> o.Completed?
    {
      if run.intent.baseline.Some? {
        o := VerifyAggregate(run.intent.baseline.value.intent);
      } else {
        o := MatchAllAbsent();
      }
    }

    /** Requests the restoration receipt and records that the rollback is over. */
    method SealRollback(ghost ended: bool) returns (o: Outcome)
      requires journal == world.journal && |journal.phases| == |Owned(run)|
      requires BaselineHolds(world.fs, run) && (fenced || ended)
      modifies this`steps, this`world, this`journal, this`fenced
      ensures Spent(old(steps), steps, 4, o) && !o.Refused?
      ensures o.Completed? ==> steps == old(steps) - 4
      ensures world.journal != old(world).journal ==> o.Completed?
      ensures world.fs == old(world).fs && world.manifest == old(world).manifest
      ensures RestorationReceipts(old(world), world, run)
      ensures world.journal == old(world).journal || world.journal == old(world).journal.(state := RolledBack)
      ensures o.Completed? ==> world.journal.state.RolledBack?
      ensures o.Completed? ==> world.receipts == old(world).receipts + [Receipt(Restoration, world.fs, world.manifest)]
      ensures Inv(old(world), run) && !Forward(old(world).journal.state) && AllRestored(world.fs, run) && world.manifest == run.intent.baseline
              ==> Inv(world, run)
    {
      o := RequestReceipt(Restoration, ended);
      if !o.Completed? { return; }
      :- Proceed();
      journal := journal.(state := RolledBack);
      :- WriteJournal();
      o := Completed;
    }

    method RestoreManifest() returns (o: Outcome)
      requires journal == world.journal && journal.state.RollingBack? && fenced
      modifies this`steps, this`world, this`fenced
      ensures Spent(old(steps), steps, 1, o)
      ensures old(world).manifest.None? && run.intent.baseline.None? ==> steps == old(steps)
      ensures world == old(world) || world == old(world).(manifest := run.intent.baseline)
      ensures world != old(world) && run.intent.baseline.None? ==> NamesRun(old(world), run)
      ensures o.Completed? ==> world.manifest == run.intent.baseline && BaselineHolds(world.fs, run)
      ensures Inv(old(world), run) && AllRestored(world.fs, run) ==> Inv(world, run) && !o.Refused?
    {
      o := VerifyBaseline();
      if !o.Completed? { return; }
      if run.intent.baseline.None? {
        if world.manifest.Some? && !NamesRun(world, run) { return Refused(OtherTreeActive); }
        if world.manifest.None? { return Completed; }
      }
      o := WriteManifest(run.intent.baseline);
    }

    /** The API reports a run undone only after its restoration receipt was requested. */
    method Rollback(remote: Remote) returns (o: Outcome)
      requires remote.run.Undone? ==> Requested(world, Restoration)
      modifies this`steps, this`world, this`journal, this`fenced
      ensures RollbackCall(old(world), world, run, remote, old(steps), o)
      ensures Spent(old(steps), steps, RollbackBudget(run) - 1, o)
      ensures |old(world).journal.phases| != |Owned(run)| ==> o.Refused? && world == old(world)
      ensures world.journal != old(world).journal ==> steps <= old(steps) - 2
    {
      hide AllOld, AllRestored, AllUndoable, AllFit, ManifestHonest, BaselineHolds, ReceiptHonest, NoStrangers, WellFormed;
      ghost var sound := Inv(world, run);
      journal := world.journal;
      if |journal.phases| != |Owned(run)| { return Refused(JournalInvalid); }
      if journal.state.RolledBack? || (journal.state.RollingBack? && remote.run.Undone?) {
        if Inv(world, run) { RestoredIsBaseline(world, run); }
        :- VerifyBaseline();
        :- SealRollback(true);
        return Completed;
      }
      :- Proceed();
      BeginRollbackKeepsInv(world, run, remote.token);
      journal := journal.(fence := Some(remote.token), state := RollingBack);
      :- WriteJournal();
      o := Unwind();
    }

    /** The journaled part of rollback: every move, the manifest, and the receipt over the readback. */
    method Unwind() returns (o: Outcome)
      requires journal == world.journal && journal.state.RollingBack? && |journal.phases| == |Owned(run)|
      modifies this`steps, this`world, this`journal, this`fenced
      ensures Conserved(old(world).fs, world.fs) && ForeignStays(old(world).fs, world.fs, run)
      ensures RestorationReceipts(old(world), world, run) && world.journal.fence == old(world).journal.fence
      ensures world.manifest == old(world).manifest
           || (world.manifest == run.intent.baseline && (run.intent.baseline.None? ==> NamesRun(old(world), run)))
      ensures o.Completed? ==> world.journal.state.RolledBack? && BaselineHolds(world.fs, run)
      ensures o.Completed? ==> world.manifest == run.intent.baseline && |world.receipts| == |old(world).receipts| + 1
      ensures Spent(old(steps), steps, 7 * |Owned(run)| + 7, o)
      ensures Inv(old(world), run) ==>
                Inv(world, run) && !o.Refused?
                && (o.Completed? ==> world.journal.state.RolledBack? && AllOld(world.fs, run) && world.manifest == run.intent.baseline)
    {
      hide AllOld, AllRestored, AllUndoable, AllFit, ManifestHonest, BaselineHolds, ReceiptHonest, NoStrangers, WellFormed;
      ghost var sound := Inv(world, run);
      :- RollbackMoves();
      :- Fence();
      :- RestoreManifest();
      :- Fence();
      if sound { RestoredIsBaseline(world, run); }
      :- SealRollback(false);
      o := Completed;
    }
  }
}
