/**
  Whole runs: any sequence of apply, verify and rollback calls on one prepared artifact, each stopped anywhere.

  A call is known here only by the contract its method proves (`ApplyCall`, `ForwardCall` for verify, `RollbackCall`),
  with what the API answered and the effects the process had left, so a theorem about runs holds of every schedule of
  crashes.
*/
module ArtifactRuns {
  import opened Wrappers
  import opened ArtifactModel
  import opened ArtifactCompanion

  datatype Call =
    | Apply(remote: Remote, effects: nat, outcome: Outcome)
    | Verify(remote: Remote, effects: nat, outcome: Outcome)
    | Undo(remote: Remote, effects: nat, outcome: Outcome)

  /** The API reports a run undone only after its restoration receipt was requested. */
  ghost predicate Related(w: World, w': World, m: Manifest, c: Call) {
    match c
    case Apply(remote, effects, o) => ApplyCall(w, w', m, remote, effects, o)
    case Verify(remote, _, o) => VerifyCall(w, w', m, remote, o)
    case Undo(remote, effects, o) =>
      (remote.run.Undone? ==> Requested(w, Restoration)) && RollbackCall(w, w', m, remote, effects, o)
  }

  /** `ws` are the worlds between the calls of one run, starting from staging. */
  ghost predicate Run(ws: seq<World>, calls: seq<Call>, m: Manifest) {
    && |ws| == |calls| + 1
    && PreparedWorld(ws[0], m)
    && forall i :: 0 <= i < |calls| ==> Related(ws[i], ws[i + 1], m, calls[i])
  }

  lemma PreparedIsSound(w: World, m: Manifest)
    requires PreparedWorld(w, m)
    ensures Inv(w, m)
  {
    forall i | 0 <= i < |Owned(m)| ensures PhaseFits(w.fs, m, Owned(m)[i], w.journal.phases[i]) {
      assert Owned(m)[i] in Owned(m);
    }
  }

  /** Every world of every run satisfies the invariant and has lost no tree. */
  lemma {:induction false} RunKeepsInvariant(ws: seq<World>, calls: seq<Call>, m: Manifest, k: nat)
    requires Run(ws, calls, m) && k < |ws|
    ensures Inv(ws[k], m)
    ensures Conserved(ws[0].fs, ws[k].fs)
  {
    if k == 0 {
      PreparedIsSound(ws[0], m);
    } else {
      RunKeepsInvariant(ws, calls, m, k - 1);
      assert Related(ws[k - 1], ws[k], m, calls[k - 1]);
    }
  }

  /** However apply stopped and however often rollback was interrupted, one completed rollback restores the baseline. */
  lemma RollbackUndoesApply(ws: seq<World>, calls: seq<Call>, m: Manifest)
    requires Run(ws, calls, m) && |calls| > 0
    requires calls[|calls| - 1].Undo? && calls[|calls| - 1].outcome.Completed?
    ensures var w := ws[|calls|];
            AllOld(w.fs, m) && w.manifest == m.intent.baseline == ws[0].manifest
    ensures forall p :: p in Owned(m) ==> Holds(ws[0].fs, Active, p, Old(m, p))
  {
    RunKeepsInvariant(ws, calls, m, |calls| - 1);
    assert Related(ws[|calls| - 1], ws[|calls|], m, calls[|calls| - 1]);
  }

  /**
    Apply can be re-run from wherever applies and verifies stopped: with the claim and the closing check in its favour it
    never refuses, and with enough effects left it completes over the promoted tree.
  */
  lemma StoppedApplyResumes(ws: seq<World>, calls: seq<Call>, m: Manifest, k: nat)
    requires Run(ws, calls, m) && k < |calls| && calls[k].Apply?
    requires forall i :: 0 <= i < k ==> !calls[i].Undo?
    requires calls[k].remote.confirmed && (ws[k].journal.state.Prepared? ==> calls[k].remote.claimed)
    ensures !calls[k].outcome.Refused?
    ensures calls[k].effects >= ApplyBudget(m) ==>
              calls[k].outcome.Completed? && AllNext(ws[k + 1].fs, m) && ws[k + 1].manifest == Some(m)
  {
    RunKeepsInvariant(ws, calls, m, k);
    StaysForward(ws, calls, m, k);
    assert Related(ws[k], ws[k + 1], m, calls[k]);
    if calls[k].outcome.Completed? { CompletedApplyPromotes(ws, calls, m, k); }
  }

  /** An apply whose claim is lost leaves the prepared world as it was, in every run. */
  lemma LostClaimChangesNothing(ws: seq<World>, calls: seq<Call>, m: Manifest, k: nat)
    requires Run(ws, calls, m) && k < |calls| && calls[k].Apply?
    requires ws[k].journal.state.Prepared? && !calls[k].remote.claimed
    ensures ws[k + 1] == ws[k] && !calls[k].outcome.Completed?
  {
    assert Related(ws[k], ws[k + 1], m, calls[k]);
  }

  /** Verification completes only with the API's closing confirmation, and so does an apply that only had to verify. */
  lemma CompletionIsConfirmed(ws: seq<World>, calls: seq<Call>, m: Manifest, k: nat)
    requires Run(ws, calls, m) && k < |calls| && calls[k].outcome.Completed?
    requires calls[k].Verify? || (calls[k].Apply? && Sealed(ws[k], calls[k].remote))
    ensures calls[k].remote.confirmed && ws[k + 1].fs == ws[k].fs && ws[k + 1].manifest == ws[k].manifest
  {
    assert Related(ws[k], ws[k + 1], m, calls[k]);
  }

  /**
    From any disk at all, whatever its journal says, and through any calls: bytes that are neither the recorded old nor the
    recorded next tree of their path stay where they are.
  */
  lemma {:induction false} ForeignBytesStay(ws: seq<World>, calls: seq<Call>, m: Manifest)
    requires |ws| == |calls| + 1 && forall i :: 0 <= i < |calls| ==> Related(ws[i], ws[i + 1], m, calls[i])
    ensures ForeignStays(ws[0].fs, ws[|calls|].fs, m)
  {
    hide Related, ForeignStays;
    if calls == [] {
      NothingMoved(ws[0].fs, m);
    } else {
      var n := |calls| - 1;
      ForeignBytesStay(ws[..n + 1], calls[..n], m);
      assert Related(ws[n], ws[n + 1], m, calls[n]);
      CallSparesForeign(ws[n], ws[n + 1], m, calls[n]);
      ForeignStaysOn(ws[0].fs, ws[n].fs, ws[n + 1].fs, m);
    }
  }

  lemma NothingMoved(fs: FileSystem, m: Manifest)
    ensures ForeignStays(fs, fs, m)
  {
  }

  lemma CallSparesForeign(w: World, w': World, m: Manifest, c: Call)
    requires Related(w, w', m, c)
    ensures ForeignStays(w.fs, w'.fs, m)
  {
  }

  /** Rollback is never refused, wherever the run stands, and with enough effects left it restores the baseline. */
  lemma RollbackIsNeverRefused(ws: seq<World>, calls: seq<Call>, m: Manifest, k: nat)
    requires Run(ws, calls, m) && k < |calls| && calls[k].Undo?
    ensures !calls[k].outcome.Refused?
    ensures calls[k].effects >= RollbackBudget(m) ==>
              calls[k].outcome.Completed? && AllOld(ws[k + 1].fs, m) && ws[k + 1].manifest == m.intent.baseline
  {
    RunKeepsInvariant(ws, calls, m, k);
    assert Related(ws[k], ws[k + 1], m, calls[k]);
  }

  lemma {:induction false} StaysForward(ws: seq<World>, calls: seq<Call>, m: Manifest, k: nat)
    requires Run(ws, calls, m) && k < |ws|
    requires forall i :: 0 <= i < k ==> !calls[i].Undo?
    ensures Forward(ws[k].journal.state)
  {
    if k > 0 {
      StaysForward(ws, calls, m, k - 1);
      assert Related(ws[k - 1], ws[k], m, calls[k - 1]);
    }
  }

  /** A completed apply or verify, at any point of any run, leaves the run's tree active, owned and receipted. */
  lemma CompletedApplyPromotes(ws: seq<World>, calls: seq<Call>, m: Manifest, k: nat)
    requires Run(ws, calls, m) && k < |calls|
    requires !calls[k].Undo? && calls[k].outcome.Completed?
    ensures AllNext(ws[k + 1].fs, m) && ws[k + 1].manifest == Some(m)
    ensures forall p :: p in Owned(m) ==> Holds(ws[k + 1].fs, Backup, p, Old(m, p))
  {
    RunKeepsInvariant(ws, calls, m, k + 1);
    assert Related(ws[k], ws[k + 1], m, calls[k]);
    DoneIsPromoted(ws[k + 1], m);
    forall p | p in Owned(m) ensures Holds(ws[k + 1].fs, Backup, p, Old(m, p)) {
      var i := MemberIndex(Owned(m), p);
      assert PhaseFits(ws[k + 1].fs, m, Owned(m)[i], ws[k + 1].journal.phases[i]);
    }
  }

  /** Outside rollback the manifest names the run only over a fully promoted tree, and no receipt ever overstates the disk. */
  lemma ManifestAndReceiptsAreHonest(ws: seq<World>, calls: seq<Call>, m: Manifest, k: nat)
    requires Run(ws, calls, m) && k < |ws|
    ensures Forward(ws[k].journal.state) && NamesRun(ws[k], m) ==> AllDone(ws[k].journal.phases) && AllNext(ws[k].fs, m)
    ensures forall r :: r in ws[k].receipts && r.kind.Promotion? ==> r.manifest == Some(m) && AllNext(r.fs, m)
    ensures forall r :: r in ws[k].receipts && r.kind.Restoration? ==> r.manifest == m.intent.baseline && AllOld(r.fs, m)
  {
    RunKeepsInvariant(ws, calls, m, k);
    assert forall r :: r in ws[k].receipts ==> ReceiptHonest(r, m);
    if Forward(ws[k].journal.state) && AllDone(ws[k].journal.phases) {
      DoneIsPromoted(ws[k], m);
    }
  }

  /** Once a rollback has been journaled, no apply or verify of the run changes the disk again. */
  lemma {:induction false} RollbackIsFinal(ws: seq<World>, calls: seq<Call>, m: Manifest, j: nat, k: nat)
    requires Run(ws, calls, m) && j <= k < |ws|
    requires !Forward(ws[j].journal.state)
    requires forall i :: j <= i < k ==> !calls[i].Undo?
    ensures ws[k] == ws[j]
    decreases k - j
  {
    if j < k {
      assert Related(ws[j], ws[j + 1], m, calls[j]);
      RollbackIsFinal(ws, calls, m, j + 1, k);
    }
  }
}
