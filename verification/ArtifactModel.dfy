/**
  The on-disk state of a whole-artifact transaction and the invariant that makes it resumable and undoable.

  An artifact run owns a list of directory trees. Each owned path has four places: the active directory, the
  baseline copy, the staged next tree and the quarantine. A journal records a phase for every owned path.
*/
module ArtifactModel {
  import opened Wrappers

  type Path = string

  /** Relative file name to content. Artifact hashes are injective, so trees are compared directly; empty means absent. */
  type Tree = map<string, string>

  /** `Unreadable` stands for what the bounded readback refuses: links, special files, empty directories, excess size. */
  datatype Node = Dir(files: Tree) | Unreadable

  datatype Place = Active | Backup | Stage | Quarantine
  datatype Loc = Loc(place: Place, path: Path)
  type FileSystem = map<Loc, Node>

  datatype Intent = Intent(baseline: Option<Manifest>, placements: seq<Path>, removals: seq<Path>, trees: map<Path, Tree>)
  datatype Manifest = Manifest(runId: string, intent: Intent)

  datatype Phase = Pending | OldIntent | OldMoved | NewIntent | Done
  datatype JournalState = Prepared | Applying | Promoted | Receipted | RollingBack | RolledBack
  datatype Journal = Journal(state: JournalState, fence: Option<nat>, phases: seq<Phase>)

  datatype ReceiptKind = Promotion | Restoration

  /** A success receipt, with what the disk held at the moment it was requested. */
  datatype Receipt = Receipt(kind: ReceiptKind, fs: FileSystem, manifest: Option<Manifest>)

  /** Everything that survives a crash. */
  datatype World = World(fs: FileSystem, manifest: Option<Manifest>, journal: Journal, receipts: seq<Receipt>)

  // ---------- Trees ----------

  function TreeOf(intent: Intent, p: Path): Tree {
    if p in intent.trees then intent.trees[p] else map[]
  }

  function Next(m: Manifest, p: Path): Tree { TreeOf(m.intent, p) }

  function Old(m: Manifest, p: Path): Tree {
    match m.intent.baseline
    case None => map[]
    case Some(b) => TreeOf(b.intent, p)
  }

  function Owned(m: Manifest): seq<Path> { m.intent.placements + m.intent.removals }

  predicate IsDiscovery(p: Path) { ".agents/skills/" <= p }

  /** The place holds exactly this tree, and nothing at all when the tree is empty. */
  predicate Holds(fs: FileSystem, place: Place, p: Path, t: Tree) {
    if t == map[] then Loc(place, p) !in fs else Loc(place, p) in fs && fs[Loc(place, p)] == Dir(t)
  }

  /** Facts the API and the intent validator guarantee about a run's immutable intent. */
  ghost predicate WellFormed(m: Manifest) {
    && (forall i, j :: 0 <= i < j < |Owned(m)| ==> Owned(m)[i] != Owned(m)[j])
    && (forall p :: p in m.intent.trees ==> p in m.intent.placements)
    && match m.intent.baseline
       case None => true
       case Some(b) =>
         && b.runId != m.runId
         && (forall p :: p in b.intent.trees ==> p in b.intent.placements)
         && (forall p :: p in b.intent.placements ==> p in Owned(m))
         && (forall p :: p in b.intent.removals ==> IsDiscovery(p) && p !in b.intent.placements)
  }

  /** Every placement holds its tree and every removal is gone. */
  ghost predicate AggregateHolds(fs: FileSystem, intent: Intent) {
    && (forall p :: p in intent.placements ==> Holds(fs, Active, p, TreeOf(intent, p)))
    && (forall p :: p in intent.removals ==> Holds(fs, Active, p, map[]))
  }

  ghost predicate AllNext(fs: FileSystem, m: Manifest) {
    forall p :: p in Owned(m) ==> Holds(fs, Active, p, Next(m, p))
  }

  ghost predicate AllOld(fs: FileSystem, m: Manifest) {
    forall p :: p in Owned(m) ==> Holds(fs, Active, p, Old(m, p))
  }

  // ---------- Conservation ----------

  ghost function Cell(fs: FileSystem, place: Place, p: Path, n: Node): nat {
    if Loc(place, p) in fs && fs[Loc(place, p)] == n then 1 else 0
  }

  /** How many of the four places of an owned path hold this tree. */
  ghost function Copies(fs: FileSystem, p: Path, n: Node): nat {
    Cell(fs, Active, p, n) + Cell(fs, Backup, p, n) + Cell(fs, Stage, p, n) + Cell(fs, Quarantine, p, n)
  }

  /** No owned path gains or loses a copy of any tree, readable or not. */
  ghost predicate Conserved(before: FileSystem, after: FileSystem) {
    forall p, n :: Copies(after, p, n) == Copies(before, p, n)
  }

  function Renamed(fs: FileSystem, from: Loc, to: Loc): FileSystem
    requires from in fs
  {
    (fs - {from})[to := fs[from]]
  }

  /** A rename onto a free name within one owned path loses and duplicates nothing. */
  lemma RenameConserves(fs: FileSystem, from: Loc, to: Loc)
    requires from in fs && to !in fs && from.path == to.path
    ensures Conserved(fs, Renamed(fs, from, to))
  {
    forall p, n ensures Copies(Renamed(fs, from, to), p, n) == Copies(fs, p, n) {
      RenameMovesOneCell(fs, from, to, Active, p, n);
      RenameMovesOneCell(fs, from, to, Backup, p, n);
      RenameMovesOneCell(fs, from, to, Stage, p, n);
      RenameMovesOneCell(fs, from, to, Quarantine, p, n);
      if p == from.path {
        assert from.place != to.place;
        match from.place {
          case Active => assert from == Loc(Active, p);
          case Backup => assert from == Loc(Backup, p);
          case Stage => assert from == Loc(Stage, p);
          case Quarantine => assert from == Loc(Quarantine, p);
        }
        match to.place {
          case Active => assert to == Loc(Active, p);
          case Backup => assert to == Loc(Backup, p);
          case Stage => assert to == Loc(Stage, p);
          case Quarantine => assert to == Loc(Quarantine, p);
        }
      }
    }
  }

  lemma RenameMovesOneCell(fs: FileSystem, from: Loc, to: Loc, place: Place, p: Path, n: Node)
    requires from in fs && to !in fs
    ensures Cell(Renamed(fs, from, to), place, p, n) ==
            if Loc(place, p) == to then Cell(fs, from.place, from.path, n)
            else if Loc(place, p) == from then 0
            else Cell(fs, place, p, n)
    ensures Loc(place, p) == to ==> Cell(fs, place, p, n) == 0
  {
    assert from == Loc(from.place, from.path);
  }

  // ---------- Positions of one owned path ----------

  ghost predicate Quad(fs: FileSystem, p: Path, active: Tree, backup: Tree, stage: Tree, quarantine: Tree) {
    && Holds(fs, Active, p, active)
    && Holds(fs, Backup, p, backup)
    && Holds(fs, Stage, p, stage)
    && Holds(fs, Quarantine, p, quarantine)
  }

  /** Untouched, or put back before anything was promoted. */
  ghost predicate AtStart(fs: FileSystem, m: Manifest, p: Path) { Quad(fs, p, Old(m, p), map[], Next(m, p), map[]) }

  /** The old tree is in the baseline copy. */
  ghost predicate OldAside(fs: FileSystem, m: Manifest, p: Path) { Quad(fs, p, map[], Old(m, p), Next(m, p), map[]) }

  /** The next tree is active. */
  ghost predicate Exposed(fs: FileSystem, m: Manifest, p: Path) { Quad(fs, p, Next(m, p), Old(m, p), map[], map[]) }

  /** Rollback has quarantined the next tree. */
  ghost predicate NextAside(fs: FileSystem, m: Manifest, p: Path) { Quad(fs, p, map[], Old(m, p), map[], Next(m, p)) }

  /** Rollback has put the old tree back. */
  ghost predicate PutBack(fs: FileSystem, m: Manifest, p: Path) { Quad(fs, p, Old(m, p), map[], map[], Next(m, p)) }

  ghost predicate PhaseFits(fs: FileSystem, m: Manifest, p: Path, phase: Phase) {
    match phase
    case Pending => AtStart(fs, m, p)
    case OldIntent => AtStart(fs, m, p) || OldAside(fs, m, p)
    case OldMoved => OldAside(fs, m, p)
    case NewIntent => OldAside(fs, m, p) || Exposed(fs, m, p)
    case Done => Exposed(fs, m, p)
  }

  ghost predicate Restored(fs: FileSystem, m: Manifest, p: Path) { AtStart(fs, m, p) || PutBack(fs, m, p) }

  ghost predicate Undoable(fs: FileSystem, m: Manifest, p: Path) {
    Restored(fs, m, p) || OldAside(fs, m, p) || Exposed(fs, m, p) || NextAside(fs, m, p)
  }

  /** No change at any location of another owned path. */
  ghost predicate OnlyPath(before: FileSystem, after: FileSystem, p: Path) {
    forall l: Loc :: l.path != p ==> (l in after <==> l in before) && (l in after ==> after[l] == before[l])
  }

  // ---------- The invariant ----------

  predicate Forward(s: JournalState) { s.Prepared? || s.Applying? || s.Promoted? || s.Receipted? }

  ghost predicate AllFit(fs: FileSystem, m: Manifest, phases: seq<Phase>) {
    |phases| == |Owned(m)| && forall i :: 0 <= i < |phases| ==> PhaseFits(fs, m, Owned(m)[i], phases[i])
  }

  ghost predicate AllUndoable(fs: FileSystem, m: Manifest) {
    forall i :: 0 <= i < |Owned(m)| ==> Undoable(fs, m, Owned(m)[i])
  }

  ghost predicate AllRestored(fs: FileSystem, m: Manifest) {
    forall i :: 0 <= i < |Owned(m)| ==> Restored(fs, m, Owned(m)[i])
  }

  predicate AllDone(phases: seq<Phase>) { forall i :: 0 <= i < |phases| ==> phases[i] == Done }

  /** Only owned names appear in this architecture's part of the discovery root. */
  ghost predicate NoStrangers(fs: FileSystem, m: Manifest) {
    forall p :: IsDiscovery(p) && p !in Owned(m) ==> Loc(Active, p) !in fs
  }

  /** Outside rollback, a manifest naming the run is only ever on disk once everything is promoted. */
  ghost predicate ManifestHonest(w: World, m: Manifest) {
    if w.manifest == Some(m) then AllDone(w.journal.phases) else w.manifest == m.intent.baseline
  }

  ghost predicate ReceiptHonest(r: Receipt, m: Manifest) {
    match r.kind
    case Promotion => r.manifest == Some(m) && AllNext(r.fs, m)
    case Restoration => r.manifest == m.intent.baseline && AllOld(r.fs, m)
  }

  ghost predicate Requested(w: World, kind: ReceiptKind) { exists r :: r in w.receipts && r.kind == kind }

  ghost predicate StateFits(w: World, m: Manifest) {
    match w.journal.state
    case Prepared => w.manifest == m.intent.baseline && forall i :: 0 <= i < |w.journal.phases| ==> w.journal.phases[i] == Pending
    case Applying => w.journal.fence.Some? && ManifestHonest(w, m)
    case Promoted => w.journal.fence.Some? && w.manifest == Some(m) && AllDone(w.journal.phases)
    case Receipted => w.manifest == Some(m) && AllDone(w.journal.phases)
    case RollingBack => w.journal.fence.Some? && (w.manifest == Some(m) || w.manifest == m.intent.baseline)
    case RolledBack => AllRestored(w.fs, m) && w.manifest == m.intent.baseline
  }

  /** What every crash point of apply, verify and rollback leaves behind. */
  ghost predicate Inv(w: World, m: Manifest) {
    && WellFormed(m)
    && |w.journal.phases| == |Owned(m)|
    && NoStrangers(w.fs, m)
    && StateFits(w, m)
    && (if Forward(w.journal.state) then AllFit(w.fs, m, w.journal.phases) else AllUndoable(w.fs, m))
    && (forall r :: r in w.receipts ==> ReceiptHonest(r, m))
    && (Requested(w, Restoration) ==>
          !Forward(w.journal.state) && AllRestored(w.fs, m) && w.manifest == m.intent.baseline)
  }

  /** The disk as staging leaves it, before approval. */
  ghost predicate PreparedWorld(w: World, m: Manifest) {
    && WellFormed(m)
    && w.journal == Journal(Prepared, None, seq(|Owned(m)|, i => Pending))
    && w.manifest == m.intent.baseline
    && w.receipts == []
    && NoStrangers(w.fs, m)
    && forall p :: p in Owned(m) ==> AtStart(w.fs, m, p)
  }
}
