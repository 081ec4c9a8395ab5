// The lock that serialises every reader and writer of an installation root, as a state machine whose
// steps are the single filesystem calls of any number of clients.
//
// A client is one call of `withInstallRootLock`, so it has one token and creates the lock directory at most
// once: the client names both the inode and the token. Several clients may share a process. Recursive removal
// is one step. A file is read in one step: the read takes its value at an instant between its `open` and its
// `read`, because the only change an owner file ever sees is becoming complete.
module RootLock {
  import opened Wrappers

  type Client = nat
  type Pid = nat

  // owner.json: who created it, and whether its JSON is complete.
  datatype OwnerFile = OwnerFile(author: Client, complete: bool)

  datatype LockDir = LockDir(creator: Client, owner: Option<OwnerFile>, claim: Option<Client>)

  datatype Pc =
    | Trying                                  // about to mkdir the lock
    | Created                                 // about to lstat the new directory
    | Stated(dir: Client)                     // about to create owner.json
    | Opened(dir: Client)                     // about to stat the open file
    | Identified(dir: Client)                 // about to write it
    | Closing(dir: Client)                    // about to close it
    | Working
    | ReleaseRead | ReleaseRemove
    | CleanCheck(dir: Client, made: bool)   // a failed acquisition looks at what it left
    | CleanOwner | CleanFile | CleanDir
    | ReadOwner | CheckAlive(target: Client) | Claiming(target: Client)
    | Reread(target: Client) | Recheck(target: Client) | Removing(target: Client) | Unclaiming(target: Client)
    | Waiting
    | Finished | Failed

  // `wrote` and `orphans` are history: the clients that completed an owner file, and the clients whose process
  // ended while their complete owner file was still at the path.
  datatype State = State(lock: Option<LockDir>, pcs: map<Client, Pc>, dead: set<Pid>, wrote: set<Client>, orphans: set<Client>) {
    function At(c: Client): Pc { if c in pcs then pcs[c] else Trying }
  }

  // `ok` is false when the call fails for a reason of its own, or the deadline has passed. `alive` is what the
  // process probe answers for a process that ended: its number may have been reused.
  datatype Action = Step(client: Client, ok: bool, alive: bool) | End(pid: Pid)

  function Initial(): State { State(None, map[], {}, {}, {}) }

  // What reading the owner file gives: no file, an unreadable one, or a complete one.
  datatype Reading = Missing | Garbled | Token(client: Client)

  function Read(lock: Option<LockDir>): Reading {
    if lock.None? || lock.value.owner.None? then Missing
    else if !lock.value.owner.value.complete then Garbled
    else Token(lock.value.owner.value.author)
  }

  function Goto(s: State, c: Client, pc: Pc): State { s.(pcs := s.pcs[c := pc]) }

  function WithOwner(s: State, owner: Option<OwnerFile>): State
    requires s.lock.Some?
  {
    s.(lock := Some(s.lock.value.(owner := owner)))
  }

  function WithClaim(s: State, claim: Option<Client>): State
    requires s.lock.Some?
  {
    s.(lock := Some(s.lock.value.(claim := claim)))
  }

  // Acquiring: mkdir, lstat, open, stat, write, close.
  function Acquire(s: State, c: Client, ok: bool): State
    requires s.At(c).Trying? || s.At(c).Created? || s.At(c).Stated? || s.At(c).Opened? || s.At(c).Identified? || s.At(c).Closing?
  {
    match s.At(c)
    case Trying =>
      if !ok then Goto(s, c, Failed)
      else if s.lock.Some? then Goto(s, c, ReadOwner)
      else Goto(s, c, Created).(lock := Some(LockDir(c, None, None)))
    case Created =>
      if !ok || s.lock.None? then Goto(s, c, Failed)
      else Goto(s, c, Stated(s.lock.value.creator))
    case Stated(dir) =>
      if !ok || s.lock.None? || s.lock.value.owner.Some? then Goto(s, c, CleanCheck(dir, false))
      else WithOwner(Goto(s, c, Opened(dir)), Some(OwnerFile(c, false)))
    case Opened(dir) => Goto(s, c, if ok then Identified(dir) else CleanCheck(dir, false))
    case Identified(dir) =>
      if !ok then Goto(s, c, CleanCheck(dir, true))
      else
        var s' := Goto(s, c, Closing(dir)).(wrote := s.wrote + {c});
        if s.lock.Some? && s.lock.value.owner == Some(OwnerFile(c, false)) then WithOwner(s', Some(OwnerFile(c, true)))
        else s'
    case Closing(dir) => Goto(s, c, if ok then Working else CleanCheck(dir, true))
  }

  // Leaving `work`, by return or by exception: read the owner, remove the directory if the token is one's own.
  function Release(s: State, c: Client, ok: bool): State
    requires s.At(c).Working? || s.At(c).ReleaseRead? || s.At(c).ReleaseRemove?
  {
    match s.At(c)
    case Working => Goto(s, c, ReleaseRead)
    case ReleaseRead =>
      if !ok || Read(s.lock).Garbled? then Goto(s, c, Failed)
      else Goto(s, c, if Read(s.lock) == Token(c) then ReleaseRemove else Finished)
    case ReleaseRemove =>
      if !ok || s.lock.None? then Goto(s, c, Failed)
      else Goto(s, c, Finished).(lock := None)
  }

  // A failed acquisition removes the file and the directory that are still its own. `rmdir` needs it empty.
  function CleanUp(s: State, c: Client, ok: bool): State
    requires s.At(c).CleanCheck? || s.At(c).CleanOwner? || s.At(c).CleanFile? || s.At(c).CleanDir?
  {
    match s.At(c)
    case CleanCheck(dir, made) =>
      if !ok || s.lock.None? || s.lock.value.creator != dir then Goto(s, c, Failed)
      else Goto(s, c, if made then CleanOwner else CleanDir)
    case CleanOwner =>
      if !ok || s.lock.None? || s.lock.value.owner.None? then Goto(s, c, Failed)
      else Goto(s, c, if s.lock.value.owner.value.author == c then CleanFile else CleanDir)
    case CleanFile =>
      if !ok || s.lock.None? || s.lock.value.owner.None? then Goto(s, c, Failed)
      else WithOwner(Goto(s, c, CleanDir), None)
    case CleanDir =>
      if !ok || s.lock.None? || s.lock.value.owner.Some? || s.lock.value.claim.Some? then Goto(s, c, Failed)
      else Goto(s, c, Failed).(lock := None)
  }

  // Whether the process probe reports the process of `o`.
  predicate Probe(host: Client -> Pid, s: State, o: Client, alive: bool) { host(o) !in s.dead || alive }

  // Reclaiming a dead owner's lock. The claim and both removals go by path.
  function Reclaim(host: Client -> Pid, s: State, c: Client, ok: bool, alive: bool): State
    requires s.At(c).ReadOwner? || s.At(c).CheckAlive? || s.At(c).Claiming? || s.At(c).Reread? || s.At(c).Recheck?
          || s.At(c).Removing? || s.At(c).Unclaiming?
  {
    if !ok then Goto(s, c, Failed)
    else match s.At(c)
      case ReadOwner =>
        (match Read(s.lock)
         case Missing => Goto(s, c, Waiting)
         case Garbled => Goto(s, c, Failed)
         case Token(o) => Goto(s, c, CheckAlive(o)))
      case CheckAlive(o) => Goto(s, c, if Probe(host, s, o, alive) then Waiting else Claiming(o))
      case Claiming(o) =>
        if s.lock.None? || s.lock.value.claim.Some? then Goto(s, c, Waiting)
        else WithClaim(Goto(s, c, Reread(o)), Some(c))
      case Reread(o) =>
        (match Read(s.lock)
         case Garbled => Goto(s, c, Failed)
         case Missing => Goto(s, c, Unclaiming(o))
         case Token(now) => Goto(s, c, if now == o then Recheck(o) else Unclaiming(o)))
      case Recheck(o) => Goto(s, c, if Probe(host, s, o, alive) then Unclaiming(o) else Removing(o))
      case Removing(o) =>
        if s.lock.None? then Goto(s, c, Failed)
        else Goto(s, c, Waiting).(lock := None)
      case Unclaiming(o) =>
        if s.lock.None? || s.lock.value.claim.None? then Goto(s, c, Failed)
        else WithClaim(Goto(s, c, Waiting), None)
  }

  function Advance(host: Client -> Pid, s: State, c: Client, ok: bool, alive: bool): State {
    match s.At(c)
    case Trying | Created | Stated(_) | Opened(_) | Identified(_) | Closing(_) => Acquire(s, c, ok)
    case Working | ReleaseRead | ReleaseRemove => Release(s, c, ok)
    case CleanCheck(_, _) | CleanOwner | CleanFile | CleanDir => CleanUp(s, c, ok)
    case ReadOwner | CheckAlive(_) | Claiming(_) | Reread(_) | Recheck(_) | Removing(_) | Unclaiming(_) =>
      Reclaim(host, s, c, ok, alive)
    case Waiting => Goto(s, c, if ok then Trying else Failed)
    case Finished | Failed => s
  }

  // A process ends, normally or not, at any moment.
  function Ending(host: Client -> Pid, s: State, p: Pid): State {
    var left := match Read(s.lock) case Token(o) => if host(o) == p then {o} else {} case _ => {};
    if p in s.dead then s else s.(dead := s.dead + {p}, orphans := s.orphans + left)
  }

  // Clients of a process that ended take no further step.
  function Next(host: Client -> Pid, s: State, a: Action): State {
    match a
    case Step(c, ok, alive) => if host(c) in s.dead then s else Advance(host, s, c, ok, alive)
    case End(p) => Ending(host, s, p)
  }

  function Execute(host: Client -> Pid, s: State, actions: seq<Action>): State
    decreases |actions|
  {
    if |actions| == 0 then s else Execute(host, Next(host, s, actions[0]), actions[1..])
  }

  // The processes that ended after completing an owner file.
  function Ended(host: Client -> Pid, s: State): set<Pid> {
    set c | c in s.wrote && host(c) in s.dead :: host(c)
  }

  predicate Inside(host: Client -> Pid, s: State, c: Client) { host(c) !in s.dead && s.At(c).Working? }

  ghost predicate Exclusive(host: Client -> Pid, s: State) {
    forall c, d :: Inside(host, s, c) && Inside(host, s, d) ==> c == d
  }

  // --- The invariant ---

  // A live client between its mkdir and its release has its own directory at the path.
  predicate Holding(pc: Pc) {
    pc.Created? || pc.Stated? || pc.Opened? || pc.Identified? || pc.Closing? || pc.Working? || pc.ReleaseRead?
    || pc.ReleaseRemove? || pc.CleanCheck? || pc.CleanOwner? || pc.CleanFile? || pc.CleanDir?
  }

  predicate OwnPath(lock: Option<LockDir>, c: Client, pc: Pc) {
    && lock.Some? && lock.value.creator == c
    && (lock.value.owner.Some? ==> lock.value.owner.value.author == c)
    && (pc.Created? || pc.Stated? ==> lock.value.owner.None?)
    && (pc.Opened? || pc.Identified? ==> lock.value.owner == Some(OwnerFile(c, false)))
    && (pc.Closing? || pc.Working? || pc.ReleaseRead? || pc.ReleaseRemove? ==> lock.value.owner == Some(OwnerFile(c, true)))
    && (pc.Stated? || pc.Opened? || pc.Identified? || pc.Closing? || pc.CleanCheck? ==> pc.dir == c)
  }

  predicate Claimant(pc: Pc) { pc.Reread? || pc.Recheck? || pc.Removing? || pc.Unclaiming? }

  // The path holds the lock of an owner whose process ended.
  predicate Orphaned(host: Client -> Pid, s: State) {
    Read(s.lock).Token? && host(Read(s.lock).client) in s.dead
  }

  predicate ClientOk(host: Client -> Pid, s: State, c: Client) {
    var pc := s.At(c);
    && (host(c) !in s.dead && Holding(pc) ==> OwnPath(s.lock, c, pc))
    && (pc.CheckAlive? ==> pc.target in s.wrote)
    && (pc.Claiming? || Claimant(pc) ==> pc.target in s.wrote && host(pc.target) in s.dead)
    && (pc.Recheck? || pc.Removing? ==> Read(s.lock) == Token(pc.target))
    && (Claimant(pc) && Orphaned(host, s) ==> s.lock.value.claim == Some(c))
  }

  ghost predicate Inv(host: Client -> Pid, s: State) {
    && (Read(s.lock).Token? ==> Read(s.lock).client in s.wrote)
    && (Orphaned(host, s) ==> Read(s.lock).client in s.orphans)
    && (forall c :: ClientOk(host, s, c))
  }

  // No owner ended while holding, or no two owners ended at all.
  predicate Bounded(host: Client -> Pid, s: State) { s.orphans == {} || |Ended(host, s)| <= 1 }

  lemma OnlyOneEnded(host: Client -> Pid, s: State, p: Pid, q: Pid)
    requires |Ended(host, s)| <= 1 && p in Ended(host, s) && q in Ended(host, s)
    ensures p == q
  {
    if p != q {
      assert {p, q} <= Ended(host, s);
      SmallerSet({p, q}, Ended(host, s));
    }
  }

  lemma {:induction false} SmallerSet<T>(a: set<T>, b: set<T>)
    requires a <= b
    ensures |a| <= |b|
  {
    assert b == a + (b - a);
  }

  // History only grows, so a run within a bound is within it throughout.
  lemma HistoryGrows(host: Client -> Pid, s: State, a: Action)
    ensures s.orphans <= Next(host, s, a).orphans
    ensures Ended(host, s) <= Ended(host, Next(host, s, a))
  {
  }

  lemma AcquireKeepsInv(host: Client -> Pid, s: State, c: Client, ok: bool)
    requires Inv(host, s) && host(c) !in s.dead
    requires var pc := s.At(c); pc.Trying? || pc.Created? || pc.Stated? || pc.Opened? || pc.Identified? || pc.Closing?
    ensures Inv(host, Acquire(s, c, ok))
  {
    var s' := Acquire(s, c, ok);
    assert ClientOk(host, s, c);
    forall d ensures ClientOk(host, s', d) {
      assert ClientOk(host, s, d);
    }
  }

  lemma ReleaseKeepsInv(host: Client -> Pid, s: State, c: Client, ok: bool)
    requires Inv(host, s) && host(c) !in s.dead
    requires s.At(c).Working? || s.At(c).ReleaseRead? || s.At(c).ReleaseRemove?
    ensures Inv(host, Release(s, c, ok))
  {
    var s' := Release(s, c, ok);
    assert ClientOk(host, s, c);
    forall d ensures ClientOk(host, s', d) {
      assert ClientOk(host, s, d);
    }
  }

  lemma CleanUpKeepsInv(host: Client -> Pid, s: State, c: Client, ok: bool)
    requires Inv(host, s) && host(c) !in s.dead
    requires s.At(c).CleanCheck? || s.At(c).CleanOwner? || s.At(c).CleanFile? || s.At(c).CleanDir?
    ensures Inv(host, CleanUp(s, c, ok))
  {
    var s' := CleanUp(s, c, ok);
    assert ClientOk(host, s, c);
    forall d ensures ClientOk(host, s', d) {
      assert ClientOk(host, s, d);
    }
  }

  // A step that only moves its client.
  lemma MoveKeepsInv(host: Client -> Pid, s: State, c: Client, pc: Pc)
    requires Inv(host, s) && ClientOk(host, Goto(s, c, pc), c)
    ensures Inv(host, Goto(s, c, pc))
  {
    forall d ensures ClientOk(host, Goto(s, c, pc), d) {
      assert ClientOk(host, s, d);
    }
  }

  // A reaper's step that changes the directory: taking the claim, removing everything, dropping the claim.
  lemma ReapKeepsInv(host: Client -> Pid, s: State, c: Client)
    requires Inv(host, s) && host(c) !in s.dead && s.lock.Some?
    requires s.At(c).Claiming? || s.At(c).Removing? || s.At(c).Unclaiming?
    requires s.At(c).Claiming? ==> s.lock.value.claim.None?
    requires s.At(c).Unclaiming? ==> s.lock.value.claim.Some?
    ensures Inv(host, Reclaim(host, s, c, true, false))
  {
    var s' := Reclaim(host, s, c, true, false);
    assert ClientOk(host, s, c);
    forall d ensures ClientOk(host, s', d) {
      assert ClientOk(host, s, d);
    }
  }

  lemma ReclaimKeepsInv(host: Client -> Pid, s: State, c: Client, ok: bool, alive: bool)
    requires Inv(host, s) && host(c) !in s.dead
    requires var pc := s.At(c); pc.ReadOwner? || pc.CheckAlive? || pc.Claiming? || Claimant(pc)
    ensures Inv(host, Reclaim(host, s, c, ok, alive))
  {
    var s' := Reclaim(host, s, c, ok, alive);
    if s' == Goto(s, c, s'.At(c)) {
      assert ClientOk(host, s, c);
      MoveKeepsInv(host, s, c, s'.At(c));
    } else {
      ReapKeepsInv(host, s, c);
    }
  }

  lemma AdvanceKeepsInv(host: Client -> Pid, s: State, c: Client, ok: bool, alive: bool)
    requires Inv(host, s) && host(c) !in s.dead
    ensures Inv(host, Advance(host, s, c, ok, alive))
  {
    match s.At(c)
    case Trying | Created | Stated(_) | Opened(_) | Identified(_) | Closing(_) => AcquireKeepsInv(host, s, c, ok);
    case Working | ReleaseRead | ReleaseRemove => ReleaseKeepsInv(host, s, c, ok);
    case CleanCheck(_, _) | CleanOwner | CleanFile | CleanDir => CleanUpKeepsInv(host, s, c, ok);
    case ReadOwner | CheckAlive(_) | Claiming(_) | Reread(_) | Recheck(_) | Removing(_) | Unclaiming(_) =>
      ReclaimKeepsInv(host, s, c, ok, alive);
    case Waiting => MoveKeepsInv(host, s, c, if ok then Trying else Failed);
    case Finished | Failed =>
  }

  lemma EndingKeepsInv(host: Client -> Pid, s: State, p: Pid)
    requires Inv(host, s) && Bounded(host, Ending(host, s, p))
    ensures Inv(host, Ending(host, s, p))
  {
    var s' := Ending(host, s, p);
    forall d ensures ClientOk(host, s', d) {
      assert ClientOk(host, s, d);
      if p !in s.dead && Claimant(s.At(d)) && Orphaned(host, s') && !Orphaned(host, s) {
        var o := Read(s.lock).client;
        assert o in s'.orphans && host(o) == p;
        assert host(o) in Ended(host, s') && host(s.At(d).target) in Ended(host, s');
        OnlyOneEnded(host, s', host(o), host(s.At(d).target));
      }
    }
  }

  lemma NextKeepsInv(host: Client -> Pid, s: State, a: Action)
    requires Inv(host, s) && Bounded(host, Next(host, s, a))
    ensures Inv(host, Next(host, s, a))
  {
    match a
    case Step(c, ok, alive) =>
      if host(c) !in s.dead { AdvanceKeepsInv(host, s, c, ok, alive); }
    case End(p) => EndingKeepsInv(host, s, p);
  }

  lemma {:induction false} RunKeepsInv(host: Client -> Pid, s: State, run: seq<Action>)
    requires Inv(host, s) && Bounded(host, Execute(host, s, run))
    ensures Inv(host, Execute(host, s, run))
    decreases |run|
  {
    if |run| > 0 {
      RunGrowsHistory(host, Next(host, s, run[0]), run[1..]);
      NextKeepsInv(host, s, run[0]);
      RunKeepsInv(host, Next(host, s, run[0]), run[1..]);
    }
  }

  // A run whose last state is within the bound was within it at every state.
  lemma {:induction false} RunGrowsHistory(host: Client -> Pid, s: State, run: seq<Action>)
    ensures s.orphans <= Execute(host, s, run).orphans
    ensures Ended(host, s) <= Ended(host, Execute(host, s, run))
    ensures Bounded(host, Execute(host, s, run)) ==> Bounded(host, s)
    decreases |run|
  {
    if |run| > 0 {
      HistoryGrows(host, s, run[0]);
      RunGrowsHistory(host, Next(host, s, run[0]), run[1..]);
    }
    SmallerSet(Ended(host, s), Ended(host, Execute(host, s, run)));
  }

  // In a bounded run at most one live client works, and the directory at the path is its own.
  lemma WorkIsExclusive(host: Client -> Pid, run: seq<Action>)
    requires Bounded(host, Execute(host, Initial(), run))
    ensures var s := Execute(host, Initial(), run);
            && Exclusive(host, s)
            && forall c :: Inside(host, s, c) ==> s.lock.Some? && s.lock.value.creator == c && Read(s.lock) == Token(c)
  {
    RunKeepsInv(host, Initial(), run);
    var s := Execute(host, Initial(), run);
    forall c | Inside(host, s, c)
      ensures s.lock.Some? && s.lock.value.creator == c && Read(s.lock) == Token(c)
    {
      assert ClientOk(host, s, c);
    }
  }

  // A reaper that ended between its claim and its removal leaves the lock ambiguous: nobody takes it any more.
  lemma {:induction false} AmbiguousLockStays(host: Client -> Pid, s: State, run: seq<Action>)
    requires Inv(host, s) && Bounded(host, Execute(host, s, run))
    requires Orphaned(host, s) && s.lock.value.claim.Some? && host(s.lock.value.claim.value) in s.dead
    ensures Execute(host, s, run).lock == s.lock
    ensures forall c :: !Inside(host, Execute(host, s, run), c)
    decreases |run|
  {
    if |run| > 0 {
      var next := Next(host, s, run[0]);
      RunGrowsHistory(host, next, run[1..]);
      NextKeepsInv(host, s, run[0]);
      if run[0].Step? { assert ClientOk(host, s, run[0].client); }
      AmbiguousLockStays(host, next, run[1..]);
    } else {
      forall c ensures !Inside(host, s, c) { assert ClientOk(host, s, c); }
    }
  }

  // --- The bound is exact ---

  ghost predicate SafeWithin(orphans: nat, ended: nat) {
    forall host: Client -> Pid, run: seq<Action> ::
      var s := Execute(host, Initial(), run);
      |s.orphans| <= orphans && |Ended(host, s)| <= ended ==> Exclusive(host, s)
  }

  function Repeat(host: Client -> Pid, s: State, c: Client, n: nat): State
    decreases n
  {
    if n == 0 then s else Repeat(host, Next(host, s, Step(c, true, false)), c, n - 1)
  }

  lemma {:induction false} RepeatIsRun(host: Client -> Pid, s: State, c: Client, n: nat) returns (run: seq<Action>)
    ensures Execute(host, s, run) == Repeat(host, s, c, n)
    decreases n
  {
    if n == 0 { return []; }
    var rest := RepeatIsRun(host, Next(host, s, Step(c, true, false)), c, n - 1);
    run := [Step(c, true, false)] + rest;
    assert run[1..] == rest;
  }

  lemma {:induction false} RunsConcatenate(host: Client -> Pid, s: State, one: seq<Action>, two: seq<Action>)
    ensures Execute(host, s, one + two) == Execute(host, Execute(host, s, one), two)
    decreases |one|
  {
    if |one| == 0 {
      assert one + two == two;
    } else {
      assert (one + two)[1..] == one[1..] + two;
      RunsConcatenate(host, Next(host, s, one[0]), one[1..], two);
    }
  }

  ghost predicate Reachable(host: Client -> Pid, s: State) {
    exists run :: Execute(host, Initial(), run) == s
  }

  lemma Reach(host: Client -> Pid, s: State, c: Client, n: nat)
    requires Reachable(host, s)
    ensures Reachable(host, Repeat(host, s, c, n))
  {
    var run :| Execute(host, Initial(), run) == s;
    var rest := RepeatIsRun(host, s, c, n);
    RunsConcatenate(host, Initial(), run, rest);
  }

  lemma ReachNext(host: Client -> Pid, s: State, a: Action)
    requires Reachable(host, s)
    ensures Reachable(host, Next(host, s, a))
  {
    var run :| Execute(host, Initial(), run) == s;
    RunsConcatenate(host, Initial(), run, [a]);
    assert Execute(host, Next(host, s, a), [a][1..]) == Next(host, s, a);
  }

  lemma Acquiring(host: Client -> Pid, s: State, c: Client)
    requires s.lock.None? && s.At(c).Trying? && host(c) !in s.dead
    ensures Repeat(host, s, c, 6)
         == Goto(s, c, Working).(lock := Some(LockDir(c, Some(OwnerFile(c, true)), None)), wrote := s.wrote + {c})
  {
    MakesDirectory(host, s, c);
    RepeatAdds(host, s, c, 2, 2);
    RepeatAdds(host, s, c, 4, 2);
    hide Next;
    var s2 := Goto(s, c, Stated(c)).(lock := Some(LockDir(c, None, None)));
    MakesOwner(host, s2, c);
    var s4 := Goto(s2, c, Identified(c)).(lock := Some(LockDir(c, Some(OwnerFile(c, false)), None)));
    WritesOwner(host, s4, c);
    assert s.pcs[c := Stated(c)][c := Identified(c)][c := Working] == s.pcs[c := Working];
  }

  lemma MakesDirectory(host: Client -> Pid, s: State, c: Client)
    requires s.lock.None? && s.At(c).Trying? && host(c) !in s.dead
    ensures Repeat(host, s, c, 2) == Goto(s, c, Stated(c)).(lock := Some(LockDir(c, None, None)))
  {
  }

  lemma MakesOwner(host: Client -> Pid, s: State, c: Client)
    requires s.lock == Some(LockDir(c, None, None)) && s.At(c) == Stated(c) && host(c) !in s.dead
    ensures Repeat(host, s, c, 2) == Goto(s, c, Identified(c)).(lock := Some(LockDir(c, Some(OwnerFile(c, false)), None)))
  {
  }

  lemma WritesOwner(host: Client -> Pid, s: State, c: Client)
    requires s.lock == Some(LockDir(c, Some(OwnerFile(c, false)), None)) && s.At(c) == Identified(c) && host(c) !in s.dead
    ensures Repeat(host, s, c, 2)
         == Goto(s, c, Working).(lock := Some(LockDir(c, Some(OwnerFile(c, true)), None)), wrote := s.wrote + {c})
  {
  }

  lemma {:induction false} RepeatAdds(host: Client -> Pid, s: State, c: Client, m: nat, n: nat)
    ensures Repeat(host, Repeat(host, s, c, m), c, n) == Repeat(host, s, c, m + n)
    decreases m
  {
    hide Next;
    if m > 0 { RepeatAdds(host, Next(host, s, Step(c, true, false)), c, m - 1, n); }
  }

  lemma Releasing(host: Client -> Pid, s: State, c: Client)
    requires Read(s.lock) == Token(c) && s.At(c).Working? && host(c) !in s.dead
    ensures Repeat(host, s, c, 3) == Goto(s, c, Finished).(lock := None)
  {
    RepeatAdds(host, s, c, 2, 1);
    assert Repeat(host, s, c, 2) == Goto(s, c, ReleaseRemove);
  }

  // A client that meets the lock of a dead owner claims it.
  lemma Claims(host: Client -> Pid, s: State, c: Client, o: Client)
    requires Read(s.lock) == Token(o) && host(o) in s.dead && s.lock.value.claim.None?
    requires s.At(c).Trying? && host(c) !in s.dead
    ensures Repeat(host, s, c, 4) == WithClaim(Goto(s, c, Reread(o)), Some(c))
  {
    RepeatAdds(host, s, c, 2, 2);
    assert Repeat(host, s, c, 2) == Goto(s, c, CheckAlive(o));
  }

  // A claimant that finds the same dead owner again is about to remove the lock.
  lemma Confirms(host: Client -> Pid, s: State, c: Client, o: Client)
    requires s.At(c) == Reread(o) && Read(s.lock) == Token(o) && host(o) in s.dead && host(c) !in s.dead
    ensures Repeat(host, s, c, 2) == Goto(s, c, Removing(o))
  {
  }

  function Itself(c: Client): Pid { c }

  lemma Exit(s: State, p: Pid) returns (s': State)
    requires Reachable(Itself, s)
    ensures Reachable(Itself, s') && s' == Ending(Itself, s, p)
  {
    ReachNext(Itself, s, End(p));
    s' := Ending(Itself, s, p);
  }

  // One step of a reaper.
  lemma Goes(s: State, c: Client) returns (s': State)
    requires Reachable(Itself, s) && c !in s.dead
    requires var pc := s.At(c); pc.ReadOwner? || pc.CheckAlive? || pc.Claiming? || Claimant(pc)
    ensures Reachable(Itself, s') && s' == Reclaim(Itself, s, c, true, false)
  {
    ReachNext(Itself, s, Step(c, true, false));
    s' := Reclaim(Itself, s, c, true, false);
  }

  // A client finds the lock taken and reads its owner.
  lemma Looks(s: State, c: Client, o: Client) returns (s': State)
    requires Reachable(Itself, s) && Read(s.lock) == Token(o) && s.At(c).Trying? && c !in s.dead
    ensures Reachable(Itself, s') && s' == s.(pcs := s.pcs[c := CheckAlive(o)])
  {
    ReachNext(Itself, s, Step(c, true, false));
    s' := Goes(Goto(s, c, ReadOwner), c);
  }

  lemma Enter(s: State, c: Client) returns (s': State)
    requires Reachable(Itself, s) && s.lock.None? && s.At(c).Trying? && c !in s.dead
    ensures Reachable(Itself, s')
    ensures s' == State(Some(LockDir(c, Some(OwnerFile(c, true)), None)), s.pcs[c := Working], s.dead, s.wrote + {c}, s.orphans)
  {
    Acquiring(Itself, s, c);
    Reach(Itself, s, c, 6);
    s' := Repeat(Itself, s, c, 6);
  }

  lemma Leave(s: State, c: Client) returns (s': State)
    requires Reachable(Itself, s) && Read(s.lock) == Token(c) && s.At(c).Working? && c !in s.dead
    ensures Reachable(Itself, s') && s' == State(None, s.pcs[c := Finished], s.dead, s.wrote, s.orphans)
  {
    Releasing(Itself, s, c);
    Reach(Itself, s, c, 3);
    s' := Repeat(Itself, s, c, 3);
  }

  lemma Reap(s: State, c: Client, o: Client) returns (s': State)
    requires Reachable(Itself, s) && Read(s.lock) == Token(o) && o in s.dead && s.lock.value.claim.None?
    requires s.At(c).Trying? && c !in s.dead
    ensures Reachable(Itself, s')
    ensures s' == State(Some(s.lock.value.(claim := Some(c))), s.pcs[c := Removing(o)], s.dead, s.wrote, s.orphans)
  {
    Claims(Itself, s, c, o);
    Reach(Itself, s, c, 4);
    var claimed := Repeat(Itself, s, c, 4);
    Confirms(Itself, claimed, c, o);
    Reach(Itself, claimed, c, 2);
    s' := Repeat(Itself, claimed, c, 2);
    assert claimed.pcs[c := Removing(o)] == s.pcs[c := Removing(o)];
  }

  // Client 1 reads the owner 0, which then releases and ends.
  lemma StaleTarget() returns (s: State)
    ensures Reachable(Itself, s)
    ensures s == State(None, map[0 := Finished, 1 := Claiming(0)], {0}, {0}, {})
  {
    assert Execute(Itself, Initial(), []) == Initial();
    hide Execute, Reachable, Reclaim, Ending;
    s := Enter(Initial(), 0);
    s := Looks(s, 1, 0);
    s := Leave(s, 0);
    s := ExitsFree(s, 0);
    s := Probes(s, 1, 0);
    assert s.pcs == map[0 := Finished, 1 := Claiming(0)];
  }

  // A process ends without a lock at the path.
  lemma ExitsFree(s: State, p: Pid) returns (s': State)
    requires Reachable(Itself, s) && s.lock.None? && p !in s.dead
    ensures Reachable(Itself, s') && s' == s.(dead := s.dead + {p})
  {
    s' := Exit(s, p);
  }

  // A reaper finds that the process of the owner it read has ended.
  lemma Probes(s: State, c: Client, o: Client) returns (s': State)
    requires Reachable(Itself, s) && s.At(c) == CheckAlive(o) && o in s.dead && c !in s.dead
    ensures Reachable(Itself, s') && s' == s.(pcs := s.pcs[c := Claiming(o)])
  {
    s' := Goes(s, c);
  }

  // Client 2 takes the lock, 1 claims in it, 2 releases.
  lemma StaleReaper() returns (s: State)
    ensures Reachable(Itself, s)
    ensures s == State(None, map[0 := Finished, 1 := Reread(0), 2 := Finished], {0}, {0, 2}, {})
  {
    s := StaleTarget();
    s := Enter(s, 2);
    s := Goes(s, 1);
    s := Leave(s, 2);
  }

  // Owner 3 ends while holding, and 1 notices that its token is not the one it read.
  lemma StaleClaim() returns (s: State)
    ensures Reachable(Itself, s)
    ensures s == State(Some(LockDir(3, Some(OwnerFile(3, true)), None)),
                       map[0 := Finished, 1 := Unclaiming(0), 2 := Finished, 3 := Working], {0, 3}, {0, 2, 3}, {3})
  {
    s := StaleReaper();
    s := Enter(s, 3);
    s := Exit(s, 3);
    s := Goes(s, 1);
  }

  // 4 claims the lock of 3 and confirms it; 1 drops that claim by path; 5 claims and confirms.
  lemma TwoReapers() returns (s: State)
    ensures Reachable(Itself, s) && s.lock.Some? && s.dead == {0, 3} && s.orphans == {3} && s.wrote == {0, 2, 3}
    ensures s.At(4) == Removing(3) && s.At(5) == Removing(3) && s.At(6).Trying? && s.At(7).Trying?
  {
    s := StaleClaim();
    s := Reap(s, 4, 3);
    s := Goes(s, 1);
    s := Reap(s, 5, 3);
  }

  // 4 removes the dead lock, 6 takes the path, 5 removes the lock of 6, 7 takes the path: 6 and 7 both work.
  lemma TwoWorkers() returns (s: State)
    ensures Reachable(Itself, s) && s.orphans == {3} && Ended(Itself, s) == {0, 3}
    ensures Inside(Itself, s, 6) && Inside(Itself, s, 7)
  {
    s := TwoReapers();
    s := Goes(s, 4);
    s := Enter(s, 6);
    s := Goes(s, 5);
    s := Enter(s, 7);
  }

  // Every run in which at most `orphans` owners end while holding and at most `ended` owners' processes end is
  // exclusive exactly when no owner ends while holding, or at most one owner's process ends at all.
  lemma ExclusiveExactly(orphans: nat, ended: nat)
    ensures SafeWithin(orphans, ended) <==> orphans == 0 || ended <= 1
  {
    if orphans == 0 || ended <= 1 {
      forall host: Client -> Pid, run: seq<Action> | var s := Execute(host, Initial(), run);
          |s.orphans| <= orphans && |Ended(host, s)| <= ended
        ensures Exclusive(host, Execute(host, Initial(), run))
      {
        WorkIsExclusive(host, run);
      }
    } else {
      var s := TwoWorkers();
      assert |s.orphans| == 1 && |Ended(Itself, s)| == 2;
      assert !Exclusive(Itself, s);
    }
  }

  // --- What is spared, and what is not ---

  // Calls of one client, one after the other, with their outcomes and probe answers.
  function Alone(host: Client -> Pid, s: State, c: Client, calls: seq<(bool, bool)>): State
    decreases |calls|
  {
    if |calls| == 0 then s else Alone(host, Next(host, s, Step(c, calls[0].0, calls[0].1)), c, calls[1..])
  }

  // A client about to release or clean up finds another's token, directory or owner file, or anything else it did not make.
  predicate Foreign(s: State, c: Client) {
    match s.At(c)
    case Working | ReleaseRead => Read(s.lock) != Token(c)
    case CleanCheck(dir, _) => s.lock.None? || s.lock.value.creator != dir
    case CleanOwner => s.lock.None? || (s.lock.value.owner.Some? && s.lock.value.owner.value.author != c)
    case CleanDir => s.lock.None? || s.lock.value.owner.Some? || s.lock.value.claim.Some?
    case Finished | Failed => true
    case _ => false
  }

  // It then changes nothing at the path, whatever its calls return.
  lemma {:induction false} ForeignIsSpared(host: Client -> Pid, s: State, c: Client, calls: seq<(bool, bool)>)
    requires Foreign(s, c)
    ensures Alone(host, s, c, calls).lock == s.lock
    decreases |calls|
  {
    if |calls| > 0 {
      var next := Next(host, s, Step(c, calls[0].0, calls[0].1));
      assert next.lock == s.lock && Foreign(next, c);
      ForeignIsSpared(host, next, c, calls[1..]);
    }
  }

  // A lock whose process number answers is never taken, even when the process is not its owner: no client that is not
  // yet removing one comes to remove one.
  lemma {:induction false} AnsweringNumberIsSpared(host: Client -> Pid, s: State, run: seq<Action>)
    requires forall c :: !s.At(c).Removing?
    requires forall i :: 0 <= i < |run| && run[i].Step? ==> run[i].alive
    ensures forall c :: !Execute(host, s, run).At(c).Removing?
    decreases |run|
  {
    if |run| > 0 {
      var next := Next(host, s, run[0]);
      forall c ensures !next.At(c).Removing? { assert !s.At(c).Removing?; }
      AnsweringNumberIsSpared(host, next, run[1..]);
    }
  }

  // An orphaned lock that nobody claimed is removed by the next client, which then works under its own.
  lemma DeadLockIsReclaimed(host: Client -> Pid, s: State, c: Client, o: Client)
    requires Read(s.lock) == Token(o) && host(o) in s.dead && s.lock.value.claim.None?
    requires s.At(c).Trying? && host(c) !in s.dead
    ensures var s' := Repeat(host, s, c, 14);
            s'.At(c).Working? && s'.lock == Some(LockDir(c, Some(OwnerFile(c, true)), None)) && s'.dead == s.dead
  {
    Claims(host, s, c, o);
    RepeatAdds(host, s, c, 4, 2);
    RepeatAdds(host, s, c, 6, 2);
    RepeatAdds(host, s, c, 8, 6);
    hide Next;
    var claimed := WithClaim(Goto(s, c, Reread(o)), Some(c));
    Confirms(host, claimed, c, o);
    var confirmed := Goto(claimed, c, Removing(o));
    Removes(host, confirmed, c, o);
    Acquiring(host, Goto(confirmed, c, Trying).(lock := None), c);
  }

  lemma Removes(host: Client -> Pid, s: State, c: Client, o: Client)
    requires s.At(c) == Removing(o) && s.lock.Some? && host(c) !in s.dead
    ensures Repeat(host, s, c, 2) == Goto(s, c, Trying).(lock := None)
  {
    assert s.pcs[c := Waiting][c := Trying] == s.pcs[c := Trying];
  }

  // A reaper that claimed and then finds another token, or none, drops its claim and leaves the owner as it is.
  lemma ChangedLockIsUnclaimed(host: Client -> Pid, s: State, c: Client, o: Client)
    requires s.At(c) == Reread(o) && s.lock.Some? && s.lock.value.claim == Some(c) && host(c) !in s.dead
    requires Read(s.lock) != Token(o) && !Read(s.lock).Garbled?
    ensures Repeat(host, s, c, 2) == Goto(s, c, Waiting).(lock := Some(s.lock.value.(claim := None)))
  {
    assert s.pcs[c := Unclaiming(o)][c := Waiting] == s.pcs[c := Waiting];
  }

  // So does one whose second probe is answered.
  lemma AnsweredProbeUnclaims(host: Client -> Pid, s: State, c: Client, o: Client)
    requires s.At(c) == Recheck(o) && s.lock.Some? && s.lock.value.claim == Some(c) && host(c) !in s.dead
    ensures Alone(host, s, c, [(true, true), (true, true)])
         == Goto(s, c, Waiting).(lock := Some(s.lock.value.(claim := None)))
  {
    var calls := [(true, true), (true, true)];
    assert calls[1..] == [(true, true)] && calls[1..][1..] == [];
    assert s.pcs[c := Unclaiming(o)][c := Waiting] == s.pcs[c := Waiting];
  }

  // A failed acquisition removes what it made itself.
  lemma FailureCleansUp(host: Client -> Pid, s: State, c: Client, made: bool)
    requires s.At(c) == CleanCheck(c, made) && host(c) !in s.dead
    requires s.lock.Some? && s.lock.value.creator == c && s.lock.value.claim.None?
    requires if made then s.lock.value.owner.Some? && s.lock.value.owner.value.author == c else s.lock.value.owner.None?
    ensures Repeat(host, s, c, 4) == Goto(s, c, Failed).(lock := None)
  {
    RepeatAdds(host, s, c, 2, 2);
    if made {
      ChecksOwnFile(host, s, c);
      RemovesOwnFile(host, Goto(s, c, CleanFile), c);
      hide Next;
      assert s.pcs[c := CleanFile][c := Failed] == s.pcs[c := Failed];
    } else {
      RemovesOwnDirectory(host, s, c);
      var done := Goto(s, c, Failed).(lock := None);
      StaysFailed(host, done, c);
      hide Next;
    }
  }

  lemma ChecksOwnFile(host: Client -> Pid, s: State, c: Client)
    requires s.At(c) == CleanCheck(c, true) && host(c) !in s.dead
    requires s.lock.Some? && s.lock.value.creator == c && s.lock.value.owner.Some? && s.lock.value.owner.value.author == c
    ensures Repeat(host, s, c, 2) == Goto(s, c, CleanFile)
  {
    assert s.pcs[c := CleanOwner][c := CleanFile] == s.pcs[c := CleanFile];
  }

  lemma RemovesOwnFile(host: Client -> Pid, s: State, c: Client)
    requires s.At(c) == CleanFile && host(c) !in s.dead && s.lock.Some? && s.lock.value.owner.Some? && s.lock.value.claim.None?
    ensures Repeat(host, s, c, 2) == Goto(s, c, Failed).(lock := None)
  {
    assert s.pcs[c := CleanDir][c := Failed] == s.pcs[c := Failed];
  }

  lemma RemovesOwnDirectory(host: Client -> Pid, s: State, c: Client)
    requires s.At(c) == CleanCheck(c, false) && host(c) !in s.dead
    requires s.lock.Some? && s.lock.value.creator == c && s.lock.value.owner.None? && s.lock.value.claim.None?
    ensures Repeat(host, s, c, 2) == Goto(s, c, Failed).(lock := None)
  {
    assert s.pcs[c := CleanDir][c := Failed] == s.pcs[c := Failed];
  }

  lemma StaysFailed(host: Client -> Pid, s: State, c: Client)
    requires s.At(c).Failed?
    ensures Repeat(host, s, c, 2) == s
  {
  }
}
