// Browser device login: a pending request is kept in a store while the CLI polls for the decision, so that a new
// process can resume it.
module DeviceLogin {
  import opened Wrappers

  // Milliseconds.
  type Duration = d: real | 0.0 <= d

  datatype Pending = Pending(
    deviceCode: string, scopes: Option<seq<string>>, expiresAt: real, deadline: real, interval: int, nextPollAt: real)

  datatype StartReply = StartReply(deviceCode: string, expiresAt: real, expiresIn: real, interval: int)

  datatype PollReply =
    | Undecided(interval: int)                            // pending or slow_down
    | Authorized(wellFormed: bool, tokenSaved: bool, configSaved: bool)
    | Denied | ExpiredCode | InvalidCode | Unknown
    | HttpError | Malformed | Lost

  datatype LoginError =
    | Interrupted | Expired | InvalidResponse | InvalidState | ScopesMismatch | PendingExists | RequestFailed
    | LoginDenied | LoginInvalid | TokenSaveFailed | ConfigSaveFailed | CleanupFailed

  // What the world answers during one run of the command. Each reading of the clock moves it on by some time, each
  // sleep lasts at least as long as asked. The process ends, or a call fails, after `steps` effects.
  datatype Inputs = Inputs(
    resume: bool, scopes: Option<seq<string>>, steps: nat, elapse: nat -> Duration, oversleep: nat -> Duration,
    start: Option<StartReply>, poll: nat -> PollReply)

  datatype Schedule = Schedule(at: real, interval: int)

  // The history of one device code: when it was requested, its deadline, the instants at which polls were scheduled
  // with the interval then in force, and the instants at which polls were sent.
  datatype Trace = Trace(startedAt: real, deadline: real, schedules: seq<Schedule>, sends: seq<real>)

  const MinInterval := 5
  const MaxInterval := 60
  const Lifetime := 600_000.0

  predicate IntervalOk(interval: int) { MinInterval <= interval <= MaxInterval }

  function Wait(interval: int): real { interval as real * 1000.0 }

  function Min(a: real, b: real): real { if a <= b then a else b }
  function Max(a: real, b: real): real { if a <= b then b else a }

  // The last instant at which a poll was scheduled, or the start.
  function Last(t: Trace): real { if t.schedules == [] then t.startedAt else t.schedules[|t.schedules| - 1].at }

  function Before(t: Trace, k: nat): real
    requires k < |t.schedules|
  {
    if k == 0 then t.startedAt else t.schedules[k - 1].at
  }

  // Polls are scheduled at least the interval apart.
  ghost predicate Spaced(t: Trace) {
    forall k :: 0 <= k < |t.schedules| ==>
      IntervalOk(t.schedules[k].interval) && t.schedules[k].at >= Before(t, k) + Wait(t.schedules[k].interval)
  }

  // No poll is sent without a schedule, none at the deadline or later.
  ghost predicate Sound(t: Trace) {
    && Spaced(t) && t.deadline <= t.startedAt + Lifetime
    && (forall k :: 0 <= k < |t.sends| ==> t.sends[k] < t.deadline)
    && |t.sends| <= |t.schedules|
    && (t.schedules != [] ==> t.startedAt + 5000.0 * |t.schedules| as real < t.deadline)
  }

  // A pending record promises the wait that its history still owes.
  ghost predicate Owes(p: Pending, t: Trace) {
    && IntervalOk(p.interval) && p.deadline <= p.expiresAt && p.deadline == t.deadline
    && p.nextPollAt >= Last(t) + Wait(p.interval)
  }

  // `t'` is the same request's history, later.
  predicate Extends(t: Trace, t': Trace) {
    t.startedAt == t'.startedAt && t.deadline == t'.deadline && t.schedules <= t'.schedules && t.sends <= t'.sends
  }

  // The history after a run: the same request's, or that of a request made after all its schedules.
  predicate Follows(t: Trace, t': Trace) { Extends(t, t') || t'.startedAt >= Last(t) }

  lemma {:induction false} LastIsLate(t: Trace, n: nat)
    requires n < |t.schedules| && Spaced(t)
    ensures t.schedules[n].at >= t.startedAt + 5000.0 * (n + 1) as real
    decreases n
  {
    if n > 0 { LastIsLate(t, n - 1); }
  }

  lemma SpacedGrows(t: Trace, s: Schedule)
    requires Spaced(t) && IntervalOk(s.interval) && s.at >= Last(t) + Wait(s.interval)
    ensures Spaced(t.(schedules := t.schedules + [s]))
  {
    var t' := t.(schedules := t.schedules + [s]);
    forall k | 0 <= k < |t'.schedules|
      ensures IntervalOk(t'.schedules[k].interval) && t'.schedules[k].at >= Before(t', k) + Wait(t'.schedules[k].interval)
    {
      if k < |t.schedules| { assert t'.schedules[k] == t.schedules[k] && Before(t', k) == Before(t, k); }
    }
  }

  // Each schedule so far took five seconds of the time to the deadline, and so does the next.
  lemma RoomForOne(t: Trace, p: Pending, checked: real)
    requires Spaced(t) && Owes(p, t) && p.nextPollAt <= checked < t.deadline
    ensures t.startedAt + 5000.0 * (|t.schedules| + 1) as real < t.deadline
  {
    var n := |t.schedules|;
    if n > 0 { LastIsLate(t, n - 1); }
    hide Spaced;
    assert (n + 1) as real == n as real + 1.0;
  }

  // Scheduling one more poll keeps a history sound.
  lemma ScheduleKeepsSound(t: Trace, p: Pending, checked: real, at: real)
    requires Sound(t) && Owes(p, t) && p.nextPollAt <= checked <= at && checked < t.deadline
    ensures var t' := t.(schedules := t.schedules + [Schedule(at, p.interval)]);
            Sound(t') && Last(t') == at && |t'.sends| < |t'.schedules| && Extends(t, t')
  {
    hide Spaced, Extends;
    var t' := t.(schedules := t.schedules + [Schedule(at, p.interval)]);
    SpacedGrows(t, Schedule(at, p.interval));
    RoomForOne(t, p, checked);
    PrefixExtends(t, Schedule(at, p.interval));
    assert |t'.schedules| == |t.schedules| + 1;
  }

  lemma PrefixExtends(t: Trace, s: Schedule)
    ensures Extends(t, t.(schedules := t.schedules + [s]))
  {
  }

  lemma SendKeepsSound(t: Trace, at: real)
    requires Sound(t) && at < t.deadline && |t.sends| < |t.schedules|
    ensures var t' := t.(sends := t.sends + [at]);
            Sound(t') && Last(t') == Last(t) && Extends(t, t')
  {
    var t' := t.(sends := t.sends + [at]);
    assert Spaced(t') by {
      forall k | 0 <= k < |t'.schedules|
        ensures IntervalOk(t'.schedules[k].interval) && t'.schedules[k].at >= Before(t', k) + Wait(t'.schedules[k].interval)
      {
        assert Before(t', k) == Before(t, k);
      }
    }
    hide Spaced;
  }

  // A device code is polled at most 119 times, and any two of its polls are scheduled five seconds apart or more.
  lemma PollsAreFew(t: Trace)
    requires Sound(t)
    ensures |t.sends| <= |t.schedules| < 120
  {
  }

  lemma {:induction false} PollsAreSpaced(t: Trace, i: nat, gap: nat)
    requires Spaced(t) && i + gap < |t.schedules|
    ensures t.schedules[i + gap].at >= t.schedules[i].at + 5000.0 * gap as real
    decreases gap
  {
    if gap > 0 {
      NextIsSpaced(t, i + gap);
      PollsAreSpaced(t, i, gap - 1);
      hide Spaced, Wait;
      assert gap as real == (gap - 1) as real + 1.0;
    }
  }

  lemma NextIsSpaced(t: Trace, k: nat)
    requires Spaced(t) && 0 < k < |t.schedules|
    ensures t.schedules[k].at >= t.schedules[k - 1].at + Wait(t.schedules[k].interval) >= t.schedules[k - 1].at + 5000.0
  {
    assert Before(t, k) == t.schedules[k - 1].at;
  }

  // What an answer to a poll, or its absence, comes to once the run has dealt with it.
  ghost predicate Concludes(answer: Option<PollReply>, r: Result<(), LoginError>, stored: Option<Pending>) {
    && (r.Ok? <==> answer == Some(Authorized(true, true, true)) && stored.None?)
    && match answer
       case None => r.Err? && (r.error.Expired? || r.error.Interrupted?)
       case Some(Undecided(interval)) =>
         if IntervalOk(interval) then r.Err? && (r.error.Expired? || r.error.Interrupted?) else r == Err(InvalidResponse)
       case Some(Authorized(wellFormed, tokenSaved, configSaved)) =>
         && (!wellFormed ==> r == Err(InvalidResponse))
         && (wellFormed && !tokenSaved ==> r == Err(TokenSaveFailed))
         && (wellFormed && tokenSaved && stored.Some? ==> r == Err(CleanupFailed))
         && (wellFormed && tokenSaved && stored.None? && !configSaved ==> r == Err(ConfigSaveFailed))
       case Some(Denied) => r == Err(LoginDenied)
       case Some(ExpiredCode) => r == Err(Expired)
       case Some(InvalidCode) => r == Err(LoginInvalid)
       case Some(Unknown) => r == Err(InvalidResponse)
       case Some(HttpError) => r == Err(RequestFailed)
       case Some(Malformed) => r == Err(InvalidResponse)
       case Some(Lost) => r.Err? && (r.error.Expired? || r.error.Interrupted?)
  }

  // The server has decided, or the code is void: the request cannot be polled again.
  predicate Final(answer: PollReply) {
    answer.Authorized? || answer.Denied? || answer.ExpiredCode? || answer.InvalidCode? || answer.Unknown?
  }

  predicate StillOpen(answer: Option<PollReply>) {
    answer.None? || (answer.value.Undecided? && IntervalOk(answer.value.interval))
  }

  // A stored request stays until it is over, and is then gone unless the process ended first.
  ghost predicate KeptWhileOpen(io: Inputs, answer: Option<PollReply>, r: Result<(), LoginError>, stored: Option<Pending>, steps: nat) {
    && (io.resume && (if answer.Some? && Final(answer.value) then true else r.Err? && r.error.Expired?) ==> stored.None? || steps == 0)
    && (io.resume && !(answer.Some? && Final(answer.value)) && r.Err? && !r.error.Expired? ==> stored.Some?)
  }

  // A request as the server's answer describes it.
  predicate Started(request: Pending, reply: StartReply, scopes: Option<seq<string>>, startedAt: real, clock: real) {
    && 1.0 <= reply.expiresIn <= 600.0 && IntervalOk(reply.interval)
    && request.deviceCode == reply.deviceCode && request.scopes == scopes && request.interval == reply.interval
    && request.expiresAt == reply.expiresAt <= clock + Lifetime
    && request.deadline == Min(reply.expiresAt, startedAt + reply.expiresIn * 1000.0)
    && startedAt < request.deadline && startedAt + Wait(reply.interval) <= request.nextPollAt <= clock + Wait(reply.interval)
  }

  predicate StartError(error: LoginError, io: Inputs, steps: nat) {
    if steps == 0 then error == Interrupted
    else if io.start.None? then error == RequestFailed
    else if io.start.value.expiresIn < 1.0 || io.start.value.expiresIn > 600.0 || !IntervalOk(io.start.value.interval) then
      error == InvalidResponse
    else error == InvalidResponse || error == Expired || (error == Interrupted && steps == 1)
  }

  // Why a stored request is not taken up at this time, if it is not.
  predicate NotResumed(request: Pending, scopes: Option<seq<string>>, io: Inputs, clock: real, readings: nat, error: LoginError) {
    var checked := clock + io.elapse(readings);
    if request.expiresAt <= checked || request.deadline <= checked then error == Expired
    else if request.expiresAt - checked - io.elapse(readings + 1) > 600_000.0 then error == InvalidState
    else request.scopes != scopes && error == ScopesMismatch
  }

  datatype PollStep = Again(request: Pending) | Late | Over(result: Result<(), LoginError>)

  lemma Reflexive(t: Trace)
    ensures Extends(t, t)
  {
  }

  lemma ExtendsOn(t: Trace, u: Trace, v: Trace)
    requires Extends(t, u) && Extends(u, v)
    ensures Extends(t, v)
  {
  }

  class Client {
    var stored: Option<Pending>
    var clock: real
    var steps: nat
    var readings: nat
    ghost var saved: Trace      // the history of the stored request
    ghost var current: Trace    // the history of this run's request
    ghost var answer: Option<PollReply>    // the last answer to a poll of this run

    ghost predicate Valid()
      reads this
    {
      && Sound(saved) && Sound(current) && Last(saved) <= clock && Last(current) <= clock
      && (stored.Some? ==> Owes(stored.value, saved))
    }

    constructor (clock: real)
      ensures Valid() && stored.None?
    {
      this.clock := clock;
      stored, steps, readings := None, 0, 0;
      saved := Trace(clock, clock, [], []);
      current := Trace(clock, clock, [], []);
    }

    method Now(io: Inputs) returns (t: real)
      modifies this`clock, this`readings
      ensures t == clock == old(clock) + io.elapse(old(readings)) && readings == old(readings) + 1
    {
      clock := clock + io.elapse(readings);
      readings := readings + 1;
      t := clock;
    }

    // Whether the process reaches its next effect.
    method Proceed() returns (ok: bool)
      modifies this`steps
      ensures ok == (old(steps) > 0) && steps == if ok then old(steps) - 1 else 0
    {
      ok := steps > 0;
      if ok { steps := steps - 1; }
    }

    method Sleep(io: Inputs, duration: real) returns (ok: bool)
      modifies this`clock, this`readings, this`steps
      ensures clock >= old(clock) && (ok ==> clock >= old(clock) + duration)
    {
      ok := Proceed();
      if ok {
        clock := clock + Max(0.0, duration) + io.oversleep(readings);
        readings := readings + 1;
      }
    }

    // Writes the request to the store, if the run keeps one; what the run did so far is then what a resume builds on.
    method Save(io: Inputs, request: Pending) returns (ok: bool)
      requires Valid() && Owes(request, current)
      modifies this`stored, this`steps, this`saved
      ensures Valid() && steps <= old(steps) && ok == (old(steps) > 0)
      ensures ok && io.resume ==> stored == Some(request) && saved == current
      ensures !ok || !io.resume ==> stored == old(stored) && saved == old(saved)
    {
      ok := Proceed();
      if ok && io.resume {
        stored, saved := Some(request), current;
      }
    }

    method ClearPending(io: Inputs) returns (ok: bool)
      requires Valid()
      modifies this`stored, this`steps
      ensures Valid() && steps <= old(steps) && ok == (!io.resume || old(steps) > 0)
      ensures stored == if ok && io.resume then None else old(stored)
    {
      ok := true;
      if io.resume {
        ok := Proceed();
        if ok { stored := None; }
      }
    }

    // A poll is sent only while time is left, and only after it was scheduled.
    method Post(io: Inputs, deadline: real) returns (reply: Result<PollReply, LoginError>)
      requires Valid() && deadline == current.deadline && |current.sends| < |current.schedules|
      requires io.resume ==> saved == current
      modifies this`clock, this`readings, this`steps, this`current, this`saved, this`answer
      ensures Valid() && clock >= old(clock) && Extends(old(current), current) && current.schedules == old(current.schedules)
      ensures if io.resume then saved == current else saved == old(saved)
      ensures Last(current) == old(Last(current))
      ensures reply.Ok? ==> current.sends != []
      ensures old(steps) == 0 ==> current.sends == old(current.sends)
      ensures if current.sends == old(current.sends) then answer == old(answer) && reply.Err? && (reply.error.Expired? || reply.error.Interrupted?)
              else
                && answer == Some(io.poll(readings)) && readings == old(readings) + 2
                && (answer.value.HttpError? ==> reply == Err(RequestFailed)) && (answer.value.Malformed? ==> reply == Err(InvalidResponse))
                && (answer.value.Lost? ==> reply == Err(if clock >= deadline then Expired else Interrupted))
                && (!answer.value.HttpError? && !answer.value.Malformed? && !answer.value.Lost? ==> reply == Ok(answer.value))
    {
      hide Sound, Extends, Last, Outcome;
      Reflexive(current);
      var t := Now(io);
      if Min(15_000.0, deadline - t) <= 0.0 { return Err(Expired); }
      var ok := Proceed();
      if !ok { return Err(Interrupted); }
      SendKeepsSound(current, t);
      current := current.(sends := current.sends + [t]);
      if io.resume { saved := current; }
      t := Now(io);
      answer := Some(io.poll(readings));
      match io.poll(readings) {
        case HttpError => reply := Err(RequestFailed);
        case Malformed => reply := Err(InvalidResponse);
        case Lost => reply := if t >= deadline then Err(Expired) else Err(Interrupted);
        case answer => reply := Ok(answer);
      }
    }

    // Asks for a new code. The request is saved before any poll.
    method Start(io: Inputs) returns (r: Result<Pending, LoginError>)
      requires Valid() && stored.None?
      modifies this`clock, this`readings, this`steps, this`stored, this`saved, this`current
      ensures Valid() && clock >= old(clock)
      ensures r.Ok? ==> Owes(r.value, current) && (io.resume ==> stored == Some(r.value) && saved == current)
      ensures r.Ok? ==> current.schedules == [] && current.startedAt >= old(clock)
      ensures !io.resume ==> stored.None?
      ensures r.Ok? ==> readings == old(readings) + 4
      ensures r.Ok? ==> io.start.Some? && Started(r.value, io.start.value, io.scopes, current.startedAt, clock)
      ensures r.Err? ==> stored.None? && StartError(r.error, io, old(steps))
      ensures if r.Ok? && io.resume then saved == current else saved == old(saved)
    {
      var startedAt := Now(io);
      var ok := Proceed();
      if !ok { return Err(Interrupted); }
      if io.start.None? { return Err(RequestFailed); }
      var reply := io.start.value;
      if reply.expiresIn < 1.0 || reply.expiresIn > 600.0 { return Err(InvalidResponse); }
      var t := Now(io);
      if !IntervalOk(reply.interval) { return Err(InvalidResponse); }
      var request := Pending(reply.deviceCode, io.scopes, reply.expiresAt,
        Min(reply.expiresAt, startedAt + reply.expiresIn * 1000.0), reply.interval, t + Wait(reply.interval));
      t := Now(io);
      if request.expiresAt > t + Lifetime { return Err(InvalidResponse); }
      t := Now(io);
      if request.deadline <= t { return Err(Expired); }
      current := Trace(startedAt, request.deadline, [], []);
      ok := Save(io, request);
      if !ok { return Err(Interrupted); }
      r := Ok(request);
    }

    // Takes up the stored request.
    method Resume(io: Inputs, request: Pending) returns (r: Result<Pending, LoginError>)
      requires Valid() && stored == Some(request) && io.resume
      modifies this`clock, this`readings, this`steps, this`stored, this`current
      ensures Valid() && clock >= old(clock) && saved == old(saved)
      ensures r.Ok? ==> r.value == request && stored == Some(request) && current == saved
      ensures r.Ok? ==> request.scopes == io.scopes && old(clock) < request.deadline && request.expiresAt <= clock + Lifetime
      ensures r.Err? ==> NotResumed(request, io.scopes, io, old(clock), old(readings), r.error)
      ensures stored == if r.Err? && r.error.Expired? && old(steps) > 0 then None else old(stored)
    {
      var t := Now(io);
      if Min(request.expiresAt, request.deadline) <= t {
        var cleared := ClearPending(io);
        return Err(Expired);
      }
      t := Now(io);
      if request.expiresAt > t + Lifetime { return Err(InvalidState); }
      if request.scopes != io.scopes { return Err(ScopesMismatch); }
      current := saved;
      r := Ok(request);
    }

    // Schedules the next poll and saves that before it is sent. A schedule that is not saved is not in the stored
    // history: the run ends, no poll is sent for it, and a resume builds on the schedule before.
    method SchedulePoll(io: Inputs, pending: Pending, checked: real) returns (r: Option<Pending>)
      requires Valid() && Owes(pending, current) && (io.resume ==> stored == Some(pending) && saved == current)
      requires pending.nextPollAt <= checked <= clock && checked < current.deadline
      modifies this`clock, this`readings, this`steps, this`current, this`stored, this`saved
      ensures Valid() && clock >= old(clock)
      ensures Extends(old(current), current) && Extends(old(saved), saved) && current.sends == old(current.sends)
      ensures r.None? && io.resume ==> stored == old(stored)
      ensures !io.resume ==> stored == old(stored)
      ensures r.Some? ==> Owes(r.value, current) && (io.resume ==> stored == r && saved == current)
      ensures r.Some? ==> |current.sends| < |current.schedules| && old(clock) <= Last(current) <= clock
      ensures r.Some? ==> r.value == pending.(nextPollAt := Last(current) + Wait(pending.interval))
    {
      // A crash during a poll cannot make a restarted command poll at once.
      var at := Now(io);
      ScheduleKeepsSound(current, pending, checked, at);
      current := current.(schedules := current.schedules + [Schedule(at, pending.interval)]);
      var request := pending.(nextPollAt := at + Wait(pending.interval));
      var ok := Save(io, request);
      r := if ok then Some(request) else None;
    }

    // Takes over the interval of an answer, and saves it before waiting.
    method Postpone(io: Inputs, pending: Pending, interval: int) returns (r: Option<Pending>)
      requires Valid() && Owes(pending, current) && (io.resume ==> stored == Some(pending) && saved == current)
      requires IntervalOk(interval) && Last(current) <= clock
      modifies this`clock, this`readings, this`steps, this`stored, this`saved
      ensures Valid() && clock >= old(clock)
      ensures saved == old(saved)
      ensures r.Some? ==> Owes(r.value, current) && (io.resume ==> stored == r && saved == current)
      ensures r.None? || !io.resume ==> stored == old(stored)
      ensures r.Some? ==> r.value == pending.(interval := interval, nextPollAt := r.value.nextPollAt)
      ensures r.Some? ==> old(clock) + Wait(interval) <= r.value.nextPollAt <= clock + Wait(interval)
    {
      var t := Now(io);
      var request := pending.(interval := interval, nextPollAt := t + Wait(interval));
      var ok := Save(io, request);
      r := if ok then Some(request) else None;
    }

    method Poll(io: Inputs, pending: Pending) returns (r: Result<(), LoginError>)
      requires Valid() && Owes(pending, current)
      requires if io.resume then stored == Some(pending) && saved == current else stored.None?
      requires answer.None?
      modifies this
      ensures Valid() && clock >= old(clock)
      ensures Extends(old(current), current) && Extends(old(saved), saved)
      ensures r.Ok? ==> current.sends != []
      ensures Concludes(answer, r, stored) && KeptWhileOpen(io, answer, r, stored, steps)
    {
      hide Sound, Extends, Last;
      Reflexive(current);
      Reflexive(saved);
      var request := pending;
      var deadline := Min(request.expiresAt, request.deadline);
      var t := Now(io);
      while t < deadline
        invariant Valid() && Owes(request, current) && deadline == current.deadline && clock >= old(clock)
        invariant if io.resume then stored == Some(request) && saved == current else stored.None?
        invariant StillOpen(answer)
        invariant Extends(old(current), current) && Extends(old(saved), saved)
        decreases deadline - request.nextPollAt
      {
        ghost var before, savedBefore := current, saved;
        var step := PollOnce(io, request, deadline);
        ExtendsOn(old(current), before, current);
        ExtendsOn(old(saved), savedBefore, saved);
        if step.Over? { return step.result; }
        if step.Late? { break; }
        request := step.request;
        t := Now(io);
      }
      var cleared := ClearPending(io);
      r := Err(Expired);
    }

    // One pass of the loop: wait, schedule, send, and act on the answer.
    method PollOnce(io: Inputs, pending: Pending, deadline: real) returns (step: PollStep)
      requires Valid() && Owes(pending, current) && deadline == current.deadline
      requires if io.resume then stored == Some(pending) && saved == current else stored.None?
      requires StillOpen(answer)
      modifies this
      ensures Valid() && clock >= old(clock)
      ensures Extends(old(current), current) && Extends(old(saved), saved)
      ensures step.Again? ==> Owes(step.request, current) && StillOpen(answer)
      ensures step.Again? ==> if io.resume then stored == Some(step.request) && saved == current else stored.None?
      ensures step.Late? ==> stored == old(stored) && answer == old(answer)
      ensures step.Over? ==> Concludes(answer, step.result, stored) && KeptWhileOpen(io, answer, step.result, stored, steps)
      ensures step.Again? ==> pending.nextPollAt < deadline && step.request.nextPollAt >= pending.nextPollAt + 5000.0
      ensures step.Over? && step.result.Ok? ==> current.sends != []
    {
      hide Sound, Extends, Last;
      Reflexive(current);
      Reflexive(saved);
      var t := Now(io);
      var ok := Sleep(io, Max(0.0, Min(pending.nextPollAt, deadline) - t));
      if !ok { return Over(Err(Interrupted)); }
      var checked := Now(io);
      if checked >= deadline { return Late; }
      var scheduled := SchedulePoll(io, pending, checked);
      if scheduled.None? { return Over(Err(Interrupted)); }
      ghost var before, savedBefore := current, saved;
      var reply := Post(io, deadline);
      ExtendsOn(old(current), before, current);
      if io.resume { ExtendsOn(old(saved), savedBefore, saved); }
      if reply.Err? {
        if reply.error.Expired? { var cleared := ClearPending(io); }
        return Over(Err(reply.error));
      }
      if !reply.value.Undecided? {
        var r := Decide(io, reply.value);
        return Over(r);
      }
      if !IntervalOk(reply.value.interval) { return Over(Err(InvalidResponse)); }
      var postponed := Postpone(io, scheduled.value, reply.value.interval);
      if postponed.None? { return Over(Err(Interrupted)); }
      step := Again(postponed.value);
    }

    // A decision ends the request, whatever comes of it.
    method Decide(io: Inputs, reply: PollReply) returns (r: Result<(), LoginError>)
      requires Valid() && answer == Some(reply) && Final(reply) && (io.resume <==> stored.Some?)
      modifies this`stored, this`steps
      ensures Concludes(answer, r, stored) && KeptWhileOpen(io, answer, r, stored, steps)
      ensures Valid() && stored == if io.resume && old(steps) > 0 then None else old(stored)
      ensures r == if io.resume && old(steps) == 0 && Redeemed(reply) then Err(CleanupFailed) else Outcome(reply)
    {
      var cleared := ClearPending(io);
      r := if Redeemed(reply) && !cleared then Err(CleanupFailed) else Outcome(reply);
    }

    // One run of the command.
    method Login(io: Inputs) returns (r: Result<(), LoginError>)
      requires Valid()
      modifies this
      ensures Valid() && clock >= old(clock)
      ensures Extends(old(saved), saved) || (old(stored).None? && saved.startedAt >= old(clock))
      ensures r.Ok? ==> current.sends != []
      ensures r.Ok? <==> answer == Some(Authorized(true, true, true)) && stored.None?
      ensures answer.Some? ==> Concludes(answer, r, stored) && KeptWhileOpen(io, answer, r, stored, steps)
      ensures !io.resume && old(stored).Some? ==> r == Err(PendingExists) && stored == old(stored) && saved == old(saved)
      ensures r.Err? && r.error.PendingExists? ==> !io.resume && old(stored).Some?
      ensures r.Err? && (r.error.ScopesMismatch? || r.error.InvalidState?) ==>
                && answer.None? && stored == old(stored) && stored.Some? && io.resume
                && NotResumed(stored.value, io.scopes, io, old(clock), old(readings), r.error)
      ensures io.resume && old(stored).Some? && old(stored).value.scopes != io.scopes ==> r.Err? && answer.None?
    {
      hide Sound, Spaced, Owes, Started, Last;
      steps, answer := io.steps, None;
      if !io.resume && stored.Some? { return Err(PendingExists); }
      var request;
      if stored.Some? { request := Resume(io, stored.value); } else { request := Start(io); }
      if request.Err? { return Err(request.error); }
      r := Poll(io, request.value);
    }

    // Any number of runs, each of which may stop anywhere. The stored history after each run continues the one before
    // it, or is that of a new request, started no earlier than the old one's last schedule; all are sound.
    method Restarts(runs: seq<Inputs>) returns (ghost histories: seq<Trace>)
      requires Valid()
      modifies this
      ensures Valid() && clock >= old(clock)
      ensures |histories| == |runs| + 1 && histories[0] == old(saved) && histories[|runs|] == saved
      ensures forall i :: 0 <= i < |runs| ==> Follows(histories[i], histories[i + 1])
      ensures forall i :: 0 <= i <= |runs| ==> Sound(histories[i]) && |histories[i].sends| < 120
    {
      hide Sound, Last, Extends;
      histories := [saved];
      PollsAreFew(saved);
      for i := 0 to |runs|
        invariant Valid() && clock >= old(clock)
        invariant |histories| == i + 1 && histories[0] == old(saved) && histories[i] == saved
        invariant forall j :: 0 <= j < i ==> Follows(histories[j], histories[j + 1])
        invariant forall j :: 0 <= j <= i ==> Sound(histories[j]) && |histories[j].sends| < 120
      {
        var r := Login(runs[i]);
        PollsAreFew(saved);
        histories := histories + [saved];
      }
    }
  }

  // The code was redeemed and its credential is saved.
  predicate Redeemed(reply: PollReply) { reply.Authorized? && reply.wellFormed && reply.tokenSaved }

  function Outcome(reply: PollReply): Result<(), LoginError> {
    match reply
    case Authorized(wellFormed, tokenSaved, configSaved) =>
      if !wellFormed then Err(InvalidResponse)
      else if !tokenSaved then Err(TokenSaveFailed)
      else if !configSaved then Err(ConfigSaveFailed)
      else Ok(())
    case Denied => Err(LoginDenied)
    case ExpiredCode => Err(Expired)
    case InvalidCode => Err(LoginInvalid)
    case _ => Err(InvalidResponse)
  }
}
