/** The SlapdBackup reconcile (slapdbackup_controller.go, backup_source.go) as a
    state machine.

    One reconcile pass is a chain of atomic steps: read the backup, resolve its
    database and cluster, read the Job, record the source's circumstances, create
    or observe the Job, write the status.  Between any two of them the
    environment may let the Job finish, remove it (its TTL, or anybody), create
    one of the same name, crash the operator or fail a call; the status write may
    be lost.  Reads see the current state, and one pass runs at a time. */
module Backup {
  import opened Prelude

  // ---- State -----------------------------------------------------------------

  datatype Phase = NoPhase | Pending | Running | Completed | Failed

  /** The SourceConverged condition of a recording pass.  `late` is whether the
      message carries the late-recording caveat.  `at` and `raced` are history:
      when the source was read, and whether a Job existed at that moment although
      the pass had seen none. */
  datatype Converged = Converged(late: bool, at: nat, raced: bool)

  datatype Status = Status(
    phase: Phase, converged: Option<Converged>, suffixHealthy: bool,
    jobNamed: bool, startedAt: Option<nat>, completedAt: Option<nat>)

  datatype JobState = Active | Complete | Broken
  datatype Job = Job(createdAt: nat, state: JobState)

  /** How far the pass in flight has come, and the status it holds in memory. */
  datatype Pc =
    | Idle
    | Reaping
    | Fetched(mem: Status)
    | Resolved(mem: Status)
    | JobRead(mem: Status, seen: Option<Job>)
    | Recorded(mem: Status, seen: Option<Job>)
    | Persisting(mem: Status)

  /** `artifact` is the creation time of the Job whose dump the bucket holds, and
      `creations` counts the Jobs this controller created. */
  datatype World = World(
    now: nat, status: Status, job: Option<Job>, pc: Pc, artifact: Option<nat>, creations: nat)

  datatype CreateReply = Accepted | Error | ErrorAfterCreation

  datatype Action =
    // the controller
    | Fetch | Reap(failed: bool) | Resolve(ready: bool) | GetJob | Record
    | Create(reply: CreateReply) | Observe | Persist(lost: bool)
    // the world around it
    | Abort | JobFinishes(ok: bool) | JobRemoved | ForeignCreate

  predicate Terminal(st: Status) {
    st.phase == Completed || st.phase == Failed
  }

  predicate HasRecord(st: Status) {
    st.converged.Some? && st.suffixHealthy
  }

  predicate ShouldRecordSourceCircumstances(st: Status) {
    st.converged.None? || !st.suffixHealthy
  }

  const FRESH := Status(NoPhase, None, false, false, None, None)

  predicate Init(w: World) {
    w.status == FRESH && w.job.None? && w.pc == Idle && w.artifact.None? && w.creations == 0
  }

  // ---- Steps -----------------------------------------------------------------

  function RecordSource(mem: Status, late: bool, at: nat, raced: bool): Status {
    mem.(converged := Some(Converged(late, at, raced)), suffixHealthy := true)
  }

  function SetPending(mem: Status): Status {
    mem.(phase := Pending)
  }

  function SetRunning(mem: Status): Status {
    mem.(phase := Running, jobNamed := true)
  }

  function SetTerminal(mem: Status, phase: Phase, at: nat): Status {
    mem.(phase := phase, jobNamed := true, completedAt := Some(at))
  }

  /** What the pass makes of a Job it read. */
  function Observed(mem: Status, job: Job, now: nat): Status {
    match job.state
    case Complete => SetTerminal(mem, Completed, now)
    case Broken => SetTerminal(mem, Failed, now)
    case Active => SetRunning(mem)
  }

  /** One action, or None where it is not enabled. */
  function Act(w: World, a: Action): Option<World> {
    match a
    case Fetch =>
      if w.pc != Idle then None
      else if Terminal(w.status) then Some(w.(pc := if w.status.jobNamed then Reaping else Idle))
      else Some(w.(pc := Fetched(w.status)))
    case Reap(failed) =>
      if w.pc != Reaping then None
      else Some(w.(pc := Idle, job := if failed then w.job else None))
    case Resolve(ready) =>
      if !w.pc.Fetched? then None
      else Some(w.(pc := if ready then Resolved(w.pc.mem) else Persisting(SetPending(w.pc.mem))))
    case GetJob =>
      if !w.pc.Resolved? then None else Some(w.(pc := JobRead(w.pc.mem, w.job)))
    case Record =>
      if !w.pc.JobRead? then None
      else
        var mem := if ShouldRecordSourceCircumstances(w.pc.mem)
                   then RecordSource(w.pc.mem, w.pc.seen.Some?, w.now, w.pc.seen.None? && w.job.Some?)
                   else w.pc.mem;
        Some(w.(pc := Recorded(mem, w.pc.seen)))
    case Create(reply) =>
      if !w.pc.Recorded? || w.pc.seen.Some? then None
      else
        var creates := w.job.None? && reply != Error;
        var w' := if creates then w.(job := Some(Job(w.now, Active)), creations := w.creations + 1) else w;
        // an existing Job answers AlreadyExists, which is tolerated
        if reply == Accepted
        then Some(w'.(pc := Persisting(SetRunning(w.pc.mem).(startedAt := Some(w.now)))))
        else Some(w'.(pc := Idle))
    case Observe =>
      if !w.pc.Recorded? || w.pc.seen.None? then None
      else Some(w.(pc := Persisting(Observed(w.pc.mem, w.pc.seen.value, w.now))))
    case Persist(lost) =>
      if !w.pc.Persisting? then None
      else Some(w.(pc := Idle, status := if lost then w.status else w.pc.mem))
    case Abort => Some(w.(pc := Idle))
    case JobFinishes(ok) =>
      if w.job.None? || w.job.value.state != Active then None
      else
        var j := w.job.value;
        Some(w.(job := Some(j.(state := if ok then Complete else Broken)),
                artifact := if ok then Some(j.createdAt) else w.artifact))
    case JobRemoved => Some(w.(job := None))
    case ForeignCreate =>
      if w.job.Some? then None else Some(w.(job := Some(Job(w.now, Active))))
  }

  /** Every action takes time. */
  function Step(w: World, a: Action): Option<World> {
    var r := Act(w, a);
    if r.Some? then Some(r.value.(now := w.now + 1)) else None
  }

  function Run(w: World, actions: seq<Action>): Option<World>
    decreases |actions|
  {
    if actions == [] then Some(w)
    else
      var r := Step(w, actions[0]);
      if r.Some? then Run(r.value, actions[1..]) else None
  }

  lemma {:induction false} RunConcat(w: World, a: seq<Action>, b: seq<Action>)
    ensures Run(w, a + b) == if Run(w, a).Some? then Run(Run(w, a).value, b) else None
    decreases |a|
  {
    if a == [] {
      assert a + b == b;
    } else {
      assert (a + b)[0] == a[0] && (a + b)[1..] == a[1..] + b;
      if Step(w, a[0]).Some? { RunConcat(Step(w, a[0]).value, a[1..], b); }
    }
  }

  // ---- The invariant ---------------------------------------------------------

  /** A record without the caveat, made when no Job existed. */
  predicate Sound(st: Status) {
    st.converged.Some? && !st.converged.value.late && !st.converged.value.raced
  }

  predicate Before(st: Status, createdAt: nat) {
    Sound(st) ==> st.converged.value.at < createdAt
  }

  /** What holds of any status, persisted or in memory. */
  predicate StatusOk(st: Status, w: World) {
    && (st.converged.Some? ==> st.converged.value.at < w.now)
    && (Terminal(st) ==> HasRecord(st))
    && (w.job.Some? ==> Before(st, w.job.value.createdAt))
    && (st.phase == Completed ==> w.artifact.Some? && Before(st, w.artifact.value))
  }

  /** What holds of a Job the pass has seen, whatever became of it since. */
  predicate SeenOk(mem: Status, seen: Option<Job>, w: World) {
    seen.Some? ==>
      && Before(mem, seen.value.createdAt)
      && (seen.value.state == Complete ==> w.artifact.Some? && seen.value.createdAt <= w.artifact.value)
  }

  predicate PcOk(w: World) {
    match w.pc
    case Idle => true
    case Reaping => Terminal(w.status)
    case Fetched(mem) => !Terminal(w.status) && mem == w.status
    case Resolved(mem) => !Terminal(w.status) && mem == w.status
    case JobRead(mem, seen) => !Terminal(w.status) && mem == w.status && SeenOk(mem, seen, w)
    case Recorded(mem, seen) =>
      && !Terminal(w.status) && !Terminal(mem) && HasRecord(mem) && StatusOk(mem, w) && SeenOk(mem, seen, w)
    case Persisting(mem) => !Terminal(w.status) && StatusOk(mem, w)
  }

  predicate Inv(w: World) {
    && StatusOk(w.status, w)
    && PcOk(w)
    && (w.job.Some? ==> w.job.value.createdAt < w.now)
    && (w.job.Some? && w.artifact.Some? ==> w.artifact.value <= w.job.value.createdAt)
    && (w.job.Some? && w.job.value.state == Complete ==> w.artifact == Some(w.job.value.createdAt))
    && (w.artifact.Some? ==> w.artifact.value < w.now)
  }

  predicate ByController(a: Action) {
    !a.Abort? && !a.JobFinishes? && !a.JobRemoved? && !a.ForeignCreate?
  }

  lemma ReadingKeepsInv(w: World, a: Action)
    requires Inv(w) && (a.Fetch? || a.Reap? || a.Resolve? || a.GetJob?) && Step(w, a).Some?
    ensures Inv(Step(w, a).value)
  {
  }

  lemma RecordingKeepsInv(w: World)
    requires Inv(w) && Step(w, Record).Some?
    ensures Inv(Step(w, Record).value)
  {
  }

  lemma CreatingKeepsInv(w: World, a: Action)
    requires Inv(w) && a.Create? && Step(w, a).Some?
    ensures Inv(Step(w, a).value)
  {
  }

  lemma ObservingKeepsInv(w: World)
    requires Inv(w) && Step(w, Observe).Some?
    ensures Inv(Step(w, Observe).value)
  {
  }

  lemma PersistingKeepsInv(w: World, a: Action)
    requires Inv(w) && a.Persist? && Step(w, a).Some?
    ensures Inv(Step(w, a).value)
  {
  }

  lemma ControllerKeepsInv(w: World, a: Action)
    requires Inv(w) && ByController(a) && Step(w, a).Some?
    ensures Inv(Step(w, a).value)
  {
    match a
    case Fetch => ReadingKeepsInv(w, a);
    case Reap(_) => ReadingKeepsInv(w, a);
    case Resolve(_) => ReadingKeepsInv(w, a);
    case GetJob => ReadingKeepsInv(w, a);
    case Record => RecordingKeepsInv(w);
    case Create(_) => CreatingKeepsInv(w, a);
    case Observe => ObservingKeepsInv(w);
    case Persist(_) => PersistingKeepsInv(w, a);
  }

  lemma FinishingKeepsInv(w: World, a: Action)
    requires Inv(w) && a.JobFinishes? && Step(w, a).Some?
    ensures Inv(Step(w, a).value)
  {
  }

  lemma JobComesOrGoesKeepsInv(w: World, a: Action)
    requires Inv(w) && (a.JobRemoved? || a.ForeignCreate?) && Step(w, a).Some?
    ensures Inv(Step(w, a).value)
  {
  }

  lemma EnvironmentKeepsInv(w: World, a: Action)
    requires Inv(w) && !ByController(a) && Step(w, a).Some?
    ensures Inv(Step(w, a).value)
  {
    match a
    case Abort =>
    case JobFinishes(_) => FinishingKeepsInv(w, a);
    case JobRemoved => JobComesOrGoesKeepsInv(w, a);
    case ForeignCreate => JobComesOrGoesKeepsInv(w, a);
  }

  lemma StepKeepsInv(w: World, a: Action)
    requires Inv(w) && Step(w, a).Some?
    ensures Inv(Step(w, a).value)
  {
    if ByController(a) { ControllerKeepsInv(w, a); } else { EnvironmentKeepsInv(w, a); }
  }

  lemma {:induction false} RunKeepsInv(w: World, actions: seq<Action>)
    requires Inv(w) && Run(w, actions).Some?
    ensures Inv(Run(w, actions).value)
    decreases |actions|
  {
    if actions != [] {
      StepKeepsInv(w, actions[0]);
      RunKeepsInv(Step(w, actions[0]).value, actions[1..]);
    }
  }

  // ---- What every run guarantees ---------------------------------------------

  /** In every run a finished backup carries both circumstances of its source. */
  lemma FinishedIsRecorded(w: World, actions: seq<Action>)
    requires Init(w) && Run(w, actions).Some?
    ensures
      var st := Run(w, actions).value.status;
      st.phase == Completed || st.phase == Failed ==> st.converged.Some? && st.suffixHealthy
  {
    RunKeepsInv(w, actions);
  }

  lemma TerminalStep(w: World, a: Action)
    requires Inv(w) && Terminal(w.status) && Step(w, a).Some?
    ensures var w' := Step(w, a).value; w'.status == w.status && w'.creations == w.creations
  {
  }

  /** Once a terminal phase is persisted, no continuation of the run changes the
      status again or lets the controller create another Job. */
  lemma {:induction false} FinishedIsFinal(w: World, actions: seq<Action>)
    requires Inv(w) && (w.status.phase == Completed || w.status.phase == Failed) && Run(w, actions).Some?
    ensures var w' := Run(w, actions).value; w'.status == w.status && w'.creations == w.creations
    decreases |actions|
  {
    if actions != [] {
      TerminalStep(w, actions[0]);
      StepKeepsInv(w, actions[0]);
      FinishedIsFinal(Step(w, actions[0]).value, actions[1..]);
    }
  }

  // ---- A terminal phase has a cause ------------------------------------------

  predicate EndedSo(job: Job, ok: bool) {
    job.state == if ok then Complete else Broken
  }

  predicate SaysSo(st: Status, ok: bool) {
    st.phase == if ok then Completed else Failed
  }

  /** A Job that ended so, or word of one, anywhere in the world. */
  predicate Shows(w: World, ok: bool) {
    || SaysSo(w.status, ok)
    || (w.job.Some? && EndedSo(w.job.value, ok))
    || match w.pc
       case Idle => false
       case Reaping => false
       case Fetched(mem) => SaysSo(mem, ok)
       case Resolved(mem) => SaysSo(mem, ok)
       case JobRead(mem, seen) => SaysSo(mem, ok) || (seen.Some? && EndedSo(seen.value, ok))
       case Recorded(mem, seen) => SaysSo(mem, ok) || (seen.Some? && EndedSo(seen.value, ok))
       case Persisting(mem) => SaysSo(mem, ok)
  }

  lemma OnlyAnEndShows(w: World, a: Action, ok: bool)
    requires !Shows(w, ok) && Step(w, a).Some? && a != JobFinishes(ok)
    ensures !Shows(Step(w, a).value, ok)
  {
  }

  lemma {:induction false} NothingShowsBefore(w: World, actions: seq<Action>, ok: bool)
    requires !Shows(w, ok) && Run(w, actions).Some? && JobFinishes(ok) !in actions
    ensures !Shows(Run(w, actions).value, ok)
    decreases |actions|
  {
    if actions != [] {
      OnlyAnEndShows(w, actions[0], ok);
      NothingShowsBefore(Step(w, actions[0]).value, actions[1..], ok);
    }
  }

  /** In every run, Completed is persisted only after a Job completed, and Failed only
      after a Job failed. */
  lemma TerminalPhaseHasACause(w: World, actions: seq<Action>)
    requires Init(w) && Run(w, actions).Some?
    ensures
      var st := Run(w, actions).value.status;
      && (st.phase == Completed ==> JobFinishes(true) in actions)
      && (st.phase == Failed ==> JobFinishes(false) in actions)
  {
    if JobFinishes(true) !in actions { NothingShowsBefore(w, actions, true); }
    if JobFinishes(false) !in actions { NothingShowsBefore(w, actions, false); }
  }

  // ---- A record is made once -------------------------------------------------

  /** A pass that holds a status in memory holds the persisted record, if there is one. */
  predicate MemoryAgrees(w: World) {
    HasRecord(w.status) ==>
      match w.pc
      case Idle => true
      case Reaping => true
      case Fetched(mem) => KeepsRecord(w.status, mem)
      case Resolved(mem) => KeepsRecord(w.status, mem)
      case JobRead(mem, _) => KeepsRecord(w.status, mem)
      case Recorded(mem, _) => KeepsRecord(w.status, mem)
      case Persisting(mem) => KeepsRecord(w.status, mem)
  }

  predicate KeepsRecord(before: Status, after: Status) {
    after.converged == before.converged && after.suffixHealthy
  }

  lemma StepKeepsRecord(w: World, a: Action)
    requires MemoryAgrees(w) && Step(w, a).Some?
    ensures MemoryAgrees(Step(w, a).value)
    ensures HasRecord(w.status) ==> KeepsRecord(w.status, Step(w, a).value.status)
  {
  }

  lemma {:induction false} RunKeepsRecord(w: World, actions: seq<Action>)
    requires MemoryAgrees(w) && Run(w, actions).Some?
    ensures MemoryAgrees(Run(w, actions).value)
    ensures HasRecord(w.status) ==> KeepsRecord(w.status, Run(w, actions).value.status)
    decreases |actions|
  {
    if actions != [] {
      StepKeepsRecord(w, actions[0]);
      RunKeepsRecord(Step(w, actions[0]).value, actions[1..]);
    }
  }

  /** In every run, a record once persisted is never replaced: it is made again only
      while none has reached the API server. */
  lemma PersistedRecordIsFinal(w: World, before: seq<Action>, after: seq<Action>)
    requires Init(w) && Run(w, before + after).Some?
    ensures Run(w, before).Some?
    ensures
      var st, st' := Run(w, before).value.status, Run(w, before + after).value.status;
      HasRecord(st) ==> KeepsRecord(st, st')
  {
    RunConcat(w, before, after);
    RunKeepsRecord(w, before);
    RunKeepsRecord(Run(w, before).value, after);
  }

  // ---- What the record is worth ----------------------------------------------

  predicate Uncaveated(st: Status) {
    st.phase == Completed && st.converged.Some? && !st.converged.value.late
  }

  /** The recorded position is a lower bound of the artifact: the source was read
      before the Job that dumped it was created. */
  predicate LowerBound(w: World) {
    w.status.converged.Some? && w.artifact.Some? && w.status.converged.value.at < w.artifact.value
  }

  /** A completed backup whose record has no caveat and did not race a foreign
      creation names a lower bound of its artifact. */
  lemma UncaveatedRecordPrecedesDump(w: World, actions: seq<Action>)
    requires Init(w) && Run(w, actions).Some?
    requires var st := Run(w, actions).value.status; Uncaveated(st) && !st.converged.value.raced
    ensures LowerBound(Run(w, actions).value)
  {
    RunKeepsInv(w, actions);
  }

  predicate NeverRaced(w: World) {
    && (w.status.converged.Some? ==> !w.status.converged.value.raced)
    && (match w.pc
        case Idle => true
        case Reaping => true
        case Fetched(mem) => mem.converged.Some? ==> !mem.converged.value.raced
        case Resolved(mem) => mem.converged.Some? ==> !mem.converged.value.raced
        case JobRead(mem, seen) =>
          (mem.converged.Some? ==> !mem.converged.value.raced) && (seen.None? ==> w.job.None?)
        case Recorded(mem, _) => mem.converged.Some? ==> !mem.converged.value.raced
        case Persisting(mem) => mem.converged.Some? ==> !mem.converged.value.raced)
  }

  /** The one window in which somebody else's creation goes unnoticed. */
  ghost predicate NoCreationInWindow(w: World, actions: seq<Action>)
    requires Run(w, actions).Some?
    decreases |actions|
  {
    actions == [] ||
      (&& !(actions[0] == ForeignCreate && w.pc.JobRead? && w.pc.seen.None?)
       && NoCreationInWindow(Step(w, actions[0]).value, actions[1..]))
  }

  lemma {:induction false} OutsideWindowNothingRaces(w: World, actions: seq<Action>)
    requires NeverRaced(w) && Run(w, actions).Some? && NoCreationInWindow(w, actions)
    ensures NeverRaced(Run(w, actions).value)
    decreases |actions|
  {
    if actions != [] {
      OutsideWindowNothingRaces(Step(w, actions[0]).value, actions[1..]);
    }
  }

  /** Hence in every run where no foreign Job appears between the controller's
      read of the Job and its recording, the absence of the caveat alone is the
      guarantee the status documents. */
  lemma CaveatIsComplete(w: World, actions: seq<Action>)
    requires Init(w) && Run(w, actions).Some? && NoCreationInWindow(w, actions)
    requires Uncaveated(Run(w, actions).value.status)
    ensures LowerBound(Run(w, actions).value)
  {
    OutsideWindowNothingRaces(w, actions);
    UncaveatedRecordPrecedesDump(w, actions);
  }

  // ---- The window, exactly ---------------------------------------------------

  /** The controller is about to record and has seen no Job. */
  predicate AboutToRecord(w: World) {
    Inv(w) && w.pc.JobRead? && w.pc.seen.None? && ShouldRecordSourceCircumstances(w.pc.mem)
  }

  /** No Job that can still complete is as old as `at`, nor is what a completed
      backup holds. */
  predicate AllLater(w: World, at: nat) {
    && at < w.now
    && (w.job.Some? ==> IsLater(w.job.value, at))
    && (w.status.phase == Completed ==> w.artifact.Some? && at < w.artifact.value)
    && match w.pc
       case Idle => true
       case Reaping => true
       case Fetched(_) => true
       case Resolved(_) => true
       case JobRead(_, seen) => seen.Some? ==> IsLater(seen.value, at)
       case Recorded(_, seen) => seen.Some? ==> IsLater(seen.value, at)
       case Persisting(mem) => mem.phase == Completed ==> w.artifact.Some? && at < w.artifact.value
  }

  predicate IsLater(job: Job, at: nat) {
    job.state != Broken ==> at < job.createdAt
  }

  lemma StepKeepsLater(w: World, a: Action, at: nat)
    requires Inv(w) && AllLater(w, at) && Step(w, a).Some?
    ensures AllLater(Step(w, a).value, at)
  {
  }

  lemma {:induction false} RunKeepsLater(w: World, actions: seq<Action>, at: nat)
    requires Inv(w) && AllLater(w, at) && Run(w, actions).Some?
    ensures AllLater(Run(w, actions).value, at)
    decreases |actions|
  {
    if actions != [] {
      StepKeepsLater(w, actions[0], at);
      StepKeepsInv(w, actions[0]);
      RunKeepsLater(Step(w, actions[0]).value, actions[1..], at);
    }
  }

  /** The backup completed with the record made at w. */
  predicate CompletedWith(w: World, w': World)
    requires AboutToRecord(w)
  {
    w'.status.phase == Completed && w'.status.converged == Step(w, Record).value.pc.mem.converged
  }

  /** With no Job, or only a failed one, the record it makes is a lower bound in
      every continuation of the run that completes with it ... */
  lemma QuietWindowIsTruthful(w: World, actions: seq<Action>)
    requires AboutToRecord(w) && (w.job.None? || w.job.value.state == Broken) && Run(w, [Record] + actions).Some?
    requires CompletedWith(w, Run(w, [Record] + actions).value)
    ensures LowerBound(Run(w, [Record] + actions).value)
  {
    StepKeepsInv(w, Record);
    assert ([Record] + actions)[1..] == actions;
    RunKeepsLater(Step(w, Record).value, actions, w.now);
  }

  /** ... and if there is one that has not failed, some continuation completes
      with that very record, without the caveat, and it is no lower bound. */
  lemma RaceEscapes(w: World) returns (actions: seq<Action>)
    requires AboutToRecord(w) && w.job.Some? && w.job.value.state != Broken
    ensures Run(w, [Record] + actions).Some?
    ensures var w' := Run(w, [Record] + actions).value; CompletedWith(w, w') && Uncaveated(w'.status) && !LowerBound(w')
  {
    var finished := w.job.value.(state := Complete);
    var first, dumped := RaceIsPersisted(w, finished);
    var tail := CompletingPass(dumped, finished);
    actions := first + tail;
    RunConcat(w, [Record] + first, tail);
    assert [Record] + actions == [Record] + first + tail;
  }

  /** The creation is answered AlreadyExists, the record is persisted, the other's
      Job dumps. */
  lemma RaceIsPersisted(w: World, finished: Job) returns (actions: seq<Action>, w': World)
    requires AboutToRecord(w) && w.job.Some? && w.job.value.state != Broken && finished == w.job.value.(state := Complete)
    ensures Run(w, [Record] + actions) == Some(w')
    ensures w'.pc == Idle && w'.status.phase == Running && w'.status.suffixHealthy
    ensures w'.status.converged == Some(Converged(false, w.now, true))
    ensures w'.job == Some(finished) && w'.artifact == Some(finished.createdAt)
  {
    var n := w.now;
    var taken := RecordSource(w.pc.mem, false, n, true);
    var running := SetRunning(taken).(startedAt := Some(n + 1));
    var w3 := w.(now := n + 3, pc := Idle, status := running);
    w' := w3.(now := n + 4, job := Some(finished), artifact := Some(finished.createdAt));
    var wait := if w.job.value.state == Active then JobFinishes(true) else Abort;
    actions := [Create(Accepted), Persist(false), wait];
    assert [Record] + actions == [Record, Create(Accepted), Persist(false), wait];
    FollowsTrace([w, w.(now := n + 1, pc := Recorded(taken, None)), w.(now := n + 2, pc := Persisting(running)), w3, w'], [Record] + actions);
  }

  /** The condition, exactly: what the controller is about to record is truthful in
      all continuations if and only if no Job stands there that has not failed. */
  lemma RecordIsTruthfulExactlyWhen(w: World)
    requires AboutToRecord(w)
    ensures
      (forall actions :: Run(w, [Record] + actions).Some? && CompletedWith(w, Run(w, [Record] + actions).value) ==>
         LowerBound(Run(w, [Record] + actions).value)) <==>
      w.job.None? || w.job.value.state == Broken
  {
    if w.job.None? || w.job.value.state == Broken {
      forall actions | Run(w, [Record] + actions).Some? && CompletedWith(w, Run(w, [Record] + actions).value)
        ensures LowerBound(Run(w, [Record] + actions).value)
      {
        QuietWindowIsTruthful(w, actions);
      }
    } else {
      var actions := RaceEscapes(w);
    }
  }

  lemma CompletingPass(w: World, job: Job) returns (actions: seq<Action>)
    requires w.pc == Idle && !Terminal(w.status) && HasRecord(w.status)
    requires w.job == Some(job) && job.state == Complete
    ensures Run(w, actions).Some?
    ensures
      var w' := Run(w, actions).value;
      && w'.status.phase == Completed && w'.status.converged == w.status.converged && w'.artifact == w.artifact
  {
    var n, st := w.now, w.status;
    var done := SetTerminal(st, Completed, n + 4);
    var worlds := [
      w,
      w.(now := n + 1, pc := Fetched(st)),
      w.(now := n + 2, pc := Resolved(st)),
      w.(now := n + 3, pc := JobRead(st, Some(job))),
      w.(now := n + 4, pc := Recorded(st, Some(job))),
      w.(now := n + 5, pc := Persisting(done)),
      w.(now := n + 6, status := done)];
    actions := [Fetch, Resolve(true), GetJob, Record, Observe, Persist(false)];
    FollowsTrace(worlds, actions);
  }

  /** A run of the whole controller in which that happens: somebody else creates
      the Job inside the window, the creation is answered AlreadyExists, and the
      record is persisted without the caveat. */
  lemma ForeignCreationEscapesTheCaveat() returns (w: World, actions: seq<Action>)
    ensures Init(w) && Run(w, actions).Some?
    ensures Uncaveated(Run(w, actions).value.status) && !LowerBound(Run(w, actions).value)
  {
    w := World(0, FRESH, None, Idle, None, 0);
    var first := [Fetch, Resolve(true), GetJob, ForeignCreate];
    var raced := World(4, FRESH, Some(Job(3, Active)), JobRead(FRESH, None), None, 0);
    var worlds := [
      w,
      World(1, FRESH, None, Fetched(FRESH), None, 0),
      World(2, FRESH, None, Resolved(FRESH), None, 0),
      World(3, FRESH, None, JobRead(FRESH, None), None, 0),
      raced];
    FollowsTrace(worlds, first);
    var rest := RaceEscapes(raced);
    RunConcat(w, first, [Record] + rest);
    actions := first + ([Record] + rest);
  }

  lemma {:induction false} FollowsTrace(worlds: seq<World>, actions: seq<Action>)
    requires |worlds| == |actions| + 1
    requires forall i :: 0 <= i < |actions| ==> Step(worlds[i], actions[i]) == Some(worlds[i + 1])
    ensures Run(worlds[0], actions) == Some(worlds[|actions|])
    decreases |actions|
  {
    if actions != [] {
      FollowsTrace(worlds[1..], actions[1..]);
    }
  }

  // ---- One uninterrupted pass ------------------------------------------------

  lemma Extend(w0: World, trace: seq<Action>, w: World, a: Action)
    requires Run(w0, trace) == Some(w)
    ensures Run(w0, trace + [a]) == Step(w, a)
  {
    RunConcat(w0, trace, [a]);
  }

  /** The whole of a ready pass around its middle. */
  lemma ReadyPassRuns(w: World, more: seq<Action>, w3: World, lost: bool)
    requires w.pc == Idle && !Terminal(w.status)
    requires Run(w.(now := w.now + 2, pc := Resolved(w.status)), more) == Some(w3)
    ensures Run(w, [Fetch, Resolve(true)] + more) == Some(w3)
    ensures w3.pc.Persisting? ==>
      Run(w, [Fetch, Resolve(true)] + more + [Persist(lost)])
      == Some(w3.(now := w3.now + 1, pc := Idle, status := if lost then w3.status else w3.pc.mem))
  {
    var first := [Fetch, Resolve(true)];
    FollowsTrace([w, w.(now := w.now + 1, pc := Fetched(w.status)), w.(now := w.now + 2, pc := Resolved(w.status))], first);
    RunConcat(w, first, more);
    Extend(w, first + more, w3, Persist(lost));
  }

  /** The record before is kept, or one is made in that time. */
  predicate Carries(before: Status, after: Status, late: bool, from: nat, until: nat) {
    if HasRecord(before) then KeepsRecord(before, after)
    else
      && HasRecord(after) && after.converged.value.late == late
      && from <= after.converged.value.at < until && !after.converged.value.raced
  }

  /** What a pass that finds a Job answers, told from the Job it found. */
  predicate Answered(before: Status, after: Status, found: JobState, from: nat, until: nat) {
    && (after.phase == Failed <==> found == Broken)
    && (after.phase == Completed <==> found == Complete)
    && (after.phase == Running <==> found == Active)
    && (if found == Active then after.completedAt == before.completedAt
        else after.completedAt.Some? && from <= after.completedAt.value < until)
    && after.jobNamed && after.startedAt == before.startedAt
  }

  /** What a creation leaves on the API server, where there was no Job. */
  predicate Created(reply: CreateReply, creations: nat, creations': nat, job: Option<Job>, from: nat, until: nat) {
    if reply == Error then creations' == creations && job.None?
    else creations' == creations + 1 && job.Some? && job.value.state == Active && from <= job.value.createdAt < until
  }

  /** Later bounds are weaker. */
  lemma BoundsWiden(before: Status, after: Status, found: JobState, late: bool, from: nat, until: nat, from': nat, until': nat)
    requires from' <= from && until <= until'
    ensures Answered(before, after, found, from, until) ==> Answered(before, after, found, from', until')
    ensures Carries(before, after, late, from, until) ==> Carries(before, after, late, from', until')
  {
  }

  lemma CreationWidens(reply: CreateReply, creations: nat, creations': nat, job: Option<Job>, from: nat, until: nat, from': nat, until': nat)
    requires from' <= from && until <= until' && Created(reply, creations, creations', job, from, until)
    ensures Created(reply, creations, creations', job, from', until')
  {
  }

  /** What a pass that finds none and creates one answers. */
  predicate Started(before: Status, after: Status, job: Option<Job>) {
    && job.Some? && after.phase == Running && after.jobNamed
    && after.startedAt == Some(job.value.createdAt) && after.completedAt == before.completedAt
  }

  /** The API server as the controller sees it. */
  class Api {
    var now: nat
    var status: Status
    var job: Option<Job>
    var artifact: Option<nat>
    var creations: nat

    ghost function View(pc: Pc): World
      reads this
    {
      World(now, status, job, pc, artifact, creations)
    }

    /** A pass without interference is a run of the machine.  What it answers: a
        finished backup has its Job reaped and is otherwise left alone; an unready
        cluster is Pending; without a Job one is created and the answer is Running;
        a Job that failed, completed or runs is answered Failed, Completed or
        Running, and only the first two set the completion time.  A lost write or a
        failed creation leaves the status as it was.  Where a status is written in a
        ready pass, it carries the old record, or a new one that is late exactly when
        there was a Job already. */
    method Reconcile(ready: bool, reply: CreateReply, lost: bool, reapFails: bool)
      returns (ghost trace: seq<Action>)
      modifies this
      ensures Run(old(View(Idle)), trace) == Some(View(Idle))
      ensures artifact == old(artifact) && old(now) < now
      ensures old(status.phase == Completed || status.phase == Failed) ==>
        && status == old(status) && creations == old(creations)
        && job == if old(status).jobNamed && !reapFails then None else old(job)
      ensures old(status.phase != Completed && status.phase != Failed) && !ready ==>
        && job == old(job) && creations == old(creations)
        && status == if lost then old(status) else old(status).(phase := Pending)
      ensures old(status.phase != Completed && status.phase != Failed) && ready && old(job).None? ==>
        && Created(reply, old(creations), creations, job, old(now), now)
        && (if reply == Accepted && !lost then
              Started(old(status), status, job) && Carries(old(status), status, false, old(now), now)
            else status == old(status))
      ensures old(status.phase != Completed && status.phase != Failed) && ready && old(job).Some? ==>
        && job == old(job) && creations == old(creations)
        && (if lost then status == old(status)
            else Answered(old(status), status, old(job).value.state, old(now), now) && Carries(old(status), status, true, old(now), now))
    {
      if Terminal(status) {
        trace := ReapFinished(reapFails);
      } else if ready {
        trace := ReadyPass(reply, lost);
      } else {
        trace := WaitingPass(lost);
      }
    }

    method ReapFinished(reapFails: bool) returns (ghost trace: seq<Action>)
      requires Terminal(status)
      modifies this`now, this`job
      ensures Run(old(View(Idle)), trace) == Some(View(Idle)) && old(now) < now
      ensures job == if status.jobNamed && !reapFails then None else old(job)
    {
      ghost var w0 := View(Idle);
      trace := [];
      Extend(w0, trace, w0, Fetch);
      now, trace := now + 1, trace + [Fetch];
      if status.jobNamed {
        Extend(w0, trace, View(Reaping), Reap(reapFails));
        if !reapFails { job := None; }
        now, trace := now + 1, trace + [Reap(reapFails)];
      }
    }

    method WaitingPass(lost: bool) returns (ghost trace: seq<Action>)
      requires !Terminal(status)
      modifies this`now, this`status
      ensures Run(old(View(Idle)), trace) == Some(View(Idle)) && old(now) < now
      ensures status == if lost then old(status) else old(status).(phase := Pending)
    {
      ghost var w0 := View(Idle);
      var sb := status;
      Extend(w0, [], w0, Fetch);
      now, trace := now + 1, [Fetch];
      Extend(w0, trace, View(Fetched(sb)), Resolve(false));
      now, trace := now + 1, trace + [Resolve(false)];
      sb := sb.(phase := Pending);
      Extend(w0, trace, View(Persisting(sb)), Persist(lost));
      if !lost { status := sb; }
      now, trace := now + 1, trace + [Persist(lost)];
    }

    method ReadyPass(reply: CreateReply, lost: bool) returns (ghost trace: seq<Action>)
      requires !Terminal(status)
      modifies this`now, this`status, this`job, this`creations
      ensures Run(old(View(Idle)), trace) == Some(View(Idle)) && old(now) < now
      ensures old(job).None? ==>
        && Created(reply, old(creations), creations, job, old(now), now)
        && (if reply == Accepted && !lost then
              Started(old(status), status, job) && Carries(old(status), status, false, old(now), now)
            else status == old(status))
      ensures old(job).Some? ==>
        && job == old(job) && creations == old(creations)
        && (if lost then status == old(status)
            else Answered(old(status), status, old(job).value.state, old(now), now) && Carries(old(status), status, true, old(now), now))
    {
      ghost var w0 := View(Idle);
      var mem := status;
      now := now + 2;
      ghost var w2 := View(Resolved(mem));
      var sb, dropped;
      sb, trace, dropped := RecordAndRun(mem, reply);
      ghost var w3 := View(if dropped then Idle else Persisting(sb));
      ReadyPassRuns(w0, trace, w3, lost);
      trace := [Fetch, Resolve(true)] + trace;
      if !dropped {
        if !lost { status := sb; }
        now, trace := now + 1, trace + [Persist(lost)];
      }
      if old(job).None? {
        CreationWidens(reply, old(creations), creations, job, w2.now, w3.now, old(now), now);
        BoundsWiden(mem, sb, Active, false, w2.now, w3.now, old(now), now);
      } else {
        BoundsWiden(mem, sb, old(job).value.state, true, w2.now, w3.now, old(now), now);
      }
    }

    /** The middle of the pass: read the Job, record, then create or observe. */
    method RecordAndRun(mem: Status, reply: CreateReply)
      returns (sb: Status, ghost trace: seq<Action>, dropped: bool)
      modifies this`now, this`job, this`creations
      ensures Run(old(View(Resolved(mem))), trace) == Some(View(if dropped then Idle else Persisting(sb)))
      ensures old(now) < now && Carries(mem, sb, old(job).Some?, old(now), now)
      ensures old(job).None? ==>
        && dropped == (reply != Accepted) && Created(reply, old(creations), creations, job, old(now), now)
        && (reply == Accepted ==> Started(mem, sb, job))
      ensures old(job).Some? ==>
        && !dropped && job == old(job) && creations == old(creations)
        && Answered(mem, sb, old(job).value.state, old(now), now)
    {
      ghost var w0 := View(Resolved(mem));
      var seen := job;
      Extend(w0, [], w0, GetJob);
      now, trace := now + 1, [GetJob];
      Extend(w0, trace, View(JobRead(mem, seen)), Record);
      sb := mem;
      if ShouldRecordSourceCircumstances(mem) {
        sb := sb.(converged := Some(Converged(seen.Some?, now, false)), suffixHealthy := true);
      }
      now, trace := now + 1, trace + [Record];
      ghost var taken := sb;
      if seen.None? {
        sb, dropped := CreateJob(sb, reply);
        Extend(w0, trace, old(World(now + 2, status, None, Recorded(taken, None), artifact, creations)), Create(reply));
        trace := trace + [Create(reply)];
      } else {
        dropped := false;
        sb := ObserveJob(sb, seen.value);
        Extend(w0, trace, old(World(now + 2, status, job, Recorded(taken, job), artifact, creations)), Observe);
        trace := trace + [Observe];
      }
    }

    method CreateJob(mem: Status, reply: CreateReply) returns (sb: Status, dropped: bool)
      requires job.None?
      modifies this`now, this`job, this`creations
      ensures Step(old(View(Recorded(mem, None))), Create(reply)) == Some(View(if dropped then Idle else Persisting(sb)))
      ensures now == old(now) + 1 && dropped == (reply != Accepted)
      ensures creations == old(creations) + (if reply == Error then 0 else 1)
      ensures job == if reply == Error then None else Some(Job(old(now), Active))
      ensures reply == Accepted ==> Started(mem, sb, job)
      ensures sb.converged == mem.converged && sb.suffixHealthy == mem.suffixHealthy
    {
      if reply != Error {
        job, creations := Some(Job(now, Active)), creations + 1;
      }
      dropped := reply != Accepted;
      sb := mem.(startedAt := Some(now), phase := Running, jobNamed := true);
      now := now + 1;
    }

    method ObserveJob(mem: Status, seen: Job) returns (sb: Status)
      modifies this`now
      ensures Step(old(View(Recorded(mem, Some(seen)))), Observe) == Some(View(Persisting(sb))) && now == old(now) + 1
      ensures Answered(mem, sb, seen.state, old(now), now)
      ensures sb.converged == mem.converged && sb.suffixHealthy == mem.suffixHealthy
    {
      match seen.state {
        case Complete => sb := mem.(completedAt := Some(now), phase := Completed, jobNamed := true);
        case Broken => sb := mem.(completedAt := Some(now), phase := Failed, jobNamed := true);
        case Active => sb := mem.(phase := Running, jobNamed := true);
      }
      now := now + 1;
    }
  }
}
