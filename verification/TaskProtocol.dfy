/** The orchestration protocol: workers, HTTP handlers, the scheduler, the janitor and
    crash recovery interleave the statements of TaskTable on one shared table.

    A state records the table and, for every goroutine, how far it has come between two
    statements; a label names one atomic step together with the choices it makes.  A run
    is a sequence of labels, each enabled where it happens. */
module TaskProtocol {
  import opened Basics
  import opened TaskTable

  type Actor = nat

  /** How far a worker has come with the task it claimed. */
  datatype Phase =
    | Executing
    | MustPromote             // CompleteTask done, PromotePendingDependents next
    | MustFail                // RetryTask refused, FailTask next
    | MustBlock(found: bool)  // BlockDependents next: its select, then (found) its update
    | Panicked                // recovered from a panic, FailTask next

  datatype Pc =
    | Idle
    | Worker(id: Id, attempts: nat, phase: Phase)
    | Aborting(id: Id)               // CancelTask changed nothing, CancelScheduledTask next
    | Blocking(id: Id, found: bool)  // CancelTask changed the row, BlockDependents next
    | Creating(up: Id, status: Status)  // createTask has read its upstream, the INSERT is next

  /** History: who claimed what, and which rows a restart put back in the queue. */
  datatype Event = Claimed(who: Actor, id: Id) | Requeued(ids: set<Id>)

  /** `born` numbers every id ever inserted in creation order; `live` tells whether the
      executor has started since the last crash. */
  datatype State = State(tasks: Table, pcs: map<Actor, Pc>, live: bool, born: map<Id, nat>, log: seq<Event>,
          maxRetries: nat) {
    function PcOf(a: Actor): Pc {
      if a in pcs then pcs[a] else Idle
    }
  }

  datatype Label =
    | ClaimNext(a: Actor, id: Id, now: int)
    | Annotate(a: Actor, session: string, now: int)     // SetTaskSession / UpdateTaskProgress
    | CompleteRun(a: Actor, result: string, now: int)
    | Promote(a: Actor, now: int)
    | SeeCanceled(a: Actor)
    | TryRetry(a: Actor, backoff: nat, now: int)        // the error of RetryTask is checked
    | TryLlmRetry(a: Actor, now: int)                   // the error of RetryTask is ignored
    | FailRun(a: Actor, error: string, now: int)
    | Panic(a: Actor)
    | PanicFail(a: Actor, error: string, now: int)
    | BlockSelect(a: Actor)
    | BlockUpdate(a: Actor, reason: string, now: int)
    | CancelTask(a: Actor, id: Id, now: int)
    | CancelScheduledTask(a: Actor, now: int)
    | UnblockTask(id: Id, now: int)
    | ReadUpstream(a: Actor, up: Id)
    | InsertDependent(a: Actor, id: Id, session: string, at: Option<int>, now: int)
    | InsertQueued(id: Id, session: string, at: Option<int>, now: int)
    | InsertScheduled(id: Id, session: string, dependsOn: Option<Id>, at: Option<int>, cron: string, now: int)
    | PromoteDue(id: Id, now: int)
    | Purge(cutoff: int, limit: nat, gone: set<Id>)
    | Crash
    | Start(now: int)

  predicate AcceptsDependents(s: Status) {
    s.Succeeded? || s.Queued? || s.Running? || s.Pending? || s.Scheduled?
  }

  predicate InPhase(s: State, a: Actor, phase: Phase) {
    s.PcOf(a).Worker? && s.PcOf(a).phase == phase
  }

  /** An actor about to run a statement of BlockDependents. */
  predicate IsBlocker(pc: Pc, found: bool) {
    (pc.Worker? && pc.phase == MustBlock(found)) || (pc.Blocking? && pc.found == found)
  }

  function WithFound(pc: Pc): Pc
    requires IsBlocker(pc, false)
  {
    match pc
    case Worker(id, attempts, _) => Worker(id, attempts, MustBlock(true))
    case Blocking(id, _) => Blocking(id, true)
  }

  ghost predicate Enabled(s: State, l: Label) {
    match l
    case ClaimNext(a, id, now) => s.live && s.PcOf(a).Idle? && IsNextClaim(s.tasks, id, now)
    case Annotate(a, _, _) => InPhase(s, a, Executing)
    case CompleteRun(a, _, _) => InPhase(s, a, Executing)
    case Promote(a, _) => InPhase(s, a, MustPromote)
    case SeeCanceled(a) => InPhase(s, a, Executing) && s.PcOf(a).id in s.tasks && s.tasks[s.PcOf(a).id].status.Canceled?
    case TryRetry(a, _, _) => InPhase(s, a, Executing) && s.PcOf(a).attempts <= s.maxRetries
    case TryLlmRetry(a, _) => InPhase(s, a, Executing) && s.PcOf(a).attempts > s.maxRetries
    case FailRun(a, _, _) => InPhase(s, a, MustFail) || (InPhase(s, a, Executing) && s.PcOf(a).attempts > s.maxRetries)
    case Panic(a) => s.PcOf(a).Worker? && !s.PcOf(a).phase.Panicked?
    case PanicFail(a, _, _) => InPhase(s, a, Panicked)
    case BlockSelect(a) => IsBlocker(s.PcOf(a), false)
    case BlockUpdate(a, _, _) => IsBlocker(s.PcOf(a), true)
    case CancelTask(a, _, _) => s.PcOf(a).Idle?
    case CancelScheduledTask(a, _) => s.PcOf(a).Aborting?
    case UnblockTask(_, _) => true
    case ReadUpstream(a, up) => s.PcOf(a).Idle? && up in s.tasks && AcceptsDependents(s.tasks[up].status)
    case InsertDependent(a, id, _, _, _) => s.PcOf(a).Creating? && id !in s.born
    case InsertQueued(id, _, _, _) => id !in s.born
    case InsertScheduled(id, _, _, _, _, _) => id !in s.born
    case PromoteDue(id, now) =>
      id !in s.tasks ||
      (s.tasks[id].cron == "" && s.tasks[id].scheduledAt.Some? && s.tasks[id].scheduledAt.value <= now)
    case Purge(cutoff, limit, gone) => IsPurgeChoice(s.tasks, cutoff, limit, gone)
    case Crash => true
    case Start(_) => !s.live
  }

  /** The goroutine whose program counter a step moves. */
  function ActorOf(l: Label): Option<Actor> {
    match l
    case ClaimNext(a, _, _) => Some(a)
    case CompleteRun(a, _, _) => Some(a)
    case Promote(a, _) => Some(a)
    case SeeCanceled(a) => Some(a)
    case TryRetry(a, _, _) => Some(a)
    case TryLlmRetry(a, _) => Some(a)
    case FailRun(a, _, _) => Some(a)
    case Panic(a) => Some(a)
    case PanicFail(a, _, _) => Some(a)
    case BlockSelect(a) => Some(a)
    case BlockUpdate(a, _, _) => Some(a)
    case CancelTask(a, _, _) => Some(a)
    case CancelScheduledTask(a, _) => Some(a)
    case ReadUpstream(a, _) => Some(a)
    case InsertDependent(a, _, _, _, _) => Some(a)
    case _ => None
  }

  /** Where that goroutine stands afterwards. */
  ghost function NextPc(s: State, l: Label): Pc
    requires Enabled(s, l) && ActorOf(l).Some?
  {
    var pc := s.PcOf(ActorOf(l).value);
    match l
    case ClaimNext(_, id, _) => Worker(id, s.tasks[id].attempts + 1, Executing)
    case CompleteRun(_, _, _) => pc.(phase := MustPromote)
    case SeeCanceled(_) => pc.(phase := MustBlock(false))
    case TryRetry(_, _, _) => if Retryable(s.tasks, pc.id) then Idle else pc.(phase := MustFail)
    case FailRun(_, _, _) => pc.(phase := MustBlock(false))
    case Panic(_) => pc.(phase := Panicked)
    case BlockSelect(_) => if Waiters(s.tasks, pc.id) == {} then Idle else WithFound(pc)
    case CancelTask(_, id, _) => if Cancelable(s.tasks, id) then Blocking(id, false) else Aborting(id)
    case ReadUpstream(_, up) => Creating(up, if s.tasks[up].status.Succeeded? then Queued else Pending)
    case _ => Idle
  }

  /** The table after the step's statement. */
  ghost function NextTasks(s: State, l: Label): Table
    requires Enabled(s, l)
  {
    match l
    case ClaimNext(_, id, now) => Claim(s.tasks, id, now)
    case Annotate(a, session, now) =>
      var id := s.PcOf(a).id;
      if id in s.tasks then s.tasks[id := s.tasks[id].(sessionId := session, updatedAt := now)] else s.tasks
    case CompleteRun(a, result, now) => Complete(s.tasks, s.PcOf(a).id, result, now)
    case Promote(a, now) => PromoteDependents(s.tasks, s.PcOf(a).id, now)
    case TryRetry(a, backoff, now) => Retry(s.tasks, s.PcOf(a).id, backoff, now)
    case TryLlmRetry(a, now) => Retry(s.tasks, s.PcOf(a).id, 60, now)
    case FailRun(a, error, now) => Fail(s.tasks, s.PcOf(a).id, error, now)
    case PanicFail(a, error, now) => Fail(s.tasks, s.PcOf(a).id, error, now)
    case BlockUpdate(a, reason, now) => BlockDependents(s.tasks, s.PcOf(a).id, reason, now)
    case CancelTask(_, id, now) => Cancel(s.tasks, id, now)
    case CancelScheduledTask(a, now) => CancelScheduled(s.tasks, s.PcOf(a).id, now)
    case UnblockTask(id, now) => Unblock(s.tasks, id, now)
    case InsertDependent(a, id, session, at, now) =>
      s.tasks[id := NewRow(session, Some(s.PcOf(a).up), s.PcOf(a).status, at, "", now)]
    case InsertQueued(id, session, at, now) => s.tasks[id := NewRow(session, None, Queued, at, "", now)]
    case InsertScheduled(id, session, dependsOn, at, cron, now) =>
      s.tasks[id := NewRow(session, dependsOn, Scheduled, at, cron, now)]
    case PromoteDue(id, now) => PromoteScheduled(s.tasks, id, now)
    case Purge(_, _, gone) => s.tasks - gone
    case Start(now) => RecoverRunning(s.tasks, now)
    case _ => s.tasks
  }

  function Inserts(l: Label): Option<Id> {
    match l
    case InsertDependent(_, id, _, _, _) => Some(id)
    case InsertQueued(id, _, _, _) => Some(id)
    case InsertScheduled(id, _, _, _, _, _) => Some(id)
    case _ => None
  }

  function Logged(s: State, l: Label): seq<Event> {
    match l
    case ClaimNext(a, id, _) => [Claimed(a, id)]
    case Start(_) => [Requeued(RunningIds(s.tasks))]
    case _ => []
  }

  ghost function Apply(s: State, l: Label): State
    requires Enabled(s, l)
  {
    State(
      NextTasks(s, l),
      if l.Crash? then map[] else if ActorOf(l).Some? then s.pcs[ActorOf(l).value := NextPc(s, l)] else s.pcs,
      (s.live && !l.Crash?) || l.Start?,
      if Inserts(l).Some? then s.born[Inserts(l).value := |s.born|] else s.born,
      s.log + Logged(s, l),
      s.maxRetries)
  }

  // ----- runs -----

  function Initial(maxRetries: nat): State {
    State(map[], map[], false, map[], [], maxRetries)
  }

  ghost predicate Legal(maxRetries: nat, run: seq<Label>)
    decreases |run|, 0
  {
    run == [] || (Legal(maxRetries, Front(run)) && Enabled(After(maxRetries, Front(run)), Last(run)))
  }

  ghost function After(maxRetries: nat, run: seq<Label>): State
    requires Legal(maxRetries, run)
    decreases |run|, 1
  {
    if run == [] then Initial(maxRetries) else Apply(After(maxRetries, Front(run)), Last(run))
  }

  function Front<T>(q: seq<T>): seq<T>
    requires q != []
  {
    q[..|q| - 1]
  }

  function Last<T>(q: seq<T>): T
    requires q != []
  {
    q[|q| - 1]
  }

  // ----- building runs -----

  lemma Extend(maxRetries: nat, run: seq<Label>, l: Label)
    requires Legal(maxRetries, run) && Enabled(After(maxRetries, run), l)
    ensures Legal(maxRetries, run + [l]) && After(maxRetries, run + [l]) == Apply(After(maxRetries, run), l)
  {
    assert Front(run + [l]) == run && Last(run + [l]) == l;
  }

  lemma Begin(maxRetries: nat, l: Label)
    requires Enabled(Initial(maxRetries), l)
    ensures Legal(maxRetries, [l]) && After(maxRetries, [l]) == Apply(Initial(maxRetries), l)
  {
    assert [] + [l] == [l];
    Extend(maxRetries, [], l);
  }

  lemma Continue(maxRetries: nat, run: seq<Label>, s: State, l: Label, t: State) returns (longer: seq<Label>)
    requires Legal(maxRetries, run) && After(maxRetries, run) == s && Enabled(s, l) && Apply(s, l) == t
    ensures longer == run + [l] && Legal(maxRetries, longer) && After(maxRetries, longer) == t
  {
    longer := run + [l];
    Extend(maxRetries, run, l);
  }
}
