/** What every reachable state of the protocol keeps: who owns a task, what a row's
    status may be while it is owned, how creation order and dependencies relate, and how
    the attempts column counts. */
module TaskSafety {
  import opened Basics
  import opened TaskTable
  import opened TaskProtocol

  /** No task is executed by two workers, and workers exist only while the executor lives. */
  ghost predicate Exclusive(s: State) {
    && (forall a | a in s.pcs && s.pcs[a].Worker? :: s.live && s.pcs[a].id in s.born)
    && (forall a, b | a in s.pcs && b in s.pcs && s.pcs[a].Worker? && s.pcs[b].Worker? &&
        s.pcs[a].id == s.pcs[b].id :: a == b)
  }

  /** The statuses an owned row may have in each phase of its owner. */
  predicate PhaseAllows(phase: Phase, st: Status) {
    match phase
    case Executing => st.Running? || st.Canceled?
    case MustFail => st.Running? || st.Canceled?
    case MustPromote => st.Succeeded?
    case MustBlock(_) => st.Failed? || st.Canceled?
    case Panicked => st.Running? || Terminal(st)
  }

  /** An owned row is never queued, pending, blocked or scheduled. */
  ghost predicate OwnedRows(s: State) {
    forall a | a in s.pcs && s.pcs[a].Worker? && s.pcs[a].id in s.tasks ::
      PhaseAllows(s.pcs[a].phase, s.tasks[s.pcs[a].id].status)
  }

  /** Ids are never reused; a waiting task was created strictly after its upstream. */
  ghost predicate Ordered(s: State) {
    && s.tasks.Keys <= s.born.Keys
    && (forall id | id in s.born :: s.born[id] < |s.born|)
    && (forall p | p in s.tasks && (s.tasks[p].status.Pending? || s.tasks[p].status.Blocked?) ::
          s.tasks[p].dependsOn.Some? && s.tasks[p].dependsOn.value in s.born &&
              s.born[s.tasks[p].dependsOn.value] < s.born[p])
    && (forall a | a in s.pcs && s.pcs[a].Creating? ::
          s.pcs[a].up in s.born && (s.pcs[a].status.Queued? || s.pcs[a].status.Pending?))
  }

  /** A worker keeps its task until it goes idle, and gets one only by claiming a queued row. */
  lemma OwnerMove(s: State, l: Label)
    requires Enabled(s, l) && ActorOf(l).Some? && NextPc(s, l).Worker?
    ensures if l.ClaimNext?
            then s.live && NextPc(s, l).id == l.id && l.id in s.tasks && s.tasks[l.id].status.Queued?
            else s.PcOf(ActorOf(l).value).Worker? && s.PcOf(ActorOf(l).value).id == NextPc(s, l).id
  {
  }

  /** One goroutine moves: either it owns nothing afterwards, or what it owned before, or
      a task nobody owned. */
  lemma ExclusiveMove(s: State, t: State, a: Actor, pc: Pc)
    requires Exclusive(s) && t.pcs == s.pcs[a := pc] && s.born.Keys <= t.born.Keys
    requires s.live ==> t.live
    requires pc.Worker? ==> t.live && pc.id in t.born
    requires pc.Worker? ==>
             (s.PcOf(a).Worker? && s.PcOf(a).id == pc.id) ||
             forall b | b in s.pcs && s.pcs[b].Worker? :: s.pcs[b].id != pc.id
    ensures Exclusive(t)
  {
  }

  lemma ExclusiveStep(s: State, l: Label)
    requires Exclusive(s) && OwnedRows(s) && Ordered(s) && Enabled(s, l)
    ensures Exclusive(Apply(s, l))
  {
    var t := Apply(s, l);
    if ActorOf(l).Some? {
      var a, pc := ActorOf(l).value, NextPc(s, l);
      if pc.Worker? {
        OwnerMove(s, l);
        if l.ClaimNext? {
          assert forall b | b in s.pcs && s.pcs[b].Worker? :: s.pcs[b].id != pc.id;
        }
      }
      ExclusiveMove(s, t, a, pc);
    }
  }

  ghost predicate Inv(s: State) {
    Exclusive(s) && OwnedRows(s) && Ordered(s)
  }

  /** The only ways a step changes the status of a row that stays in the table. */
  predicate Moves(s: State, l: Label, id: Id, before: Status, after: Status)
    requires id in s.tasks
  {
    match l
    case ClaimNext(_, i, _) => id == i && before.Queued? && after.Running?
    case CompleteRun(a, _, _) => s.PcOf(a).Worker? && id == s.PcOf(a).id && after.Succeeded?
    case FailRun(a, _, _) => s.PcOf(a).Worker? && id == s.PcOf(a).id && after.Failed?
    case PanicFail(a, _, _) => s.PcOf(a).Worker? && id == s.PcOf(a).id && after.Failed?
    case TryRetry(a, _, _) => s.PcOf(a).Worker? && id == s.PcOf(a).id && before.Failed? && after.Queued?
    case TryLlmRetry(a, _) => s.PcOf(a).Worker? && id == s.PcOf(a).id && before.Failed? && after.Queued?
    case Promote(a, _) =>
      && s.PcOf(a).Worker? && s.tasks[id].dependsOn == Some(s.PcOf(a).id)
      && (before.Pending? || before.Blocked?) && after.Queued?
    case BlockUpdate(a, _, _) =>
      && (s.PcOf(a).Worker? || s.PcOf(a).Blocking?) && s.tasks[id].dependsOn == Some(s.PcOf(a).id)
      && before.Pending? && after.Blocked?
    case CancelTask(_, i, _) => id == i && (before.Queued? || before.Pending? || before.Running?) && after.Canceled?
    case CancelScheduledTask(a, _) => s.PcOf(a).Aborting? && id == s.PcOf(a).id && before.Scheduled? && after.Canceled?
    case UnblockTask(i, _) => id == i && before.Blocked? && after.Queued?
    case PromoteDue(i, _) => id == i && before.Scheduled? && after.Queued?
    case Start(_) => before.Running? && after.Queued?
    case _ => false
  }

  lemma RowStep(s: State, l: Label, id: Id)
    requires Enabled(s, l) && s.tasks.Keys <= s.born.Keys
    requires id in s.tasks && id in NextTasks(s, l)
    ensures NextTasks(s, l)[id].dependsOn == s.tasks[id].dependsOn
    ensures NextTasks(s, l)[id].attempts == s.tasks[id].attempts + (if l.ClaimNext? && l.id == id then 1 else 0)
    ensures NextTasks(s, l)[id].status == s.tasks[id].status ||
            Moves(s, l, id, s.tasks[id].status, NextTasks(s, l)[id].status)
  {
  }

  /** Rows appear only by insertion and disappear only by a purge. */
  lemma RowsStep(s: State, l: Label)
    requires Enabled(s, l)
    ensures NextTasks(s, l).Keys ==
            if l.Purge? then s.tasks.Keys - l.gone
            else if Inserts(l).Some? then s.tasks.Keys + {Inserts(l).value}
            else s.tasks.Keys
  {
  }

  lemma OwnedRowStep(s: State, l: Label, a: Actor)
    requires Exclusive(s) && OwnedRows(s) && s.tasks.Keys <= s.born.Keys && Enabled(s, l)
    requires var t := Apply(s, l); a in t.pcs && t.pcs[a].Worker? && t.pcs[a].id in t.tasks
    ensures var t := Apply(s, l); PhaseAllows(t.pcs[a].phase, t.tasks[t.pcs[a].id].status)
  {
    var t := Apply(s, l);
    var id := t.pcs[a].id;
    RowsStep(s, l);
    if ActorOf(l) == Some(a) {
      OwnerMove(s, l);
    }
    assert id in s.born && id in s.tasks;
    RowStep(s, l, id);
  }

  lemma OwnedRowsStep(s: State, l: Label)
    requires Inv(s) && Enabled(s, l)
    ensures OwnedRows(Apply(s, l))
  {
    forall a | a in Apply(s, l).pcs && Apply(s, l).pcs[a].Worker? && Apply(s, l).pcs[a].id in Apply(s, l).tasks
      ensures PhaseAllows(Apply(s, l).pcs[a].phase, Apply(s, l).tasks[Apply(s, l).pcs[a].id].status)
    {
      OwnedRowStep(s, l, a);
    }
  }

  lemma BornStep(s: State, l: Label, id: Id)
    requires Ordered(s) && Enabled(s, l)
    requires id in Apply(s, l).born
    ensures Apply(s, l).born[id] < |Apply(s, l).born|
    ensures id in s.born ==> Apply(s, l).born[id] == s.born[id]
    ensures id !in s.born ==> Inserts(l) == Some(id) && Apply(s, l).born[id] == |s.born|
  {
    if Inserts(l).Some? {
      assert s.born.Keys < Apply(s, l).born.Keys == s.born.Keys + {Inserts(l).value};
      assert |Apply(s, l).born.Keys| == |s.born.Keys| + 1;
    }
  }

  lemma WaitingRowStep(s: State, l: Label, p: Id)
    requires Inv(s) && Enabled(s, l)
    requires var t := Apply(s, l); p in t.tasks && (t.tasks[p].status.Pending? || t.tasks[p].status.Blocked?)
    ensures var t := Apply(s, l);
            t.tasks[p].dependsOn.Some? && t.tasks[p].dependsOn.value in t.born && p in t.born &&
                t.born[t.tasks[p].dependsOn.value] < t.born[p]
  {
    RowsStep(s, l);
    if Inserts(l) == Some(p) {
      BornStep(s, l, p);
      BornStep(s, l, s.PcOf(ActorOf(l).value).up);
    } else {
      RowStep(s, l, p);
      BornStep(s, l, p);
      BornStep(s, l, s.tasks[p].dependsOn.value);
    }
  }

  lemma CreatingStep(s: State, l: Label, a: Actor)
    requires Ordered(s) && Enabled(s, l)
    requires a in Apply(s, l).pcs && Apply(s, l).pcs[a].Creating?
    ensures var pc := Apply(s, l).pcs[a]; pc.up in Apply(s, l).born && (pc.status.Queued? || pc.status.Pending?)
  {
  }

  lemma OrderedStep(s: State, l: Label)
    requires Inv(s) && Enabled(s, l)
    ensures Ordered(Apply(s, l))
  {
    var t := Apply(s, l);
    assert t.tasks.Keys <= t.born.Keys by {
      RowsStep(s, l);
    }
    forall id | id in t.born ensures t.born[id] < |t.born| {
      BornStep(s, l, id);
    }
    forall p | p in t.tasks && (t.tasks[p].status.Pending? || t.tasks[p].status.Blocked?)
      ensures t.tasks[p].dependsOn.Some? && t.tasks[p].dependsOn.value in t.born &&
              t.born[t.tasks[p].dependsOn.value] < t.born[p]
    {
      WaitingRowStep(s, l, p);
    }
    forall a | a in t.pcs && t.pcs[a].Creating?
      ensures t.pcs[a].up in t.born && (t.pcs[a].status.Queued? || t.pcs[a].status.Pending?)
    {
      CreatingStep(s, l, a);
    }
  }

  // ----- counting claims -----

  function Claims(log: seq<Event>, id: Id): nat {
    if log == [] then 0
    else Claims(Front(log), id) + (if Last(log).Claimed? && Last(log).id == id then 1 else 0)
  }

  /** How often a restart put `id` back in the queue. */
  function Requeues(log: seq<Event>, id: Id): nat {
    if log == [] then 0
    else Requeues(Front(log), id) + (if Last(log).Requeued? && id in Last(log).ids then 1 else 0)
  }

  ghost predicate Counted(s: State, id: Id) {
    var claims, requeues := Claims(s.log, id), Requeues(s.log, id);
    if id !in s.born then claims == requeues == 0
    else if id !in s.tasks then claims <= requeues + 1
    else
      && s.tasks[id].attempts == claims
      && match s.tasks[id].status {
           case Running => claims == requeues + 1
           case Succeeded | Failed | Canceled => claims <= requeues + 1
           case _ => claims == requeues
         }
  }

  lemma LogStep(s: State, l: Label, id: Id)
    requires Enabled(s, l)
    ensures Claims(Apply(s, l).log, id) == Claims(s.log, id) + (if l.ClaimNext? && l.id == id then 1 else 0)
    ensures Requeues(Apply(s, l).log, id) ==
            Requeues(s.log, id) + (if l.Start? && id in RunningIds(s.tasks) then 1 else 0)
  {
    var t := Apply(s, l);
    if Logged(s, l) == [] {
      assert t.log == s.log;
    } else {
      assert Front(t.log) == s.log;
    }
  }

  /** RetryTask never finds a failed row: its caller still owns the row, which is
      running or canceled.  So it changes nothing and the task fails at once. */
  lemma RetryRefused(s: State, l: Label)
    requires Inv(s) && Enabled(s, l) && (l.TryRetry? || l.TryLlmRetry?)
    ensures NextTasks(s, l) == s.tasks
    ensures NextPc(s, l) == if l.TryRetry? then s.PcOf(l.a).(phase := MustFail) else Idle
  {
  }

  lemma CountedStep(s: State, l: Label, id: Id)
    requires Inv(s) && Enabled(s, l) && Counted(s, id)
    ensures Counted(Apply(s, l), id)
  {
    LogStep(s, l, id);
    RowsStep(s, l);
    if id in s.tasks && id in NextTasks(s, l) {
      RowStep(s, l, id);
      if l.TryRetry? || l.TryLlmRetry? {
        RetryRefused(s, l);
      }
    }
  }

  // ----- every run -----

  lemma {:induction false} Reachable(maxRetries: nat, run: seq<Label>)
    requires Legal(maxRetries, run)
    ensures Inv(After(maxRetries, run))
    ensures forall id :: Counted(After(maxRetries, run), id)
    decreases |run|
  {
    if run != [] {
      var s, l := After(maxRetries, Front(run)), Last(run);
      Reachable(maxRetries, Front(run));
      ExclusiveStep(s, l);
      OwnedRowsStep(s, l);
      OrderedStep(s, l);
      forall id ensures Counted(Apply(s, l), id) {
        CountedStep(s, l, id);
      }
    }
  }

  /** In every run a task has at most one executor, and while it has one its row is not
      waiting to be claimed, promoted, unblocked or released by time. */
  lemma OneExecutor(maxRetries: nat, run: seq<Label>, a: Actor, b: Actor)
    requires Legal(maxRetries, run)
    requires var s := After(maxRetries, run); s.PcOf(a).Worker? && s.PcOf(b).Worker? && s.PcOf(a).id == s.PcOf(b).id
    ensures a == b
    ensures var s := After(maxRetries, run);
            s.PcOf(a).id in s.tasks ==> s.tasks[s.PcOf(a).id].status.Running? || Terminal(s.tasks[s.PcOf(a).id].status)
  {
    Reachable(maxRetries, run);
  }

  /** In every run the attempts column is the number of claims in the history, which
      never exceeds one more than the number of restarts that re-queued the task. */
  lemma AttemptsCountClaims(maxRetries: nat, run: seq<Label>, id: Id)
    requires Legal(maxRetries, run)
    ensures var s := After(maxRetries, run);
            && Claims(s.log, id) <= 1 + Requeues(s.log, id)
            && (id in s.tasks ==> s.tasks[id].attempts == Claims(s.log, id))
  {
    Reachable(maxRetries, run);
    assert Counted(After(maxRetries, run), id);
  }

  /** Over whole runs: no retry, deterministic or granted by the LLM, ever re-queues anything. */
  lemma RetryIsDead(maxRetries: nat, run: seq<Label>)
    requires run != [] && Legal(maxRetries, run) && (Last(run).TryRetry? || Last(run).TryLlmRetry?)
    ensures After(maxRetries, run).tasks == After(maxRetries, Front(run)).tasks
    ensures Last(run).TryRetry? ==> InPhase(After(maxRetries, run), Last(run).a, MustFail)
    ensures Last(run).TryLlmRetry? ==> After(maxRetries, run).PcOf(Last(run).a).Idle?
  {
    Reachable(maxRetries, Front(run));
    RetryRefused(After(maxRetries, Front(run)), Last(run));
  }

  // ----- the other columns -----

  /** Worker `a` is executing task `id`. */
  predicate Executes(s: State, a: Actor, id: Id) {
    InPhase(s, a, Executing) && s.PcOf(a).id == id
  }

  /** Who a task is, and when it is due, never changes; its session only by its worker's
      Annotate step, its result only by the worker's completion, and its start time by a
      claim or, if the task was running, by a restart. */
  lemma ColumnsStep(s: State, l: Label, id: Id)
    requires Enabled(s, l) && s.tasks.Keys <= s.born.Keys && id in s.tasks && id in NextTasks(s, l)
    ensures var t, u := s.tasks[id], NextTasks(s, l)[id];
            && u.createdAt == t.createdAt && u.cron == t.cron && u.scheduledAt == t.scheduledAt
            && u.lastFiredAt == t.lastFiredAt
            && u.sessionId == (if l.Annotate? && Executes(s, l.a, id) then l.session else t.sessionId)
            && u.result == (if l.CompleteRun? && Executes(s, l.a, id) then l.result else t.result)
            && u.startedAt == if l.ClaimNext? && l.id == id then Some(l.now)
                              else if l.Start? && t.status.Running? then None else t.startedAt
  {
  }

  /** A worker that executes `id` wrote this session into the row. */
  ghost predicate SessionWritten(maxRetries: nat, run: seq<Label>, id: Id, session: string)
    requires Legal(maxRetries, run)
    decreases |run|
  {
    run != [] &&
    ((Last(run).Annotate? && Executes(After(maxRetries, Front(run)), Last(run).a, id) && Last(run).session == session)
     || SessionWritten(maxRetries, Front(run), id, session))
  }

  /** Over whole runs: the session of a row is the one it was inserted with, or one that a
      worker executing the task wrote. */
  lemma {:induction false} SessionIsOwners(maxRetries: nat, run: seq<Label>, id: Id, k: nat)
    requires Legal(maxRetries, run) && k <= |run| && Legal(maxRetries, run[..k])
    requires id in After(maxRetries, run[..k]).tasks && id in After(maxRetries, run).tasks
    ensures var now := After(maxRetries, run).tasks[id].sessionId;
            now == After(maxRetries, run[..k]).tasks[id].sessionId || SessionWritten(maxRetries, run, id, now)
    decreases |run|
  {
    if k == |run| {
      assert run[..k] == run;
    } else {
      var s, l := After(maxRetries, Front(run)), Last(run);
      assert Front(run)[..k] == run[..k];
      Reachable(maxRetries, Front(run));
      RowsStep(s, l);
      BornStays(maxRetries, Front(run), k);
      SessionIsOwners(maxRetries, Front(run), id, k);
      ColumnsStep(s, l, id);
    }
  }

  lemma {:induction false} BornStays(maxRetries: nat, run: seq<Label>, k: nat)
    requires Legal(maxRetries, run) && k <= |run| && Legal(maxRetries, run[..k])
    ensures After(maxRetries, run[..k]).born.Keys <= After(maxRetries, run).born.Keys
    ensures After(maxRetries, run[..k]).tasks.Keys <= After(maxRetries, run).born.Keys
    decreases |run|
  {
    Reachable(maxRetries, run[..k]);
    if k == |run| {
      assert run[..k] == run;
    } else {
      assert Front(run)[..k] == run[..k];
      BornStays(maxRetries, Front(run), k);
    }
  }

  /** What the columns of a row say in each status. */
  predicate Shaped(t: Task) {
    match t.status
    case Running => t.startedAt.Some? && t.attempts > 0 && t.error == "" && t.result == ""
    case Queued => t.startedAt.None? && t.error == "" && t.result == ""
    case Pending => t.startedAt.None? && t.attempts == 0 && t.error == "" && t.result == "" && t.finishedAt.None?
    case Blocked => t.startedAt.None? && t.attempts == 0 && t.result == "" && t.finishedAt.Some?
    case Scheduled => t.startedAt.None? && t.attempts == 0 && t.error == "" && t.result == "" && t.finishedAt.None?
    case _ => t.finishedAt.Some? && (t.startedAt.Some? ==> t.attempts > 0)
  }

  lemma ShapedStep(s: State, l: Label, id: Id)
    requires Inv(s) && Enabled(s, l) && id in NextTasks(s, l) && (id in s.tasks ==> Shaped(s.tasks[id]))
    ensures Shaped(NextTasks(s, l)[id])
  {
    RowsStep(s, l);
    if l.TryRetry? || l.TryLlmRetry? {
      RetryRefused(s, l);
    }
  }

  /** In every run every row is shaped as its status says. */
  lemma {:induction false} RowsAreShaped(maxRetries: nat, run: seq<Label>, id: Id)
    requires Legal(maxRetries, run) && id in After(maxRetries, run).tasks
    ensures Shaped(After(maxRetries, run).tasks[id])
    decreases |run|
  {
    if run != [] {
      var s, l := After(maxRetries, Front(run)), Last(run);
      Reachable(maxRetries, Front(run));
      if id in s.tasks {
        RowsAreShaped(maxRetries, Front(run), id);
      }
      ShapedStep(s, l, id);
    }
  }

  /** createTask, between its look at the upstream and its insertion, has looked at one that
      can still succeed, and will queue the task exactly if it had succeeded by then. */
  lemma {:induction false} CreatingSinceRead(maxRetries: nat, run: seq<Label>, a: Actor) returns (k: nat)
    requires Legal(maxRetries, run) && After(maxRetries, run).PcOf(a).Creating?
    ensures k < |run| && Legal(maxRetries, run[..k])
    ensures var pc, seen := After(maxRetries, run).PcOf(a), After(maxRetries, run[..k]).tasks;
            && run[k] == ReadUpstream(a, pc.up) && pc.up in seen
            && seen[pc.up].status !in {Failed, Canceled, Blocked}
            && pc.status == if seen[pc.up].status == Succeeded then Queued else Pending
    decreases |run|
  {
    var s, l := After(maxRetries, Front(run)), Last(run);
    if s.PcOf(a).Creating? && ActorOf(l) != Some(a) {
      k := CreatingSinceRead(maxRetries, Front(run), a);
      assert Front(run)[..k] == run[..k];
    } else {
      k := |run| - 1;
      assert run[..k] == Front(run);
    }
  }

  // ----- when the LLM is asked -----

  /** A worker counts no more attempts than the history has claims of its task. */
  ghost predicate WorkerCounted(s: State, a: Actor) {
    s.PcOf(a).Worker? ==> s.PcOf(a).attempts <= Claims(s.log, s.PcOf(a).id)
  }

  lemma WorkerCountedStep(s: State, l: Label, a: Actor)
    requires Enabled(s, l) && WorkerCounted(s, a) && (l.ClaimNext? ==> Counted(s, l.id) && l.id in s.born)
    ensures WorkerCounted(Apply(s, l), a)
  {
    var pc := Apply(s, l).PcOf(a);
    if pc.Worker? {
      LogStep(s, l, pc.id);
      if ActorOf(l) == Some(a) {
        OwnerMove(s, l);
      }
    }
  }

  lemma {:induction false} WorkersCounted(maxRetries: nat, run: seq<Label>, a: Actor)
    requires Legal(maxRetries, run)
    ensures WorkerCounted(After(maxRetries, run), a) && After(maxRetries, run).maxRetries == maxRetries
    decreases |run|
  {
    if run != [] {
      Reachable(maxRetries, Front(run));
      WorkersCounted(maxRetries, Front(run), a);
      WorkerCountedStep(After(maxRetries, Front(run)), Last(run), a);
    }
  }

  /** In every run the LLM is consulted about a task only after at least `maxRetries` restarts
      have re-queued it, since retries never do. */
  lemma LlmAskedAfterRestarts(maxRetries: nat, run: seq<Label>)
    requires run != [] && Legal(maxRetries, run) && Last(run).TryLlmRetry?
    ensures var s := After(maxRetries, Front(run));
            s.PcOf(Last(run).a).Worker? && Requeues(s.log, s.PcOf(Last(run).a).id) >= maxRetries
  {
    var s, a := After(maxRetries, Front(run)), Last(run).a;
    WorkersCounted(maxRetries, Front(run), a);
    AttemptsCountClaims(maxRetries, Front(run), s.PcOf(a).id);
  }

  // ----- what the missing guards allow -----

  ghost predicate Owned(s: State, id: Id) {
    exists a :: a in s.pcs && s.pcs[a].Worker? && s.pcs[a].id == id
  }

  /** A finished row changes status exactly when its owner, still executing a canceled
      task or unwinding from a panic, writes another outcome over it. */
  lemma FinishedRowOverwritten(s: State, l: Label, id: Id)
    requires OwnedRows(s) && s.tasks.Keys <= s.born.Keys && Enabled(s, l)
    requires id in s.tasks && Terminal(s.tasks[id].status) && id in Apply(s, l).tasks
    ensures Apply(s, l).tasks[id].status != s.tasks[id].status <==>
            (l.CompleteRun? || l.FailRun? || l.PanicFail?) && s.PcOf(l.a).id == id &&
            s.tasks[id].status != (if l.CompleteRun? then Succeeded else Failed)
  {
    RowStep(s, l, id);
  }

  /** A running row without a worker while the executor lives: nothing in the process
      will ever finish it. */
  ghost predicate Leaked(s: State, id: Id) {
    s.live && id in s.tasks && s.tasks[id].status.Running? && !Owned(s, id)
  }

  lemma OwnedAfter(s: State, l: Label, id: Id)
    requires Enabled(s, l)
    ensures Owned(Apply(s, l), id) <==>
            !l.Crash? && ((exists b :: b in s.pcs && Some(b) != ActorOf(l) && s.pcs[b].Worker? && s.pcs[b].id == id) ||
            (ActorOf(l).Some? && NextPc(s, l).Worker? && NextPc(s, l).id == id))
  {
    var t := Apply(s, l);
    if b :| b in s.pcs && Some(b) != ActorOf(l) && s.pcs[b].Worker? && s.pcs[b].id == id && !l.Crash? {
      assert b in t.pcs && t.pcs[b] == s.pcs[b];
    }
    if ActorOf(l).Some? && NextPc(s, l).Worker? && NextPc(s, l).id == id {
      assert t.pcs[ActorOf(l).value] == NextPc(s, l);
    }
  }

  /** A worker lets go of a row that stays running only by following the LLM's verdict. */
  lemma LetsGoOfRunning(s: State, l: Label, id: Id)
    requires Inv(s) && Enabled(s, l) && ActorOf(l).Some? && !NextPc(s, l).Worker?
    requires s.PcOf(ActorOf(l).value).Worker? && s.PcOf(ActorOf(l).value).id == id
    requires id in s.tasks && s.tasks[id].status.Running? && id in NextTasks(s, l) &&
             NextTasks(s, l)[id].status.Running?
    ensures l.TryLlmRetry?
  {
  }

  lemma LeakedAfterIsRunningBefore(s: State, l: Label, id: Id)
    requires Inv(s) && Enabled(s, l) && !Leaked(s, id) && Leaked(Apply(s, l), id)
    ensures s.live && id in s.tasks && s.tasks[id].status.Running? && ActorOf(l).Some? && !l.Crash?
    ensures s.PcOf(ActorOf(l).value).Worker? && s.PcOf(ActorOf(l).value).id == id && !NextPc(s, l).Worker?
  {
    RowsStep(s, l);
    OwnedAfter(s, l, id);
    if id in s.tasks {
      RowStep(s, l, id);
    }
    if ActorOf(l).Some? && NextPc(s, l).Worker? {
      OwnerMove(s, l);
    }
  }

  /** A running row is leaked exactly by an LLM verdict to retry: the refused RetryTask is
      ignored and the worker drops the task. */
  lemma LeakedExactlyByLlmRetry(s: State, l: Label, id: Id)
    requires Inv(s) && Enabled(s, l) && !Leaked(s, id)
    ensures Leaked(Apply(s, l), id) <==>
            l.TryLlmRetry? && s.PcOf(l.a).id == id && id in s.tasks && s.tasks[id].status.Running?
  {
    if Leaked(Apply(s, l), id) {
      LeakedAfterIsRunningBefore(s, l, id);
      LetsGoOfRunning(s, l, id);
    } else if l.TryLlmRetry? && s.PcOf(l.a).id == id && id in s.tasks && s.tasks[id].status.Running? {
      RetryRefused(s, l);
      OwnedAfter(s, l, id);
      assert false;
    }
  }

  /** A leaked row stays leaked until a client cancels it or the process goes down. */
  lemma LeakedUntilCancelOrCrash(s: State, l: Label, id: Id)
    requires Inv(s) && Enabled(s, l) && Leaked(s, id)
    ensures !Leaked(Apply(s, l), id) <==> l.Crash? || (l.CancelTask? && l.id == id)
  {
    RowsStep(s, l);
    OwnedAfter(s, l, id);
    if id in NextTasks(s, l) {
      RowStep(s, l, id);
    }
    if ActorOf(l).Some? && NextPc(s, l).Worker? {
      OwnerMove(s, l);
    }
  }
}
