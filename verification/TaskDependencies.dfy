/** The dependency graph under arbitrary interleaving: when a task that waits for its
    upstream can be left behind, and why it otherwise never is. */
module TaskDependencies {
  import opened Basics
  import opened TaskTable
  import opened TaskProtocol
  import opened TaskSafety

  ghost predicate Waiting(s: State, p: Id, u: Id) {
    p in s.tasks && WaitsFor(s.tasks[p], u)
  }

  /** The upstream still has its own way to finish. */
  ghost predicate UpstreamActive(s: State, u: Id) {
    u in s.tasks && Active(s.tasks[u].status)
  }

  /** A goroutine that is on its way to resolve the dependents of `u`: the worker that
      executes it, until a panic, or the handler that canceled it. */
  predicate Wakes(pc: Pc, u: Id) {
    (pc.Worker? && pc.id == u && !pc.phase.Panicked?) || (pc.Blocking? && pc.id == u)
  }

  ghost function Wakers(s: State, u: Id): set<Actor> {
    set a | a in s.pcs && Wakes(s.pcs[a], u)
  }

  /** `p` waits for an upstream that is finished or gone, with nobody left to wake it. */
  ghost predicate Stuck(s: State, p: Id, u: Id) {
    Waiting(s, p, u) && !UpstreamActive(s, u) && Wakers(s, u) == {}
  }

  /** Who can still wake the dependents of `u` after a step. */
  lemma WakersStep(s: State, l: Label, u: Id)
    requires Enabled(s, l)
    ensures Wakers(Apply(s, l), u) ==
            if l.Crash? then {}
            else if ActorOf(l).None? then Wakers(s, u)
            else if Wakes(NextPc(s, l), u) then Wakers(s, u) + {ActorOf(l).value}
            else Wakers(s, u) - {ActorOf(l).value}
  {
  }

  /** The exact circumstances in which a step leaves `p` behind, as a condition on the
      state before it. */
  ghost predicate Strands(s: State, l: Label, p: Id, u: Id) {
    match l
    // createTask read an active upstream that has been resolved since
    case InsertDependent(a, id, _, _, _) =>
      p == id && s.PcOf(a) == Creating(u, Pending) && !UpstreamActive(s, u) && Wakers(s, u) == {}
    // canceling a scheduled upstream does not block its dependents
    case CancelScheduledTask(a, _) =>
      s.PcOf(a) == Aborting(u) && Waiting(s, p, u) && IsScheduled(s.tasks, u) && Wakers(s, u) == {}
    // panic recovery fails the row but does not block its dependents
    case PanicFail(a, _, _) =>
      && InPhase(s, a, Panicked) && s.PcOf(a).id == u
      && Waiting(s, p, u) && UpstreamActive(s, u) && Wakers(s, u) == {}
    // a panic, or dropping a canceled task on the LLM's verdict, loses the last waker
    case Panic(a) => Waiting(s, p, u) && !UpstreamActive(s, u) && Wakers(s, u) == {a}
    case TryLlmRetry(a, _) => Waiting(s, p, u) && !UpstreamActive(s, u) && Wakers(s, u) == {a}
    // a crash between the upstream's last status and the resolution of its dependents
    case Crash => Waiting(s, p, u) && !UpstreamActive(s, u) && Wakers(s, u) != {}
    case _ => false
  }

  /** The steps that finish a task. */
  predicate Finishes(s: State, l: Label, u: Id) {
    match l
    case CompleteRun(a, _, _) => s.PcOf(a).Worker? && s.PcOf(a).id == u
    case FailRun(a, _, _) => s.PcOf(a).Worker? && s.PcOf(a).id == u
    case PanicFail(a, _, _) => s.PcOf(a).Worker? && s.PcOf(a).id == u
    case CancelTask(_, id, _) => id == u && Cancelable(s.tasks, u)
    case CancelScheduledTask(a, _) => s.PcOf(a).Aborting? && s.PcOf(a).id == u && IsScheduled(s.tasks, u)
    case _ => false
  }

  lemma UpstreamFinishes(s: State, l: Label, u: Id)
    requires OwnedRows(s) && s.tasks.Keys <= s.born.Keys && Enabled(s, l) && UpstreamActive(s, u)
    ensures !UpstreamActive(Apply(s, l), u) <==> Finishes(s, l, u)
  {
    RowsStep(s, l);
    if u in NextTasks(s, l) {
      RowStep(s, l, u);
    }
  }

  /** A task that finished, or was deleted, never becomes active again. */
  lemma NeverRevived(s: State, l: Label, u: Id)
    requires OwnedRows(s) && s.tasks.Keys <= s.born.Keys && Enabled(s, l) && u in s.born && !UpstreamActive(s, u)
    ensures !UpstreamActive(Apply(s, l), u)
  {
    RowsStep(s, l);
    if u in s.tasks && u in NextTasks(s, l) {
      RowStep(s, l, u);
    }
  }

  /** The steps that end the wait of `p` for `u`. */
  predicate Releases(s: State, l: Label, p: Id, u: Id) {
    match l
    case Promote(a, _) => s.PcOf(a).Worker? && s.PcOf(a).id == u
    case BlockUpdate(a, _, _) => (s.PcOf(a).Worker? || s.PcOf(a).Blocking?) && s.PcOf(a).id == u
    case CancelTask(_, id, _) => id == p
    case _ => false
  }

  lemma WaitEnds(s: State, l: Label, p: Id, u: Id)
    requires OwnedRows(s) && s.tasks.Keys <= s.born.Keys && Enabled(s, l) && Waiting(s, p, u)
    ensures !Waiting(Apply(s, l), p, u) <==> Releases(s, l, p, u)
  {
    RowsStep(s, l);
    if l.Purge? {
      assert p !in l.gone;
    }
    RowStep(s, l, p);
  }

  /** The wait of `p` for `u` starts with the insertion that follows createTask's read. */
  predicate StartsWait(s: State, l: Label, p: Id, u: Id) {
    l.InsertDependent? && l.id == p && s.PcOf(l.a) == Creating(u, Pending)
  }

  lemma OldRowStartsNoWait(s: State, l: Label, p: Id, u: Id)
    requires Inv(s) && Enabled(s, l) && p in s.tasks && p in NextTasks(s, l) && !WaitsFor(s.tasks[p], u)
    ensures !WaitsFor(NextTasks(s, l)[p], u)
  {
    RowStep(s, l, p);
  }

  lemma NewRowWaits(s: State, l: Label, p: Id, u: Id)
    requires Inv(s) && Enabled(s, l) && Inserts(l) == Some(p)
    ensures p in NextTasks(s, l) && p !in s.tasks
    ensures WaitsFor(NextTasks(s, l)[p], u) <==> StartsWait(s, l, p, u)
  {
  }

  lemma WaitStarts(s: State, l: Label, p: Id, u: Id)
    requires Inv(s) && Enabled(s, l) && !Waiting(s, p, u)
    ensures Waiting(Apply(s, l), p, u) <==> StartsWait(s, l, p, u)
  {
    if Inserts(l) == Some(p) {
      NewRowWaits(s, l, p, u);
    } else {
      RowsStep(s, l);
      if p in s.tasks && p in NextTasks(s, l) {
        OldRowStartsNoWait(s, l, p, u);
      }
    }
  }

  /** A waker that leaves while somebody still waits has panicked or followed the LLM. */
  lemma WakerGivesUp(s: State, l: Label, p: Id, u: Id)
    requires Inv(s) && Enabled(s, l) && Waiting(s, p, u) && !Releases(s, l, p, u)
    requires ActorOf(l).Some? && Wakes(s.PcOf(ActorOf(l).value), u) && !Wakes(NextPc(s, l), u)
    ensures l.Panic? || l.TryLlmRetry?
  {
    if l.BlockSelect? {
      assert p in Waiters(s.tasks, u);
    }
  }

  lemma PanicLosesWaker(s: State, l: Label, u: Id)
    requires Inv(s) && Enabled(s, l) && (l.Panic? || l.TryLlmRetry?)
    ensures !Wakes(NextPc(s, l), u)
  {
  }

  /** Nobody sets out to wake the dependents of a finished task. */
  lemma NoNewWaker(s: State, l: Label, u: Id)
    requires Inv(s) && Enabled(s, l) && !UpstreamActive(s, u)
    requires ActorOf(l).Some? && Wakes(NextPc(s, l), u)
    ensures ActorOf(l).value in Wakers(s, u)
  {
  }

  /** Finishing a task leaves a waker, except by panic recovery and by canceling its schedule. */
  lemma FinisherWakes(s: State, l: Label, u: Id)
    requires Inv(s) && Enabled(s, l) && Finishes(s, l, u)
    ensures Wakes(NextPc(s, l), u) <==> !l.PanicFail? && !l.CancelScheduledTask?
    ensures !Wakes(NextPc(s, l), u) ==> ActorOf(l).value !in Wakers(s, u)
  {
  }

  lemma StrandedAtBirth(s: State, l: Label, p: Id, u: Id)
    requires Inv(s) && Enabled(s, l) && !Waiting(s, p, u)
    ensures Stuck(Apply(s, l), p, u) <==> Strands(s, l, p, u)
  {
    WaitStarts(s, l, p, u);
    if StartsWait(s, l, p, u) {
      WakersStep(s, l, u);
      if UpstreamActive(s, u) {
        UpstreamFinishes(s, l, u);
      } else {
        NeverRevived(s, l, u);
      }
    }
  }

  lemma StrandedByFinish(s: State, l: Label, p: Id, u: Id)
    requires Inv(s) && Enabled(s, l) && Waiting(s, p, u) && UpstreamActive(s, u)
    ensures Stuck(Apply(s, l), p, u) <==> Strands(s, l, p, u)
  {
    WaitEnds(s, l, p, u);
    WakersStep(s, l, u);
    UpstreamFinishes(s, l, u);
    if Finishes(s, l, u) {
      FinisherWakes(s, l, u);
    }
  }

  lemma StrandedByWaker(s: State, l: Label, p: Id, u: Id)
    requires Inv(s) && Enabled(s, l) && Waiting(s, p, u) && !UpstreamActive(s, u) && Wakers(s, u) != {}
    ensures Stuck(Apply(s, l), p, u) <==> Strands(s, l, p, u)
  {
    WaitEnds(s, l, p, u);
    WakersStep(s, l, u);
    NeverRevived(s, l, u);
    if l.Panic? || l.TryLlmRetry? {
      PanicLosesWaker(s, l, u);
    } else if ActorOf(l).Some? && Wakers(Apply(s, l), u) == {} && !Releases(s, l, p, u) {
      WakerGivesUp(s, l, p, u);
    }
  }

  /** A step leaves a task behind exactly in the circumstances of Strands. */
  lemma StrandedExactly(s: State, l: Label, p: Id, u: Id)
    requires Inv(s) && Enabled(s, l) && !Stuck(s, p, u)
    ensures Stuck(Apply(s, l), p, u) <==> Strands(s, l, p, u)
  {
    if !Waiting(s, p, u) {
      StrandedAtBirth(s, l, p, u);
    } else if UpstreamActive(s, u) {
      StrandedByFinish(s, l, p, u);
    } else {
      StrandedByWaker(s, l, p, u);
    }
  }

  /** A task that was left behind stays so until a client cancels it: neither the
      executor, nor a restart, nor a manual unblock ever releases it. */
  lemma StuckUntilCanceled(s: State, l: Label, p: Id, u: Id)
    requires Inv(s) && Enabled(s, l) && Stuck(s, p, u)
    ensures !Stuck(Apply(s, l), p, u) <==> l.CancelTask? && l.id == p
  {
    WaitEnds(s, l, p, u);
    WakersStep(s, l, u);
    NeverRevived(s, l, u);
    if ActorOf(l).Some? {
      if Wakes(NextPc(s, l), u) {
        NoNewWaker(s, l, u);
      }
      assert ActorOf(l).value !in Wakers(s, u);
    }
  }

  // ----- every run -----

  /** Some step of the run left `p` behind and no later one canceled it. */
  ghost predicate LeftBehind(maxRetries: nat, run: seq<Label>, p: Id, u: Id)
    requires Legal(maxRetries, run)
    decreases |run|
  {
    run != [] &&
    (Strands(After(maxRetries, Front(run)), Last(run), p, u) ||
     (LeftBehind(maxRetries, Front(run), p, u) && !(Last(run).CancelTask? && Last(run).id == p)))
  }

  lemma StrandedWasNotStuck(s: State, l: Label, p: Id, u: Id)
    requires Inv(s) && Enabled(s, l) && Strands(s, l, p, u)
    ensures !Stuck(s, p, u)
  {
  }

  /** In every run, what is stuck at the end is what some step left behind. */
  lemma {:induction false} StuckIsLeftBehind(maxRetries: nat, run: seq<Label>, p: Id, u: Id)
    requires Legal(maxRetries, run)
    ensures Stuck(After(maxRetries, run), p, u) <==> LeftBehind(maxRetries, run, p, u)
    decreases |run|
  {
    if run != [] {
      var s, l := After(maxRetries, Front(run)), Last(run);
      Reachable(maxRetries, Front(run));
      StuckIsLeftBehind(maxRetries, Front(run), p, u);
      if Stuck(s, p, u) {
        StuckUntilCanceled(s, l, p, u);
        if Strands(s, l, p, u) {
          StrandedWasNotStuck(s, l, p, u);
        }
      } else {
        StrandedExactly(s, l, p, u);
      }
    }
  }

  /** The task at the end of the depends_on chain that starts at `p`, following active
      upstreams only.  The chain is finite because upstreams are created earlier. */
  ghost function ChainEnd(s: State, p: Id): (end: Id)
    requires Ordered(s) && p in s.tasks && Active(s.tasks[p].status)
    ensures end in s.tasks && Active(s.tasks[end].status)
    ensures s.tasks[end].status.Pending? ==>
            s.tasks[end].dependsOn.Some? && !UpstreamActive(s, s.tasks[end].dependsOn.value)
    decreases s.born[p]
  {
    if s.tasks[p].status.Pending? && UpstreamActive(s, s.tasks[p].dependsOn.value)
    then ChainEnd(s, s.tasks[p].dependsOn.value)
    else p
  }

  // ----- dangling upstreams -----

  /** An active task names an upstream that is not in the table. */
  ghost predicate Dangling(s: State, p: Id) {
    && p in s.tasks && Active(s.tasks[p].status)
    && s.tasks[p].dependsOn.Some? && s.tasks[p].dependsOn.value !in s.tasks
  }

  /** The step inserts `p` naming an upstream that is not in the table (any more). */
  ghost predicate BornDangling(s: State, l: Label, p: Id)
    requires Enabled(s, l)
  {
    && Inserts(l) == Some(p) && p in NextTasks(s, l)
    && NextTasks(s, l)[p].dependsOn.Some?
    && NextTasks(s, l)[p].dependsOn.value !in s.tasks && NextTasks(s, l)[p].dependsOn.value != p
  }

  /** A finished row stays finished. */
  lemma FinishedStaysFinished(s: State, l: Label, p: Id)
    requires OwnedRows(s) && s.tasks.Keys <= s.born.Keys && Enabled(s, l)
    requires p in s.tasks && p in NextTasks(s, l) && Terminal(s.tasks[p].status)
    ensures Terminal(NextTasks(s, l)[p].status)
  {
    RowStep(s, l, p);
  }

  lemma UpstreamNotPurged(s: State, l: Label, p: Id)
    requires OwnedRows(s) && s.tasks.Keys <= s.born.Keys && Enabled(s, l)
    requires p in s.tasks && p in NextTasks(s, l) && Active(NextTasks(s, l)[p].status) && !Dangling(s, p)
    ensures NextTasks(s, l)[p].dependsOn.Some? ==> NextTasks(s, l)[p].dependsOn.value in NextTasks(s, l)
  {
    RowsStep(s, l);
    RowStep(s, l, p);
    if Terminal(s.tasks[p].status) {
      FinishedStaysFinished(s, l, p);
    } else if l.Purge? {
      PurgeKeepsActive(s.tasks, l.cutoff, l.limit, l.gone, p);
    }
  }

  lemma NewRowActive(s: State, l: Label, p: Id)
    requires Ordered(s) && Enabled(s, l) && Inserts(l) == Some(p)
    ensures p !in s.tasks && p in NextTasks(s, l) && Active(NextTasks(s, l)[p].status)
  {
  }

  /** An active task starts to dangle exactly when it is inserted so: neither the purge
      nor any other step takes an upstream away from an active task. */
  lemma DanglingExactly(s: State, l: Label, p: Id)
    requires Inv(s) && Enabled(s, l) && !Dangling(s, p)
    ensures Dangling(Apply(s, l), p) <==> BornDangling(s, l, p)
  {
    RowsStep(s, l);
    if Inserts(l) == Some(p) {
      NewRowActive(s, l, p);
    } else if p in s.tasks && p in NextTasks(s, l) && Active(NextTasks(s, l)[p].status) {
      UpstreamNotPurged(s, l, p);
    }
  }

  /** In every run, a dangling task was inserted after its upstream had been purged, or
      without the upstream being looked up at all. */
  lemma {:induction false} DanglingSinceBirth(maxRetries: nat, run: seq<Label>, p: Id) returns (k: nat)
    requires Legal(maxRetries, run) && Dangling(After(maxRetries, run), p)
    ensures k < |run| && Legal(maxRetries, run[..k]) && Enabled(After(maxRetries, run[..k]), run[k])
    ensures BornDangling(After(maxRetries, run[..k]), run[k], p)
    decreases |run|
  {
    var s, l := After(maxRetries, Front(run)), Last(run);
    Reachable(maxRetries, Front(run));
    if Dangling(s, p) {
      k := DanglingSinceBirth(maxRetries, Front(run), p);
      assert Front(run)[..k] == run[..k];
    } else {
      DanglingExactly(s, l, p);
      k := |run| - 1;
      assert run[..k] == Front(run);
    }
  }

  // ----- dependents run only after their upstream has succeeded -----

  /** A waiting or blocked task is queued only by a client, or by the worker that completed
      its upstream; the upstream's row then says succeeded, unless it was gone when the task
      was inserted. */
  lemma ReleasedOnlyAfterSuccess(s: State, l: Label, p: Id)
    requires Inv(s) && Enabled(s, l) && p in s.tasks && (s.tasks[p].status.Pending? || s.tasks[p].status.Blocked?)
    ensures p in NextTasks(s, l) && NextTasks(s, l)[p].status.Queued? <==>
            (l.UnblockTask? && l.id == p && s.tasks[p].status.Blocked?) ||
            (l.Promote? && s.tasks[p].dependsOn == Some(s.PcOf(l.a).id))
    ensures l.Promote? && s.tasks[p].dependsOn == Some(s.PcOf(l.a).id) ==>
            UpstreamSucceeded(s, p) || Dangling(s, p)
  {
    RowsStep(s, l);
    if p in NextTasks(s, l) {
      RowStep(s, l, p);
    }
  }

  ghost predicate UpstreamSucceeded(s: State, p: Id) {
    && p in s.tasks && s.tasks[p].dependsOn.Some? && s.tasks[p].dependsOn.value in s.tasks
    && s.tasks[s.tasks[p].dependsOn.value].status.Succeeded?
  }

  /** In every run: a dependent that a run releases on its own has a succeeded upstream, or
      was inserted when its upstream was no longer there. */
  lemma DependentsRunAfterSuccess(maxRetries: nat, run: seq<Label>, p: Id)
    requires run != [] && Legal(maxRetries, run) && !Last(run).UnblockTask?
    requires var s := After(maxRetries, Front(run));
             p in s.tasks && (s.tasks[p].status.Pending? || s.tasks[p].status.Blocked?)
    requires var t := After(maxRetries, run); p in t.tasks && t.tasks[p].status.Queued?
    ensures UpstreamSucceeded(After(maxRetries, Front(run)), p) || InsertedDangling(maxRetries, run, p)
  {
    var s := After(maxRetries, Front(run));
    Reachable(maxRetries, Front(run));
    ReleasedOnlyAfterSuccess(s, Last(run), p);
    if Dangling(s, p) {
      var k := DanglingSinceBirth(maxRetries, Front(run), p);
      assert Front(run)[..k] == run[..k];
    }
  }

  ghost predicate InsertedDangling(maxRetries: nat, run: seq<Label>, p: Id) {
    exists k :: 0 <= k < |run| && Legal(maxRetries, run[..k]) && Enabled(After(maxRetries, run[..k]), run[k]) &&
      BornDangling(After(maxRetries, run[..k]), run[k], p)
  }

  // ----- dependents blocked behind a succeeded upstream -----

  ghost function Promoters(s: State, u: Id): set<Actor> {
    set a | a in s.pcs && s.pcs[a].Worker? && s.pcs[a].id == u && s.pcs[a].phase.MustPromote?
  }

  /** `p` is blocked although its upstream has succeeded, and nobody will promote it. */
  ghost predicate Misblocked(s: State, p: Id, u: Id) {
    BlockedBehind(s, p, u) && Promoters(s, u) == {}
  }

  ghost predicate BlockedBehind(s: State, p: Id, u: Id) {
    && p in s.tasks && s.tasks[p].status.Blocked? && s.tasks[p].dependsOn == Some(u)
    && u in s.tasks && s.tasks[u].status.Succeeded?
  }

  /** The steps that leave a task so. */
  ghost predicate Misblocks(s: State, l: Label, p: Id, u: Id) {
    match l
    // the handler of a cancel that came too late blocks what the worker has promoted around
    case BlockUpdate(a, _, _) =>
      && (s.PcOf(a).Worker? || s.PcOf(a).Blocking?) && s.PcOf(a).id == u && Waiting(s, p, u)
      && u in s.tasks && s.tasks[u].status.Succeeded? && Promoters(s, u) == {}
    // the promoter is lost
    case Panic(a) => BlockedBehind(s, p, u) && Promoters(s, u) == {a}
    case Crash => BlockedBehind(s, p, u) && Promoters(s, u) != {}
    case _ => false
  }

  lemma PromotersStep(s: State, l: Label, u: Id)
    requires Enabled(s, l)
    ensures Promoters(Apply(s, l), u) ==
            if l.Crash? then {}
            else if ActorOf(l).None? then Promoters(s, u)
            else if IsPromoter(NextPc(s, l), u) then Promoters(s, u) + {ActorOf(l).value}
            else Promoters(s, u) - {ActorOf(l).value}
  {
  }

  predicate IsPromoter(pc: Pc, u: Id) {
    pc.Worker? && pc.id == u && pc.phase.MustPromote?
  }

  lemma BlockedRowBefore(s: State, l: Label, p: Id, u: Id)
    requires Inv(s) && Enabled(s, l) && BlockedBehind(Apply(s, l), p, u)
    ensures p in s.tasks && s.tasks[p].dependsOn == Some(u)
    ensures s.tasks[p].status.Blocked? || (l.BlockUpdate? && s.PcOf(l.a).id == u && Waiting(s, p, u))
  {
    RowsStep(s, l);
    if p in s.tasks {
      RowStep(s, l, p);
    }
  }

  lemma SucceededRowBefore(s: State, l: Label, u: Id)
    requires Inv(s) && Enabled(s, l) && u in NextTasks(s, l) && NextTasks(s, l)[u].status.Succeeded?
    ensures u in s.tasks
    ensures s.tasks[u].status.Succeeded? || (l.CompleteRun? && s.PcOf(l.a).Worker? && s.PcOf(l.a).id == u)
  {
    RowsStep(s, l);
    if u in s.tasks {
      RowStep(s, l, u);
    }
  }

  /** How a row comes to stand blocked behind a succeeded upstream. */
  lemma BlockedBehindStep(s: State, l: Label, p: Id, u: Id)
    requires Inv(s) && Enabled(s, l) && BlockedBehind(Apply(s, l), p, u)
    ensures || BlockedBehind(s, p, u)
            || (l.CompleteRun? && s.PcOf(l.a).Worker? && s.PcOf(l.a).id == u)
            || (l.BlockUpdate? && s.PcOf(l.a).id == u && Waiting(s, p, u) &&
                u in s.tasks && s.tasks[u].status.Succeeded?)
  {
    BlockedRowBefore(s, l, p, u);
    SucceededRowBefore(s, l, u);
  }

  /** What misblocks a task does leave it blocked behind a succeeded upstream. */
  lemma MisblocksBlocks(s: State, l: Label, p: Id, u: Id)
    requires Inv(s) && Enabled(s, l) && Misblocks(s, l, p, u)
    ensures BlockedBehind(Apply(s, l), p, u)
  {
  }

  lemma MisblockedExactly(s: State, l: Label, p: Id, u: Id)
    requires Inv(s) && Enabled(s, l) && !Misblocked(s, p, u)
    ensures Misblocked(Apply(s, l), p, u) <==> Misblocks(s, l, p, u)
  {
    PromotersStep(s, l, u);
    if Misblocks(s, l, p, u) {
      MisblocksBlocks(s, l, p, u);
    } else if Misblocked(Apply(s, l), p, u) {
      BlockedBehindStep(s, l, p, u);
    }
  }
}
