/** What runs without the known mishaps guarantee: no dependency deadlock, no row that
    nobody works on. */
module TaskProgress {
  import opened Basics
  import opened TaskTable
  import opened TaskProtocol
  import opened TaskSafety
  import opened TaskDependencies

  /** A goroutine whose next statements promote or block the dependents of `u`. */
  predicate Resolves(pc: Pc, u: Id) {
    || (pc.Worker? && pc.id == u && (pc.phase.MustPromote? || pc.phase.MustBlock?))
    || (pc.Blocking? && pc.id == u)
  }

  predicate IsResolver(pc: Pc) {
    (pc.Worker? && (pc.phase.MustPromote? || pc.phase.MustBlock?)) || pc.Blocking?
  }

  ghost predicate HasResolver(s: State, u: Id) {
    exists a | a in s.pcs :: Resolves(s.pcs[a], u)
  }

  /** The step is none of the mishaps: a panic, the cancel of a schedule, a retry granted by
      the LLM, an insertion that does not directly follow its own look at the upstream, or a
      crash while a goroutine is about to resolve dependents. */
  ghost predicate OrderlyStep(s: State, previous: Option<Label>, l: Label) {
    match l
    case Panic(_) => false
    case PanicFail(_, _, _) => false
    case CancelScheduledTask(_, _) => false
    case TryLlmRetry(_, _) => false
    case InsertDependent(a, _, _, _, _) => previous.Some? && previous.value.ReadUpstream? && previous.value.a == a
    case Crash => forall b | b in s.pcs :: !IsResolver(s.pcs[b])
    case _ => true
  }

  function LastOf(run: seq<Label>): Option<Label> {
    if run == [] then None else Some(Last(run))
  }

  ghost predicate Orderly(maxRetries: nat, run: seq<Label>)
    requires Legal(maxRetries, run)
    decreases |run|
  {
    run == [] ||
    (Orderly(maxRetries, Front(run)) && OrderlyStep(After(maxRetries, Front(run)), LastOf(Front(run)), Last(run)))
  }

  /** A task whose upstream has finished is attended to. */
  ghost predicate Attended(s: State, p: Id, u: Id) {
    Waiting(s, p, u) && !UpstreamActive(s, u) ==> HasResolver(s, u)
  }

  /** Right after createTask's look at an unfinished upstream, that is still active. */
  ghost predicate FreshRead(s: State, l: Label) {
    l.InsertDependent? && s.PcOf(l.a).Creating? && s.PcOf(l.a).status.Pending? ==> UpstreamActive(s, s.PcOf(l.a).up)
  }

  lemma ReadIsFresh(s: State, a: Actor, up: Id, l: Label)
    requires Enabled(s, ReadUpstream(a, up)) && l.InsertDependent? && l.a == a
    ensures FreshRead(Apply(s, ReadUpstream(a, up)), l)
  {
  }

  /** A resolver stays one until it has resolved. */
  lemma ResolverStays(s: State, l: Label, p: Id, u: Id)
    requires Enabled(s, l) && Waiting(s, p, u) && !Releases(s, l, p, u)
    requires ActorOf(l).Some? && Resolves(s.PcOf(ActorOf(l).value), u) && !l.Panic?
    ensures Resolves(NextPc(s, l), u)
  {
    if l.BlockSelect? {
      assert p in Waiters(s.tasks, u);
    }
  }

  /** Who finishes a task in an orderly run resolves its dependents next. */
  lemma FinisherResolves(s: State, l: Label, u: Id)
    requires Enabled(s, l) && Finishes(s, l, u) && !l.PanicFail? && !l.CancelScheduledTask?
    ensures ActorOf(l).Some? && Resolves(NextPc(s, l), u)
  {
  }

  lemma ResolverAfter(s: State, l: Label, u: Id)
    requires Enabled(s, l) && ActorOf(l).Some? && Resolves(NextPc(s, l), u)
    ensures HasResolver(Apply(s, l), u)
  {
    assert Apply(s, l).pcs[ActorOf(l).value] == NextPc(s, l);
  }

  lemma StillAttended(s: State, previous: Option<Label>, l: Label, p: Id, u: Id)
    requires Enabled(s, l) && OrderlyStep(s, previous, l)
    requires Waiting(s, p, u) && HasResolver(s, u) && !Releases(s, l, p, u)
    ensures HasResolver(Apply(s, l), u)
  {
    var a :| a in s.pcs && Resolves(s.pcs[a], u);
    assert !l.Crash?;
    if ActorOf(l) == Some(a) {
      ResolverStays(s, l, p, u);
      ResolverAfter(s, l, u);
    } else {
      assert a in Apply(s, l).pcs && Apply(s, l).pcs[a] == s.pcs[a];
    }
  }

  lemma AttendedStep(s: State, previous: Option<Label>, l: Label, p: Id, u: Id)
    requires Inv(s) && Enabled(s, l) && OrderlyStep(s, previous, l) && FreshRead(s, l)
    requires Attended(s, p, u)
    ensures Attended(Apply(s, l), p, u)
  {
    if Waiting(Apply(s, l), p, u) && !UpstreamActive(Apply(s, l), u) {
      if !Waiting(s, p, u) {
        WaitStarts(s, l, p, u);
        UpstreamFinishes(s, l, u);
        assert false;
      }
      WaitEnds(s, l, p, u);
      if UpstreamActive(s, u) {
        UpstreamFinishes(s, l, u);
        FinisherResolves(s, l, u);
        ResolverAfter(s, l, u);
      } else {
        StillAttended(s, previous, l, p, u);
      }
    }
  }

  lemma OrderlyFresh(maxRetries: nat, run: seq<Label>)
    requires run != [] && Legal(maxRetries, run) && Orderly(maxRetries, run)
    ensures FreshRead(After(maxRetries, Front(run)), Last(run))
  {
    if Last(run).InsertDependent? {
      var front := Front(run);
      ReadIsFresh(After(maxRetries, Front(front)), Last(front).a, Last(front).up, Last(run));
    }
  }

  /** In an orderly run every task whose upstream has finished is attended to, and no row is
      running without a worker. */
  lemma {:induction false} OrderlyKeeps(maxRetries: nat, run: seq<Label>, p: Id, u: Id)
    requires Legal(maxRetries, run) && Orderly(maxRetries, run)
    ensures Attended(After(maxRetries, run), p, u)
    ensures !Leaked(After(maxRetries, run), p)
    decreases |run|
  {
    if run != [] {
      var s, l := After(maxRetries, Front(run)), Last(run);
      Reachable(maxRetries, Front(run));
      OrderlyKeeps(maxRetries, Front(run), p, u);
      OrderlyFresh(maxRetries, run);
      AttendedStep(s, LastOf(Front(run)), l, p, u);
      LeakedExactlyByLlmRetry(s, l, p);
    }
  }

  lemma PendingStays(s: State, l: Label, p: Id)
    requires Enabled(s, l) && s.tasks.Keys <= s.born.Keys
    requires p in s.tasks && p in NextTasks(s, l) && NextTasks(s, l)[p].status.Pending?
    ensures s.tasks[p].status.Pending?
  {
    RowStep(s, l, p);
  }

  lemma InsertedPending(s: State, l: Label, p: Id)
    requires Inv(s) && Enabled(s, l) && FreshRead(s, l) && Inserts(l) == Some(p)
    requires NextTasks(s, l)[p].status.Pending?
    ensures NextTasks(s, l)[p].dependsOn.Some? && NextTasks(s, l)[p].dependsOn.value in s.tasks
  {
  }

  /** In an orderly run the upstream of a pending task is in the table. */
  lemma {:induction false} OrderlyUpstreamExists(maxRetries: nat, run: seq<Label>, p: Id)
    requires Legal(maxRetries, run) && Orderly(maxRetries, run)
    ensures var s := After(maxRetries, run); p in s.tasks && s.tasks[p].status.Pending? ==> !Dangling(s, p)
    decreases |run|
  {
    if run != [] && p in After(maxRetries, run).tasks && After(maxRetries, run).tasks[p].status.Pending? {
      var s, l := After(maxRetries, Front(run)), Last(run);
      Reachable(maxRetries, Front(run));
      OrderlyUpstreamExists(maxRetries, Front(run), p);
      OrderlyFresh(maxRetries, run);
      RowsStep(s, l);
      if p in s.tasks {
        PendingStays(s, l, p);
        DanglingExactly(s, l, p);
      } else {
        InsertedPending(s, l, p);
      }
    }
  }

  lemma ResolverWakes(s: State, u: Id)
    requires HasResolver(s, u)
    ensures Wakers(s, u) != {}
  {
    var a :| a in s.pcs && Resolves(s.pcs[a], u);
    assert a in Wakers(s, u);
  }

  /** An orderly run leaves nothing behind. */
  lemma OrderlyStrandsNothing(maxRetries: nat, run: seq<Label>, p: Id, u: Id)
    requires Legal(maxRetries, run) && Orderly(maxRetries, run)
    ensures !Stuck(After(maxRetries, run), p, u) && !LeftBehind(maxRetries, run, p, u)
  {
    OrderlyKeeps(maxRetries, run, p, u);
    if HasResolver(After(maxRetries, run), u) {
      ResolverWakes(After(maxRetries, run), u);
    }
    StuckIsLeftBehind(maxRetries, run, p, u);
  }

  /** The task at the end of a chain is on its way: it can be claimed or released by time or
      by a client, a worker executes it (or the executor is down and will re-queue it), or a
      goroutine is about to resolve the dependents of its finished upstream. */
  ghost predicate OnItsWay(s: State, end: Id) {
    end in s.tasks &&
    match s.tasks[end].status
    case Queued => true
    case Scheduled => true
    case Blocked => true
    case Running => s.live ==> Owned(s, end)
    case Pending => s.tasks[end].dependsOn.Some? && HasResolver(s, s.tasks[end].dependsOn.value)
    case _ => false
  }

  /** No dependency deadlock: in every orderly run the upstream of each pending task exists, and
      the task waits, over finitely many pending ones, for a task that is on its way. */
  lemma NoDeadlock(maxRetries: nat, run: seq<Label>, p: Id)
    requires Legal(maxRetries, run) && Orderly(maxRetries, run)
    requires var s := After(maxRetries, run); p in s.tasks && s.tasks[p].status.Pending?
    ensures var s := After(maxRetries, run);
            Ordered(s) && s.tasks[p].dependsOn.Some? && s.tasks[p].dependsOn.value in s.tasks
    ensures OnItsWay(After(maxRetries, run), ChainEnd(After(maxRetries, run), p))
  {
    Reachable(maxRetries, run);
    OrderlyUpstreamExists(maxRetries, run, p);
    var s := After(maxRetries, run);
    var end := ChainEnd(s, p);
    OrderlyKeeps(maxRetries, run, end, if s.tasks[end].dependsOn.Some? then s.tasks[end].dependsOn.value else end);
  }
}
