/** Runs in which the protocol goes wrong: the circumstances that TaskSafety and
    TaskDependencies characterise do occur. */
module TaskRuns {
  import opened Basics
  import opened TaskTable
  import opened TaskProtocol
  import opened TaskSafety
  import opened TaskDependencies

  // ----- dependents left behind -----

  /** Wherever a task waits for a scheduled one, canceling the latter over HTTP strands it. */
  lemma CancelingScheduleStrands(maxRetries: nat, run: seq<Label>, a: Actor, p: Id, u: Id)
    requires Legal(maxRetries, run)
    requires var s := After(maxRetries, run);
             Waiting(s, p, u) && IsScheduled(s.tasks, u) && Wakers(s, u) == {} && s.PcOf(a).Idle?
    ensures var longer := run + [CancelTask(a, u, 0)] + [CancelScheduledTask(a, 0)];
            Legal(maxRetries, longer) && Stuck(After(maxRetries, longer), p, u)
  {
    var s := After(maxRetries, run);
    var l, m := CancelTask(a, u, 0), CancelScheduledTask(a, 0);
    Extend(maxRetries, run, l);
    var t := Apply(s, l);
    WakersStep(s, l, u);
    StrandsAtEnd(maxRetries, run + [l], m, p, u);
  }

  /** `a` has read the scheduled task `u`, which nobody is on its way to wake from. */
  ghost predicate ReadScheduled(s: State, a: Actor, u: Id) {
    IsScheduled(s.tasks, u) && u in s.born && s.PcOf(a) == Creating(u, Pending) && Wakers(s, u) == {}
  }

  lemma ReadOfScheduled(s: State, a: Actor, u: Id)
    requires IsScheduled(s.tasks, u) && u in s.born && s.PcOf(a).Idle? && Wakers(s, u) == {}
    ensures Enabled(s, ReadUpstream(a, u)) && ReadScheduled(Apply(s, ReadUpstream(a, u)), a, u)
  {
    WakersStep(s, ReadUpstream(a, u), u);
  }

  lemma InsertBehindScheduled(s: State, a: Actor, p: Id, u: Id)
    requires ReadScheduled(s, a, u) && p !in s.born && p != u
    ensures var l := InsertDependent(a, p, "", None, 2);
            Enabled(s, l) && Waiting(Apply(s, l), p, u) && IsScheduled(Apply(s, l).tasks, u) &&
                Wakers(Apply(s, l), u) == {} && Apply(s, l).PcOf(a).Idle?
  {
    WakersStep(s, InsertDependent(a, p, "", None, 2), u);
  }

  lemma ScheduledUpstreamWithWaiter() returns (run: seq<Label>)
    ensures Legal(2, run)
    ensures var s := After(2, run); Waiting(s, 1, 0) && IsScheduled(s.tasks, 0) && Wakers(s, 0) == {} && s.PcOf(7).Idle?
  {
    var first := InsertScheduled(0, "", None, Some(9), "", 1);
    Begin(2, first);
    run := [first];
    var s := After(2, run);
    ReadOfScheduled(s, 7, 0);
    var read := Apply(s, ReadUpstream(7, 0));
    run := Continue(2, run, s, ReadUpstream(7, 0), read);
    InsertBehindScheduled(read, 7, 1, 0);
    var l := InsertDependent(7, 1, "", None, 2);
    run := Continue(2, run, read, l, Apply(read, l));
  }

  lemma CanceledScheduleStrandsSomewhere()
    ensures exists run :: Legal(2, run) && Stuck(After(2, run), 1, 0)
  {
    var run := ScheduledUpstreamWithWaiter();
    CancelingScheduleStrands(2, run, 7, 1, 0);
  }

  /** createTask reads its upstream, the upstream succeeds and promotes its dependents, and
      only then does the INSERT of the pending row happen. */
  function LateInsert(w: Actor, a: Actor, p: Id, u: Id): seq<Label> {
    [ReadUpstream(a, u), CompleteRun(w, "", 0), Promote(w, 0), InsertDependent(a, p, "", None, 0)]
  }

  /** `w` is in `phase` with `u`, nobody else would wake the dependents of `u`. */
  ghost predicate SoleOwner(s: State, w: Actor, u: Id, phase: Phase) {
    InPhase(s, w, phase) && s.PcOf(w).id == u && u in s.tasks && Wakers(s, u) == {w} &&
    s.tasks[u].status == if phase.Executing? then Running else Succeeded
  }

  lemma ReadBeforeFinish(s: State, w: Actor, a: Actor, u: Id)
    requires SoleOwner(s, w, u, Executing) && s.PcOf(a).Idle?
    ensures Enabled(s, ReadUpstream(a, u))
    ensures var t := Apply(s, ReadUpstream(a, u));
            SoleOwner(t, w, u, Executing) && t.PcOf(a) == Creating(u, Pending) && t.born == s.born
  {
    WakersStep(s, ReadUpstream(a, u), u);
  }

  lemma FinishAfterRead(s: State, w: Actor, a: Actor, u: Id)
    requires SoleOwner(s, w, u, Executing) && s.PcOf(a) == Creating(u, Pending)
    ensures Enabled(s, CompleteRun(w, "", 0))
    ensures var t := Apply(s, CompleteRun(w, "", 0));
            SoleOwner(t, w, u, MustPromote) && t.PcOf(a) == Creating(u, Pending) && t.born == s.born
  {
    WakersStep(s, CompleteRun(w, "", 0), u);
  }

  lemma PromoteAfterRead(s: State, w: Actor, a: Actor, p: Id, u: Id)
    requires SoleOwner(s, w, u, MustPromote) && s.PcOf(a) == Creating(u, Pending) && p !in s.born
    ensures Enabled(s, Promote(w, 0))
    ensures var t := Apply(s, Promote(w, 0));
            Enabled(t, InsertDependent(a, p, "", None, 0)) && Strands(t, InsertDependent(a, p, "", None, 0), p, u)
  {
    WakersStep(s, Promote(w, 0), u);
  }

  /** Wherever a task runs, a dependent created at that moment may be left behind. */
  lemma LateInsertStrands(maxRetries: nat, run: seq<Label>, w: Actor, a: Actor, p: Id, u: Id)
    requires Legal(maxRetries, run)
    requires var s := After(maxRetries, run); SoleOwner(s, w, u, Executing) && s.PcOf(a).Idle? && p !in s.born
    ensures var longer := run + LateInsert(w, a, p, u);
            Legal(maxRetries, longer) && Stuck(After(maxRetries, longer), p, u)
  {
    var ls := LateInsert(w, a, p, u);
    ReadBeforeFinish(After(maxRetries, run), w, a, u);
    Extend(maxRetries, run, ls[0]);
    var run1 := run + [ls[0]];
    FinishAfterRead(After(maxRetries, run1), w, a, u);
    Extend(maxRetries, run1, ls[1]);
    var run2 := run1 + [ls[1]];
    PromoteAfterRead(After(maxRetries, run2), w, a, p, u);
    Extend(maxRetries, run2, ls[2]);
    var run3 := run2 + [ls[2]];
    StrandsAtEnd(maxRetries, run3, ls[3], p, u);
    FourSteps(run, ls);
  }

  lemma FourSteps(run: seq<Label>, ls: seq<Label>)
    requires |ls| == 4
    ensures run + [ls[0]] + [ls[1]] + [ls[2]] + [ls[3]] == run + ls
  {
  }

  lemma StrandsAtEnd(maxRetries: nat, run: seq<Label>, l: Label, p: Id, u: Id)
    requires Legal(maxRetries, run) && Enabled(After(maxRetries, run), l) && Strands(After(maxRetries, run), l, p, u)
    ensures Legal(maxRetries, run + [l]) && Stuck(After(maxRetries, run + [l]), p, u)
  {
    Reachable(maxRetries, run);
    Extend(maxRetries, run, l);
    StrandedWasNotStuck(After(maxRetries, run), l, p, u);
    StrandedExactly(After(maxRetries, run), l, p, u);
  }

  // ----- one task, claimed by worker 1 -----

  /** Task 0 alone in the table and claimable; nobody is at work. */
  ghost predicate OneQueued(s: State) {
    && s.tasks.Keys == {0} && s.tasks[0].status.Queued? && s.tasks[0].dependsOn.None?
    && s.tasks[0].availableAt == 0 && s.tasks[0].attempts == 0 && s.pcs == map[] && s.born.Keys == {0}
  }

  /** Task 0 alone in the table, executed by worker 1; all else is idle. */
  ghost predicate OneClaimed(s: State) {
    && s.tasks.Keys == {0} && s.tasks[0].status.Running? && s.tasks[0].dependsOn.None?
    && s.live && s.pcs == map[1 := Worker(0, 1, Executing)] && s.born.Keys == {0}
  }

  lemma StartQueued(s: State)
    requires OneQueued(s) && !s.live
    ensures Enabled(s, Start(0)) && OneQueued(Apply(s, Start(0))) && Apply(s, Start(0)).live
  {
  }

  lemma ClaimQueued(s: State)
    requires OneQueued(s) && s.live
    ensures Enabled(s, ClaimNext(1, 0, 0)) && OneClaimed(Apply(s, ClaimNext(1, 0, 0)))
  {
    assert IsNextClaim(s.tasks, 0, 0);
  }

  lemma ClaimedRun(maxRetries: nat) returns (run: seq<Label>)
    ensures Legal(maxRetries, run) && OneClaimed(After(maxRetries, run))
    ensures After(maxRetries, run).maxRetries == maxRetries
  {
    var insert, start, claim := InsertQueued(0, "", None, 0), Start(0), ClaimNext(1, 0, 0);
    Begin(maxRetries, insert);
    var s := After(maxRetries, [insert]);
    StartQueued(s);
    run := Continue(maxRetries, [insert], s, start, Apply(s, start));
    s := Apply(s, start);
    ClaimQueued(s);
    run := Continue(maxRetries, run, s, claim, Apply(s, claim));
  }

  lemma LlmRetryLeaks(s: State)
    requires Inv(s) && OneClaimed(s) && s.maxRetries == 0
    ensures Enabled(s, TryLlmRetry(1, 0)) && Leaked(Apply(s, TryLlmRetry(1, 0)), 0)
  {
    assert s.PcOf(1) == Worker(0, 1, Executing);
    LeakedExactlyByLlmRetry(s, TryLlmRetry(1, 0), 0);
  }

  lemma ClaimedHasSoleOwner(s: State)
    requires OneClaimed(s)
    ensures SoleOwner(s, 1, 0, Executing) && s.PcOf(3).Idle? && 5 !in s.born
  {
    assert Wakers(s, 0) == {1};
  }

  /** A task inserted late is left pending for good. */
  lemma StuckSomewhere()
    ensures exists run :: Legal(0, run) && Stuck(After(0, run), 5, 0)
  {
    var run := ClaimedRun(0);
    ClaimedHasSoleOwner(After(0, run));
    LateInsertStrands(0, run, 1, 3, 5, 0);
  }

  /** With no retries configured the first LLM verdict to retry leaks the row. */
  lemma LeakedSomewhere()
    ensures exists run :: Legal(0, run) && Leaked(After(0, run), 0)
  {
    var run := ClaimedRun(0);
    Reachable(0, run);
    var s, l := After(0, run), TryLlmRetry(1, 0);
    LlmRetryLeaks(s);
    run := Continue(0, run, s, l, Apply(s, l));
  }

  ghost predicate FinishedAs(s: State, id: Id, st: Status) {
    id in s.tasks && s.tasks[id].status == st
  }

  lemma CancelClaimed(s: State)
    requires OneClaimed(s)
    ensures Enabled(s, CancelTask(2, 0, 0))
    ensures var t := Apply(s, CancelTask(2, 0, 0)); FinishedAs(t, 0, Canceled) && t.PcOf(1) == Worker(0, 1, Executing)
  {
  }

  lemma CompleteCanceled(s: State)
    requires FinishedAs(s, 0, Canceled) && s.PcOf(1) == Worker(0, 1, Executing)
    ensures Enabled(s, CompleteRun(1, "", 0)) && FinishedAs(Apply(s, CompleteRun(1, "", 0)), 0, Succeeded)
  {
  }

  /** A canceled task ends up succeeded. */
  lemma OverwrittenSomewhere(maxRetries: nat)
    ensures exists run, l ::
              && Legal(maxRetries, run) && Enabled(After(maxRetries, run), l)
              && FinishedAs(After(maxRetries, run), 0, Canceled)
              && FinishedAs(Apply(After(maxRetries, run), l), 0, Succeeded)
  {
    var run := ClaimedRun(maxRetries);
    var s, cancel := After(maxRetries, run), CancelTask(2, 0, 0);
    CancelClaimed(s);
    run := Continue(maxRetries, run, s, cancel, Apply(s, cancel));
    CompleteCanceled(Apply(s, cancel));
  }

  // ----- canceled while another handler has read the task -----

  /** Handler 3 has read task 0, which worker 1 executes. */
  ghost predicate ReadClaimed(s: State) {
    && s.tasks.Keys == {0} && s.tasks[0].status.Running? && s.tasks[0].dependsOn.None? && s.born.Keys == {0}
    && s.pcs == map[1 := Worker(0, 1, Executing), 3 := Creating(0, Pending)]
  }

  /** Then handler 2 has canceled it. */
  ghost predicate ReadCanceled(s: State) {
    && s.tasks.Keys == {0} && s.tasks[0].status.Canceled? && s.tasks[0].updatedAt == 0 && s.tasks[0].dependsOn.None?
    && s.born.Keys == {0}
    && s.pcs == map[1 := Worker(0, 1, Executing), 2 := Blocking(0, false), 3 := Creating(0, Pending)]
  }

  lemma ReadOfClaimed(s: State)
    requires OneClaimed(s)
    ensures Enabled(s, ReadUpstream(3, 0)) && ReadClaimed(Apply(s, ReadUpstream(3, 0)))
  {
  }

  lemma CancelOfRead(s: State)
    requires ReadClaimed(s)
    ensures Enabled(s, CancelTask(2, 0, 0)) && ReadCanceled(Apply(s, CancelTask(2, 0, 0)))
  {
    assert Apply(s, CancelTask(2, 0, 0)).pcs == s.pcs[2 := Blocking(0, false)];
  }

  lemma ReadCanceledRun() returns (run: seq<Label>)
    ensures Legal(0, run) && ReadCanceled(After(0, run)) && CancelTask(2, 0, 0) in run
  {
    run := ClaimedRun(0);
    var s, read, cancel := After(0, run), ReadUpstream(3, 0), CancelTask(2, 0, 0);
    ReadOfClaimed(s);
    run := Continue(0, run, s, read, Apply(s, read));
    s := Apply(s, read);
    CancelOfRead(s);
    run := Continue(0, run, s, cancel, Apply(s, cancel));
  }

  // ----- a dependent released by an upstream that was canceled and purged -----

  /** The canceled task has been purged: worker 1 still executes it. */
  ghost predicate Purged(s: State) {
    && s.tasks == map[] && s.born.Keys == {0}
    && s.PcOf(1) == Worker(0, 1, Executing) && s.PcOf(3) == Creating(0, Pending)
  }

  /** Then the pending task 1 has been inserted. */
  ghost predicate InsertedBehindPurged(s: State, phase: Phase) {
    s.tasks.Keys == {1} && WaitsFor(s.tasks[1], 0) && s.PcOf(1) == Worker(0, 1, phase)
  }

  lemma OneExpired(tbl: Table)
    requires tbl.Keys == {0} && Terminal(tbl[0].status) && tbl[0].updatedAt == 0
    ensures IsPurgeChoice(tbl, 1, 1, {0}) && tbl - {0} == map[]
  {
    assert Expired(tbl, 1) == {0};
    assert Referenced(tbl) == {};
    assert Eligible(tbl, 1) == {0};
  }

  lemma PurgeStep(s: State, cutoff: int, limit: nat, gone: set<Id>)
    requires IsPurgeChoice(s.tasks, cutoff, limit, gone)
    ensures var purge := Purge(cutoff, limit, gone);
            && Enabled(s, purge) && Apply(s, purge).tasks == s.tasks - gone
            && Apply(s, purge).pcs == s.pcs && Apply(s, purge).born == s.born
  {
  }

  lemma PurgeOfCanceled(s: State)
    requires ReadCanceled(s)
    ensures Enabled(s, Purge(1, 1, {0})) && Purged(Apply(s, Purge(1, 1, {0})))
  {
    OneExpired(s.tasks);
    PurgeStep(s, 1, 1, {0});
  }

  lemma InsertBehindPurged(s: State)
    requires Purged(s)
    ensures var insert := InsertDependent(3, 1, "", None, 2);
            Enabled(s, insert) && BornDangling(s, insert, 1) && InsertedBehindPurged(Apply(s, insert), Executing)
  {
  }

  lemma CompletePurged(s: State)
    requires InsertedBehindPurged(s, Executing)
    ensures Enabled(s, CompleteRun(1, "", 2)) && InsertedBehindPurged(Apply(s, CompleteRun(1, "", 2)), MustPromote)
  {
  }

  lemma PromoteBehindPurged(s: State)
    requires InsertedBehindPurged(s, MustPromote)
    ensures Enabled(s, Promote(1, 2))
    ensures var t := Apply(s, Promote(1, 2));
            t.tasks.Keys == {1} && t.tasks[1].status.Queued? && t.tasks[1].dependsOn == Some(0)
  {
  }

  /** A dependent is queued although its upstream was canceled, and its row purged. */
  lemma ReleasedBehindPurgedSomewhere()
    ensures exists run ::
              && Legal(0, run) && CancelTask(2, 0, 0) in run
              && After(0, run).tasks.Keys == {1} && After(0, run).tasks[1].status.Queued?
              && After(0, run).tasks[1].dependsOn == Some(0)
  {
    var run := ReadCanceledRun();
    var s := After(0, run);
    PurgeOfCanceled(s);
    run := Continue(0, run, s, Purge(1, 1, {0}), Apply(s, Purge(1, 1, {0})));
    s := Apply(s, Purge(1, 1, {0}));
    var insert, complete, promote := InsertDependent(3, 1, "", None, 2), CompleteRun(1, "", 2), Promote(1, 2);
    InsertBehindPurged(s);
    run := Continue(0, run, s, insert, Apply(s, insert));
    s := Apply(s, insert);
    CompletePurged(s);
    run := Continue(0, run, s, complete, Apply(s, complete));
    s := Apply(s, complete);
    PromoteBehindPurged(s);
    run := Continue(0, run, s, promote, Apply(s, promote));
  }

  // ----- a dependent blocked but not reported -----

  /** Task 1 waits for task 0, which handler 2 has canceled; handler 4 has read it before. */
  ghost predicate OneWaits(s: State, found: bool) {
    && 0 in s.tasks && s.tasks[0].dependsOn.None? && Waiters(s.tasks, 0) == {1}
    && s.PcOf(2) == Blocking(0, found) && s.PcOf(4) == Creating(0, Pending) && s.born.Keys == {0, 1}
  }

  /** Handlers 3 and 4 have both read task 0. */
  ghost predicate ReadTwice(s: State) {
    && s.tasks.Keys == {0} && s.tasks[0].status.Running? && s.tasks[0].dependsOn.None? && s.born.Keys == {0}
    && s.PcOf(2).Idle? && s.PcOf(3) == Creating(0, Pending) && s.PcOf(4) == Creating(0, Pending)
  }

  /** Task 1 has been inserted, by handler 3. */
  ghost predicate InsertedFirst(s: State) {
    && s.tasks.Keys == {0, 1} && s.tasks[0].status.Running? && s.tasks[0].dependsOn.None? && WaitsFor(s.tasks[1], 0)
    && s.born.Keys == {0, 1} && s.PcOf(2).Idle? && s.PcOf(4) == Creating(0, Pending)
  }

  lemma ReadAgain(s: State)
    requires ReadClaimed(s)
    ensures Enabled(s, ReadUpstream(4, 0)) && ReadTwice(Apply(s, ReadUpstream(4, 0)))
  {
  }

  lemma InsertFirst(s: State)
    requires ReadTwice(s)
    ensures var insert := InsertDependent(3, 1, "", None, 0); Enabled(s, insert) && InsertedFirst(Apply(s, insert))
  {
  }

  lemma CancelBehindWaiter(s: State)
    requires InsertedFirst(s)
    ensures Enabled(s, CancelTask(2, 0, 0)) && OneWaits(Apply(s, CancelTask(2, 0, 0)), false)
  {
    var t := Apply(s, CancelTask(2, 0, 0));
    assert t.tasks.Keys == {0, 1} && t.tasks[1] == s.tasks[1];
  }

  lemma SelectOne(s: State)
    requires OneWaits(s, false)
    ensures Enabled(s, BlockSelect(2)) && OneWaits(Apply(s, BlockSelect(2)), true)
    ensures Apply(s, BlockSelect(2)).tasks == s.tasks
  {
  }

  lemma InsertSecond(s: State)
    requires OneWaits(s, true) && s.tasks.Keys <= s.born.Keys
    ensures var insert := InsertDependent(4, 2, "", None, 0);
            && Enabled(s, insert) && Apply(s, insert).PcOf(2) == Blocking(0, true)
            && Waiters(Apply(s, insert).tasks, 0) == {1, 2}
  {
    var t := Apply(s, InsertDependent(4, 2, "", None, 0));
    assert forall id :: id in Waiters(t.tasks, 0) <==> id == 2 || id in Waiters(s.tasks, 0);
  }

  lemma OneWaitsRun() returns (run: seq<Label>)
    ensures Legal(0, run) && OneWaits(After(0, run), false)
  {
    run := ClaimedRun(0);
    var s := After(0, run);
    ReadOfClaimed(s);
    run := Continue(0, run, s, ReadUpstream(3, 0), Apply(s, ReadUpstream(3, 0)));
    s := Apply(s, ReadUpstream(3, 0));
    ReadAgain(s);
    run := Continue(0, run, s, ReadUpstream(4, 0), Apply(s, ReadUpstream(4, 0)));
    s := Apply(s, ReadUpstream(4, 0));
    var insert, cancel := InsertDependent(3, 1, "", None, 0), CancelTask(2, 0, 0);
    InsertFirst(s);
    run := Continue(0, run, s, insert, Apply(s, insert));
    s := Apply(s, insert);
    CancelBehindWaiter(s);
    run := Continue(0, run, s, cancel, Apply(s, cancel));
  }

  /** The select of handler 2 right after `early` reports task 1; its update right after `late`
      blocks tasks 1 and 2. */
  ghost predicate BlocksMoreThanReported(early: seq<Label>, late: seq<Label>) {
    && early < late && Legal(0, early) && Legal(0, late) && late[|early|] == BlockSelect(2)
    && Waiters(After(0, early).tasks, 0) == {1}
    && Enabled(After(0, late), BlockUpdate(2, "", 0))
    && Changes(After(0, late).tasks, NextTasks(After(0, late), BlockUpdate(2, "", 0))) == {1, 2}
  }

  lemma LateInsertBlocked(s: State)
    requires Inv(s) && OneWaits(s, true)
    ensures var insert, update := InsertDependent(4, 2, "", None, 0), BlockUpdate(2, "", 0);
            && Enabled(s, insert) && Enabled(Apply(s, insert), update)
            && Changes(Apply(s, insert).tasks, NextTasks(Apply(s, insert), update)) == {1, 2}
  {
    InsertSecond(s);
    BlockChangesWaiters(Apply(s, InsertDependent(4, 2, "", None, 0)).tasks, 0, "", 0);
  }

  lemma BlockedUnreportedSomewhere()
    ensures exists early, late :: BlocksMoreThanReported(early, late)
  {
    var early := OneWaitsRun();
    var s, insert := After(0, early), InsertDependent(4, 2, "", None, 0);
    SelectOne(s);
    var selected := Continue(0, early, s, BlockSelect(2), Apply(s, BlockSelect(2)));
    var t := Apply(s, BlockSelect(2));
    Reachable(0, selected);
    LateInsertBlocked(t);
    var late := Continue(0, selected, t, insert, Apply(t, insert));
    assert early < late && late[|early|] == BlockSelect(2);
    assert BlocksMoreThanReported(early, late);
  }

  // ----- a dependent blocked behind a succeeded upstream -----

  /** The worker has completed the canceled task all the same, and promoted nobody if `done`. */
  ghost predicate CompletedAnyway(s: State, done: bool) {
    && s.tasks.Keys == {0} && s.tasks[0].status.Succeeded? && s.tasks[0].dependsOn.None? && s.born.Keys == {0}
    && s.PcOf(1) == (if done then Idle else Worker(0, 1, MustPromote))
    && s.PcOf(2) == Blocking(0, false) && s.PcOf(3) == Creating(0, Pending) && s.pcs.Keys == {1, 2, 3}
  }

  /** Then the pending task 1 has been inserted, and handler 2 is still to block it. */
  ghost predicate WaitsTooLate(s: State, found: bool) {
    && Waiting(s, 1, 0) && 0 in s.tasks && s.tasks[0].status.Succeeded? && s.tasks[0].dependsOn.None?
    && s.PcOf(2) == Blocking(0, found) && Promoters(s, 0) == {}
  }

  lemma CompleteAnyway(s: State)
    requires ReadCanceled(s)
    ensures Enabled(s, CompleteRun(1, "", 0)) && CompletedAnyway(Apply(s, CompleteRun(1, "", 0)), false)
  {
  }

  lemma PromoteNobody(s: State)
    requires CompletedAnyway(s, false)
    ensures Enabled(s, Promote(1, 0)) && CompletedAnyway(Apply(s, Promote(1, 0)), true)
  {
  }

  lemma InsertTooLate(s: State)
    requires CompletedAnyway(s, true)
    ensures var insert := InsertDependent(3, 1, "", None, 0);
            Enabled(s, insert) && WaitsTooLate(Apply(s, insert), false)
  {
    PromotersStep(s, InsertDependent(3, 1, "", None, 0), 0);
  }

  lemma SelectTooLate(s: State)
    requires WaitsTooLate(s, false)
    ensures Enabled(s, BlockSelect(2)) && WaitsTooLate(Apply(s, BlockSelect(2)), true)
  {
    assert 1 in Waiters(s.tasks, 0);
    PromotersStep(s, BlockSelect(2), 0);
  }

  lemma BlockTooLate(s: State)
    requires WaitsTooLate(s, true)
    ensures Enabled(s, BlockUpdate(2, "", 0)) && Misblocked(Apply(s, BlockUpdate(2, "", 0)), 1, 0)
  {
    PromotersStep(s, BlockUpdate(2, "", 0), 0);
  }

  /** A dependent ends up blocked behind an upstream that has succeeded. */
  lemma MisblockedSomewhere()
    ensures exists run :: Legal(0, run) && Misblocked(After(0, run), 1, 0)
  {
    var run := ReadCanceledRun();
    var s := After(0, run);
    var complete, promote, insert := CompleteRun(1, "", 0), Promote(1, 0), InsertDependent(3, 1, "", None, 0);
    CompleteAnyway(s);
    run := Continue(0, run, s, complete, Apply(s, complete));
    s := Apply(s, complete);
    PromoteNobody(s);
    run := Continue(0, run, s, promote, Apply(s, promote));
    s := Apply(s, promote);
    InsertTooLate(s);
    run := Continue(0, run, s, insert, Apply(s, insert));
    s := Apply(s, insert);
    SelectTooLate(s);
    run := Continue(0, run, s, BlockSelect(2), Apply(s, BlockSelect(2)));
    s := Apply(s, BlockSelect(2));
    BlockTooLate(s);
    run := Continue(0, run, s, BlockUpdate(2, "", 0), Apply(s, BlockUpdate(2, "", 0)));
  }
}
