# A model of the task backend

This project models the stateful and algorithmic core of the backend: the task table and
the worker pool that drains it, the recurring scheduler with its cron search, the transcript
clean-up pipeline, the event-stream relay, the login limiter, the speech session, the event
collector and the SQL placeholder rewriting. It proves what these promise over all inputs
and, for the protocols, over all runs. `dafny verify dfyconfig.toml` checks everything.

How it is organised:

- **Tasks.** `TaskTable` writes every SQL statement on `tasks` as one atomic function of the
  table, and as a method of a store object that is proved to compute that function.
  `TaskProtocol` interleaves the statements of workers, HTTP handlers, scheduler, janitor,
  crash and restart; `TaskSafety` and `TaskDependencies` prove what every run keeps and
  exactly which steps break what one would expect, `TaskProgress` proves that there is no
  deadlock without those, and `TaskRuns` shows concrete runs that have them.
  `SessionGate` is the reference-counted per-session lock, once on the heap and once as a
  protocol of interleaving workers.
- **Schedule.** `Cron` parses six-field expressions and searches the next firing time;
  `Scheduler` is the compare-and-set protocol on a template's cursor.
- **Text.** `Dedup`, `Words`, `Squares` and `Transcript` are the deduplication stages and
  their composition; `Punctuate` and `Clauses` are local punctuation, clause splitting and
  the plausibility check. `Text` and `Subsequence` hold shared vocabulary.
- **Streams and buffers.** `EventStream`, `EventPipeline`, `RateLimit`, `SttSession`,
  `Rebind`.

Methods have the loops and in-place updates of the code and are proved equal to
specification functions; the lemmas are about those functions.

## What the model assumes

- One process uses the database. Each SQL statement is atomic and no store call fails; the
  exception is the scheduler's clone, whose failure is a step of its protocol.
- Generated ids are fresh. Task ids, session ids and client keys are opaque numbers, and
  an absent one (the empty string) is `None` or left out of the type.
- Prompt outcomes, LLM verdicts, panics and crashes are free choices of the run.
- Equal creation or update times may be taken in any order.
- The login limiter reads its clock before it takes its lock, so readings may arrive out of
  order. That is modelled, and the readings for which its decision is right are exactly those
  that are not late.
- Time is an integer; for cron it counts nanoseconds, and civil time and the three-year
  horizon are parameters.
- There is one time zone: civil time depends on the instant alone. The code reads it in the
  location of the base time (internal/automation/cron.go:44-52), and the scheduler's base is
  first the creation time and later the last firing time (internal/server/scheduler.go:68-71).
- Text is a sequence of code points; the stream parser works on bytes with ASCII white
  space. Ratios of lengths are exact rationals.

## Where code and comments disagree

The model follows the code.

- `RetryTask` only matches status `failed`, but `execute` calls it while the row is
  `running` or `canceled`, so no retry ever happens: the deterministic one fails the task at
  once (`RetryIsDead`) and the one the LLM grants leaves a `running` row that no worker owns
  (`LeakedExactlyByLlmRetry`, a run in `LeakedSomewhere`). Since only restarts re-queue, the
  LLM is asked no earlier than after `maxRetries` of them (`LlmAskedAfterRestarts`).
- `CompleteTask` and `FailTask` do not look at the status, so a canceled task can still
  become succeeded or failed (`FinishedRowOverwritten`, a run in `OverwrittenSomewhere`), and
  a dependent can be blocked behind an upstream that succeeded (`MisblockedExactly`, a run in
  `MisblockedSomewhere`).
- A dependent is said to be re-queued only once its upstream succeeds. The exception is one
  inserted after its upstream was canceled and purged (`DependentsRunAfterSuccess`, a run in
  `ReleasedBehindPurgedSomewhere`).
- Promotion is one statement to close a race with a concurrent insertion, but `createTask`
  reads the upstream and inserts in two steps, so a dependent can still be left pending
  forever (`LateInsertStrands`, a run in `StuckSomewhere`). Canceling a scheduled upstream, a panic, and a crash between
  finishing and resolving do the same; `StrandedExactly` lists all the ways.
- `BlockDependents` reports the dependents it selected, which need not be the ones its update
  then blocks if it selected any (`ReportedAreBlocked`, a run in `BlockedUnreportedSomewhere`).
- Promotion of a blocked task keeps its `finished_at` (`BlockedThenReleased`).
- The scheduler puts the cursor back after a failed clone without comparing it, which can
  clone an occurrence twice once another scheduler has moved on (`RollbackExactly`,
  `LateRollbackRepeats`; every template that fires twice has such a run,
  `LateRollbackSomewhere`).
- A cron step so large that the loop counter wraps around adds negative values to the
  list of the day or month field (`ExactIffNoWrap`, a field in `WrapsSomewhere`).
- `dedupRuns` collapses runs of every character, not only Chinese ones: 100 becomes 10
  (`DigitsCollapse`; `CollapseKeepsExactly` says which texts survive).
- `dedupAdjacentRepeat` drops everything past 2000 runes although the comment says it is
  kept (`DedupKeepsExactly`, `RefinedIsShort`). Its cut may also take the space that separates two equal
  characters, and merge them (`SpacesCanMerge`, `CutCleanExactly`).
- The phrase loop of `trimTailRepeat` never finds anything inside the pipeline
  (`TailPhraseNeverFires`).
- The login limiter is described as a fixed window that records every attempt; it is a
  sliding log that records admitted attempts only. It judges a reading by the admissions of
  the window before it exactly if the reading is not late (`JudgedRightExactly`): a late one
  can be refused with nothing in its window (`RefuseLate`) and admitted although its window is
  full (`AdmitLate`).
- The collector waits for its flusher to save what is queued, but an event accepted after
  the flusher's last look at the queue is lost (`StopLosesExactlyLateOffers`).
- The replacement of NUL escapes in payloads also hits the same characters after an escaped
  backslash, where they are plain text (`OnlyGenuineChangedExactly`, a payload in
  `EscapedBackslashRewritten`).

## Model

| member | source | states |
|---|---|---|
| TaskTable.TaskStore.CreateTaskWithStatus | internal/store/task.go:52-69 | an existing id is an error that changes nothing; otherwise exactly one row is added, with the given session, status, upstream, schedule and cron, no attempts, error or result, all three times now, and no start, finish or firing time |
| TaskTable.TaskStore.ClaimNextTask | internal/store/task.go:125-153 | the claimed row is an oldest queued row whose time has come; of all rows and columns exactly its status, attempts, start and update time change; nothing is claimed only if no queued row is due |
| TaskTable.TaskStore.CompleteTask | internal/store/task.go:170-175 | whatever its status, exactly the status, result, finish and update time of the row change, to succeeded, this result and now; an unknown id changes nothing |
| TaskTable.TaskStore.FailTask | internal/store/task.go:186-191 | whatever its status, exactly the status, error, finish and update time of the row change, to failed, this error and now; an unknown id changes nothing |
| TaskTable.TaskStore.RetryTask | internal/store/task.go:197-219 | found exactly for a failed row, which then can be claimed from now + backoff on and no earlier; its error and finish time are cleared and nothing else changes; otherwise nothing changes |
| TaskTable.TaskStore.CancelTask | internal/store/task.go:222-234 | reports true exactly for a queued, pending or running row, which then can never be claimed; exactly its status, finish and update time change; otherwise nothing changes |
| TaskTable.TaskStore.CancelScheduledTask | internal/store/task.go:428-438 | reports true exactly for a scheduled row, which then can never be claimed; exactly its status, finish and update time change; otherwise nothing changes |
| TaskTable.TaskStore.PromoteScheduledTask | internal/store/task.go:378-388 | reports true exactly for a scheduled row, which then can be claimed from this moment on; nothing else changes; otherwise nothing changes |
| TaskTable.TaskStore.UnblockTask | internal/store/task.go:292-306 | reports true exactly for a blocked row, which then can be claimed from this moment on; its error and finish time are cleared and nothing else changes; otherwise nothing changes |
| TaskTable.TaskStore.ClaimRecurringFire | internal/store/task.go:411-425 | wins exactly while the template is scheduled and its cursor the expected one; a second caller with the same expectation then loses, unless the cursor was put to that very value; only this row changes, and it stays scheduled |
| TaskTable.TaskStore.PromotePendingDependents | internal/store/task.go:245-270 | returns exactly the pending and blocked dependents, each once; these are queued, claimable now and without an error, with every other column, also the finish time, and every other row unchanged |
| TaskTable.TaskStore.BlockPendingDependents | internal/store/task.go:272-287 | whatever happens to the table between select and update: returns exactly the dependents that waited at the select, each once; blocks exactly those that wait at the update, with the reason as error and now as finish time; nothing is written if the select finds nobody |
| TaskTable.ReportedAreBlocked | internal/store/task.go:272-287 | the ids returned are the rows blocked if and only if the select finds nobody, so that there is no update, or the same dependents wait at the update as at the select |
| TaskTable.TaskStore.RecoverStaleRunning | internal/store/task.go:352-362 | afterwards nothing is running; of each row that was exactly the status, start and update time change, to queued, none and now; all others are untouched, and the count is right |
| TaskTable.TaskStore.PurgeFinishedTasks | internal/store/task.go:478-524 | deletes finished rows written before the cutoff that no unfinished row names, up to the limit (500 by default), none of them written later than one left, and fewer only if none is left; counts the finished rows the later statement keeps for an unfinished one, with its own clock reading and after whatever happened in between |
| TaskTable.PurgeChoiceExactly | internal/store/task.go:478-524 | the choices open to the DELETE, as the interleaving protocol makes them, are exactly the batches of oldest finished rows that no unfinished row names |
| TaskTable.TakeOldest | internal/store/task.go:500-510 | a batch of the limit's size in which no row is newer than one left out |
| TaskTable.PurgeKeepsActive | internal/store/task.go:470-477 | a purge keeps every active row as it is, and its upstream if that existed |
| TaskTable.PurgeConserves | internal/store/task.go:478-524 | expired rows before a pass = deleted + protected + eligible leftovers, and a pass changes the last two classes by deleting only |
| TaskTable.PassesDrain | internal/store/task.go:478-524 | with a fixed cutoff, k passes leave max(0, eligible - k * limit) rows, so repeated passes reach zero |
| TaskSafety.ExclusiveStep | internal/tasks/executor.go:133-183 | no step gives a task a second executor |
| TaskSafety.OwnedRowStep | internal/tasks/executor.go:230-320 | the row of a task under execution is running or finished, with the status its worker's progress implies, never queued, pending, blocked or scheduled |
| TaskSafety.WaitingRowStep | internal/server/tasks.go:153-186 | a pending or blocked task names an upstream that was created strictly earlier, after every step |
| TaskSafety.RowStep | internal/store/task.go:125-438 | dependencies of a row never change, only a claim counts an attempt, and the status moves only along the listed edges |
| TaskSafety.ColumnsStep | internal/store/task.go:125-438 | creation time, cron expression, schedule and cursor of a row never change, its session exactly by the Annotate step of the worker that executes it, its result exactly by that worker's completion, its start time exactly by a claim and, if it was running, by a restart |
| TaskSafety.SessionIsOwners | internal/store/task.go:162-167 | over any stretch of any run: the session of a row is the one it had at the start, or one written by a worker that was executing the task |
| TaskSafety.RowsAreShaped | internal/store/task.go:125-438 | in every run the columns of every row agree with its status: running rows have a start time, an attempt and no result, rows that wait have neither attempts nor a start time, blocked and finished ones have a finish time |
| TaskSafety.CreatingSinceRead | internal/server/tasks.go:153-176 | in every run createTask about to insert has read an upstream that was not failed, canceled or blocked, and will queue the task exactly if the upstream had succeeded by then, and leave it pending otherwise |
| TaskSafety.CountedStep | internal/store/task.go:122-153 | every step keeps attempts equal to the claims in the history, and the claims tied to the restarts by the row's status |
| TaskSafety.Reachable | internal/tasks/executor.go:103-183 | every run of the protocol keeps all of the above, from an empty table on |
| TaskSafety.OneExecutor | internal/tasks/executor.go:133-183 | in every run a task has at most one executor, and then its row is neither queued, pending, blocked nor scheduled |
| TaskSafety.AttemptsCountClaims | internal/store/task.go:122-153 | in every run attempts = number of claims, and claims never exceed one plus the restarts that re-queued the task |
| TaskSafety.RetryRefused | internal/tasks/executor.go:234-274 | whenever execute calls RetryTask it changes nothing, and the worker fails the task or drops it |
| TaskSafety.RetryIsDead | internal/tasks/executor.go:234-274 | no run contains a retry that re-queues a task |
| TaskSafety.LlmAskedAfterRestarts | internal/tasks/executor.go:234-262 | in every run the LLM is consulted about a task only after at least maxRetries restarts have re-queued it |
| TaskSafety.FinishedRowOverwritten | internal/store/task.go:170-191 | a finished row changes status exactly when its still executing owner, or panic recovery, writes a different outcome |
| TaskSafety.LeakedExactlyByLlmRetry | internal/tasks/executor.go:239-250 | a running row loses its only worker exactly when the LLM grants a retry |
| TaskSafety.LeakedUntilCancelOrCrash | internal/tasks/executor.go:103-110 | such a row stays so until a client cancels it or the process goes down |
| TaskDependencies.UpstreamFinishes | internal/tasks/executor.go:230-320 | the steps that end an upstream's activity are exactly completion, failure, panic recovery and the two cancels |
| TaskDependencies.NeverRevived | internal/store/task.go:125-438 | a task that finished or was purged never becomes active again |
| TaskDependencies.WaitStarts | internal/server/tasks.go:153-186 | a task starts to wait for its upstream exactly by the insertion that follows createTask's look at it |
| TaskDependencies.WaitEnds | internal/store/task.go:236-287 | a wait ends exactly by promotion, by blocking, or by canceling the waiting task |
| TaskDependencies.FinisherWakes | internal/tasks/executor.go:162-183 | whoever finishes a task goes on to resolve its dependents, except panic recovery and the cancel of a schedule |
| TaskDependencies.StrandedExactly | internal/tasks/executor.go:162-364 | a step leaves a waiting task with a finished upstream and nobody to wake it exactly in the six listed circumstances |
| TaskDependencies.StuckUntilCanceled | internal/server/tasks.go:221-266 | a task left behind stays so exactly until a client cancels it; restart and unblock do not help |
| TaskDependencies.StuckIsLeftBehind | internal/tasks/executor.go:324-364 | in every run a task is stuck at the end if and only if some step left it behind and none canceled it since |
| TaskDependencies.ChainEnd | internal/server/tasks.go:153-186 | following active upstreams ends, at an active task that is not pending or whose upstream is finished |
| TaskProgress.OrderlyKeeps | internal/tasks/executor.go:324-364 | in every run without a panic, a canceled schedule, an LLM retry, an insertion apart from its look at the upstream, or a crash while a goroutine is about to resolve dependents: each waiting task with a finished upstream has such a goroutine, and while the executor is up no row runs without a worker |
| TaskProgress.OrderlyStrandsNothing | internal/tasks/executor.go:324-364 | such a run leaves no task behind |
| TaskProgress.OrderlyUpstreamExists | internal/server/tasks.go:153-186 | in every such run the upstream of each pending task is in the table |
| TaskProgress.NoDeadlock | internal/tasks/executor.go:324-364 | no dependency deadlock: in every such run each pending task has an existing upstream and waits, over finitely many pending ones, for a task that is queued, blocked, scheduled, executed by a worker while the executor is up, or whose finished upstream is about to be resolved |
| TaskDependencies.DanglingExactly | internal/store/task.go:478-524 | an active task starts to name a missing upstream exactly when it is inserted so; the purge never takes an upstream away |
| TaskDependencies.DanglingSinceBirth | internal/server/tasks.go:153-186 | in every run a dangling task was dangling when it was inserted |
| TaskDependencies.ReleasedOnlyAfterSuccess | internal/server/tasks.go:99-105 | a pending or blocked task is queued exactly by a manual unblock or by the worker that completed its upstream, whose row then says succeeded unless the task dangles |
| TaskDependencies.DependentsRunAfterSuccess | internal/server/tasks.go:99-105 | in every run a dependent that is not unblocked by hand is queued only after its upstream succeeded, or it was inserted when its upstream was gone |
| TaskDependencies.MisblockedExactly | internal/tasks/executor.go:324-364 | a task comes to be blocked behind a succeeded upstream with nobody to promote it exactly by a late block of a canceling handler, or by a panic or crash of the promoter |
| TaskRuns.CancelingScheduleStrands | internal/server/tasks.go:221-247 | wherever a task waits for a scheduled one, canceling that over HTTP leaves it behind |
| TaskRuns.CanceledScheduleStrandsSomewhere | internal/server/tasks.go:221-247 | a concrete run in which that happens |
| TaskRuns.LateInsertStrands | internal/server/tasks.go:155-186 | wherever a task runs, a dependent created at that moment can be left behind by the read-then-insert of createTask |
| TaskRuns.StuckSomewhere | internal/server/tasks.go:155-186 | a concrete run in which that happens |
| TaskRuns.BlockedUnreportedSomewhere | internal/store/task.go:272-287 | a concrete run in which an insertion between select and update gets a dependent blocked that is not reported |
| TaskRuns.LeakedSomewhere | internal/tasks/executor.go:239-250 | a concrete run in which an LLM verdict to retry leaves a running row without a worker |
| TaskRuns.OverwrittenSomewhere | internal/store/task.go:170-175 | for every retry setting a run in which a canceled task ends succeeded |
| TaskRuns.ReleasedBehindPurgedSomewhere | internal/server/tasks.go:155-186 | a concrete run in which a dependent is queued although its upstream was canceled and purged |
| TaskRuns.MisblockedSomewhere | internal/server/tasks.go:221-251 | a concrete run in which a dependent ends blocked behind a succeeded upstream |
| SessionGate.GateMap.Hold | internal/tasks/executor.go:188-201 | workers naming one session get the same gate, counted once each; a worker without a session gets none; the map counts the outstanding holds |
| SessionGate.GateMap.Release | internal/tasks/executor.go:205-212 | undoes one hold, and the gate leaves the map exactly with its last holder |
| SessionGate.MappedStep | internal/tasks/executor.go:188-212 | after every step the map holds only gates with holders, and holders is the number of workers between hold and release |
| SessionGate.LockedStep | internal/tasks/executor.go:162-170 | after every step a gate's mutex belongs to exactly the worker that executes behind it |
| SessionGate.Reachable | internal/tasks/executor.go:162-212 | every interleaving of workers keeps these invariants |
| SessionGate.SessionsNeverOverlap | internal/tasks/executor.go:160-183 | in every run two executions that name the same session do not overlap |
| SessionGate.MapHoldsLiveGates | internal/tasks/executor.go:188-212 | in every run a session is in the map exactly while somebody holds it, all its holders share one gate, and the map is empty when nobody holds |
| Cron.AddRange | internal/automation/cron.go:84-90 | the step loop lists exactly the grid values of the range, plus the negative values it meets when the machine integer wraps around |
| Cron.ParseField | internal/automation/cron.go:61-102 | succeeds exactly for valid fields, with a duplicate-free list of exactly what the comma parts list |
| Cron.ListedIffAdmitted | internal/automation/cron.go:61-102 | a value a clock can show is in the list if and only if some comma part admits it |
| Cron.ExactIffNoWrap | internal/automation/cron.go:84-90 | the list is exactly the set of admitted values if and only if no step wraps around |
| Cron.WrapsSomewhere | internal/automation/cron.go:84-90 | a day field that is valid and wraps around |
| Cron.PairExactly | internal/automation/cron.go:66-69 | a field "a,b" is valid if and only if a and b are, and admits exactly what one of them admits |
| Cron.StarExactly | internal/automation/cron.go:69-72 | a star is valid and admits exactly the range |
| Cron.StepExactly | internal/automation/cron.go:72-80 | a star with a step is valid if and only if the step is a positive number, and admits every so many values of the range, from its start on |
| Cron.NumberExactly | internal/automation/cron.go:91-98 | any other field without a comma is valid if and only if it is a number of the range, and admits exactly that number |
| Text.AtoiExactly | internal/automation/cron.go:73-92 | exactly an optional sign and at least one digit within the range of int read as a number, namely the one they denote |
| Text.SplitExactly | internal/automation/cron.go:68 | joined by the separator the parts are the text again, none of them contains it, and there is one part more than separators |
| Text.SplitAtSep | internal/automation/cron.go:68 | cutting at a separator cuts what is on its two sides |
| Text.WordsFound | internal/automation/cron.go:121-124 | words with any white space before, between and after them are exactly the words found again |
| Text.TrimAround | internal/automation/cron.go:62-69 | white space around a text is trimmed off, and with it exactly what is trimmed off the text itself |
| Cron.OnlyFieldDecides | internal/automation/cron.go:14-57 | with stars in the five other fields an expression is valid exactly if the k-th field is valid over the range of its component, and exactly the times match whose k-th component the k-th field admits: second, minute, hour, day, month, weekday with their ranges |
| Cron.Contains | internal/automation/cron.go:104-111 | finds a value if and only if it is listed |
| Cron.Matches | internal/automation/cron.go:43-57 | the six list searches accept an instant if and only if all six fields admit its civil time |
| Cron.NextFields | internal/automation/cron.go:14-58 | returns the first instant a whole number of seconds after the start and before the horizon that all six fields admit, with no such instant in between; fails exactly for an invalid field or when there is none |
| Cron.NextCron | internal/automation/cron.go:116-136 | the same for a whole expression, and also fails exactly when nothing matches within the horizon of the present |
| Cron.NextIsFirst | internal/automation/cron.go:43-57 | the next firing time is the first matching instant, a whole number of seconds after the base and before the horizon |
| Cron.NextIsUnique | internal/automation/cron.go:43-57 | the next firing time is determined by the expression and the base |
| Cron.NextIsLater | internal/automation/cron.go:43-57 | it lies at least one second later, in a later whole second, which matches |
| Scheduler.FireStep | internal/server/scheduler.go:80-88 | winning the compare-and-set appends one advance to the chain of advances, over a stretch that contains a firing time |
| Scheduler.RollbackStep | internal/server/scheduler.go:96-103 | a rollback that nobody has overtaken removes exactly its own advance |
| Scheduler.Reachable | internal/server/scheduler.go:63-105 | the chain invariant holds in every run of any number of schedulers with arbitrary clocks in which no rollback is overtaken |
| Scheduler.NoFailureIsUndisturbed | internal/server/scheduler.go:96-103 | that covers every run without a clone failure |
| Scheduler.CursorMovesForward | internal/store/task.go:411-425 | the compare-and-set is won if and only if the template is open and its cursor the one listed; it then puts the cursor to the clock reading, at least a second after the old one or the creation, in every run and whatever the clocks say; otherwise nothing changes |
| Scheduler.ClonesAreDisjoint | internal/server/scheduler.go:54-63 | exactly-once: any two clones have different cursor values and account for disjoint stretches of time, each with its due time inside |
| Scheduler.SecondsClonedOnce | internal/server/scheduler.go:63-105 | with a real cron expression, every clone answers a matching second and no second is answered by two clones |
| Scheduler.EveryAdvanceAccounted | internal/server/scheduler.go:80-105 | in every such run each advance of the cursor has been cloned, or is owned by the one scheduler that made it and has yet to clone it or to roll it back |
| Scheduler.ClonesCover | internal/server/scheduler.go:63-105 | no occurrence is lost: in every such run, while no scheduler is between its compare-and-set and its clone or rollback, each instant from the creation to the cursor lies in the stretch of a clone |
| Scheduler.RollbackExactly | internal/server/scheduler.go:96-103 | the unconditional rollback keeps the invariant if and only if the cursor is still the one this scheduler wrote |
| Scheduler.LateRollbackRepeats | internal/server/scheduler.go:96-103 | after an overtaken rollback, once the newest advance has been cloned, the next poll past the cursor clones its occurrence a second time |
| Scheduler.LateRollbackSomewhere | internal/server/scheduler.go:96-103 | every template that fires at least twice has a run with one failed clone in which that happens |
| Dedup.DedupPunct | internal/server/stt_refine.go:344-366 | computes the text with every later mark of a run dropped |
| Dedup.UnpunctSeparates | internal/server/stt_refine.go:343-366 | no two marks are adjacent afterwards |
| Dedup.UnpunctKeepsLetters | internal/server/stt_refine.go:343-366 | nothing but marks is dropped |
| Dedup.FirstMarkKept | internal/server/stt_refine.go:344-366 | of a run of marks exactly the first is kept, and the text before and after it is treated by itself |
| Dedup.DedupRuns | internal/server/stt_refine.go:372-394 | computes the text with every run of equal runes collapsed by the allow-list rule |
| Dedup.CollapseCleans | internal/server/stt_refine.go:368-394 | no run of three is left, runs of two only of allow-listed runes, and marks stay apart |
| Dedup.CollapseDeletes | internal/server/stt_refine.go:368-394 | the result is a subsequence of the text |
| Dedup.RunCollapses | internal/server/stt_refine.go:379-392 | a run of equal runes collapses to one, except that exactly two allow-listed ones stay two, and the text before and after it is treated by itself |
| Dedup.CollapseKeepsExactly | internal/server/stt_refine.go:368-394 | a text of any script comes back unchanged if and only if its equal neighbours are allow-listed and nothing occurs three times in a row |
| Dedup.DigitsCollapse | internal/server/stt_refine.go:379-392 | against the comment a number loses a digit: 100 becomes 10 |
| Squares.FindBest | internal/server/stt_refine.go:423-437 | finds the leftmost of the longest blocks that are followed by their copy, directly or across one space, or reports that there is none |
| Squares.RepeatsExactly | internal/server/stt_refine.go:423-437 | a block counts as repeated exactly where the text reads x w w y or x w, a space, w y with a block w of two runes or more |
| Squares.DedupAdjacentRepeat | internal/server/stt_refine.go:409-452 | the loop terminates and computes the repeated removal on the first 2000 runes of the trimmed text |
| Squares.ReduceRound | internal/server/stt_refine.go:441-450 | every round removes at least two runes |
| Squares.CutKeepsOne | internal/server/stt_refine.go:441-447 | a round leaves one copy and everything around it; a space between the copies goes, and so does one that the second copy begins with |
| Squares.ReduceIsSquareFree | internal/server/stt_refine.go:396-403 | no block of two or more runes is followed by its copy in the result, directly or across one space |
| Squares.ReduceDeletes | internal/server/stt_refine.go:409-452 | the result is a subsequence of the text |
| Squares.CutKeepsClean | internal/server/stt_refine.go:441-447 | cutting a copy makes no new pair or triple of adjacent runes unless it takes a leading space |
| Squares.CutCleanExactly | internal/server/stt_refine.go:441-447 | a cut of a clean text is clean if and only if it takes no leading space, or what meets at the seam goes together |
| Squares.ReduceKeepsClean | internal/server/stt_refine.go:409-452 | on text without white space the whole loop keeps what the earlier stages established |
| Squares.TrimTailRepeat | internal/server/stt_refine.go:568-592 | computes the tail rule: a doubled last word goes, otherwise the shortest doubled tail phrase |
| Squares.DoubledWordGoes | internal/server/stt_refine.go:574-583 | a text that ends in a word, white space and the same word loses the white space and the second one |
| Squares.OtherWordsStay | internal/server/stt_refine.go:574-583 | with two different last words only the rule for phrases applies |
| Squares.OneWordStays | internal/server/stt_refine.go:574-583 | so it does to a text that is one word |
| Squares.PhraseRule | internal/server/stt_refine.go:584-591 | of the phrases of two runes or more that are doubled at the end, the second copy of the shortest goes |
| Squares.NoPhraseRule | internal/server/stt_refine.go:584-591 | without such a phrase that rule changes nothing |
| Squares.PhraseLoopIsDead | internal/server/stt_refine.go:584-591 | on a text without repeated blocks the phrase loop finds nothing |
| Squares.TrimTailIsSlice | internal/server/stt_refine.go:568-592 | what the tail rule removes from such a text is at its ends |
| Words.TokensTokenize | internal/server/stt_refine.go:21-25 | the tokens are the maximal runs of one kind and concatenate to the text |
| Words.DedupWords | internal/server/stt_refine.go:21-49 | the builder with its end-word flag computes the dropping of repeated words |
| Words.UniqueWordsAreUnique | internal/server/stt_refine.go:14-49 | no word follows the same word, up to case, with only blanks and tabs between |
| Words.UnchangedExactly | internal/server/stt_refine.go:14-49 | a text comes back unchanged if and only if it has no repeated word, and a second pass changes nothing |
| Words.UniqueWordsDeletes | internal/server/stt_refine.go:21-49 | the result is a subsequence of the text |
| Words.RepeatedWordGoes | internal/server/stt_refine.go:14-49 | a word that follows the same word up to case, with only blanks and tabs between, goes with them; the first one stays as written, and the rest of the text is treated as if the second had not been there |
| Transcript.DedupTranscript | internal/server/stt_refine.go:458-460 | the composition of the five stages in this order: words, marks, runs, blocks, tail |
| Transcript.RefinedIsSquareFree | internal/server/stt_refine.go:454-460 | for every input the final text nowhere reads w w or w, a space, w for a block w of two or more runes |
| Transcript.RefinedDeletes | internal/server/stt_refine.go:454-460 | for every input the final text is a subsequence of the input |
| Transcript.RefinedIsClean | internal/server/stt_refine.go:343-460 | for any allow-list of letters, on text without white space the final text has no adjacent marks, no run of three, and pairs only of allow-listed characters |
| Transcript.TranscriptIsClean | internal/server/stt_refine.go:328-394 | the same for the allow-list of the file, none of whose characters is a punctuation mark |
| Transcript.SpacesCanMerge | internal/server/stt_refine.go:441-460 | with white space that fails: a concrete clean text of which the whole pipeline makes one that is not clean |
| Transcript.TailPhraseNeverFires | internal/server/stt_refine.go:580-591 | for every input the phrase loop of trimTailRepeat does nothing in the pipeline |
| Transcript.DedupKeepsExactly | internal/server/stt_refine.go:396-440 | against the comment, which keeps the rest: a text comes back whole if and only if it has no repeated block and at most 2000 runes |
| Transcript.RefinedIsShort | internal/server/stt_refine.go:416-421 | no final text is longer than 2000 runes |
| Punctuate.LocalPunctuate | internal/server/stt_refine.go:485-528 | computes the insertion rule with the connectives and question endings of the file |
| Punctuate.OnlyPunctuationInserted | internal/server/stt_refine.go:479-485 | erasing punctuation from the result and from the trimmed input gives the same text |
| Punctuate.Idempotent | internal/server/stt_refine.go:479-528 | a second application changes nothing |
| Punctuate.CommasBeforeConnectives | internal/server/stt_refine.go:497-510 | every comma stands right before a connective, inside the text and not after a digit |
| Punctuate.ConnectivesHaveCommas | internal/server/stt_refine.go:497-510 | and every such place has its comma |
| Punctuate.QuestionExactly | internal/server/stt_refine.go:485-527 | a blank text or one with a mark comes back trimmed; any other gets its commas, and a question mark at its end if and only if it ends in a question word |
| Clauses.SplitClauses | internal/server/stt_refine.go:291-311 | the loops compute the trimmed non-blank raw parts, in order |
| Clauses.RawPartsPartition | internal/server/stt_refine.go:291-311 | the raw parts concatenate to the text, and all but the last have 40 runes or more |
| Clauses.CutsAtBoundaries | internal/server/stt_refine.go:296-326 | every cut is where a mark stands or a connective begins, and never after a digit |
| Clauses.DueCutsMade | internal/server/stt_refine.go:291-326 | no due cut is left out: at 40 runes or more from the start of a raw part, the last one included, nothing inside it is a mark or begins a connective, unless after a digit |
| Clauses.PiecesOfEach | internal/server/stt_refine.go:300-310 | every raw part yields its trimmed text, or nothing if it is blank, in its place |
| Clauses.PiecesTrimmed | internal/server/stt_refine.go:300-310 | pieces are non-empty and trimmed |
| Clauses.ClausesCoverText | internal/server/stt_refine.go:291-311 | with white space erased the pieces concatenate to the text |
| Clauses.CountShared | internal/server/stt_refine.go:634-644 | the greedy counter is the size of the multiset intersection of the two texts |
| Clauses.RefinePlausible | internal/server/stt_refine.go:622-646 | accepts exactly a non-blank repair with length ratio between 0.3 and 3 and at least 60 percent of its runes, with multiplicity, drawn from the original |
| Clauses.OrderIrrelevant | internal/server/stt_refine.go:622-646 | permuting either text does not change the verdict |
| Clauses.AcceptsItself | internal/server/stt_refine.go:622-646 | any non-blank text is accepted as its own repair |
| EventStream.StreamEvents | internal/opencode/client.go:495-528 | the line loop emits exactly the events of the parse function, of which the next rows say what they are |
| EventStream.BlockParses | internal/opencode/client.go:500-515 | for every byte stream: the lines up to a blank one are one event, the trimmed texts behind "data:" joined without a separator, or none if that is empty; other lines contribute nothing; lines end in LF or CR LF; then the rest is parsed afresh |
| EventStream.EndParses | internal/opencode/client.go:516-524 | a block that ends with the stream is emitted likewise, also if its last line has no end |
| EventStream.StripExactly | internal/opencode/client.go:503 | white space at both ends of the text is taken off, and nothing else |
| EventStream.EventsArePayloads | internal/opencode/client.go:495-534 | every emitted event is non-empty, without newline, and trimmed |
| EventStream.ParseFrame | internal/server/stream.go:62-68 | a printed frame parses to its event, whatever follows |
| EventStream.ParsePreamble | internal/server/stream.go:53-57 | the preamble parses to the single event {} |
| EventStream.RelayIsLossless | internal/server/stream.go:53-68 | parsing the relay gives the preamble's event followed by exactly the relayed events |
| EventStream.RelayedStreamsAreLossless | internal/server/stream.go:59-87 | for every sequence of upstream byte streams, across reconnects, nothing is lost, added, reordered or altered |
| EventStream.FrameRoundTripExactly | internal/server/stream.go:63 | printing then parsing gives the payload back if and only if it is non-empty, without newline and trimmed |
| RateLimit.FilterInPlace | internal/server/ratelimit.go:37-41 | overwriting the array that is being read keeps exactly the entries after the cutoff, in order, at its front, and touches nothing behind the slice |
| RateLimit.LoginLimiter.Prune | internal/server/ratelimit.go:63-77 | with every log filtered in the array that holds it, each keeps exactly its entries inside the window, and no key keeps an empty log |
| RateLimit.LoginLimiter.Allow | internal/server/ratelimit.go:32-52 | admits exactly when the kept log has room; for a reading not older than an earlier one that is exactly when fewer than limit admissions since the last clear lie in (now - window, now], judged by the full history; records admitted attempts only |
| RateLimit.LoginLimiter.Clear | internal/server/ratelimit.go:55-59 | forgets exactly this key |
| RateLimit.AgreesAfter | internal/server/ratelimit.go:32-77 | filtering one key and pruning all keys loses nothing that a decision at the latest reading or later can see, also after readings out of order |
| RateLimit.JudgedRightExactly | internal/server/ratelimit.go:32-52 | a reading is judged by the number of admissions in (now - window, now] whatever the limiter holds, and for every key, if and only if no reading before it was later |
| RateLimit.RefuseLate | internal/server/ratelimit.go:32-52 | for every limit, window, latest reading and older reading: calls that make the limiter refuse the older one although no admission lies in its window |
| RateLimit.AdmitLate | internal/server/ratelimit.go:32-52 | for every limit and window, and every reading up to one window late: calls that make the limiter admit it although limit admissions lie in its window |
| RateLimit.HistoryValid | internal/server/ratelimit.go:32-52 | as long as readings come in order the history stays one of admissions in order, each within the limit |
| RateLimit.WindowBound | internal/server/ratelimit.go:11-20 | then no interval of one window's length contains more than limit admissions of a key |
| SttSession.BlocksPartition | scripts/stt-server/stt_server.py:170-176 | full blocks and remainder are the stream, and every block has 6400 samples |
| SttSession.BlocksAppend | scripts/stt-server/stt_server.py:128-139 | feeding more samples depends only on what the earlier ones left over |
| SttSession.ChunkingIrrelevant | scripts/stt-server/stt_server.py:128-176 | however the samples are split into chunks, the blocks decoded and the samples left are those of the whole stream |
| SttSession.PaddingCompletes | scripts/stt-server/stt_server.py:158-163 | padding leaves no remainder, and a session of n samples decodes ceil(n/6400) + 2 blocks in all |
| SttSession.FinalBlocksAreStream | scripts/stt-server/stt_server.py:158-166 | what a session decodes in all are full blocks of 6400 samples that make up the samples received and then silence, two blocks of it or more and less than three |
| SttSession.MillisNearest | scripts/stt-server/stt_server.py:145 | the duration reported is the nearest thousandth of a second, the even one of two |
| SttSession.Session.Drain | scripts/stt-server/stt_server.py:170-176 | feeds exactly the full blocks of the buffer and keeps the rest |
| SttSession.Session.Accept | scripts/stt-server/stt_server.py:128-147 | keeps decoded blocks followed by pending samples equal to everything received; a reaped or finished session refuses and no field of it changes |
| SttSession.Session.Finish | scripts/stt-server/stt_server.py:149-168 | decodes the padded stream and two blocks of silence, after which the text is final; a second call, or one on a reaped session, changes no field |
| SttSession.Engine.Create | scripts/stt-server/stt_server.py:227-238 | a new session, empty and last used now, under an unused id within the session limit, or none at the limit or when all eight ids collide |
| SttSession.Engine.Delete | scripts/stt-server/stt_server.py:245-252 | exactly this session leaves the map and is marked; of the others no field changes |
| SttSession.Engine.Sweep | scripts/stt-server/stt_server.py:259-270 | exactly the sessions that are finished or were last used longer ago than the idle timeout leave the map, and are marked; the others stay |
| EventPipeline.UnreadIdsExact | internal/server/events.go:141-158 | a flush marks exactly the sessions with a trigger event, each once, in order of their first one |
| EventPipeline.CollectUnread | internal/server/events.go:141-150 | the loop with its seen map computes these ids |
| EventPipeline.Collector.Enqueue | internal/server/events.go:84-90 | an event is dropped exactly when 512 are queued |
| EventPipeline.Collector.ReceiveOne | internal/server/events.go:160-166 | moves the oldest event into the batch, and flushes at 100 |
| EventPipeline.Collector.Drain | internal/server/events.go:169-178 | the drain loop terminates in the state with everything flushed |
| EventPipeline.Reachable | internal/server/events.go:119-179 | in every interleaving: writes, batch and queue concatenate to the accepted events in order, each write has 1 to 100 events, the queue at most 512, and a session is marked if and only if a written event triggers it |
| EventPipeline.TickWritesAll | internal/server/events.go:166-168 | in every run a tick leaves the batch empty: all accepted events but the queued ones have been written |
| EventPipeline.WritesExactly | internal/server/events.go:119-179 | a step writes exactly if it is a tick, the final check, or takes the event that fills the batch to 100, and the batch is not empty; it then writes the whole batch once; an offer is dropped exactly when 512 events are queued |
| EventPipeline.MarksFollowWrites | internal/server/events.go:137-158 | in every run the marks are those of the writes, in order, one for each write that concerns a session |
| EventPipeline.DrainedWritesAll | internal/server/events.go:169-178 | draining writes everything accepted and marks every session concerned |
| EventPipeline.StoppedForGood | internal/server/events.go:169-178 | after the final empty check nothing more is written, every later step is an offer, and the queue stays empty exactly if there is none |
| EventPipeline.StopLosesExactlyLateOffers | internal/server/events.go:64-67 | everything accepted before the final check is written; over the whole run nothing is lost if and only if no event is offered after it |
| Rebind.DigitsDenote | internal/store/rebind.go:30-41 | the digits denote the number and have no leading zero |
| Rebind.DigitsFit | internal/store/rebind.go:34-39 | they fit k places if and only if the number is below ten to the k |
| Rebind.Itoa | internal/store/rebind.go:30-41 | the backwards fill of the 16-byte buffer gives the numeral, an empty string for negative numbers, and runs off the buffer exactly from ten to the sixteen on |
| Rebind.Rebind | internal/store/rebind.go:9-28 | numbers the placeholders for PostgreSQL, leaves other queries alone, and fails exactly when a number does not fit |
| Rebind.OrdinalsCountUp | internal/store/rebind.go:14-27 | reading the numbers of a rewritten plain query back gives 1 to N in order |
| Rebind.RoundTripExactly | internal/store/rebind.go:9-28 | mapping each dollar number back to a question mark restores the query if and only if no question mark or dollar sign of it stands before a digit |
| Rebind.InsertNumbered | internal/store/session_event.go:42-53 | the statement for n rows gets the numbers 4i + 1 to 4i + 4 in row i, 4n in all |
| Rebind.InsertEvents | internal/store/session_event.go:38-55 | n events give n comma-separated tuples whose placeholder numbers are the positions of their own four arguments, which are session, kind, sanitized payload and time; no events, no statement |
| Rebind.InsertColumns | internal/store/session_event.go:43 | the column list of the statement, in the order of these arguments: session_id, event_type, payload, created_at |
| Rebind.NulsReplaced | internal/store/session_event.go:62-67 | every NUL escape becomes a U+FFFD escape in the same place |
| Rebind.OthersKept | internal/store/session_event.go:62-67 | every character outside the NUL escapes stays in its place |
| Rebind.NoNulLeft | internal/store/session_event.go:57-67 | no NUL escape is left |
| Rebind.KeptExactly | internal/store/session_event.go:62-67 | the payload is unchanged if and only if the escape's characters do not occur |
| Rebind.OnlyGenuineChangedExactly | internal/store/session_event.go:57-67 | only genuine escapes, those met when the JSON text is read from its start, are rewritten if and only if the escape's characters never stand behind an odd number of backslashes |
| Rebind.BeginsExactly | internal/store/session_event.go:57-67 | reading from the start, where a backslash takes the next character with it, one begins anew exactly behind an even number of backslashes |
| Rebind.EscapedBackslashRewritten | internal/store/session_event.go:57-67 | a payload in which those characters are not an escape is rewritten too |

## Left out

- HTTP routing, authentication, JSON, WebSocket push, the network clients and the web UI: no state of the protocols above.
- Typed request wrappers, token, audit, archive and statistics tables: simple record keeping.
- Failing store calls, statement timeouts and transaction isolation: each statement is one atomic step that succeeds.
- Several processes on one database: RecoverStaleRunning would then re-queue tasks another process runs.
- The graceful shutdown of the worker pool: a canceled context is covered only as a crash or as an ordinary task failure.
- The progress, summary, name, prompt and directory columns: no guard of a statement reads them; the mark that limits the LLM to one retry is among them, so the model allows that step more often than the code.
- Cron.ParseField: covers the ranges that start at 0 or 1 and end at 59 or less, which are those of the six fields.
- Cron.AddRange: likewise; for ranges up to the largest machine integer the loop would not even end.
- Scheduler: one template; the recurring cursor is not repeated in the task protocol, whose templates only gain and lose the scheduled status.
- Regular-expression matching in dedupWords: the token pattern is written out as maximal runs of letters, blanks and other characters.
- Invalid UTF-8, Unicode white space in the stream parser, and the binary rounding of the length ratios and of the reported seconds, which are exact decimals here.
- Errors of the event callback, read errors other than the end of the stream, and the relay's back-off delays: they end or delay a stream and do not change what is parsed.
- The recogniser of the speech session is an arbitrary function of the blocks fed.
- The growth of a slice by append: the capacity of the larger copy is one choice of many.
- The locks of the limiter, the speech sessions and the engine: each method is one atomic step.
- ListEvents and the event retention: a query and a delete by age.
- stripFences, fixCommonMisrecognitions and the LLM refine path: replacements by table and network calls.
