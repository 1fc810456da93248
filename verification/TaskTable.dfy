/** The `tasks` table and the SQL statements that change it (internal/store/task.go).

    Every statement is one atomic step.  It is written here as a function from the
    table to the table, so that the protocol in TaskProtocol can interleave the
    statements, and as a method of TaskStore that updates the stored rows. */
module TaskTable {
  import opened Basics

  type Id = nat

  datatype Status =
    | Queued | Running | Succeeded | Failed | Canceled
    | Pending    // waits for its upstream
    | Blocked    // its upstream did not succeed
    | Scheduled  // gated by time; with a cron expression, a recurring template

  /** A row.  `dependsOn` is None where the column is the empty string. */
  datatype Task = Task(
    sessionId: string, dependsOn: Option<Id>, status: Status,
    error: string, result: string, attempts: nat,
    createdAt: int, updatedAt: int, startedAt: Option<int>, finishedAt: Option<int>,
    availableAt: int, scheduledAt: Option<int>, cron: string, lastFiredAt: Option<int>)

  type Table = map<Id, Task>

  predicate Terminal(s: Status) {
    s.Succeeded? || s.Failed? || s.Canceled?
  }

  predicate Active(s: Status) {
    !Terminal(s)
  }

  // ----- single-row updates -----

  function NewRow(sessionId: string, dependsOn: Option<Id>, status: Status, scheduledAt: Option<int>, cron: string,
          now: int): Task {
    Task(sessionId, dependsOn, status, "", "", 0, now, now, None, None, now, scheduledAt, cron, None)
  }

  function ClaimRow(t: Task, now: int): Task {
    t.(status := Running, attempts := t.attempts + 1, startedAt := Some(now), updatedAt := now)
  }

  function CompleteRow(t: Task, result: string, now: int): Task {
    t.(status := Succeeded, result := result, finishedAt := Some(now), updatedAt := now)
  }

  function FailRow(t: Task, error: string, now: int): Task {
    t.(status := Failed, error := error, finishedAt := Some(now), updatedAt := now)
  }

  function RetryRow(t: Task, backoff: nat, now: int): Task {
    t.(status := Queued, error := "", finishedAt := None, availableAt := now + backoff, updatedAt := now)
  }

  function CancelRow(t: Task, now: int): Task {
    t.(status := Canceled, finishedAt := Some(now), updatedAt := now)
  }

  function UnblockRow(t: Task, now: int): Task {
    t.(status := Queued, error := "", finishedAt := None, availableAt := now, updatedAt := now)
  }

  /** Promotion keeps `finishedAt`: the statement does not clear that column. */
  function PromoteRow(t: Task, now: int): Task {
    t.(status := Queued, error := "", availableAt := now, updatedAt := now)
  }

  function BlockRow(t: Task, reason: string, now: int): Task {
    t.(status := Blocked, error := reason, finishedAt := Some(now), updatedAt := now)
  }

  function PromoteScheduledRow(t: Task, now: int): Task {
    t.(status := Queued, availableAt := now, updatedAt := now)
  }

  function RecoverRow(t: Task, now: int): Task {
    t.(status := Queued, startedAt := None, updatedAt := now)
  }

  /** Blocking a pending row and unblocking it by hand is as good as promoting it; promoting
      it after it was blocked is not, the row then keeps the time of the blocking as its
      finish time. */
  lemma BlockedThenReleased(t: Task, reason: string, blocked: int, now: int)
    ensures UnblockRow(BlockRow(t, reason, blocked), now) == PromoteRow(t, now) <==> t.finishedAt.None?
    ensures PromoteRow(BlockRow(t, reason, blocked), now) == PromoteRow(t, now).(finishedAt := Some(blocked))
  {
  }

  // ----- statements -----

  predicate Claimable(t: Task, now: int) {
    t.status.Queued? && t.availableAt <= now
  }

  /** `id` is one of the oldest claimable rows; equal creation times may be taken in any order. */
  ghost predicate IsNextClaim(tbl: Table, id: Id, now: int) {
    && id in tbl
    && Claimable(tbl[id], now)
    && forall o | o in tbl && Claimable(tbl[o], now) :: tbl[id].createdAt <= tbl[o].createdAt
  }

  function Claim(tbl: Table, id: Id, now: int): Table
    requires id in tbl
  {
    tbl[id := ClaimRow(tbl[id], now)]
  }

  /** UPDATE ... WHERE id = ? without a guard on the status. */
  function Complete(tbl: Table, id: Id, result: string, now: int): Table {
    if id in tbl then tbl[id := CompleteRow(tbl[id], result, now)] else tbl
  }

  /** UPDATE ... WHERE id = ? without a guard on the status. */
  function Fail(tbl: Table, id: Id, error: string, now: int): Table {
    if id in tbl then tbl[id := FailRow(tbl[id], error, now)] else tbl
  }

  predicate Retryable(tbl: Table, id: Id) {
    id in tbl && tbl[id].status.Failed?
  }

  function Retry(tbl: Table, id: Id, backoff: nat, now: int): Table {
    if Retryable(tbl, id) then tbl[id := RetryRow(tbl[id], backoff, now)] else tbl
  }

  predicate Cancelable(tbl: Table, id: Id) {
    id in tbl && (tbl[id].status.Queued? || tbl[id].status.Pending? || tbl[id].status.Running?)
  }

  function Cancel(tbl: Table, id: Id, now: int): Table {
    if Cancelable(tbl, id) then tbl[id := CancelRow(tbl[id], now)] else tbl
  }

  predicate IsScheduled(tbl: Table, id: Id) {
    id in tbl && tbl[id].status.Scheduled?
  }

  function CancelScheduled(tbl: Table, id: Id, now: int): Table {
    if IsScheduled(tbl, id) then tbl[id := CancelRow(tbl[id], now)] else tbl
  }

  function PromoteScheduled(tbl: Table, id: Id, now: int): Table {
    if IsScheduled(tbl, id) then tbl[id := PromoteScheduledRow(tbl[id], now)] else tbl
  }

  predicate IsBlocked(tbl: Table, id: Id) {
    id in tbl && tbl[id].status.Blocked?
  }

  function Unblock(tbl: Table, id: Id, now: int): Table {
    if IsBlocked(tbl, id) then tbl[id := UnblockRow(tbl[id], now)] else tbl
  }

  predicate WaitsFor(t: Task, up: Id) {
    t.dependsOn == Some(up) && t.status.Pending?
  }

  predicate ReleasableBy(t: Task, up: Id) {
    t.dependsOn == Some(up) && (t.status.Pending? || t.status.Blocked?)
  }

  function Waiters(tbl: Table, up: Id): set<Id> {
    set id | id in tbl && WaitsFor(tbl[id], up)
  }

  function Releasable(tbl: Table, up: Id): set<Id> {
    set id | id in tbl && ReleasableBy(tbl[id], up)
  }

  function PromoteDependents(tbl: Table, up: Id, now: int): Table {
    map id | id in tbl :: if ReleasableBy(tbl[id], up) then PromoteRow(tbl[id], now) else tbl[id]
  }

  function BlockDependents(tbl: Table, up: Id, reason: string, now: int): Table {
    map id | id in tbl :: if WaitsFor(tbl[id], up) then BlockRow(tbl[id], reason, now) else tbl[id]
  }

  function RecoverRunning(tbl: Table, now: int): Table {
    map id | id in tbl :: if tbl[id].status.Running? then RecoverRow(tbl[id], now) else tbl[id]
  }

  function RunningIds(tbl: Table): set<Id> {
    set id | id in tbl && tbl[id].status.Running?
  }

  // ----- retention -----

  /** The upstreams that some non-terminal row still names. */
  function Referenced(tbl: Table): set<Id> {
    set d | d in tbl && Active(tbl[d].status) && tbl[d].dependsOn.Some? :: tbl[d].dependsOn.value
  }

  function Expired(tbl: Table, cutoff: int): set<Id> {
    set id | id in tbl && Terminal(tbl[id].status) && tbl[id].updatedAt < cutoff
  }

  function Eligible(tbl: Table, cutoff: int): set<Id> {
    Expired(tbl, cutoff) - Referenced(tbl)
  }

  function Kept(tbl: Table, cutoff: int): set<Id> {
    Expired(tbl, cutoff) * Referenced(tbl)
  }

  /** What ORDER BY updated_at LIMIT may select: as many eligible rows as the limit
      allows, and none that is newer than one left behind. */
  ghost predicate IsPurgeChoice(tbl: Table, cutoff: int, limit: nat, gone: set<Id>) {
    && gone <= Eligible(tbl, cutoff)
    && |gone| == Min(limit, |Eligible(tbl, cutoff)|)
    && forall d, e | d in gone && e in Eligible(tbl, cutoff) - gone :: tbl[d].updatedAt <= tbl[e].updatedAt
  }

  function UpdateTimes(tbl: Table): (key: map<Id, int>)
    ensures key.Keys == tbl.Keys
  {
    map id | id in tbl :: tbl[id].updatedAt
  }

  /** A purge deletes terminal rows only, and never the upstream of an active row. */
  lemma PurgeKeepsActive(tbl: Table, cutoff: int, limit: nat, gone: set<Id>, d: Id)
    requires IsPurgeChoice(tbl, cutoff, limit, gone)
    requires d in tbl && Active(tbl[d].status)
    ensures d in tbl - gone && (tbl - gone)[d] == tbl[d]
    ensures tbl[d].dependsOn.Some? && tbl[d].dependsOn.value in tbl ==> tbl[d].dependsOn.value in tbl - gone
  {
    if tbl[d].dependsOn.Some? {
      assert tbl[d].dependsOn.value in Referenced(tbl);
    }
  }

  lemma ReferencedAfterPurge(tbl: Table, cutoff: int, gone: set<Id>)
    requires gone <= Eligible(tbl, cutoff)
    ensures Referenced(tbl - gone) == Referenced(tbl)
  {
    var after := tbl - gone;
    forall u | u in Referenced(tbl) ensures u in Referenced(after) {
      var d :| d in tbl && Active(tbl[d].status) && tbl[d].dependsOn == Some(u);
      assert d in after && after[d] == tbl[d];
    }
  }

  lemma ExpiredAfterPurge(tbl: Table, cutoff: int, gone: set<Id>)
    requires gone <= Expired(tbl, cutoff)
    ensures Expired(tbl - gone, cutoff) == Expired(tbl, cutoff) - gone
  {
  }

  /** Splitting a set by membership in `r` and by what is taken out of the part outside `r`. */
  lemma SplitSizes<T>(e: set<T>, r: set<T>, gone: set<T>)
    requires gone <= e - r
    ensures (e - gone) * r == e * r
    ensures (e - gone) - r == (e - r) - gone
    ensures |e| == |gone| + |e * r| + |(e - r) - gone|
    ensures |(e - r) - gone| == |e - r| - |gone|
  {
    assert e == (e * r) + (e - r);
    assert |e| == |e * r| + |e - r|;
    assert e - r == gone + ((e - r) - gone);
  }

  /** The expired rows of before are the deleted ones, the ones kept for an active
      dependent, and the eligible ones left for a later pass; a pass changes neither
      of the last two classes except by deleting. */
  lemma PurgeConserves(tbl: Table, cutoff: int, limit: nat, gone: set<Id>)
    requires IsPurgeChoice(tbl, cutoff, limit, gone)
    ensures Kept(tbl - gone, cutoff) == Kept(tbl, cutoff)
    ensures Eligible(tbl - gone, cutoff) == Eligible(tbl, cutoff) - gone
    ensures |Expired(tbl, cutoff)| == |gone| + |Kept(tbl - gone, cutoff)| + |Eligible(tbl - gone, cutoff)|
    ensures |Eligible(tbl - gone, cutoff)| == |Eligible(tbl, cutoff)| - |gone|
  {
    ReferencedAfterPurge(tbl, cutoff, gone);
    ExpiredAfterPurge(tbl, cutoff, gone);
    SplitSizes(Expired(tbl, cutoff), Referenced(tbl), gone);
  }

  /** `tbl` after the purge passes that delete the listed sets, one after another. */
  function AfterPasses(tbl: Table, passes: seq<set<Id>>): Table {
    if passes == [] then tbl else AfterPasses(tbl - passes[0], passes[1..])
  }

  ghost predicate ArePasses(tbl: Table, cutoff: int, limit: nat, passes: seq<set<Id>>) {
    passes == [] ||
    (IsPurgeChoice(tbl, cutoff, limit, passes[0]) && ArePasses(tbl - passes[0], cutoff, limit, passes[1..]))
  }

  /** `n` rows with up to `limit` taken away `k` times. */
  function Left(n: nat, limit: nat, k: nat): nat
    decreases k
  {
    if k == 0 then n else Left(n - Min(limit, n), limit, k - 1)
  }

  lemma {:induction false} LeftIsDifference(n: nat, limit: nat, k: nat)
    ensures Left(n, limit, k) == Max(0, n - k * limit)
    decreases k
  {
    if k > 0 {
      LeftIsDifference(n - Min(limit, n), limit, k - 1);
      assert k * limit == limit + (k - 1) * limit;
      assert (k - 1) * limit >= 0;
    }
  }

  lemma {:induction false} PassesLeave(tbl: Table, cutoff: int, limit: nat, passes: seq<set<Id>>)
    requires ArePasses(tbl, cutoff, limit, passes)
    ensures |Eligible(AfterPasses(tbl, passes), cutoff)| == Left(|Eligible(tbl, cutoff)|, limit, |passes|)
    ensures Kept(AfterPasses(tbl, passes), cutoff) == Kept(tbl, cutoff)
    decreases |passes|
  {
    if passes != [] {
      PurgeConserves(tbl, cutoff, limit, passes[0]);
      PassesLeave(tbl - passes[0], cutoff, limit, passes[1..]);
    }
  }

  /** With a fixed cutoff every pass removes `limit` leftovers until none remain. */
  lemma PassesDrain(tbl: Table, cutoff: int, limit: nat, passes: seq<set<Id>>)
    requires ArePasses(tbl, cutoff, limit, passes)
    ensures |Eligible(AfterPasses(tbl, passes), cutoff)| == Max(0, |Eligible(tbl, cutoff)| - |passes| * limit)
    ensures Kept(AfterPasses(tbl, passes), cutoff) == Kept(tbl, cutoff)
  {
    PassesLeave(tbl, cutoff, limit, passes);
    LeftIsDifference(|Eligible(tbl, cutoff)|, limit, |passes|);
  }

  // ----- the store object -----

  /** ORDER BY key ASC LIMIT 1 over the selected ids. */
  method OldestOf(ids: set<Id>, key: map<Id, int>) returns (oldest: Id)
    requires ids != {} && ids <= key.Keys
    ensures oldest in ids
    ensures forall o | o in ids :: key[oldest] <= key[o]
  {
    oldest :| oldest in ids;
    var rest := ids - {oldest};
    while rest != {}
      invariant rest <= ids && oldest in ids
      invariant forall o | o in ids - rest :: key[oldest] <= key[o]
      decreases |rest|
    {
      var o :| o in rest;
      if key[o] < key[oldest] {
        oldest := o;
      }
      rest := rest - {o};
    }
  }

  /** ORDER BY key ASC LIMIT batch over the selected ids. */
  method TakeOldest(ids: set<Id>, key: map<Id, int>, batch: nat) returns (chosen: set<Id>)
    requires ids <= key.Keys
    ensures chosen <= ids && |chosen| == Min(batch, |ids|)
    ensures forall d, e | d in chosen && e in ids - chosen :: key[d] <= key[e]
  {
    chosen := {};
    var left := ids;
    while |chosen| < batch && left != {}
      invariant chosen + left == ids && chosen !! left
      invariant |chosen| <= batch
      invariant forall d, e | d in chosen && e in left :: key[d] <= key[e]
      decreases |left|
    {
      var id := OldestOf(left, key);
      chosen := chosen + {id};
      left := left - {id};
    }
    assert |ids| == |chosen| + |left|;
    assert ids - chosen == left;
  }

  /** The rows handed back by RETURNING id, in some order and each once. */
  method ListIds(ids: set<Id>) returns (listed: seq<Id>)
    ensures multiset(listed) == multiset(ids)
  {
    listed := [];
    var rest := ids;
    while rest != {}
      invariant rest <= ids
      invariant multiset(listed) == multiset(ids - rest)
      decreases |rest|
    {
      var id :| id in rest;
      listed := listed + [id];
      assert ids - (rest - {id}) == (ids - rest) + {id};
      rest := rest - {id};
    }
    assert ids - rest == ids;
  }

  lemma SameElements(listed: seq<Id>, ids: set<Id>)
    requires multiset(listed) == multiset(ids)
    ensures forall id :: id in listed <==> id in ids
  {
    forall id ensures id in listed <==> id in ids {
      assert id in multiset(listed) <==> id in multiset(ids);
    }
  }

  /** An unfinished row names `id` as its upstream. */
  ghost predicate Needed(tbl: Table, id: Id) {
    exists d :: d in tbl && tbl[d].status !in {Succeeded, Failed, Canceled} && tbl[d].dependsOn == Some(id)
  }

  /** A finished row, not written since the cutoff, that no unfinished one needs. */
  ghost predicate Deletable(tbl: Table, id: Id, cutoff: int) {
    && id in tbl && tbl[id].status in {Succeeded, Failed, Canceled} && tbl[id].updatedAt < cutoff
    && !Needed(tbl, id)
  }

  lemma NeededIsReferenced(tbl: Table, id: Id)
    ensures Needed(tbl, id) <==> id in Referenced(tbl)
  {
  }

  lemma DeletableIsEligible(tbl: Table, cutoff: int)
    ensures forall id :: Deletable(tbl, id, cutoff) <==> id in Eligible(tbl, cutoff)
  {
    forall id ensures Deletable(tbl, id, cutoff) <==> id in Eligible(tbl, cutoff) {
      NeededIsReferenced(tbl, id);
    }
  }

  /** As many deletable rows as the limit allows, and none that was written later than one
      left behind. */
  ghost predicate OldestDeletable(tbl: Table, cutoff: int, limit: nat, gone: set<Id>) {
    && |gone| <= limit
    && (forall id | id in gone :: Deletable(tbl, id, cutoff))
    && (forall id | Deletable(tbl, id, cutoff) && id !in gone ::
          |gone| == limit && forall g | g in gone :: tbl[g].updatedAt <= tbl[id].updatedAt)
  }

  lemma PurgeChoiceMeans(tbl: Table, cutoff: int, limit: nat, gone: set<Id>)
    requires IsPurgeChoice(tbl, cutoff, limit, gone)
    ensures OldestDeletable(tbl, cutoff, limit, gone)
  {
    DeletableIsEligible(tbl, cutoff);
    forall id | Deletable(tbl, id, cutoff) && id !in gone ensures |gone| == limit {
      assert gone + {id} <= Eligible(tbl, cutoff);
      Fewer(gone + {id}, Eligible(tbl, cutoff));
    }
  }

  /** The choices of the DELETE, with its sets of expired and of referenced rows, are exactly
      the batches of oldest deletable rows. */
  lemma PurgeChoiceExactly(tbl: Table, cutoff: int, limit: nat, gone: set<Id>)
    ensures IsPurgeChoice(tbl, cutoff, limit, gone) <==> OldestDeletable(tbl, cutoff, limit, gone)
  {
    if OldestDeletable(tbl, cutoff, limit, gone) {
      DeletableIsEligible(tbl, cutoff);
      Fewer(gone, Eligible(tbl, cutoff));
      if id :| id in Eligible(tbl, cutoff) && id !in gone {
        assert |gone| == limit;
      } else {
        assert gone == Eligible(tbl, cutoff);
      }
    } else if IsPurgeChoice(tbl, cutoff, limit, gone) {
      PurgeChoiceMeans(tbl, cutoff, limit, gone);
    }
  }

  lemma Fewer<T>(a: set<T>, b: set<T>)
    requires a <= b
    ensures |a| <= |b|
  {
    assert b == a + (b - a);
  }

  /** There are `n` finished rows, not written since the cutoff, that an unfinished one needs. */
  ghost predicate CountsNeeded(n: nat, tbl: Table, cutoff: int) {
    exists ids: set<Id> :: |ids| == n && forall id :: id in ids <==> OldButNeeded(tbl, id, cutoff)
  }

  ghost predicate OldButNeeded(tbl: Table, id: Id, cutoff: int) {
    && id in tbl && tbl[id].status in {Succeeded, Failed, Canceled} && tbl[id].updatedAt < cutoff
    && Needed(tbl, id)
  }

  lemma KeptAreNeeded(tbl: Table, cutoff: int)
    ensures CountsNeeded(|Kept(tbl, cutoff)|, tbl, cutoff)
  {
    forall id ensures id in Kept(tbl, cutoff) <==> OldButNeeded(tbl, id, cutoff) {
      NeededIsReferenced(tbl, id);
    }
  }

  /** Nothing but the row `id` differs, and no row comes or goes. */
  ghost predicate OnlyRow(before: Table, after: Table, id: Id) {
    after.Keys == before.Keys && forall o | o in before && o != id :: after[o] == before[o]
  }

  /** What no statement on a task's status ever touches. */
  predicate SameTask(before: Task, after: Task) {
    && after.dependsOn == before.dependsOn && after.createdAt == before.createdAt && after.cron == before.cron
    && after.scheduledAt == before.scheduledAt && after.lastFiredAt == before.lastFiredAt &&
        after.sessionId == before.sessionId
  }

  /** The task moves to `st`; its identity and its attempt count stay. */
  ghost predicate MovesTo(before: Table, after: Table, id: Id, st: Status, now: int) {
    && OnlyRow(before, after, id) && id in before
    && after[id].status == st && after[id].updatedAt == now
    && SameTask(before[id], after[id]) && after[id].attempts == before[id].attempts
  }

  class TaskStore {
    var rows: Table

    constructor ()
      ensures rows == map[]
    {
      rows := map[];
    }

    /** Inserts a row; a primary-key conflict is an error and changes nothing. */
    method CreateTaskWithStatus(id: Id, row: Task, now: int) returns (ok: bool)
      modifies this
      ensures ok <==> id !in old(rows)
      ensures !ok ==> rows == old(rows)
      ensures ok ==> rows.Keys == old(rows).Keys + {id} && forall o | o in old(rows) :: rows[o] == old(rows)[o]
      ensures ok ==> rows[id] == Task(row.sessionId, row.dependsOn, row.status, "", "", 0, now, now, None, None, now,
                                      row.scheduledAt, row.cron, None)
    {
      ok := id !in rows;
      if ok {
        rows := rows[id := NewRow(row.sessionId, row.dependsOn, row.status, row.scheduledAt, row.cron, now)];
      }
    }

    method ClaimNextTask(now: int) returns (claimed: Option<Id>)
      modifies this
      ensures claimed.Some? ==> IsNextClaim(old(rows), claimed.value, now)
      ensures claimed.Some? ==> rows == Claim(old(rows), claimed.value, now)
      ensures claimed.Some? ==> var id := claimed.value;
              && OnlyRow(old(rows), rows, id) && id in old(rows)
              && old(rows)[id].status == Queued && old(rows)[id].availableAt <= now
              && rows[id] == old(rows)[id].(status := Running, attempts := old(rows)[id].attempts + 1,
                                            startedAt := Some(now), updatedAt := now)
      ensures claimed.Some? ==> forall o | o in old(rows) && old(rows)[o].status == Queued ::
                old(rows)[o].availableAt <= now ==> old(rows)[claimed.value].createdAt <= old(rows)[o].createdAt
      ensures claimed.None? ==> rows == old(rows) && forall o | o in rows && rows[o].status == Queued ::
                rows[o].availableAt > now
    {
      var ids := set id | id in rows && Claimable(rows[id], now);
      if ids == {} {
        assert forall o | o in rows && Claimable(rows[o], now) :: o in ids;
        return None;
      }
      var id := OldestOf(ids, map o | o in rows :: rows[o].createdAt);
      assert forall o | o in rows && Claimable(rows[o], now) :: o in ids;
      rows := rows[id := ClaimRow(rows[id], now)];
      claimed := Some(id);
    }

    /** Re-queues a failed task; reports false (ErrNotFound) for every other status. */
    method RetryTask(id: Id, backoff: nat, now: int) returns (found: bool)
      modifies this
      ensures found <==> id in old(rows) && old(rows)[id].status.Failed?
      ensures !found ==> rows == old(rows)
      ensures found ==> MovesTo(old(rows), rows, id, Queued, now)
      ensures found ==> rows[id] == old(rows)[id].(status := Queued, error := "", finishedAt := None,
                                                   availableAt := now + backoff, updatedAt := now)
      ensures found ==> forall t :: Claimable(rows[id], t) <==> t >= now + backoff
      ensures rows == Retry(old(rows), id, backoff, now)
    {
      found := id in rows && rows[id].status.Failed?;
      if found {
        rows := rows[id := RetryRow(rows[id], backoff, now)];
      }
    }

    /** Cancels what has not finished and is neither blocked nor scheduled. */
    method CancelTask(id: Id, now: int) returns (changed: bool)
      modifies this
      ensures changed <==> id in old(rows) && old(rows)[id].status in {Queued, Pending, Running}
      ensures !changed ==> rows == old(rows)
      ensures changed ==> MovesTo(old(rows), rows, id, Canceled, now)
      ensures changed ==> rows[id] == old(rows)[id].(status := Canceled, finishedAt := Some(now), updatedAt := now)
      ensures changed ==> forall t :: !Claimable(rows[id], t)
      ensures rows == Cancel(old(rows), id, now)
    {
      changed := Cancelable(rows, id);
      if changed {
        rows := rows[id := CancelRow(rows[id], now)];
      }
    }

    /** Succeeds the row in whatever status it is, also a canceled one. */
    method CompleteTask(id: Id, result: string, now: int)
      modifies this
      ensures id !in old(rows) ==> rows == old(rows)
      ensures id in old(rows) ==> MovesTo(old(rows), rows, id, Succeeded, now)
      ensures id in old(rows) ==> rows[id] == old(rows)[id].(status := Succeeded, result := result,
                                                             finishedAt := Some(now), updatedAt := now)
      ensures rows == Complete(old(rows), id, result, now)
    {
      if id in rows {
        rows := rows[id := CompleteRow(rows[id], result, now)];
      }
    }

    /** Fails the row in whatever status it is, also a canceled or succeeded one. */
    method FailTask(id: Id, error: string, now: int)
      modifies this
      ensures id !in old(rows) ==> rows == old(rows)
      ensures id in old(rows) ==> MovesTo(old(rows), rows, id, Failed, now)
      ensures id in old(rows) ==> rows[id] == old(rows)[id].(status := Failed, error := error,
                                                             finishedAt := Some(now), updatedAt := now)
      ensures rows == Fail(old(rows), id, error, now)
    {
      if id in rows {
        rows := rows[id := FailRow(rows[id], error, now)];
      }
    }

    method CancelScheduledTask(id: Id, now: int) returns (changed: bool)
      modifies this
      ensures changed <==> id in old(rows) && old(rows)[id].status.Scheduled?
      ensures !changed ==> rows == old(rows)
      ensures changed ==> MovesTo(old(rows), rows, id, Canceled, now)
      ensures changed ==> rows[id] == old(rows)[id].(status := Canceled, finishedAt := Some(now), updatedAt := now)
      ensures changed ==> forall t :: !Claimable(rows[id], t)
      ensures rows == CancelScheduled(old(rows), id, now)
    {
      changed := IsScheduled(rows, id);
      if changed {
        rows := rows[id := CancelRow(rows[id], now)];
      }
    }

    /** The released task can be claimed at once. */
    method PromoteScheduledTask(id: Id, now: int) returns (changed: bool)
      modifies this
      ensures changed <==> id in old(rows) && old(rows)[id].status.Scheduled?
      ensures !changed ==> rows == old(rows)
      ensures changed ==> MovesTo(old(rows), rows, id, Queued, now)
      ensures changed ==> rows[id] == old(rows)[id].(status := Queued, availableAt := now, updatedAt := now)
      ensures changed ==> forall t :: Claimable(rows[id], t) <==> t >= now
      ensures rows == PromoteScheduled(old(rows), id, now)
    {
      changed := IsScheduled(rows, id);
      if changed {
        rows := rows[id := PromoteScheduledRow(rows[id], now)];
      }
    }

    /** The released task can be claimed at once, and bears no trace of having been blocked. */
    method UnblockTask(id: Id, now: int) returns (changed: bool)
      modifies this
      ensures changed <==> id in old(rows) && old(rows)[id].status.Blocked?
      ensures !changed ==> rows == old(rows)
      ensures changed ==> MovesTo(old(rows), rows, id, Queued, now)
      ensures changed ==> rows[id] == old(rows)[id].(status := Queued, error := "", finishedAt := None,
                                                     availableAt := now, updatedAt := now)
      ensures changed ==> forall t :: Claimable(rows[id], t) <==> t >= now
      ensures rows == Unblock(old(rows), id, now)
    {
      changed := IsBlocked(rows, id);
      if changed {
        rows := rows[id := UnblockRow(rows[id], now)];
      }
    }

    /** The compare-and-set on the cursor of a recurring template: who comes second with the
        same expectation loses, unless the winner put the very same value there. */
    method ClaimRecurringFire(id: Id, expected: Option<int>, now: int) returns (won: bool)
      modifies this
      ensures won <==> id in old(rows) && old(rows)[id].status.Scheduled? && old(rows)[id].lastFiredAt == expected
      ensures !won ==> rows == old(rows)
      ensures won ==> OnlyRow(old(rows), rows, id) && rows[id].status.Scheduled? && rows[id].lastFiredAt == Some(now)
      ensures won ==> rows[id] == old(rows)[id].(lastFiredAt := Some(now), updatedAt := now)
      ensures won && expected != Some(now) ==> rows[id].lastFiredAt != expected
    {
      won := IsScheduled(rows, id) && rows[id].lastFiredAt == expected;
      if won {
        rows := rows[id := rows[id].(lastFiredAt := Some(now), updatedAt := now)];
      }
    }

    /** Re-queues every pending or blocked dependent and lists exactly those, each once. */
    method PromotePendingDependents(up: Id, now: int) returns (ids: seq<Id>)
      modifies this
      ensures rows == PromoteDependents(old(rows), up, now)
      ensures multiset(ids) == multiset(Releasable(old(rows), up))
      ensures rows.Keys == old(rows).Keys
      ensures forall id | id in rows :: rows[id] ==
                if id in ids
                then old(rows)[id].(status := Queued, error := "", availableAt := now, updatedAt := now)
                else old(rows)[id]
      ensures forall id :: id in ids <==>
                id in old(rows) && old(rows)[id].dependsOn == Some(up) && old(rows)[id].status in {Pending, Blocked}
    {
      ids := ListIds(Releasable(rows, up));
      SameElements(ids, Releasable(rows, up));
      rows := map id | id in rows :: if ReleasableBy(rows[id], up) then PromoteRow(rows[id], now) else rows[id];
    }

    /** The select of dependentIDs, then the update, which is skipped when the select found
        nothing.  `meanwhile` is what other goroutines do to the table between the two: the
        ids listed are the waiters of the first moment, the rows blocked those of the second. */
    method BlockPendingDependents(up: Id, reason: string, now: int, meanwhile: Table -> Table) returns (ids: seq<Id>)
      modifies this
      ensures multiset(ids) == multiset(Waiters(old(rows), up))
      ensures forall id :: id in ids <==>
                id in old(rows) && old(rows)[id].dependsOn == Some(up) && old(rows)[id].status == Pending
      ensures ids == [] ==> rows == old(rows)
      ensures ids != [] ==> var between := meanwhile(old(rows));
              && rows.Keys == between.Keys
              && forall id | id in rows :: rows[id] ==
                   if between[id].dependsOn == Some(up) && between[id].status == Pending
                   then between[id].(status := Blocked, error := reason, finishedAt := Some(now), updatedAt := now)
                   else between[id]
      ensures Waiters(old(rows), up) == {} ==> rows == old(rows)
      ensures Waiters(old(rows), up) != {} ==> rows == BlockDependents(meanwhile(old(rows)), up, reason, now)
    {
      var waiters := Waiters(rows, up);
      ids := ListIds(waiters);
      SameElements(ids, waiters);
      if |ids| == 0 {
        assert |multiset(waiters)| == 0;
        return;
      }
      assert |multiset(ids)| > 0;
      rows := meanwhile(rows);
      rows := map id | id in rows :: if WaitsFor(rows[id], up) then BlockRow(rows[id], reason, now) else rows[id];
    }

    /** Afterwards nothing is running; what was keeps its attempts and can be claimed again. */
    method RecoverStaleRunning(now: int) returns (n: nat)
      modifies this
      ensures rows.Keys == old(rows).Keys && n == |RunningIds(old(rows))| && RunningIds(rows) == {}
      ensures forall id | id in rows && !old(rows)[id].status.Running? :: rows[id] == old(rows)[id]
      ensures forall id | id in rows && old(rows)[id].status.Running? ::
                rows[id] == old(rows)[id].(status := Queued, startedAt := None, updatedAt := now)
      ensures rows == RecoverRunning(old(rows), now)
    {
      n := |RunningIds(rows)|;
      rows := map id | id in rows :: if rows[id].status.Running? then RecoverRow(rows[id], now) else rows[id];
    }

    /** The DELETE: the oldest eligible rows up to the limit. */
    method DeleteOldest(cutoff: int, batch: nat) returns (gone: set<Id>)
      modifies this
      ensures OldestDeletable(old(rows), cutoff, batch, gone)
      ensures rows == old(rows) - gone
    {
      gone := TakeOldest(Eligible(rows, cutoff), UpdateTimes(rows), batch);
      PurgeChoiceMeans(rows, cutoff, batch, gone);
      rows := rows - gone;
    }

    /** The COUNT: the expired rows that an unfinished one still names. */
    method CountKept(cutoff: int) returns (kept: nat)
      ensures CountsNeeded(kept, rows, cutoff)
    {
      KeptAreNeeded(rows, cutoff);
      kept := |Kept(rows, cutoff)|;
    }

    /** One retention pass: the DELETE, and the COUNT, which sees what other goroutines have made
        of the table by then. */
    method PurgeFinishedTasks(olderThan: nat, limit: int, now: int, meanwhile: Table -> Table, later: int)
      returns (deleted: nat, kept: nat, ghost gone: set<Id>)
      modifies this
      ensures OldestDeletable(old(rows), now - olderThan, if limit <= 0 then 500 else limit, gone)
      ensures rows == meanwhile(old(rows) - gone) && deleted == |gone|
      ensures CountsNeeded(kept, rows, later - olderThan)
    {
      var chosen := DeleteOldest(now - olderThan, if limit <= 0 then 500 else limit);
      gone := chosen;
      deleted := |chosen|;
      rows := meanwhile(rows);
      kept := CountKept(later - olderThan);
    }
  }

  /** The rows BlockDependents writes: none if its select on `before` finds nobody, otherwise
      those its update changes in the table as it is by then. */
  function RowsBlocked(before: Table, between: Table, up: Id, reason: string, now: int): set<Id> {
    if Waiters(before, up) == {} then {} else Changes(between, BlockDependents(between, up, reason, now))
  }

  function Changes(before: Table, after: Table): set<Id> {
    set id | id in before && id in after && after[id] != before[id]
  }

  lemma BlockChangesWaiters(between: Table, up: Id, reason: string, now: int)
    ensures Changes(between, BlockDependents(between, up, reason, now)) == Waiters(between, up)
  {
    var after := BlockDependents(between, up, reason, now);
    forall id | id in between ensures after[id] != between[id] <==> WaitsFor(between[id], up) {
    }
  }

  /** The ids reported by BlockDependents are the rows it blocks exactly if the select found
      nobody, or nobody started or stopped waiting before the update. */
  lemma ReportedAreBlocked(before: Table, between: Table, up: Id, reason: string, now: int)
    ensures Waiters(before, up) == RowsBlocked(before, between, up, reason, now) <==>
            Waiters(before, up) == {} || Waiters(before, up) == Waiters(between, up)
  {
    BlockChangesWaiters(between, up, reason, now);
  }
}
