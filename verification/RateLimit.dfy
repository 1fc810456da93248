/** The login limiter (internal/server/ratelimit.go): a sliding log of admitted attempts per
    key, filtered and pruned in place as it goes. */
module RateLimit {
  import opened Basics

  /** Client keys are opaque: only equality matters. */
  type Key = nat

  type Logs = map<Key, seq<int>>

  /** The entries after the cutoff among the first `n`, in order. */
  function RecentUpTo(log: seq<int>, cutoff: int, n: nat): seq<int>
    requires n <= |log|
  {
    if n == 0 then []
    else RecentUpTo(log, cutoff, n - 1) + if log[n - 1] > cutoff then [log[n - 1]] else []
  }

  /** The entries after the cutoff, in order. */
  function Recent(log: seq<int>, cutoff: int): seq<int> {
    RecentUpTo(log, cutoff, |log|)
  }

  /** How many of the first `n` entries lie in (from, to]. */
  function Within(log: seq<int>, from: int, to: int, n: nat): nat
    requires n <= |log|
  {
    if n == 0 then 0 else Within(log, from, to, n - 1) + if from < log[n - 1] <= to then 1 else 0
  }

  function Get(m: Logs, key: Key): seq<int> {
    if key in m then m[key] else []
  }

  /** Entry `i` came no earlier than those before it, with fewer than `limit` of them in the
      window before it. */
  ghost predicate AdmittedAt(log: seq<int>, i: nat, limit: int, window: int)
    requires i < |log|
  {
    (forall j | 0 <= j < i :: log[j] <= log[i]) && |RecentUpTo(log, log[i] - window, i)| < limit
  }

  /** A history of admissions in order of time, each within the limit. */
  ghost predicate Admissible(log: seq<int>, limit: int, window: int) {
    forall i | 0 <= i < |log| :: AdmittedAt(log, i, limit, window)
  }

  lemma {:induction false} SamePrefix(a: seq<int>, b: seq<int>, cutoff: int, n: nat)
    requires n <= |a| && n <= |b| && forall i | 0 <= i < n :: a[i] == b[i]
    ensures RecentUpTo(a, cutoff, n) == RecentUpTo(b, cutoff, n)
  {
    if n > 0 {
      SamePrefix(a, b, cutoff, n - 1);
    }
  }

  lemma RecentAppend(log: seq<int>, t: int, cutoff: int)
    ensures Recent(log + [t], cutoff) == Recent(log, cutoff) + if t > cutoff then [t] else []
  {
    SamePrefix(log, log + [t], cutoff, |log|);
  }

  lemma {:induction false} RecentOfPrefix(log: seq<int>, earlier: int, later: int, n: nat)
    requires n <= |log| && earlier <= later
    ensures Recent(RecentUpTo(log, earlier, n), later) == RecentUpTo(log, later, n)
  {
    if n > 0 {
      RecentOfPrefix(log, earlier, later, n - 1);
      if log[n - 1] > earlier {
        RecentAppend(RecentUpTo(log, earlier, n - 1), log[n - 1], later);
      } else {
        assert RecentUpTo(log, earlier, n) == RecentUpTo(log, earlier, n - 1);
      }
    }
  }

  /** A later cutoff sees the same entries before and after filtering by an earlier one. */
  lemma RecentOfRecent(log: seq<int>, earlier: int, later: int)
    requires earlier <= later
    ensures Recent(Recent(log, earlier), later) == Recent(log, later)
  {
    RecentOfPrefix(log, earlier, later, |log|);
  }

  // ----- one key -----

  /** `kept` holds of the full log what a cutoff at `cutoff` or later can see. */
  ghost predicate SameRecent(kept: seq<int>, full: seq<int>, cutoff: int) {
    Recent(kept, cutoff) == Recent(full, cutoff)
  }

  /** What an attempt does to the log of one key: `own` says whether it is the attempt's. */
  function KeyAfter(log: seq<int>, own: bool, now: int, cutoff: int, ok: bool): seq<int> {
    if ok then Recent(if own then Recent(log, cutoff) + [now] else log, cutoff)
    else if own then Recent(log, cutoff)
    else log
  }

  lemma SameLater(kept: seq<int>, full: seq<int>, earlier: int, later: int)
    requires SameRecent(kept, full, earlier) && earlier <= later
    ensures SameRecent(kept, full, later)
  {
    RecentOfRecent(kept, earlier, later);
    RecentOfRecent(full, earlier, later);
  }

  lemma SameFiltered(kept: seq<int>, full: seq<int>, earlier: int, later: int)
    requires SameRecent(kept, full, later) && earlier <= later
    ensures SameRecent(Recent(kept, earlier), full, later)
  {
    RecentOfRecent(kept, earlier, later);
  }

  lemma SameAppended(kept: seq<int>, full: seq<int>, t: int, cutoff: int)
    requires SameRecent(kept, full, cutoff)
    ensures SameRecent(kept + [t], full + [t], cutoff)
  {
    RecentAppend(kept, t, cutoff);
    RecentAppend(full, t, cutoff);
  }

  /** An attempt keeps what later decisions can see of each log, also if its clock reading is
      older than others. */
  lemma SameAfter(kept: seq<int>, full: seq<int>, own: bool, now: int, cutoff: int, ok: bool, high: int)
    requires SameRecent(kept, full, high) && cutoff <= high
    ensures SameRecent(KeyAfter(kept, own, now, cutoff, ok), if own && ok then full + [now] else full, high)
  {
    SameFiltered(kept, full, cutoff, high);
    if own && ok {
      SameAppended(Recent(kept, cutoff), full, now, high);
      SameFiltered(Recent(kept, cutoff) + [now], full + [now], cutoff, high);
    }
  }

  // ----- the history -----

  ghost predicate LogValid(log: seq<int>, limit: int, window: int, clock: int) {
    Admissible(log, limit, window) && forall t | t in log :: t <= clock
  }

  ghost predicate LogsValid(history: Logs, limit: int, window: int, clock: int) {
    forall key | key in history :: LogValid(history[key], limit, window, clock)
  }

  /** The history with the attempt recorded if it was admitted. */
  function Recorded(history: Logs, key: Key, now: int, ok: bool): Logs {
    if ok then history[key := Get(history, key) + [now]] else history
  }

  lemma RecordedOfKey(history: Logs, key: Key, k: Key, now: int, ok: bool)
    ensures Get(Recorded(history, key, now, ok), k) ==
            if k == key && ok then Get(history, k) + [now] else Get(history, k)
  {
  }

  lemma AdmitLogsValid(history: Logs, key: Key, limit: int, window: int, now: int)
    requires LogsValid(history, limit, window, now) && |Recent(Get(history, key), now - window)| < limit
    ensures LogsValid(history[key := Get(history, key) + [now]], limit, window, now)
  {
    AdmissibleAppend(Get(history, key), now, limit, window);
  }

  /** Without late readings the history stays one of admissions in order, each within the limit. */
  lemma HistoryValid(history: Logs, key: Key, clock: int, now: int, limit: int, window: int, ok: bool)
    requires LogsValid(history, limit, window, clock) && now >= clock
    requires ok ==> HasRoom(history, key, now, limit, window)
    ensures LogsValid(Recorded(history, key, now, ok), limit, window, now)
  {
    LogsValidLater(history, limit, window, clock, now);
    if ok {
      AdmitLogsValid(history, key, limit, window, now);
    }
  }

  // ----- all keys -----

  ghost predicate Agrees(logs: Logs, full: Logs, cutoff: int) {
    forall k :: SameRecent(Get(logs, k), Get(full, k), cutoff)
  }

  /** Fewer than `limit` entries of the key's log lie in (now - window, now]. */
  ghost predicate HasRoom(logs: Logs, key: Key, now: int, limit: int, window: int) {
    |Recent(Get(logs, key), now - window)| < limit
  }

  /** What an attempt for `key` decides and does to all the logs. */
  ghost predicate Outcome(logs: Logs, after: Logs, key: Key, now: int, limit: int, window: int, ok: bool) {
    (ok <==> HasRoom(logs, key, now, limit, window)) && LogsAfter(logs, after, key, now, window, ok)
  }

  ghost predicate LogsAfter(logs: Logs, after: Logs, key: Key, now: int, window: int, ok: bool) {
    forall k :: Get(after, k) == KeyAfter(Get(logs, k), k == key, now, now - window, ok)
  }

  lemma AgreesLater(logs: Logs, full: Logs, earlier: int, later: int)
    requires Agrees(logs, full, earlier) && earlier <= later
    ensures Agrees(logs, full, later)
  {
    forall k ensures SameRecent(Get(logs, k), Get(full, k), later) {
      SameLater(Get(logs, k), Get(full, k), earlier, later);
    }
  }

  lemma AgreesOfKey(logs: Logs, after: Logs, full: Logs, key: Key, k: Key, now: int, window: int, ok: bool, high: int)
    requires SameRecent(Get(logs, k), Get(full, k), high) && now - window <= high
    requires Get(after, k) == KeyAfter(Get(logs, k), k == key, now, now - window, ok)
    ensures SameRecent(Get(after, k), Get(Recorded(full, key, now, ok), k), high)
  {
    RecordedOfKey(full, key, k, now, ok);
    SameAfter(Get(logs, k), Get(full, k), k == key, now, now - window, ok, high);
  }

  /** Filtering one log and pruning all of them loses nothing that a later decision can see,
      whatever the order of the clock readings: `high` belongs to the latest of them. */
  lemma AgreesAfter(logs: Logs, after: Logs, full: Logs, key: Key, now: int, window: int, ok: bool, high: int)
    requires Agrees(logs, full, high) && now - window <= high && LogsAfter(logs, after, key, now, window, ok)
    ensures Agrees(after, Recorded(full, key, now, ok), high)
  {
    forall k ensures SameRecent(Get(after, k), Get(Recorded(full, key, now, ok), k), high) {
      AgreesOfKey(logs, after, full, key, k, now, window, ok, high);
    }
  }

  lemma AgreesForgotten(logs: Logs, full: Logs, key: Key, cutoff: int)
    requires Agrees(logs, full, cutoff)
    ensures Agrees(logs - {key}, full - {key}, cutoff)
  {
    forall k ensures SameRecent(Get(logs - {key}, k), Get(full - {key}, k), cutoff) {
      assert SameRecent(Get(logs, k), Get(full, k), cutoff);
    }
  }

  /** A reading that is not late finds as much room in the kept logs as in the history. */
  lemma SameRoom(logs: Logs, full: Logs, key: Key, now: int, limit: int, window: int, clock: int)
    requires Agrees(logs, full, clock - window) && now >= clock
    ensures HasRoom(logs, key, now, limit, window) <==> HasRoom(full, key, now, limit, window)
  {
    SameLater(Get(logs, key), Get(full, key), clock - window, now - window);
  }

  ghost predicate NoLater(full: Logs, clock: int) {
    forall k, t | k in full && t in full[k] :: t <= clock
  }

  /** The logs agree with the history up to the latest reading; and as long as no reading
      came late, the history is one of admissions in order, each within the limit. */
  ghost predicate Consistent(logs: Logs, full: Logs, limit: int, window: int, clock: int, inOrder: bool) {
    && Agrees(logs, full, clock - window)
    && NoLater(full, clock)
    && (inOrder ==> LogsValid(full, limit, window, clock))
  }

  /** How many admissions of the key lie in (now - window, now]. */
  ghost function InWindow(full: Logs, key: Key, now: int, window: int): nat {
    Within(Get(full, key), now - window, now, |Get(full, key)|)
  }

  /** The logs leave room for the reading exactly when the admissions in its window do. */
  ghost predicate JudgedRight(logs: Logs, full: Logs, key: Key, now: int, limit: int, window: int) {
    HasRoom(logs, key, now, limit, window) <==> InWindow(full, key, now, window) < limit
  }

  lemma {:induction false} WithinIsRecent(log: seq<int>, from: int, to: int, n: nat)
    requires n <= |log| && forall i | 0 <= i < n :: log[i] <= to
    ensures Within(log, from, to, n) == |RecentUpTo(log, from, n)|
  {
    if n > 0 {
      WithinIsRecent(log, from, to, n - 1);
    }
  }

  /** A reading that is not late is judged right, whatever order the ones before it came in. */
  lemma TimelyJudgedRight(logs: Logs, full: Logs, key: Key, now: int, limit: int, window: int, clock: int,
          inOrder: bool)
    requires Consistent(logs, full, limit, window, clock, inOrder) && now >= clock
    ensures JudgedRight(logs, full, key, now, limit, window)
  {
    var log := Get(full, key);
    SameRoom(logs, full, key, now, limit, window, clock);
    forall i | 0 <= i < |log| ensures log[i] <= now {
      assert key in full && log[i] in full[key];
    }
    WithinIsRecent(log, now - window, now, |log|);
  }

  lemma NoLaterAfter(full: Logs, key: Key, now: int, ok: bool, clock: int)
    requires NoLater(full, clock)
    ensures NoLater(Recorded(full, key, now, ok), Max(clock, now))
  {
  }

  lemma AttemptAgrees(logs: Logs, after: Logs, full: Logs, key: Key, now: int, limit: int, window: int, ok: bool,
          clock: int)
    requires Agrees(logs, full, clock - window) && Outcome(logs, after, key, now, limit, window, ok)
    ensures now >= clock ==> (ok <==> HasRoom(full, key, now, limit, window))
    ensures Agrees(after, Recorded(full, key, now, ok), Max(clock, now) - window)
  {
    var high := Max(clock, now) - window;
    if now >= clock {
      SameRoom(logs, full, key, now, limit, window, clock);
    }
    AgreesLater(logs, full, clock - window, high);
    AgreesAfter(logs, after, full, key, now, window, ok, high);
  }

  lemma AttemptStep(logs: Logs, after: Logs, full: Logs, key: Key, now: int, limit: int, window: int, ok: bool,
          clock: int, inOrder: bool)
    requires Consistent(logs, full, limit, window, clock, inOrder) && Outcome(logs, after, key, now, limit, window, ok)
    ensures now >= clock ==> (ok <==> InWindow(full, key, now, window) < limit)
    ensures Consistent(after, Recorded(full, key, now, ok), limit, window, Max(clock, now), inOrder && now >= clock)
  {
    AttemptAgrees(logs, after, full, key, now, limit, window, ok, clock);
    NoLaterAfter(full, key, now, ok, clock);
    if now >= clock {
      TimelyJudgedRight(logs, full, key, now, limit, window, clock, inOrder);
      if inOrder {
        HistoryValid(full, key, clock, now, limit, window, ok);
      }
    }
  }

  lemma ForgetStep(logs: Logs, full: Logs, key: Key, limit: int, window: int, clock: int, inOrder: bool)
    requires Consistent(logs, full, limit, window, clock, inOrder)
    ensures Consistent(logs - {key}, full - {key}, limit, window, clock, inOrder)
  {
    AgreesForgotten(logs, full, key, clock - window);
  }

  /** The logs that are left after pruning. */
  ghost predicate ArePruned(before: Logs, after: Logs, cutoff: int) {
    && after.Keys <= before.Keys
    && (forall k | k in before :: Get(after, k) == Recent(before[k], cutoff))
  }

  /** Filter, append and prune together are an attempt that is admitted. */
  lemma AdmittedLogs(logs: Logs, after: Logs, key: Key, now: int, window: int)
    requires var hits := Recent(Get(logs, key), now - window); ArePruned(logs[key := hits + [now]], after, now - window)
    ensures LogsAfter(logs, after, key, now, window, true)
  {
    var before := logs[key := Recent(Get(logs, key), now - window) + [now]];
    forall k ensures Get(after, k) == KeyAfter(Get(logs, k), k == key, now, now - window, true) {
      if k in before {
        assert Get(after, k) == Recent(before[k], now - window);
      }
    }
  }

  lemma UpdateTwice(m: Logs, key: Key, a: seq<int>, b: seq<int>)
    ensures m[key := a][key := b] == m[key := b]
  {
  }

  // ----- slices -----

  /** The entries after the cutoff are moved to the front of the array they are read from. */
  method FilterInPlace(a: array<int>, n: nat, cutoff: int) returns (m: nat)
    requires n <= a.Length
    modifies a
    ensures m <= n && a[..m] == Recent(old(a[..n]), cutoff)
    ensures a[n..] == old(a[n..])
  {
    ghost var log := a[..n];
    m := 0;
    for i := 0 to n
      invariant m <= i
      invariant a[..m] == RecentUpTo(log, cutoff, i)
      invariant forall k | i <= k < a.Length :: a[k] == old(a[k])
    {
      var t := a[i];
      assert t == log[i];
      if t > cutoff {
        ghost var kept := a[..m];
        a[m] := t;
        m := m + 1;
        assert a[..m] == kept + [t];
      }
    }
  }

  /** A log as the map holds it: a backing array and how much of it is in use. */
  datatype Slice = Slice(data: array<int>, len: nat)

  function Arrays(slices: map<Key, Slice>): set<object> {
    set key | key in slices :: slices[key].data
  }

  ghost predicate Separate(slices: map<Key, Slice>) {
    && (forall key | key in slices :: slices[key].len <= slices[key].data.Length)
    && (forall j, k | j in slices && k in slices && j != k :: slices[j].data != slices[k].data)
  }

  /** The log of a key: the first `len` cells of its array. */
  function LogOf(slices: map<Key, Slice>, key: Key): seq<int>
    requires Separate(slices)
    reads Arrays(slices)
  {
    if key in slices then slices[key].data[..slices[key].len] else []
  }

  lemma SameArrays(a: map<Key, Slice>, b: map<Key, Slice>)
    requires a.Keys == b.Keys && forall k | k in a :: a[k].data == b[k].data
    ensures Arrays(a) == Arrays(b)
  {
    assert forall k | k in a :: a[k].data in Arrays(b) && b[k].data in Arrays(a);
  }

  class LoginLimiter {
    var attempts: map<Key, Slice>
    const limit: int
    const window: int
    ghost var logs: Logs     // what the slices hold
    ghost var history: Logs  // every admission since the key was last cleared
    ghost var clock: int     // the latest reading seen
    ghost var inOrder: bool  // no reading was older than one seen before

    /** The slices hold the given logs. */
    ghost predicate Shows(held: Logs)
      reads this`attempts, Arrays(attempts)
    {
      Separate(attempts) && held.Keys == attempts.Keys && forall k | k in held :: Log(k) == held[k]
    }

    ghost predicate Valid()
      reads this, Arrays(attempts)
    {
      Shows(logs) && Consistent(logs, history, limit, window, clock, inOrder)
    }

    constructor (limit: int, window: int, now: int)
      ensures Valid() && history == logs == map[] && clock == now && inOrder && attempts == map[]
      ensures this.limit == limit && this.window == window
    {
      this.limit := limit;
      this.window := window;
      this.attempts := map[];
      this.logs := map[];
      this.history := map[];
      this.clock := now;
      this.inOrder := true;
    }

    function Log(key: Key): seq<int>
      requires Separate(attempts)
      reads this`attempts, Arrays(attempts)
    {
      LogOf(attempts, key)
    }

    /** The key's log is filtered in the array that holds it. */
    method FilterKey(key: Key, cutoff: int)
      requires Separate(attempts) && key in attempts
      modifies this`attempts, attempts[key].data
      ensures Separate(attempts) && attempts.Keys == old(attempts).Keys
      ensures forall k | k in attempts :: attempts[k].data == old(attempts)[k].data
      ensures Log(key) == Recent(old(Log(key)), cutoff)
      ensures forall k | k != key :: Log(k) == old(Log(k))
    {
      var slice := attempts[key];
      var m := FilterInPlace(slice.data, slice.len, cutoff);
      attempts := attempts[key := Slice(slice.data, m)];
    }

    /** append: into the spare room of the array if there is any, else into a larger copy. */
    method Append(key: Key, t: int)
      requires Separate(attempts) && key in attempts
      modifies this`attempts, attempts[key].data
      ensures Separate(attempts) && attempts.Keys == old(attempts).Keys
      ensures forall k | k in attempts :: attempts[k].data == old(attempts)[k].data || fresh(attempts[k].data)
      ensures Log(key) == old(Log(key)) + [t]
      ensures forall k | k != key :: Log(k) == old(Log(k))
    {
      var slice := attempts[key];
      if slice.len < slice.data.Length {
        slice.data[slice.len] := t;
        attempts := attempts[key := Slice(slice.data, slice.len + 1)];
      } else {
        var grown := new int[2 * slice.len + 1];
        forall i | 0 <= i < slice.len {
          grown[i] := slice.data[i];
        }
        grown[slice.len] := t;
        attempts := attempts[key := Slice(grown, slice.len + 1)];
      }
    }

    method PruneKey(key: Key, cutoff: int)
      requires Separate(attempts) && key in attempts
      modifies this`attempts, attempts[key].data
      ensures Separate(attempts)
      ensures attempts.Keys ==
              if Recent(old(Log(key)), cutoff) == [] then old(attempts).Keys - {key} else old(attempts).Keys
      ensures forall k | k in attempts :: attempts[k].data == old(attempts)[k].data
      ensures Log(key) == Recent(old(Log(key)), cutoff)
      ensures forall k | k != key :: Log(k) == old(Log(k))
    {
      FilterKey(key, cutoff);
      if attempts[key].len == 0 {
        attempts := attempts - {key};
      }
    }

    /** The keys in `todo` still have the log they had, the others the filtered one, and no
        key that has been filtered has an empty log. */
    ghost predicate PartlyPruned(before: Logs, todo: set<Key>, cutoff: int)
      reads this`attempts, Arrays(attempts)
    {
      && Separate(attempts) && todo <= attempts.Keys <= before.Keys
      && (forall k | k in todo :: Log(k) == before[k])
      && (forall k | k in before && k !in todo :: Log(k) == Recent(before[k], cutoff))
      && (forall k | k in attempts && k !in todo :: Log(k) != [])
    }

    method PruneNext(key: Key, cutoff: int, ghost before: Logs, ghost todo: set<Key>)
      requires PartlyPruned(before, todo, cutoff) && key in todo
      modifies this`attempts, attempts[key].data
      ensures PartlyPruned(before, todo - {key}, cutoff)
      ensures forall k | k in attempts :: k in old(attempts) && attempts[k].data == old(attempts)[k].data
    {
      PruneKey(key, cutoff);
    }

    /** Every log keeps exactly its entries after the cutoff; a key with none left goes. */
    method Prune(cutoff: int, ghost before: Logs)
      requires Shows(before)
      modifies this`attempts, Arrays(attempts)
      ensures PartlyPruned(before, {}, cutoff)
      ensures forall k | k in attempts :: k in old(attempts) && attempts[k].data == old(attempts)[k].data
    {
      var todo := attempts.Keys;
      while todo != {}
        invariant PartlyPruned(before, todo, cutoff)
        invariant forall k | k in attempts :: k in old(attempts) && attempts[k].data == old(attempts)[k].data
        decreases |todo|
      {
        var key :| key in todo;
        PruneNext(key, cutoff, before, todo);
        todo := todo - {key};
      }
    }

    /** Looking up a key that is not in the map yields an empty slice. */
    method Lookup(key: Key, ghost before: Logs)
      requires Shows(before)
      modifies this`attempts
      ensures Shows(before[key := Get(before, key)])
      ensures forall a | a in Arrays(attempts) :: a in old(Arrays(attempts)) || fresh(a)
    {
      if key !in attempts {
        var none := new int[0];
        attempts := attempts[key := Slice(none, 0)];
      }
    }

    method FilterShown(key: Key, cutoff: int, ghost before: Logs)
      requires Shows(before) && key in attempts
      modifies this`attempts, attempts[key].data
      ensures Shows(before[key := Recent(before[key], cutoff)])
      ensures Arrays(attempts) == old(Arrays(attempts))
    {
      ghost var slices := attempts;
      FilterKey(key, cutoff);
      SameArrays(slices, attempts);
    }

    method AppendShown(key: Key, t: int, ghost before: Logs)
      requires Shows(before) && key in attempts
      modifies this`attempts, attempts[key].data
      ensures Shows(before[key := before[key] + [t]])
      ensures forall a | a in Arrays(attempts) :: a in old(Arrays(attempts)) || fresh(a)
    {
      Append(key, t);
    }

    /** There is room: appends the reading and prunes. */
    method Record(key: Key, now: int, cutoff: int, ghost before: Logs, ghost after: Logs)
      requires Shows(before) && key in attempts && after == before[key := before[key] + [now]]
      modifies this`attempts, Arrays(attempts)
      ensures PartlyPruned(after, {}, cutoff)
      ensures forall a | a in Arrays(attempts) :: a in old(Arrays(attempts)) || fresh(a)
    {
      AppendShown(key, now, before);
      Prune(cutoff, after);
    }

    /** The body of allow, for a key that has been looked up: filters its log in place, and if
        there is room appends the reading to it and prunes all logs. */
    method Admit(key: Key, now: int, ghost before: Logs, ghost hits: seq<int>) returns (ok: bool)
      requires Shows(before) && key in attempts && hits == Recent(before[key], now - window)
      modifies this`attempts, Arrays(attempts)
      ensures ok <==> |hits| < limit
      ensures ok ==> PartlyPruned(before[key := hits + [now]], {}, now - window)
      ensures !ok ==> Shows(before[key := hits])
      ensures forall a | a in Arrays(attempts) :: a in old(Arrays(attempts)) || fresh(a)
    {
      ghost var filtered, after := before[key := hits], before[key := hits + [now]];
      FilterShown(key, now - window, before);
      ok := HasSpace(key, filtered);
      if ok {
        UpdateTwice(before, key, hits, hits + [now]);
        Record(key, now, now - window, filtered, after);
      }
    }

    method HasSpace(key: Key, ghost held: Logs) returns (ok: bool)
      requires Shows(held) && key in attempts
      ensures ok <==> |held[key]| < limit
    {
      ok := attempts[key].len < limit;
    }

    /** Admits exactly when fewer than `limit` admissions lie in (now - window, now], if the
        clock reading is not older than an earlier one; a late reading is judged by what is
        left of the log.  Only admitted attempts are recorded. */
    method Allow(key: Key, now: int) returns (ok: bool)
      requires Valid()
      modifies this, Arrays(attempts)
      ensures Valid() && clock == Max(old(clock), now) && inOrder == (old(inOrder) && now >= old(clock))
      ensures Outcome(old(logs), logs, key, now, limit, window, ok)
      ensures now >= old(clock) ==> (ok <==> InWindow(old(history), key, now, window) < limit)
      ensures history == Recorded(old(history), key, now, ok)
      ensures ok ==> forall k | k in logs :: logs[k] != []
      ensures forall a | a in Arrays(attempts) :: a in old(Arrays(attempts)) || fresh(a)
    {
      ghost var after;
      ok, after := Decide(key, now);
      AttemptStep(logs, after, history, key, now, limit, window, ok, clock, inOrder);
      logs := after;
      history, clock, inOrder := Recorded(history, key, now, ok), Max(clock, now), inOrder && now >= clock;
    }

    /** The heap side of an attempt. */
    method Decide(key: Key, now: int) returns (ok: bool, ghost after: Logs)
      requires Shows(logs)
      modifies this`attempts, Arrays(attempts)
      ensures Shows(after) && Outcome(logs, after, key, now, limit, window, ok)
      ensures ok ==> forall k | k in after :: after[k] != []
      ensures forall a | a in Arrays(attempts) :: a in old(Arrays(attempts)) || fresh(a)
    {
      ghost var before := logs[key := Get(logs, key)];
      ghost var hits := Recent(before[key], now - window);
      Lookup(key, logs);
      ok := Admit(key, now, before, hits);
      UpdateTwice(logs, key, Get(logs, key), hits);
      UpdateTwice(logs, key, Get(logs, key), hits + [now]);
      after := map k | k in attempts :: Log(k);
      OutcomeShown(after, key, now, ok);
    }

    lemma OutcomeShown(after: Logs, key: Key, now: int, ok: bool)
      requires Separate(attempts) && after == map k | k in attempts :: Log(k)
      requires ok <==> |Recent(Get(logs, key), now - window)| < limit
      requires var hits := Recent(Get(logs, key), now - window);
               if ok then PartlyPruned(logs[key := hits + [now]], {}, now - window) else Shows(logs[key := hits])
      ensures Shows(after) && Outcome(logs, after, key, now, limit, window, ok)
      ensures ok ==> forall k | k in after :: after[k] != []
    {
      if ok {
        AdmittedLogs(logs, after, key, now, window);
      } else {
        assert after == logs[key := Recent(Get(logs, key), now - window)];
      }
    }

    method Clear(key: Key)
      requires Valid()
      modifies this
      ensures Valid() && clock == old(clock) && inOrder == old(inOrder)
      ensures attempts == old(attempts) - {key} && history == old(history) - {key}
    {
      ForgetStep(logs, history, key, limit, window, clock, inOrder);
      attempts := attempts - {key};
      logs := logs - {key};
      history := history - {key};
    }
  }

  // ----- readings that arrive late -----

  /** Whatever the limiter may hold when its latest reading is `clock`, and for every key: the
      reading `now` is judged by the number of admissions in (now - window, now]. */
  ghost predicate AlwaysJudgedRight(clock: int, now: int, limit: int, window: int, inOrder: bool) {
    forall logs, full, key | Consistent(logs, full, limit, window, clock, inOrder) ::
      JudgedRight(logs, full, key, now, limit, window)
  }

  /** That is so exactly for the readings that are not late, whether or not one came late before. */
  lemma JudgedRightExactly(clock: int, now: int, limit: int, window: int, inOrder: bool)
    requires limit >= 1 && window > 0
    ensures AlwaysJudgedRight(clock, now, limit, window, inOrder) <==> now >= clock
  {
    if now >= clock {
      forall logs, full, key | Consistent(logs, full, limit, window, clock, inOrder)
        ensures JudgedRight(logs, full, key, now, limit, window)
      {
        TimelyJudgedRight(logs, full, key, now, limit, window, clock, inOrder);
      }
    } else {
      var logs: Logs := map[0 := Copies(clock, limit)];
      BurstConsistent(logs, clock, limit, window, inOrder);
      BurstRefuses(logs, logs, clock, now, limit, window);
      assert !JudgedRight(logs, logs, 0, now, limit, window);
    }
  }

  function Copies(at: int, n: nat): (log: seq<int>)
    ensures |log| == n && forall i | 0 <= i < n :: log[i] == at
  {
    if n == 0 then [] else Copies(at, n - 1) + [at]
  }

  lemma {:induction false} RecentOfSame(log: seq<int>, at: int, cutoff: int, n: nat)
    requires n <= |log| && forall i | 0 <= i < n :: log[i] == at
    ensures RecentUpTo(log, cutoff, n) == if at > cutoff then log[..n] else []
  {
    if n > 0 {
      RecentOfSame(log, at, cutoff, n - 1);
      assert log[..n] == log[..n - 1] + [log[n - 1]];
    }
  }

  lemma RecentOfCopies(at: int, n: nat, cutoff: int)
    ensures Recent(Copies(at, n), cutoff) == if at > cutoff then Copies(at, n) else []
  {
    RecentOfSame(Copies(at, n), at, cutoff, n);
    assert Copies(at, n)[..n] == Copies(at, n);
  }

  lemma CopiesAfter(at: int, n: nat, window: int)
    requires window > 0
    ensures KeyAfter(Copies(at, n), true, at, at - window, true) == Copies(at, n + 1)
  {
    RecentOfCopies(at, n, at - window);
    RecentOfCopies(at, n + 1, at - window);
  }

  lemma CopiesAdmissible(at: int, n: nat, window: int)
    requires window > 0
    ensures Admissible(Copies(at, n), n, window)
  {
    forall i | 0 <= i < n ensures AdmittedAt(Copies(at, n), i, n, window) {
      RecentOfSame(Copies(at, n), at, at - window, i);
    }
  }

  lemma BurstConsistent(logs: Logs, at: int, limit: nat, window: int, inOrder: bool)
    requires window > 0 && logs == map[0 := Copies(at, limit)]
    ensures Consistent(logs, logs, limit, window, at, inOrder)
  {
    CopiesAdmissible(at, limit, window);
  }

  lemma {:induction false} NoneWithin(log: seq<int>, from: int, to: int, n: nat)
    requires n <= |log| && forall i | 0 <= i < n :: log[i] > to
    ensures Within(log, from, to, n) == 0
  {
    if n > 0 {
      NoneWithin(log, from, to, n - 1);
    }
  }

  /** After a burst up to the limit every older reading is refused, with nothing in its window. */
  lemma BurstRefuses(logs: Logs, full: Logs, at: int, now: int, limit: nat, window: int)
    requires window > 0 && now < at && Get(logs, 0) == Get(full, 0) == Copies(at, limit)
    ensures !HasRoom(logs, 0, now, limit, window) && InWindow(full, 0, now, window) == 0
  {
    RecentOfCopies(at, limit, now - window);
    NoneWithin(Copies(at, limit), now - window, now, limit);
  }

  /** The first `n` of a burst of attempts at one moment. */
  ghost predicate Burst(logs: Logs, full: Logs, at: int, n: nat) {
    Get(logs, 0) == Get(full, 0) == Copies(at, n) && Get(logs, 1) == []
  }

  lemma BurstGrows(logs: Logs, after: Logs, full: Logs, at: int, n: nat, limit: int, window: int, ok: bool)
    requires Burst(logs, full, at, n) && n < limit && window > 0 && Outcome(logs, after, 0, at, limit, window, ok)
    ensures ok && Burst(after, Recorded(full, 0, at, ok), at, n + 1)
  {
    RecentOfCopies(at, n, at - window);
    CopiesAfter(at, n, window);
    assert KeyAfter([], false, at, at - window, ok) == [];
  }

  /** A new limiter after as many attempts at one moment as it admits. */
  method Fill(limit: nat, window: int, at: int) returns (limiter: LoginLimiter)
    requires window > 0
    ensures fresh(limiter) && fresh(Arrays(limiter.attempts)) && limiter.Valid()
    ensures limiter.limit == limit && limiter.window == window && limiter.clock == at
    ensures Burst(limiter.logs, limiter.history, at, limit)
  {
    limiter := new LoginLimiter(limit, window, at);
    for n := 0 to limit
      invariant fresh(limiter) && fresh(Arrays(limiter.attempts)) && limiter.Valid()
      invariant limiter.limit == limit && limiter.window == window && limiter.clock == at
      invariant Burst(limiter.logs, limiter.history, at, n)
    {
      ghost var logs, full := limiter.logs, limiter.history;
      var ok := limiter.Allow(0, at);
      BurstGrows(logs, limiter.logs, full, at, n, limit, window, ok);
    }
  }

  /** A limiter of any size can come to refuse a late reading with nothing in its window: after
      a burst up to the limit it refuses every reading older than the burst. */
  method RefuseLate(limit: int, window: int, clock: int, now: int) returns (limiter: LoginLimiter, ok: bool)
    requires limit >= 1 && window > 0 && now < clock
    ensures limiter.limit == limit && limiter.window == window && limiter.clock == clock
    ensures !ok && InWindow(limiter.history, 0, now, window) == 0
  {
    limiter := Fill(limit, window, clock);
    BurstRefuses(limiter.logs, limiter.history, clock, now, limit, window);
    ok := limiter.Allow(0, now);
  }

  /** Nothing is left of the burst in the logs. */
  ghost predicate Faded(logs: Logs, full: Logs, at: int, n: nat) {
    Get(logs, 0) == [] && Get(full, 0) == Copies(at, n)
  }

  /** The admission of another key prunes a burst that has left its window. */
  lemma OtherPrunes(logs: Logs, after: Logs, full: Logs, now: int, n: nat, limit: int, window: int, ok: bool)
    requires limit >= 1 && Burst(logs, full, now - window, n) && Outcome(logs, after, 1, now, limit, window, ok)
    ensures Faded(after, Recorded(full, 1, now, ok), now - window, n)
  {
    var cutoff := now - window;
    assert Recent([], cutoff) == [];
    assert ok;
    RecentOfCopies(cutoff, n, cutoff);
    assert Get(after, 0) == KeyAfter(Copies(cutoff, n), false, now, cutoff, true);
    RecordedOfKey(full, 1, 0, now, true);
  }

  lemma FadedAdmits(logs: Logs, full: Logs, at: int, n: nat, now: int, limit: int, window: int)
    requires limit >= 1 && Faded(logs, full, at, n) && now - window < at <= now
    ensures HasRoom(logs, 0, now, limit, window) && InWindow(full, 0, now, window) == n
  {
    assert Recent([], now - window) == [];
    RecentOfCopies(at, n, now - window);
    WithinIsRecent(Copies(at, n), now - window, now, n);
  }

  method AdmitFaded(limiter: LoginLimiter, at: int, n: nat, now: int) returns (ok: bool)
    requires limiter.Valid() && limiter.limit >= 1 && limiter.window > 0
    requires Faded(limiter.logs, limiter.history, at, n) && now - limiter.window < at <= now
    modifies limiter, Arrays(limiter.attempts)
    ensures limiter.clock == Max(old(limiter.clock), now)
    ensures ok && InWindow(limiter.history, 0, now, limiter.window) == n + 1
  {
    ghost var full := limiter.history;
    FadedAdmits(limiter.logs, full, at, n, now, limiter.limit, limiter.window);
    OneMoreInWindow(full, now, limiter.window);
    ok := limiter.Allow(0, now);
  }

  method PruneAndAdmit(limiter: LoginLimiter, at: int, n: nat, clock: int, now: int) returns (ok: bool)
    requires limiter.Valid() && limiter.limit >= 1 && limiter.window > 0
    requires Burst(limiter.logs, limiter.history, at, n) && at == clock - limiter.window && at <= now < clock
    modifies limiter, Arrays(limiter.attempts)
    ensures limiter.clock == Max(old(limiter.clock), clock)
    ensures ok && InWindow(limiter.history, 0, now, limiter.window) == n + 1
  {
    ghost var logs, full := limiter.logs, limiter.history;
    var other := limiter.Allow(1, clock);
    OtherPrunes(logs, limiter.logs, full, clock, n, limiter.limit, limiter.window, other);
    ok := AdmitFaded(limiter, at, n, now);
  }

  /** And it can come to admit one whose window is full: after a burst up to the limit and, one
      window later, an admission of another key, which prunes the burst. */
  method AdmitLate(limit: int, window: int, clock: int, now: int) returns (limiter: LoginLimiter, ok: bool)
    requires limit >= 1 && window > 0 && clock - window <= now < clock
    ensures limiter.limit == limit && limiter.window == window && limiter.clock == clock
    ensures ok && InWindow(limiter.history, 0, now, window) == limit + 1
  {
    limiter := Fill(limit, window, clock - window);
    ok := PruneAndAdmit(limiter, clock - window, limit, clock, now);
  }

  lemma OneMoreInWindow(full: Logs, now: int, window: int)
    requires window > 0
    ensures InWindow(Recorded(full, 0, now, true), 0, now, window) == InWindow(full, 0, now, window) + 1
  {
    SameWithin(Get(full, 0), Get(full, 0) + [now], now - window, now, |Get(full, 0)|);
  }

  lemma {:induction false} SameWithin(a: seq<int>, b: seq<int>, from: int, to: int, n: nat)
    requires n <= |a| && n <= |b| && forall i | 0 <= i < n :: a[i] == b[i]
    ensures Within(a, from, to, n) == Within(b, from, to, n)
  {
    if n > 0 {
      SameWithin(a, b, from, to, n - 1);
    }
  }

  lemma LogsValidLater(history: Logs, limit: int, window: int, clock: int, now: int)
    requires clock <= now && LogsValid(history, limit, window, clock)
    ensures LogsValid(history, limit, window, now)
  {
  }

  lemma AdmissibleAppend(log: seq<int>, now: int, limit: int, window: int)
    requires LogValid(log, limit, window, now)
    requires |Recent(log, now - window)| < limit
    ensures LogValid(log + [now], limit, window, now)
  {
    var longer := log + [now];
    forall i | 0 <= i < |longer| ensures AdmittedAt(longer, i, limit, window) {
      SamePrefix(log, longer, longer[i] - window, i);
      if i < |log| {
        assert AdmittedAt(log, i, limit, window);
      } else {
        forall j | 0 <= j < i ensures longer[j] <= now {
          assert log[j] in log;
        }
      }
    }
  }

  lemma {:induction false} WithinAtMostRecent(log: seq<int>, from: int, to: int, cutoff: int, n: nat)
    requires n <= |log| && cutoff <= from
    ensures Within(log, from, to, n) <= |RecentUpTo(log, cutoff, n)|
  {
    if n > 0 {
      WithinAtMostRecent(log, from, to, cutoff, n - 1);
    }
  }

  /** Every interval one window long contains at most `limit` admissions of a key. */
  lemma {:induction false} WindowBound(log: seq<int>, limit: int, window: int, from: int, n: nat)
    requires n <= |log| && Admissible(log, limit, window)
    ensures Within(log, from, from + window, n) <= Max(limit, 0)
  {
    if n > 0 {
      WindowBound(log, limit, window, from, n - 1);
      if from < log[n - 1] <= from + window {
        assert AdmittedAt(log, n - 1, limit, window);
        WithinAtMostRecent(log, from, from + window, log[n - 1] - window, n - 1);
      }
    }
  }
}
