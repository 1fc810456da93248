/** The event collector (internal/server/events.go): the stream callback enqueues events into
    a bounded channel or drops them, and one flusher writes them in batches and marks the
    sessions they concern as unread. */
module EventPipeline {
  import opened Basics

  /** A session id; None stands for the empty string. */
  type Sid = nat

  datatype Event = Event(kind: string, session: Option<Sid>)

  const QUEUE_SIZE := 512
  const FLUSH_BATCH := 100

  predicate IsUnreadTrigger(kind: string) {
    kind in {"message.complete", "message.created", "message.updated", "question.asked", "question.updated",
             "permission.asked", "session.idle", "session.status", "session.error", "session.failed"}
  }

  /** The event marks session `sid` as unread. */
  predicate Triggers(e: Event, sid: Sid) {
    e.session == Some(sid) && IsUnreadTrigger(e.kind)
  }

  // ----- the sessions one flush marks -----

  /** The sessions the batch marks, each once, in order of their first trigger event. */
  function UnreadIds(batch: seq<Event>): seq<Sid> {
    if batch == [] then []
    else
      var ids, e := UnreadIds(batch[..|batch| - 1]), batch[|batch| - 1];
      if IsUnreadTrigger(e.kind) && e.session.Some? && e.session.value !in ids then ids + [e.session.value] else ids
  }

  ghost predicate Triggered(batch: seq<Event>, sid: Sid) {
    exists e | e in batch :: Triggers(e, sid)
  }

  ghost predicate TriggeredBefore(batch: seq<Event>, early: Sid, late: Sid) {
    exists k | 0 <= k <= |batch| :: Triggered(batch[..k], early) && !Triggered(batch[..k], late)
  }

  /** Exactly the sessions with a trigger event, none of them twice, first come first. */
  lemma {:induction false} UnreadIdsExact(batch: seq<Event>)
    ensures forall sid :: sid in UnreadIds(batch) <==> Triggered(batch, sid)
    ensures forall i, j | 0 <= i < j < |UnreadIds(batch)| :: UnreadIds(batch)[i] != UnreadIds(batch)[j]
    ensures forall i, j | 0 <= i < j < |UnreadIds(batch)| ::
            TriggeredBefore(batch, UnreadIds(batch)[i], UnreadIds(batch)[j])
  {
    if batch != [] {
      var front, e := batch[..|batch| - 1], batch[|batch| - 1];
      UnreadIdsExact(front);
      var ids, all := UnreadIds(front), UnreadIds(batch);
      forall sid
        ensures sid in all <==> Triggered(batch, sid)
      {
        TriggeredLast(batch, sid);
      }
      forall i, j | 0 <= i < j < |all|
        ensures TriggeredBefore(batch, all[i], all[j])
      {
        if j < |ids| {
          TriggeredBeforeExtends(batch, all[i], all[j]);
        } else {
          assert batch[..|front|] == front && all[i] in ids && all[j] !in ids;
        }
      }
    }
  }

  lemma TriggeredLast(batch: seq<Event>, sid: Sid)
    requires batch != []
    ensures Triggered(batch, sid) <==> Triggered(batch[..|batch| - 1], sid) || Triggers(batch[|batch| - 1], sid)
  {
    assert batch == batch[..|batch| - 1] + [batch[|batch| - 1]];
  }

  lemma TriggeredBeforeExtends(batch: seq<Event>, early: Sid, late: Sid)
    requires batch != [] && TriggeredBefore(batch[..|batch| - 1], early, late)
    ensures TriggeredBefore(batch, early, late)
  {
    var front := batch[..|batch| - 1];
    var k :| 0 <= k <= |front| && Triggered(front[..k], early) && !Triggered(front[..k], late);
    assert front[..k] == batch[..k];
  }

  /** The loop over the batch with its set of ids already seen. */
  method CollectUnread(batch: seq<Event>) returns (ids: seq<Sid>)
    ensures ids == UnreadIds(batch)
  {
    ids := [];
    var seen := {};
    for i := 0 to |batch|
      invariant ids == UnreadIds(batch[..i])
      invariant forall sid :: sid in seen <==> sid in ids
    {
      var e := batch[i];
      assert batch[..i + 1][..i] == batch[..i];
      if IsUnreadTrigger(e.kind) && e.session.Some? && e.session.value !in seen {
        seen := seen + {e.session.value};
        ids := ids + [e.session.value];
      }
    }
    assert batch[..|batch|] == batch;
  }

  // ----- the pipeline as a state machine -----

  datatype Phase = Running | Draining | Stopped

  /** `writes` and `marks` are the calls made to the store; `accepted` is every event that
      got into the queue. */
  datatype State = State(phase: Phase, queue: seq<Event>, batch: seq<Event>, writes: seq<seq<Event>>,
          marks: seq<seq<Sid>>, accepted: seq<Event>)

  datatype Label =
    | Offer(event: Event)  // the stream callback
    | Receive              // the flusher takes an event
    | Tick                 // the flush interval elapses
    | Cancel               // the flusher notices the canceled context
    | Finish               // the drain loop finds the queue empty

  predicate Enabled(s: State, l: Label) {
    match l
    case Offer(_) => true
    case Receive => s.queue != [] && !s.phase.Stopped?
    case Tick => s.phase.Running?
    case Cancel => s.phase.Running?
    case Finish => s.phase.Draining? && s.queue == []
  }

  function Flush(s: State): State {
    if s.batch == [] then s
    else
      s.(writes := s.writes + [s.batch],
         marks := if UnreadIds(s.batch) == [] then s.marks else s.marks + [UnreadIds(s.batch)],
         batch := [])
  }

  function Next(s: State, l: Label): State
    requires Enabled(s, l)
  {
    match l
    case Offer(e) => if |s.queue| < QUEUE_SIZE then s.(queue := s.queue + [e], accepted := s.accepted + [e]) else s
    case Receive =>
      var t := s.(queue := s.queue[1..], batch := s.batch + [s.queue[0]]);
      if |t.batch| >= FLUSH_BATCH then Flush(t) else t
    case Tick => Flush(s)
    case Cancel => s.(phase := Draining)
    case Finish => Flush(s).(phase := Stopped)
  }

  const START := State(Running, [], [], [], [], [])

  ghost predicate Legal(run: seq<Label>)
    decreases |run|, 0
  {
    run == [] || (Legal(run[..|run| - 1]) && Enabled(After(run[..|run| - 1]), run[|run| - 1]))
  }

  ghost function After(run: seq<Label>): State
    requires Legal(run)
    decreases |run|, 1
  {
    if run == [] then START else Next(After(run[..|run| - 1]), run[|run| - 1])
  }

  function Flat<T>(parts: seq<seq<T>>): seq<T> {
    if parts == [] then [] else Flat(parts[..|parts| - 1]) + parts[|parts| - 1]
  }

  // ----- what every step keeps -----

  predicate Sized(s: State) {
    && |s.queue| <= QUEUE_SIZE
    && |s.batch| < FLUSH_BATCH
    && (s.phase.Stopped? ==> s.batch == [])
    && forall k | 0 <= k < |s.writes| :: 0 < |s.writes[k]| <= FLUSH_BATCH
  }

  /** Nothing is lost, doubled or reordered between the queue and the store. */
  predicate Conserved(s: State) {
    Flat(s.writes) + s.batch + s.queue == s.accepted
  }

  /** A session is marked exactly when an event that has been written triggers it. */
  ghost predicate MarkedExactly(s: State) {
    forall sid :: sid in Flat(s.marks) <==> Triggered(Flat(s.writes), sid)
  }

  lemma FlatLast<T>(parts: seq<seq<T>>, part: seq<T>)
    ensures Flat(parts + [part]) == Flat(parts) + part
  {
    assert (parts + [part])[..|parts|] == parts;
  }

  lemma FlushStep(s: State)
    requires Conserved(s) && MarkedExactly(s)
    ensures Conserved(Flush(s)) && MarkedExactly(Flush(s))
    ensures Flat(Flush(s).writes) == Flat(s.writes) + s.batch && Flush(s).batch == []
  {
    FlatLast(s.writes, s.batch);
    FlatLast(s.marks, UnreadIds(s.batch));
    UnreadIdsExact(s.batch);
    assert Flush(s).batch == [];
    forall sid
      ensures Triggered(Flat(s.writes) + s.batch, sid) <==> Triggered(Flat(s.writes), sid) || Triggered(s.batch, sid)
    {
    }
  }

  lemma ReceiveStep(s: State)
    requires s.queue != [] && Conserved(s) && MarkedExactly(s)
    ensures var t := s.(queue := s.queue[1..], batch := s.batch + [s.queue[0]]); Conserved(t) && MarkedExactly(t)
  {
    var t := s.(queue := s.queue[1..], batch := s.batch + [s.queue[0]]);
    assert s.queue == [s.queue[0]] + s.queue[1..];
    assert Flat(s.writes) + (s.batch + [s.queue[0]]) + s.queue[1..] == Flat(s.writes) + s.batch + s.queue;
  }

  lemma SizedStep(s: State, l: Label)
    requires Sized(s) && Enabled(s, l)
    ensures Sized(Next(s, l))
  {
  }

  lemma StepKeeps(s: State, l: Label)
    requires Sized(s) && Conserved(s) && MarkedExactly(s) && Enabled(s, l)
    ensures Sized(Next(s, l)) && Conserved(Next(s, l)) && MarkedExactly(Next(s, l))
  {
    SizedStep(s, l);
    if l.Receive? {
      ReceiveStep(s);
      FlushStep(s.(queue := s.queue[1..], batch := s.batch + [s.queue[0]]));
    } else if l.Offer? {
      OfferStep(s, l.event);
    } else {
      FlushStep(s);
    }
  }

  lemma OfferStep(s: State, e: Event)
    requires Conserved(s) && MarkedExactly(s)
    ensures Conserved(Next(s, Offer(e))) && MarkedExactly(Next(s, Offer(e)))
  {
    assert Flat(s.writes) + s.batch + (s.queue + [e]) == Flat(s.writes) + s.batch + s.queue + [e];
  }

  /** In every reachable state: each write holds 1 to 100 events, the writes followed by the
      batch and the queue are the accepted events in order, and the sessions marked are
      those of the written trigger events. */
  lemma {:induction false} Reachable(run: seq<Label>)
    requires Legal(run)
    ensures Sized(After(run)) && Conserved(After(run)) && MarkedExactly(After(run))
    decreases |run|
  {
    if run != [] {
      Reachable(run[..|run| - 1]);
      StepKeeps(After(run[..|run| - 1]), run[|run| - 1]);
    }
  }

  // ----- when a batch is written -----

  /** What a step hands to the store: a tick and the final check the whole batch, taking an
      event the batch that it completes to 100, if there is anything in it; nothing else
      writes.  An offer is dropped exactly when 512 events are queued. */
  lemma WritesExactly(s: State, l: Label)
    requires Enabled(s, l)
    ensures var t := Next(s, l);
            var full := if l.Receive? then s.batch + [s.queue[0]] else s.batch;
            if (l.Tick? || l.Finish? || (l.Receive? && |full| >= 100)) && full != []
            then t.writes == s.writes + [full] && t.batch == []
            else t.writes == s.writes && t.batch == full
    ensures Next(s, l).queue == if l.Receive? then s.queue[1..]
                                else if l.Offer? && |s.queue| < 512 then s.queue + [l.event] else s.queue
  {
  }

  /** Each write is followed by one mark of the sessions it concerns, if there are any. */
  lemma {:induction false} MarksFollowWrites(run: seq<Label>)
    requires Legal(run)
    ensures After(run).marks == MarksOf(After(run).writes)
    decreases |run|
  {
    if run != [] {
      var s, l := After(run[..|run| - 1]), run[|run| - 1];
      MarksFollowWrites(run[..|run| - 1]);
      if Next(s, l).writes != s.writes {
        var written := if l.Receive? then s.batch + [s.queue[0]] else s.batch;
        WritesExactly(s, l);
        assert (s.writes + [written])[..|s.writes|] == s.writes;
      }
    }
  }

  function MarksOf(writes: seq<seq<Event>>): seq<seq<Sid>> {
    if writes == [] then []
    else
      var earlier, ids := MarksOf(writes[..|writes| - 1]), UnreadIds(writes[|writes| - 1]);
      if ids == [] then earlier else earlier + [ids]
  }

  /** A tick leaves nothing waiting in the batch: what it held is on its way to the store. */
  lemma TickWritesAll(run: seq<Label>)
    requires run != [] && Legal(run) && run[|run| - 1] == Tick
    ensures After(run).batch == [] && Flat(After(run).writes) + After(run).queue == After(run).accepted
  {
    var s := After(run[..|run| - 1]);
    WritesExactly(s, Tick);
    Reachable(run);
    assert Flat(After(run).writes) + [] == Flat(After(run).writes);
  }

  // ----- shutdown -----

  lemma {:induction false} PrefixLegal(run: seq<Label>, k: nat)
    requires Legal(run) && k <= |run|
    ensures Legal(run[..k])
    decreases |run|
  {
    if k == |run| {
      assert run[..k] == run;
    } else {
      assert run[..|run| - 1][..k] == run[..k];
      PrefixLegal(run[..|run| - 1], k);
    }
  }

  lemma LateOffer(s: State, l: Label)
    requires s.phase.Stopped? && Enabled(s, l)
    ensures l.Offer? && Next(s, l).phase.Stopped? && Next(s, l).writes == s.writes && Next(s, l).queue != []
  {
  }

  lemma FinishStops(s: State)
    requires Enabled(s, Finish)
    ensures Next(s, Finish).phase.Stopped? && Next(s, Finish).queue == []
  {
  }

  /** After the final empty check only the stream callback moves, and nothing more is written;
      the queue stays empty exactly if the callback does not move either. */
  lemma {:induction false} StoppedForGood(run: seq<Label>, f: nat)
    requires Legal(run) && f < |run| && run[f] == Finish
    ensures Legal(run[..f + 1]) && After(run).phase.Stopped? && After(run).writes == After(run[..f + 1]).writes
    ensures forall k | f < k < |run| :: run[k].Offer?
    ensures After(run).queue == [] <==> |run| == f + 1
    decreases |run|
  {
    PrefixLegal(run, f + 1);
    var front, last := run[..|run| - 1], run[|run| - 1];
    if |run| == f + 1 {
      assert run[..f + 1] == run;
      FinishStops(After(front));
    } else {
      assert front[..f + 1] == run[..f + 1];
      StoppedForGood(front, f);
      LateOffer(After(front), last);
      forall k | f < k < |run| ensures run[k].Offer? {
        assert k < |front| ==> run[k] == front[k];
      }
    }
  }

  /** Everything accepted before the final empty check has been written when the flusher
      stops; so nothing at all is lost exactly when the callback offers no event after it. */
  lemma StopLosesExactlyLateOffers(run: seq<Label>, f: nat)
    requires Legal(run) && f < |run| && run[f] == Finish
    ensures Legal(run[..f]) && Flat(After(run).writes) == After(run[..f]).accepted
    ensures Flat(After(run).writes) == After(run).accepted <==> forall k | f < k < |run| :: !run[k].Offer?
  {
    StoppedForGood(run, f);
    assert |run| > f + 1 ==> run[f + 1].Offer?;
    PrefixLegal(run, f);
    assert run[..f + 1][..f] == run[..f];
    Reachable(run[..f]);
    FinishWritesAll(After(run[..f]));
    Reachable(run);
    StoppedBalance(After(run));
  }

  lemma FinishWritesAll(s: State)
    requires Enabled(s, Finish) && Conserved(s)
    ensures Flat(Next(s, Finish).writes) == s.accepted
  {
    FlatLast(s.writes, s.batch);
    assert Flat(s.writes) + s.batch + s.queue == Flat(s.writes) + s.batch;
  }

  lemma StoppedBalance(s: State)
    requires s.phase.Stopped? && Sized(s) && Conserved(s)
    ensures Flat(s.writes) == s.accepted <==> s.queue == []
  {
    assert Flat(s.writes) + s.batch == Flat(s.writes);
    assert |s.accepted| == |Flat(s.writes)| + |s.queue|;
  }

  /** The drain loop after cancellation when the callback offers nothing meanwhile. */
  function Drained(s: State): State
    requires s.phase.Draining?
    decreases |s.queue|
  {
    if s.queue == [] then Next(s, Finish) else Drained(Next(s, Receive))
  }

  /** It ends with everything ever accepted written, and every session concerned marked. */
  lemma {:induction false} DrainedWritesAll(s: State)
    requires s.phase.Draining? && Sized(s) && Conserved(s) && MarkedExactly(s)
    ensures var t := Drained(s); t.queue == [] && t.batch == [] && Flat(t.writes) == t.accepted == s.accepted
    ensures MarkedExactly(Drained(s))
    decreases |s.queue|
  {
    if s.queue == [] {
      StepKeeps(s, Finish);
      var t := Next(s, Finish);
      assert Flat(t.writes) + t.batch + t.queue == Flat(t.writes);
    } else {
      StepKeeps(s, Receive);
      DrainedWritesAll(Next(s, Receive));
    }
  }

  // ----- the program -----

  class Collector {
    var phase: Phase
    var queue: seq<Event>
    var batch: seq<Event>
    ghost var writes: seq<seq<Event>>
    ghost var marks: seq<seq<Sid>>
    ghost var accepted: seq<Event>

    ghost function View(): State
      reads this
    {
      State(phase, queue, batch, writes, marks, accepted)
    }

    constructor ()
      ensures View() == START
    {
      phase, queue, batch, writes, marks, accepted := Running, [], [], [], [], [];
    }

    /** The non-blocking send of the stream callback. */
    method Enqueue(e: Event) returns (ok: bool)
      modifies this
      ensures View() == Next(old(View()), Offer(e)) && ok == (|old(queue)| < QUEUE_SIZE)
    {
      ok := |queue| < QUEUE_SIZE;
      if ok {
        queue := queue + [e];
        accepted := accepted + [e];
      }
    }

    /** Writes the batch and marks the sessions it concerns. */
    method FlushBatch()
      modifies this
      ensures View() == Flush(old(View()))
    {
      if |batch| == 0 {
        return;
      }
      writes := writes + [batch];
      var ids := CollectUnread(batch);
      if |ids| > 0 {
        marks := marks + [ids];
      }
      batch := [];
    }

    /** One event from the queue into the batch. */
    method ReceiveOne()
      requires Enabled(View(), Receive)
      modifies this
      ensures View() == Next(old(View()), Receive)
    {
      var e := queue[0];
      queue := queue[1..];
      batch := batch + [e];
      if |batch| >= FLUSH_BATCH {
        FlushBatch();
      }
    }

    /** The drain loop of the canceled flusher. */
    method Drain()
      requires phase.Draining?
      modifies this
      ensures View() == Drained(old(View()))
    {
      while queue != []
        invariant phase.Draining? && Drained(View()) == Drained(old(View()))
        decreases |queue|
      {
        ReceiveOne();
      }
      FlushBatch();
      phase := Stopped;
    }
  }
}
