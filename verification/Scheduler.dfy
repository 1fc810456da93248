/** Recurring templates (internal/server/scheduler.go): any number of schedulers, each with
    its own clock, race on the last_fired_at cursor of one template.

    A scheduler lists the template, decides whether its next firing time is due, advances
    the cursor by compare-and-set, and clones a task; a failed clone puts the cursor back. */
module Scheduler {
  import opened Basics
  import opened Cron

  type Actor = nat

  /** The firing time after an instant (None when NextCron fails), and the creation time. */
  datatype Template = Template(next: int -> Option<int>, created: int)

  /** All the protocol needs of a cron expression: firing times are at least a second later. */
  ghost predicate Forward(tm: Template) {
    forall b :: tm.next(b).Some? ==> tm.next(b).value >= b + SECOND
  }

  datatype Pc =
    | Idle
    | Listed(seen: Option<int>, now: int)  // has the row and the clock reading
    | Won(seen: Option<int>, at: int)      // advanced the cursor from `seen` to `at`
    | Failed(seen: Option<int>, at: int)   // the clone failed, the rollback is next

  /** One advance of the cursor. */
  datatype Advance = Advance(from: Option<int>, to: int, who: Actor)

  /** `advances` are the advances not rolled back, `clones` those that led to a task. */
  datatype State = State(cursor: Option<int>, open: bool, pcs: map<Actor, Pc>, advances: seq<Advance>,
          clones: seq<Advance>) {
    function PcOf(a: Actor): Pc {
      if a in pcs then pcs[a] else Idle
    }
  }

  datatype Label =
    | List(a: Actor, now: int)
    | Skip(a: Actor)
    | Fire(a: Actor)
    | CloneOk(a: Actor)
    | CloneFail(a: Actor)
    | Rollback(a: Actor)
    | CancelTemplate

  function Base(tm: Template, cursor: Option<int>): int {
    if cursor.Some? then cursor.value else tm.created
  }

  ghost predicate Enabled(tm: Template, s: State, l: Label) {
    match l
    case List(a, _) => s.PcOf(a).Idle? && s.open
    case Skip(a) => s.PcOf(a).Listed?
    case Fire(a) =>
      && s.PcOf(a).Listed? && tm.next(Base(tm, s.PcOf(a).seen)).Some?
      && tm.next(Base(tm, s.PcOf(a).seen)).value <= s.PcOf(a).now
    case CloneOk(a) => s.PcOf(a).Won?
    case CloneFail(a) => s.PcOf(a).Won?
    case Rollback(a) => s.PcOf(a).Failed?
    case CancelTemplate => true
  }

  /** The advance taken back by a rollback leaves the list. */
  function Without(advances: seq<Advance>, gone: Advance): seq<Advance> {
    if advances == [] then []
    else if advances[|advances| - 1] == gone then advances[..|advances| - 1]
    else Without(advances[..|advances| - 1], gone) + [advances[|advances| - 1]]
  }

  function Apply(s: State, l: Label): State {
    match l
    case List(a, now) => s.(pcs := s.pcs[a := Listed(s.cursor, now)])
    case Skip(a) => s.(pcs := s.pcs[a := Idle])
    case Fire(a) =>
      if s.PcOf(a).Listed? && s.open && s.cursor == s.PcOf(a).seen
      then var now := s.PcOf(a).now;
           s.(cursor := Some(now), pcs := s.pcs[a := Won(s.cursor, now)],
              advances := s.advances + [Advance(s.cursor, now, a)])
      else s.(pcs := s.pcs[a := Idle])
    case CloneOk(a) =>
      if s.PcOf(a).Won?
      then s.(pcs := s.pcs[a := Idle], clones := s.clones + [Advance(s.PcOf(a).seen, s.PcOf(a).at, a)])
      else s
    case CloneFail(a) =>
      if s.PcOf(a).Won? then s.(pcs := s.pcs[a := Failed(s.PcOf(a).seen, s.PcOf(a).at)]) else s
    case Rollback(a) =>
      if s.PcOf(a).Failed?
      then s.(cursor := s.PcOf(a).seen, pcs := s.pcs[a := Idle],
              advances := Without(s.advances, Advance(s.PcOf(a).seen, s.PcOf(a).at, a)))
      else s
    case CancelTemplate => s.(open := false)
  }

  // ----- what holds as long as rollbacks are not overtaken -----

  /** Some firing time lies in the advance. */
  ghost predicate Due(tm: Template, d: Advance) {
    tm.next(Base(tm, d.from)).Some? && tm.next(Base(tm, d.from)).value <= d.to
  }

  /** What the cursor was before the `i`-th advance: where the previous one put it. */
  function CursorBefore(advances: seq<Advance>, i: nat): Option<int>
    requires i <= |advances|
  {
    if i == 0 then None else Some(advances[i - 1].to)
  }

  ghost predicate Linked(advances: seq<Advance>, i: nat) {
    i < |advances| ==> advances[i].from == CursorBefore(advances, i)
  }

  /** The advances form one chain from "never fired" to the cursor, each over a firing time. */
  ghost predicate Chain(tm: Template, s: State) {
    && (forall i | 0 <= i < |s.advances| :: Due(tm, s.advances[i]))
    && (forall i :: Linked(s.advances, i))
    && s.cursor == CursorBefore(s.advances, |s.advances|)
  }

  /** A scheduler between its compare-and-set and its clone owns one advance not yet cloned. */
  ghost predicate Pending(s: State) {
    forall a | a in s.pcs && (s.pcs[a].Won? || s.pcs[a].Failed?) ::
      Advance(s.pcs[a].seen, s.pcs[a].at, a) in s.advances && Advance(s.pcs[a].seen, s.pcs[a].at, a) !in s.clones
  }

  ghost predicate ClonedOnce(s: State) {
    && (forall i | 0 <= i < |s.clones| :: s.clones[i] in s.advances)
    && (forall i, j | 0 <= i < j < |s.clones| :: s.clones[i] != s.clones[j])
  }

  ghost predicate Inv(tm: Template, s: State) {
    Forward(tm) && Chain(tm, s) && Pending(s) && ClonedOnce(s)
  }

  /** Along the chain time only moves forward, by at least a second an advance. */
  lemma {:induction false} ChainIncreases(tm: Template, s: State, i: nat, j: nat)
    requires Forward(tm) && Chain(tm, s) && i < j < |s.advances|
    ensures s.advances[i].to <= Base(tm, s.advances[j].from)
    ensures s.advances[i].to + SECOND <= s.advances[j].to
    decreases j - i
  {
    assert Due(tm, s.advances[j]) && Linked(s.advances, j);
    if i < j - 1 {
      ChainIncreases(tm, s, i, j - 1);
    }
  }

  lemma WithoutLast(advances: seq<Advance>, gone: Advance)
    requires advances != [] && advances[|advances| - 1] == gone
    ensures Without(advances, gone) == advances[..|advances| - 1]
  {
  }

  /** The advance a scheduler may roll back is the last one exactly while the cursor is
      where that scheduler put it. */
  lemma OwnAdvanceIsLast(tm: Template, s: State, d: Advance)
    requires Forward(tm) && Chain(tm, s) && d in s.advances
    ensures s.cursor == Some(d.to) <==> s.advances[|s.advances| - 1] == d
  {
    var i :| 0 <= i < |s.advances| && s.advances[i] == d;
    if i < |s.advances| - 1 {
      ChainIncreases(tm, s, i, |s.advances| - 1);
    }
  }

  lemma ShorterChain(tm: Template, s: State, t: State)
    requires Chain(tm, s) && s.advances != [] && t.advances == s.advances[..|s.advances| - 1]
    requires t.cursor == s.advances[|s.advances| - 1].from
    ensures Chain(tm, t)
  {
    assert Linked(s.advances, |s.advances| - 1);
    forall i: nat ensures Linked(t.advances, i) {
      assert Linked(s.advances, i);
    }
  }

  lemma LongerChain(tm: Template, s: State, t: State, d: Advance)
    requires Chain(tm, s) && Due(tm, d) && d.from == s.cursor
    requires t.advances == s.advances + [d] && t.cursor == Some(d.to)
    ensures Chain(tm, t)
  {
    forall i: nat ensures Linked(t.advances, i) {
      assert Linked(s.advances, i);
    }
  }

  lemma RollbackStep(tm: Template, s: State, a: Actor)
    requires Inv(tm, s) && s.PcOf(a).Failed? && s.cursor == Some(s.PcOf(a).at)
    ensures Inv(tm, Apply(s, Rollback(a)))
  {
    var d := Advance(s.PcOf(a).seen, s.PcOf(a).at, a);
    OwnAdvanceIsLast(tm, s, d);
    WithoutLast(s.advances, d);
    var t := Apply(s, Rollback(a));
    ShorterChain(tm, s, t);
  }

  lemma NewAdvanceIsNew(tm: Template, s: State, d: Advance)
    requires Forward(tm) && Chain(tm, s) && d.from == s.cursor && Due(tm, d)
    ensures d !in s.advances
  {
    if d in s.advances {
      OwnAdvanceIsLast(tm, s, d);
      var i :| 0 <= i < |s.advances| && s.advances[i] == d;
      if i < |s.advances| - 1 {
        ChainIncreases(tm, s, i, |s.advances| - 1);
      }
    }
  }

  lemma FireStep(tm: Template, s: State, a: Actor)
    requires Inv(tm, s) && Enabled(tm, s, Fire(a))
    ensures Inv(tm, Apply(s, Fire(a)))
  {
    if s.open && s.cursor == s.PcOf(a).seen {
      var d := Advance(s.cursor, s.PcOf(a).now, a);
      NewAdvanceIsNew(tm, s, d);
      LongerChain(tm, s, Apply(s, Fire(a)), d);
    }
  }

  lemma CloneStep(tm: Template, s: State, l: Label)
    requires Inv(tm, s) && Enabled(tm, s, l) && (l.CloneOk? || l.CloneFail?)
    ensures Inv(tm, Apply(s, l))
  {
  }

  /** Every step keeps the chain, except a rollback after somebody else moved the cursor. */
  lemma InvStep(tm: Template, s: State, l: Label)
    requires Inv(tm, s) && Enabled(tm, s, l)
    requires l.Rollback? ==> s.cursor == Some(s.PcOf(l.a).at)
    ensures Inv(tm, Apply(s, l))
  {
    match l
    case Fire(a) => FireStep(tm, s, a);
    case Rollback(a) => RollbackStep(tm, s, a);
    case CloneOk(a) => CloneStep(tm, s, l);
    case CloneFail(a) => CloneStep(tm, s, l);
    case _ =>
  }

  // ----- every run -----

  ghost predicate Legal(tm: Template, run: seq<Label>)
    decreases |run|, 0
  {
    run == [] || (Legal(tm, run[..|run| - 1]) && Enabled(tm, After(tm, run[..|run| - 1]), run[|run| - 1]))
  }

  ghost function After(tm: Template, run: seq<Label>): State
    requires Legal(tm, run)
    decreases |run|, 1
  {
    if run == [] then State(None, true, map[], [], []) else Apply(After(tm, run[..|run| - 1]), run[|run| - 1])
  }

  /** A rollback that comes before any other scheduler has moved the cursor. */
  predicate InTime(s: State, l: Label) {
    l.Rollback? ==> s.PcOf(l.a).Failed? && s.cursor == Some(s.PcOf(l.a).at)
  }

  /** No rollback of the run is overtaken; in particular any run without clone failures. */
  ghost predicate Undisturbed(tm: Template, run: seq<Label>)
    requires Legal(tm, run)
    decreases |run|
  {
    run == [] || (Undisturbed(tm, run[..|run| - 1]) && InTime(After(tm, run[..|run| - 1]), run[|run| - 1]))
  }

  lemma {:induction false} Reachable(tm: Template, run: seq<Label>)
    requires Forward(tm) && Legal(tm, run) && Undisturbed(tm, run)
    ensures Inv(tm, After(tm, run))
    decreases |run|
  {
    if run != [] {
      Reachable(tm, run[..|run| - 1]);
      InvStep(tm, After(tm, run[..|run| - 1]), run[|run| - 1]);
    }
  }

  lemma {:induction false} NoFailureIsUndisturbed(tm: Template, run: seq<Label>)
    requires Legal(tm, run) && forall k | 0 <= k < |run| :: !run[k].CloneFail?
    ensures Undisturbed(tm, run)
    ensures forall a | a in After(tm, run).pcs :: !After(tm, run).pcs[a].Failed?
    decreases |run|
  {
    if run != [] {
      var front := run[..|run| - 1];
      assert forall k | 0 <= k < |front| :: front[k] == run[k];
      NoFailureIsUndisturbed(tm, front);
    }
  }

  /** The stretches of time two advances account for do not overlap. */
  predicate Disjoint(tm: Template, c: Advance, d: Advance) {
    c.to <= Base(tm, d.from) || d.to <= Base(tm, c.from)
  }

  /** No occurrence is cloned twice: two clones of an undisturbed run account for disjoint
      stretches of time, each with its firing time inside. */
  lemma ClonesAreDisjoint(tm: Template, run: seq<Label>, i: nat, j: nat)
    requires Forward(tm) && Legal(tm, run) && Undisturbed(tm, run)
    requires i < j < |After(tm, run).clones|
    ensures var c, d := After(tm, run).clones[i], After(tm, run).clones[j];
            Due(tm, c) && Due(tm, d) && c.to != d.to && Disjoint(tm, c, d)
  {
    Reachable(tm, run);
    var s := After(tm, run);
    var m :| 0 <= m < |s.advances| && s.advances[m] == s.clones[i];
    var n :| 0 <= n < |s.advances| && s.advances[n] == s.clones[j];
    if m < n {
      ChainIncreases(tm, s, m, n);
    } else {
      assert n < m;
      ChainIncreases(tm, s, n, m);
    }
  }

  /** The compare-and-set is won exactly while the template is open and its cursor is the one
      listed; it then puts the cursor to the scheduler's clock reading, which is strictly later
      whatever the clocks say, and otherwise changes nothing. */
  lemma CursorMovesForward(tm: Template, run: seq<Label>, a: Actor)
    requires Forward(tm) && Legal(tm, run) && Enabled(tm, After(tm, run), Fire(a))
    ensures var s := After(tm, run); var t, pc := Apply(s, Fire(a)), s.PcOf(a);
            if s.open && s.cursor == pc.seen
            then t.cursor == Some(pc.now) && t.PcOf(a) == Won(pc.seen, pc.now) &&
                 pc.now >= (if s.cursor.Some? then s.cursor.value else tm.created) + 1_000_000_000
            else t.cursor == s.cursor && t.PcOf(a).Idle?
  {
  }

  // ----- nothing is lost -----

  /** The advance has been cloned, or the scheduler that made it is still about to clone it or
      to take it back. */
  ghost predicate Accounted(s: State, d: Advance) {
    d in s.clones || s.PcOf(d.who) == Won(d.from, d.to) || s.PcOf(d.who) == Failed(d.from, d.to)
  }

  ghost predicate AllAccounted(s: State) {
    forall d | d in s.advances :: Accounted(s, d)
  }

  /** An advance stays accounted for when a scheduler that does not own it moves. */
  lemma OthersAccounted(s: State, l: Label, d: Advance)
    requires Accounted(s, d) && (l.List? || l.Skip? || l.Fire? || l.CancelTemplate?)
    requires !l.CancelTemplate? ==> !s.PcOf(l.a).Won? && !s.PcOf(l.a).Failed?
    ensures Accounted(Apply(s, l), d)
  {
  }

  lemma CloneAccounted(s: State, l: Label, d: Advance)
    requires Accounted(s, d) && ((l.CloneOk? && s.PcOf(l.a).Won?) || (l.CloneFail? && s.PcOf(l.a).Won?))
    ensures Accounted(Apply(s, l), d)
  {
    if l.CloneOk? {
      var t := Apply(s, l);
      assert t.clones[|s.clones|] == Advance(s.PcOf(l.a).seen, s.PcOf(l.a).at, l.a);
      assert d in s.clones ==> d in t.clones;
    }
  }

  /** A rollback in time takes back the one advance its scheduler owns. */
  lemma RollbackAccounted(tm: Template, s: State, a: Actor, d: Advance)
    requires Inv(tm, s) && AllAccounted(s) && s.PcOf(a).Failed? && s.cursor == Some(s.PcOf(a).at)
    requires d in Apply(s, Rollback(a)).advances
    ensures Accounted(Apply(s, Rollback(a)), d)
  {
    var own := Advance(s.PcOf(a).seen, s.PcOf(a).at, a);
    OwnAdvanceIsLast(tm, s, own);
    WithoutLast(s.advances, own);
    var last := |s.advances| - 1;
    var i :| 0 <= i < last && s.advances[i] == d;
    ChainIncreases(tm, s, i, last);
    assert d in s.advances && d != own;
  }

  lemma AccountedStep(tm: Template, s: State, l: Label)
    requires Inv(tm, s) && AllAccounted(s) && Enabled(tm, s, l) && InTime(s, l)
    ensures AllAccounted(Apply(s, l))
  {
    var t := Apply(s, l);
    forall d | d in t.advances ensures Accounted(t, d) {
      if l.Rollback? {
        RollbackAccounted(tm, s, l.a, d);
      } else if d in s.advances {
        if l.CloneOk? || l.CloneFail? {
          CloneAccounted(s, l, d);
        } else {
          OthersAccounted(s, l, d);
        }
      }
    }
  }

  lemma {:induction false} EveryAdvanceAccounted(tm: Template, run: seq<Label>)
    requires Forward(tm) && Legal(tm, run) && Undisturbed(tm, run)
    ensures AllAccounted(After(tm, run))
    decreases |run|
  {
    if run != [] {
      Reachable(tm, run[..|run| - 1]);
      EveryAdvanceAccounted(tm, run[..|run| - 1]);
      AccountedStep(tm, After(tm, run[..|run| - 1]), run[|run| - 1]);
    }
  }

  /** The advances leave no gap between the creation and the cursor. */
  lemma {:induction false} AdvancesCover(tm: Template, s: State, n: nat, m: int) returns (i: nat)
    requires Chain(tm, s) && n <= |s.advances| && tm.created < m <= Base(tm, CursorBefore(s.advances, n))
    ensures i < n && Base(tm, s.advances[i].from) < m <= s.advances[i].to
    decreases n
  {
    assert Linked(s.advances, n - 1);
    if Base(tm, s.advances[n - 1].from) < m {
      i := n - 1;
    } else {
      i := AdvancesCover(tm, s, n - 1, m);
    }
  }

  ghost predicate AtRest(s: State) {
    forall a | a in s.pcs :: !s.pcs[a].Won? && !s.pcs[a].Failed?
  }

  /** No instant up to the cursor is passed over: in an undisturbed run, while no scheduler is
      between its compare-and-set and its clone, each lies in the stretch of a clone. */
  lemma ClonesCover(tm: Template, run: seq<Label>, m: int) returns (d: Advance)
    requires Forward(tm) && Legal(tm, run) && Undisturbed(tm, run) && AtRest(After(tm, run))
    requires tm.created < m <= Base(tm, After(tm, run).cursor)
    ensures d in After(tm, run).clones && Base(tm, d.from) < m <= d.to
  {
    var s := After(tm, run);
    Reachable(tm, run);
    EveryAdvanceAccounted(tm, run);
    var i := AdvancesCover(tm, s, |s.advances|, m);
    d := s.advances[i];
    assert Accounted(s, d);
  }

  // ----- a rollback that comes too late -----

  /** Putting the cursor back keeps the chain exactly if nobody has moved it meanwhile. */
  lemma RollbackExactly(tm: Template, s: State, a: Actor)
    requires Inv(tm, s) && s.PcOf(a).Failed?
    ensures Inv(tm, Apply(s, Rollback(a))) <==> s.cursor == Some(s.PcOf(a).at)
  {
    var d := Advance(s.PcOf(a).seen, s.PcOf(a).at, a);
    var t := Apply(s, Rollback(a));
    if s.cursor == Some(s.PcOf(a).at) {
      RollbackStep(tm, s, a);
    } else {
      OwnAdvanceIsLast(tm, s, d);
      LateRollbackLags(tm, s, d);
      assert t.advances[|t.advances| - 1] == s.advances[|s.advances| - 1];
    }
  }

  /** The value an overtaken scheduler writes back lies before the cursor. */
  lemma LateRollbackLags(tm: Template, s: State, d: Advance)
    requires Forward(tm) && Chain(tm, s) && d in s.advances && s.cursor != Some(d.to)
    ensures s.cursor.Some? && d.from != s.cursor && Base(tm, d.from) + SECOND <= d.to && d.to + SECOND <= s.cursor.value
  {
    OwnAdvanceIsLast(tm, s, d);
    var i :| 0 <= i < |s.advances| && s.advances[i] == d;
    ChainIncreases(tm, s, i, |s.advances| - 1);
    assert Due(tm, d);
    assert Linked(s.advances, i);
    if i > 0 {
      ChainIncreases(tm, s, i - 1, |s.advances| - 1);
    }
  }

  /** After a late rollback the next scheduler whose clock has passed the newest clone
      clones that clone's firing time a second time. */
  lemma LateRollbackRepeats(tm: Template, s: State, a: Actor, b: Actor, now: int)
    requires Inv(tm, s) && s.open && s.PcOf(a).Failed? && s.cursor != Some(s.PcOf(a).at) && s.PcOf(b).Idle? && a != b
    requires s.cursor.Some? && now >= s.cursor.value
    requires s.advances[|s.advances| - 1] in s.clones
    ensures var c := s.advances[|s.advances| - 1];
            var t := Apply(Apply(Apply(Apply(s, Rollback(a)), List(b, now)), Fire(b)), CloneOk(b));
            var d := t.clones[|t.clones| - 1];
            c in t.clones && t.clones == s.clones + [d] && d != c && !Disjoint(tm, c, d) &&
            Base(tm, d.from) < tm.next(Base(tm, c.from)).value <= d.to
  {
    var own := Advance(s.PcOf(a).seen, s.PcOf(a).at, a);
    var last := |s.advances| - 1;
    var c := s.advances[last];
    OwnAdvanceIsLast(tm, s, own);
    LateRollbackLags(tm, s, own);
    assert Due(tm, own) && Due(tm, c);
    var i :| 0 <= i < |s.advances| && s.advances[i] == own;
    ChainIncreases(tm, s, i, last);
  }

  lemma Extend(tm: Template, run: seq<Label>, l: Label)
    requires Legal(tm, run) && Enabled(tm, After(tm, run), l)
    ensures Legal(tm, run + [l]) && After(tm, run + [l]) == Apply(After(tm, run), l)
  {
    var longer := run + [l];
    assert longer[..|longer| - 1] == run && longer[|longer| - 1] == l;
  }

  /** Scheduler 0 has fired at `one` and failed to clone; scheduler 1 has fired and cloned
      at `two`. */
  ghost predicate Overtaken(s: State, one: int, two: int) {
    && s.open && s.cursor == Some(two) && s.PcOf(0) == Failed(None, one) && s.PcOf(1).Idle? && s.PcOf(2).Idle?
    && s.advances == [Advance(None, one, 0), Advance(Some(one), two, 1)] && s.clones == [Advance(Some(one), two, 1)]
  }

  lemma OvertakenRun(tm: Template, one: int, two: int) returns (run: seq<Label>)
    requires tm.next(tm.created) == Some(one) && tm.next(one) == Some(two)
    ensures Legal(tm, run) && Overtaken(After(tm, run), one, two)
  {
    var s := State(None, true, map[], [], []);
    run := [];
    run := Step(tm, run, s, List(0, one));
    s := Apply(s, List(0, one));
    run := Step(tm, run, s, Fire(0));
    s := Apply(s, Fire(0));
    run := Step(tm, run, s, CloneFail(0));
    s := Apply(s, CloneFail(0));
    assert s.cursor == Some(one) && s.PcOf(0) == Failed(None, one) && s.advances == [Advance(None, one, 0)];
    run := Step(tm, run, s, List(1, two));
    s := Apply(s, List(1, two));
    run := Step(tm, run, s, Fire(1));
    s := Apply(s, Fire(1));
    run := Step(tm, run, s, CloneOk(1));
  }

  lemma Step(tm: Template, run: seq<Label>, s: State, l: Label) returns (longer: seq<Label>)
    requires Legal(tm, run) && After(tm, run) == s && Enabled(tm, s, l)
    ensures longer == run + [l] && Legal(tm, longer) && After(tm, longer) == Apply(s, l)
  {
    longer := run + [l];
    Extend(tm, run, l);
  }

  ghost predicate ClonesOverlap(tm: Template, s: State) {
    exists i, j :: 0 <= i < j < |s.clones| && !Disjoint(tm, s.clones[i], s.clones[j])
  }

  /** Every template that fires at least twice has a run, with one failed clone, in which an
      occurrence is cloned twice. */
  lemma LateRollbackSomewhere(tm: Template, one: int, two: int)
    requires Forward(tm) && tm.next(tm.created) == Some(one) && tm.next(one) == Some(two)
    ensures exists run :: Legal(tm, run) && ClonesOverlap(tm, After(tm, run))
  {
    var run := OvertakenRun(tm, one, two);
    var s := After(tm, run);
    run := Step(tm, run, s, Rollback(0));
    s := Apply(s, Rollback(0));
    assert s.cursor == None && s.clones == [Advance(Some(one), two, 1)];
    run := Step(tm, run, s, List(2, two));
    s := Apply(s, List(2, two));
    assert two >= one;
    run := Step(tm, run, s, Fire(2));
    s := Apply(s, Fire(2));
    run := Step(tm, run, s, CloneOk(2));
    s := Apply(s, CloneOk(2));
    assert s.clones == [Advance(Some(one), two, 1), Advance(None, two, 2)];
    assert !Disjoint(tm, s.clones[0], s.clones[1]);
  }

  // ----- with the cron expression in place -----

  ghost predicate FromCron(tm: Template, cal: Calendar, fields: seq<string>) {
    |fields| == 6 && forall b :: tm.next(b) == NextAfter(cal, fields, b)
  }

  lemma CronIsForward(tm: Template, cal: Calendar, fields: seq<string>)
    requires FromCron(tm, cal, fields)
    ensures Forward(tm)
  {
    forall b | tm.next(b).Some? ensures tm.next(b).value >= b + SECOND {
      NextIsLater(cal, fields, b, tm.next(b).value);
    }
  }

  /** A whole second the expression matches, after `base` and not after `to`. */
  ghost predicate MatchingSecond(cal: Calendar, fields: seq<string>, base: int, to: int, m: int) {
    |fields| == 6 && MatchesFields(fields, cal.civil(m)) && base / SECOND < m <= to / SECOND
  }

  lemma DueMatches(tm: Template, cal: Calendar, fields: seq<string>, d: Advance)
    requires FromCron(tm, cal, fields) && Due(tm, d)
    ensures MatchingSecond(cal, fields, Base(tm, d.from), d.to, tm.next(Base(tm, d.from)).value / SECOND)
  {
    NextIsLater(cal, fields, Base(tm, d.from), tm.next(Base(tm, d.from)).value);
  }

  /** Each clone of an undisturbed run answers a matching second of its own, and no
      second lies in the stretches of two clones. */
  lemma SecondsClonedOnce(tm: Template, cal: Calendar, fields: seq<string>, run: seq<Label>, i: nat, j: nat, m: int)
    requires FromCron(tm, cal, fields) && Legal(tm, run) && Undisturbed(tm, run) && i < j < |After(tm, run).clones|
    ensures var c := After(tm, run).clones[i];
            Due(tm, c) && MatchingSecond(cal, fields, Base(tm, c.from), c.to, tm.next(Base(tm, c.from)).value / SECOND)
    ensures var c, d := After(tm, run).clones[i], After(tm, run).clones[j];
            !(MatchingSecond(cal, fields, Base(tm, c.from), c.to, m) &&
                MatchingSecond(cal, fields, Base(tm, d.from), d.to, m))
  {
    CronIsForward(tm, cal, fields);
    ClonesAreDisjoint(tm, run, i, j);
    DueMatches(tm, cal, fields, After(tm, run).clones[i]);
  }
}
