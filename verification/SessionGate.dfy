/** The per-session gate of the executor (internal/tasks/executor.go): a reference-counted
    mutex per explicit session id, kept in a map only while some worker needs it. */
module SessionGate {
  import opened Basics

  /** A session id other than the empty string. */
  type Sid = nat

  // ----- hold and release on the heap -----

  class Gate {
    const sessionID: Sid
    var holders: int

    constructor (sessionID: Sid)
      ensures this.sessionID == sessionID && holders == 0
    {
      this.sessionID := sessionID;
      this.holders := 0;
    }
  }

  /** `held` is the history of the two methods: one entry per hold not yet released. */
  class GateMap {
    var gates: map<Sid, Gate>
    ghost var held: multiset<Sid>

    ghost predicate Valid()
      reads this, gates.Values
    {
      && (forall sid :: sid in gates <==> sid in held)
      && (forall sid | sid in gates :: gates[sid].sessionID == sid && gates[sid].holders == held[sid])
    }

    constructor ()
      ensures Valid() && held == multiset{}
    {
      gates := map[];
      held := multiset{};
    }

    /** Registers one holder; workers that share an explicit session id get the same gate,
        and one without (None) gets none. */
    method Hold(sessionID: Option<Sid>) returns (g: Gate?)
      requires Valid()
      modifies this, gates.Values
      ensures Valid()
      ensures sessionID.None? ==> g == null && gates == old(gates) && held == old(held)
      ensures sessionID.Some? ==> g != null && gates == old(gates)[sessionID.value := g]
      ensures sessionID.Some? ==> held == old(held) + multiset{sessionID.value}
      ensures sessionID.Some? && sessionID.value in old(gates) ==> g == old(gates)[sessionID.value]
      ensures sessionID.Some? && sessionID.value !in old(gates) ==> fresh(g)
    {
      if sessionID.None? {
        return null;
      }
      var sid := sessionID.value;
      if sid in gates {
        g := gates[sid];
      } else {
        g := new Gate(sid);
        gates := gates[sid := g];
      }
      g.holders := g.holders + 1;
      held := held + multiset{sid};
    }

    /** Drops one holder; the last one takes the gate out of the map. */
    method Release(g: Gate)
      requires Valid()
      requires g.sessionID in gates && gates[g.sessionID] == g
      modifies this, g
      ensures Valid()
      ensures held == old(held) - multiset{g.sessionID}
      ensures gates == if old(held)[g.sessionID] == 1 then old(gates) - {g.sessionID} else old(gates)
    {
      var sid := g.sessionID;
      g.holders := g.holders - 1;
      held := held - multiset{sid};
      if g.holders <= 0 {
        gates := gates - {sid};
      }
    }
  }

  // ----- workers interleaving around the gates -----

  type Actor = nat
  type GateId = nat

  datatype Stage =
    | Waiting    // registered, mu not yet acquired
    | Executing  // holds mu
    | Leaving    // mu released, release outstanding

  datatype Visit = Visit(gate: GateId, stage: Stage)

  datatype GateState = GateState(sessionID: Sid, holders: int, owner: Option<Actor>)

  /** `heap` holds every gate object ever allocated, `gates` is the map under gateMu. */
  datatype State = State(gates: map<Sid, GateId>, heap: seq<GateState>, visits: map<Actor, Visit>)

  datatype Label = Enter(a: Actor, sessionID: Sid) | Lock(a: Actor) | Unlock(a: Actor) | Exit(a: Actor)

  predicate At(s: State, a: Actor, stage: Stage) {
    a in s.visits && s.visits[a].stage == stage && s.visits[a].gate < |s.heap|
  }

  predicate Enabled(s: State, l: Label) {
    match l
    case Enter(a, sid) => a !in s.visits && (sid in s.gates ==> s.gates[sid] < |s.heap|)
    case Lock(a) => At(s, a, Waiting) && s.heap[s.visits[a].gate].owner.None?
    case Unlock(a) => At(s, a, Executing)
    case Exit(a) => At(s, a, Leaving)
  }

  function Apply(s: State, l: Label): State
    requires Enabled(s, l)
  {
    match l
    case Enter(a, sid) =>
      var missing := sid !in s.gates;
      var g := if missing then |s.heap| else s.gates[sid];
      var heap := if missing then s.heap + [GateState(sid, 0, None)] else s.heap;
      State(s.gates[sid := g], heap[g := heap[g].(holders := heap[g].holders + 1)], s.visits[a := Visit(g, Waiting)])
    case Lock(a) =>
      var g := s.visits[a].gate;
      s.(heap := s.heap[g := s.heap[g].(owner := Some(a))], visits := s.visits[a := Visit(g, Executing)])
    case Unlock(a) =>
      var g := s.visits[a].gate;
      s.(heap := s.heap[g := s.heap[g].(owner := None)], visits := s.visits[a := Visit(g, Leaving)])
    case Exit(a) =>
      var g := s.visits[a].gate;
      var left := s.heap[g].holders - 1;
      State(if left <= 0 then s.gates - {s.heap[g].sessionID} else s.gates,
            s.heap[g := s.heap[g].(holders := left)],
            s.visits - {a})
  }

  /** The workers between hold and release of a gate. */
  function Visitors(s: State, g: GateId): set<Actor> {
    set a | a in s.visits && s.visits[a].gate == g
  }

  /** A visited gate is the one the map holds for its session id. */
  ghost predicate Visited(s: State) {
    forall a | a in s.visits :: s.visits[a].gate < |s.heap| &&
      s.heap[s.visits[a].gate].sessionID in s.gates && s.gates[s.heap[s.visits[a].gate].sessionID] == s.visits[a].gate
  }

  /** A mapped gate belongs to its key and counts its visitors, of which there are some. */
  ghost predicate Mapped(s: State) {
    forall sid | sid in s.gates :: s.gates[sid] < |s.heap| &&
      s.heap[s.gates[sid]].sessionID == sid &&
      s.heap[s.gates[sid]].holders == |Visitors(s, s.gates[sid])| > 0
  }

  /** A gate's mutex is owned by exactly the worker that executes behind it. */
  ghost predicate Locked(s: State) {
    Owning(s) && Owned(s)
  }

  /** An owned mutex has its owner executing behind that gate. */
  ghost predicate Owned(s: State) {
    forall g | 0 <= g < |s.heap| && s.heap[g].owner.Some? ::
      s.heap[g].owner.value in s.visits && s.visits[s.heap[g].owner.value] == Visit(g, Executing)
  }

  ghost predicate Owning(s: State) {
    forall a | a in s.visits && s.visits[a].stage.Executing? ::
        s.visits[a].gate < |s.heap| && s.heap[s.visits[a].gate].owner == Some(a)
  }

  ghost predicate Inv(s: State) {
    Visited(s) && Mapped(s) && Locked(s)
  }

  lemma VisitorsStep(s: State, l: Label, g: GateId)
    requires Inv(s) && Enabled(s, l)
    ensures Visitors(Apply(s, l), g) ==
            match l {
              case Enter(a, sid) => if Apply(s, l).gates[sid] == g then Visitors(s, g) + {a} else Visitors(s, g)
              case Exit(a) => Visitors(s, g) - {a}
              case _ => Visitors(s, g)
            }
  {
  }

  lemma VisitedStep(s: State, l: Label)
    requires Inv(s) && Enabled(s, l)
    ensures Visited(Apply(s, l))
  {
    if l.Exit? {
      var g := s.visits[l.a].gate;
      forall b | b in s.visits && b != l.a && s.visits[b].gate == g ensures s.heap[g].holders > 1 {
        assert {l.a, b} <= Visitors(s, g);
        assert Visitors(s, g) == {l.a, b} + (Visitors(s, g) - {l.a, b});
      }
    }
  }

  ghost predicate MappedAt(s: State, sid: Sid) {
    sid in s.gates ==>
      && s.gates[sid] < |s.heap| && s.heap[s.gates[sid]].sessionID == sid
      && s.heap[s.gates[sid]].holders == |Visitors(s, s.gates[sid])| > 0
  }

  lemma EnterMapped(s: State, l: Label, sid: Sid)
    requires Inv(s) && Enabled(s, l) && l.Enter?
    ensures MappedAt(Apply(s, l), sid)
  {
    var t := Apply(s, l);
    if sid in t.gates {
      VisitorsStep(s, l, t.gates[sid]);
      if sid !in s.gates {
        assert Visitors(s, t.gates[sid]) == {};
      }
    }
  }

  lemma LeaveMapped(s: State, l: Label, sid: Sid)
    requires Inv(s) && Enabled(s, l) && !l.Enter?
    ensures MappedAt(Apply(s, l), sid)
  {
    var t := Apply(s, l);
    if sid in t.gates {
      VisitorsStep(s, l, t.gates[sid]);
    }
  }

  lemma MappedStep(s: State, l: Label)
    requires Inv(s) && Enabled(s, l)
    ensures Mapped(Apply(s, l))
  {
    forall sid ensures MappedAt(Apply(s, l), sid) {
      if l.Enter? {
        EnterMapped(s, l, sid);
      } else {
        LeaveMapped(s, l, sid);
      }
    }
    MappedEverywhere(Apply(s, l));
  }

  lemma MappedEverywhere(s: State)
    requires forall sid :: MappedAt(s, sid)
    ensures Mapped(s)
  {
    forall sid | sid in s.gates
      ensures s.gates[sid] < |s.heap| && s.heap[s.gates[sid]].sessionID == sid &&
              s.heap[s.gates[sid]].holders == |Visitors(s, s.gates[sid])| > 0
    {
      assert MappedAt(s, sid);
    }
  }

  lemma LockedStep(s: State, l: Label)
    requires Inv(s) && Enabled(s, l)
    ensures Locked(Apply(s, l))
  {
  }

  ghost predicate Legal(run: seq<Label>)
    decreases |run|, 0
  {
    run == [] || (Legal(run[..|run| - 1]) && Enabled(After(run[..|run| - 1]), run[|run| - 1]))
  }

  ghost function After(run: seq<Label>): State
    requires Legal(run)
    decreases |run|, 1
  {
    if run == [] then State(map[], [], map[]) else Apply(After(run[..|run| - 1]), run[|run| - 1])
  }

  lemma {:induction false} Reachable(run: seq<Label>)
    requires Legal(run)
    ensures Inv(After(run))
    decreases |run|
  {
    if run != [] {
      var s, l := After(run[..|run| - 1]), run[|run| - 1];
      Reachable(run[..|run| - 1]);
      VisitedStep(s, l);
      MappedStep(s, l);
      LockedStep(s, l);
    }
  }

  /** In every run, two workers that target the same explicit session never execute at
      the same time. */
  lemma SessionsNeverOverlap(run: seq<Label>, a: Actor, b: Actor)
    requires Legal(run)
    requires At(After(run), a, Executing) && At(After(run), b, Executing)
    requires After(run).heap[After(run).visits[a].gate].sessionID ==
             After(run).heap[After(run).visits[b].gate].sessionID
    ensures a == b
  {
    Reachable(run);
  }

  /** In every run the map holds one gate per session with live holders, shared by all of
      them and counting them, and it is empty when no worker is between hold and release. */
  lemma MapHoldsLiveGates(run: seq<Label>, sid: Sid)
    requires Legal(run)
    ensures var s := After(run);
            sid in s.gates <==>
            exists a :: a in s.visits && s.visits[a].gate < |s.heap| && s.heap[s.visits[a].gate].sessionID == sid
    ensures var s := After(run);
            forall a | a in s.visits && s.visits[a].gate < |s.heap| && s.heap[s.visits[a].gate].sessionID == sid ::
              sid in s.gates && s.visits[a].gate == s.gates[sid] < |s.heap| &&
                  s.heap[s.gates[sid]].holders == |Visitors(s, s.gates[sid])|
    ensures After(run).visits == map[] ==> After(run).gates == map[]
  {
    Reachable(run);
    var s := After(run);
    forall k | k in s.gates
      ensures exists a :: a in s.visits && s.visits[a].gate < |s.heap| && s.heap[s.visits[a].gate].sessionID == k
    {
      var a :| a in Visitors(s, s.gates[k]);
      assert s.visits[a].gate == s.gates[k];
    }
  }
}
