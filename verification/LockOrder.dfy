/** Lock use of the failover manager (myriadnode-full/src/failover.rs): its calls as programs of
    lock steps over fair-queue read-write locks, and why they cannot deadlock. */
module LockOrder {

  datatype Lock = Manager | Health | Adapter(id: string) | Primary | EventLog

  datatype Mode = Read | Write

  datatype Instr = Acquire(lock: Lock, mode: Mode) | Release(lock: Lock)

  type Order = Lock -> nat

  /** The order the code really follows. */
  function CodeOrder(l: Lock): nat {
    match l
    case Manager => 0
    case Health => 1
    case Adapter(_) => 2
    case Primary => 3
    case EventLog => 4
  }

  /** The order the type's documentation prescribes: the event log before the current primary. */
  function DocumentedOrder(l: Lock): nat {
    match l
    case Manager => 0
    case Health => 1
    case Adapter(_) => 2
    case EventLog => 3
    case Primary => 4
  }

  // ----- The programs -----

  /** What one adapter's turn in the check loop does: an adapter that is gone takes no lock; one
      that is there is read, and may have an event logged while it is held. */
  datatype Visit = Gone | Visited(id: string, logs: bool)

  datatype Call =
    | CheckAndFailover(visits: seq<Visit>, ranked: bool, switches: bool)
    | ForceFailover(found: bool)
    | GetPrimaryAdapter
    | GetRecentEvents
    | GetAdapterHealth

  const LOG_EVENT: seq<Instr> := [Acquire(EventLog, Write), Release(EventLog)]

  function VisitCode(v: Visit): seq<Instr> {
    match v
    case Gone => []
    case Visited(id, logs) =>
      [Acquire(Adapter(id), Read)] + (if logs then LOG_EVENT else []) + [Release(Adapter(id))]
  }

  function VisitsCode(visits: seq<Visit>): seq<Instr> {
    if visits == [] then [] else VisitCode(visits[0]) + VisitsCode(visits[1..])
  }

  /** Choosing the primary: its lock is dropped before the switch is logged. */
  function DecideCode(ranked: bool, switches: bool): seq<Instr> {
    if !ranked then []
    else [Acquire(Primary, Write), Release(Primary)] + if switches then LOG_EVENT else []
  }

  function CallCode(call: Call): seq<Instr> {
    match call
    case CheckAndFailover(visits, ranked, switches) =>
      [Acquire(Manager, Read), Acquire(Health, Write)] + VisitsCode(visits)
      + [Release(Health), Release(Manager)] + DecideCode(ranked, switches)
    case ForceFailover(found) =>
      if !found then [Acquire(Manager, Read), Release(Manager)]
      else
        [Acquire(Manager, Read), Acquire(Primary, Write)] + LOG_EVENT + [Release(Primary), Release(Manager)]
    case GetPrimaryAdapter => [Acquire(Primary, Read), Release(Primary)]
    case GetRecentEvents => [Acquire(EventLog, Read), Release(EventLog)]
    case GetAdapterHealth => [Acquire(Health, Read), Release(Health)]
  }

  /** A task makes any number of calls, one after another. */
  function TaskCode(calls: seq<Call>): seq<Instr> {
    if calls == [] then [] else CallCode(calls[0]) + TaskCode(calls[1..])
  }

  /** The locks a program takes, in order. */
  function Taken(code: seq<Instr>): seq<Lock> {
    if code == [] then []
    else Taken(code[..|code| - 1]) + match code[|code| - 1] case Acquire(l, _) => [l] case Release(_) => []
  }

  lemma {:induction false} TakenConcat(p: seq<Instr>, q: seq<Instr>)
    ensures Taken(p + q) == Taken(p) + Taken(q)
  {
    if q == [] {
      assert p + q == p;
    } else {
      assert (p + q)[..|p + q| - 1] == p + q[..|q| - 1];
      TakenConcat(p, q[..|q| - 1]);
    }
  }

  lemma TakenPair(l: Lock, m: Mode)
    ensures Taken([Acquire(l, m), Release(l)]) == [l]
    ensures Taken([Acquire(l, m)]) == [l] && Taken([Release(l)]) == []
  {
    assert [Acquire(l, m)][..0] == [] && [Release(l)][..0] == [];
    assert [Acquire(l, m), Release(l)] == [Acquire(l, m)] + [Release(l)];
    TakenConcat([Acquire(l, m)], [Release(l)]);
  }

  /** Around a program, a lock is taken first. */
  lemma TakenAround(l: Lock, m: Mode, code: seq<Instr>)
    ensures Taken([Acquire(l, m)] + code + [Release(l)]) == [l] + Taken(code)
  {
    TakenPair(l, m);
    TakenConcat([Acquire(l, m)], code);
    TakenConcat([Acquire(l, m)] + code, [Release(l)]);
  }

  /** The locks the visits of a check take: each adapter found, and the event log while it is held. */
  function VisitLocks(visits: seq<Visit>): seq<Lock> {
    if visits == [] then []
    else
      (match visits[0]
       case Gone => []
       case Visited(id, logs) => [Adapter(id)] + if logs then [EventLog] else [])
      + VisitLocks(visits[1..])
  }

  lemma {:induction false} VisitsTake(visits: seq<Visit>)
    ensures Taken(VisitsCode(visits)) == VisitLocks(visits)
  {
    if visits != [] {
      var v := visits[0];
      VisitsTake(visits[1..]);
      TakenConcat(VisitCode(v), VisitsCode(visits[1..]));
      if v.Visited? {
        TakenPair(EventLog, Write);
        TakenAround(Adapter(v.id), Read, if v.logs then LOG_EVENT else []);
      }
    }
  }

  /** The locks each call takes, in order. */
  lemma {:induction false} LocksTaken(call: Call)
    ensures
      Taken(CallCode(call))
      == match call
         case CheckAndFailover(visits, ranked, switches) =>
           [Manager, Health] + VisitLocks(visits)
           + if ranked then [Primary] + (if switches then [EventLog] else []) else []
         case ForceFailover(found) => if found then [Manager, Primary, EventLog] else [Manager]
         case GetPrimaryAdapter => [Primary]
         case GetRecentEvents => [EventLog]
         case GetAdapterHealth => [Health]
  {
    TakenPair(EventLog, Write);
    match call
    case CheckAndFailover(visits, ranked, switches) => CheckTakes(visits, ranked, switches);
    case ForceFailover(found) =>
      TakenPair(Manager, Read);
      if found {
        TakenAround(Primary, Write, LOG_EVENT);
        var inner := [Acquire(Primary, Write)] + LOG_EVENT + [Release(Primary)];
        TakenAround(Manager, Read, inner);
        assert CallCode(call) == [Acquire(Manager, Read)] + inner + [Release(Manager)];
      }
    case GetPrimaryAdapter => TakenPair(Primary, Read);
    case GetRecentEvents => TakenPair(EventLog, Read);
    case GetAdapterHealth => TakenPair(Health, Read);
  }

  lemma CheckTakes(visits: seq<Visit>, ranked: bool, switches: bool)
    ensures
      Taken(CallCode(CheckAndFailover(visits, ranked, switches)))
      == [Manager, Health] + VisitLocks(visits)
         + if ranked then [Primary] + (if switches then [EventLog] else []) else []
  {
    VisitsTake(visits);
    TakenAround(Health, Write, VisitsCode(visits));
    var inner := [Acquire(Health, Write)] + VisitsCode(visits) + [Release(Health)];
    TakenAround(Manager, Read, inner);
    var scan := [Acquire(Manager, Read)] + inner + [Release(Manager)];
    DecideTakes(ranked, switches);
    TakenConcat(scan, DecideCode(ranked, switches));
    Regroup(Acquire(Manager, Read), Acquire(Health, Write), VisitsCode(visits), Release(Health), Release(Manager),
            DecideCode(ranked, switches));
    TwoThenRest(Manager, Health, VisitLocks(visits), Taken(DecideCode(ranked, switches)));
  }

  lemma TwoThenRest(a: Lock, b: Lock, v: seq<Lock>, d: seq<Lock>)
    ensures [a] + ([b] + v) + d == [a, b] + v + d
  {
  }

  lemma DecideTakes(ranked: bool, switches: bool)
    ensures Taken(DecideCode(ranked, switches))
         == if ranked then [Primary] + (if switches then [EventLog] else []) else []
  {
    TakenPair(Primary, Write);
    TakenPair(EventLog, Write);
    var tail := if switches then LOG_EVENT else [];
    TakenConcat([Acquire(Primary, Write), Release(Primary)], tail);
  }

  /** Run from the locks `held`, the code acquires only above what it holds, releases only what it
      holds, and ends with the locks `end`. */
  ghost predicate Safe(order: Order, held: map<Lock, Mode>, code: seq<Instr>, end: map<Lock, Mode>)
    decreases |code|
  {
    if code == [] then held == end
    else
      match code[0]
      case Acquire(l, m) =>
        (forall k | k in held :: order(k) < order(l)) && Safe(order, held[l := m], code[1..], end)
      case Release(l) => l in held && Safe(order, held - {l}, code[1..], end)
  }

  lemma {:induction false} SafeCompose(
      order: Order, a: map<Lock, Mode>, p: seq<Instr>, b: map<Lock, Mode>, q: seq<Instr>, c: map<Lock, Mode>)
    requires Safe(order, a, p, b) && Safe(order, b, q, c)
    ensures Safe(order, a, p + q, c)
    decreases |p|
  {
    if p == [] {
      assert p + q == q;
    } else {
      assert (p + q)[1..] == p[1..] + q;
      var next := match p[0] case Acquire(l, m) => a[l := m] case Release(l) => a - {l};
      SafeCompose(order, next, p[1..], b, q, c);
    }
  }

  /** A lock above everything held can be taken and given back. */
  lemma TakeAndReturn(order: Order, held: map<Lock, Mode>, l: Lock, m: Mode)
    requires forall k | k in held :: order(k) < order(l)
    ensures Safe(order, held, [Acquire(l, m), Release(l)], held)
  {
    var code := [Acquire(l, m), Release(l)];
    assert code[1..] == [Release(l)] && code[1..][1..] == [];
    assert held[l := m] - {l} == held;
  }

  /** Code that is safe under one more lock can be bracketed by that lock. */
  lemma Bracket(order: Order, held: map<Lock, Mode>, l: Lock, m: Mode, code: seq<Instr>)
    requires forall k | k in held :: order(k) < order(l)
    requires Safe(order, held[l := m], code, held[l := m])
    ensures Safe(order, held, [Acquire(l, m)] + code + [Release(l)], held)
  {
    var under := held[l := m];
    assert [Release(l)][1..] == [] && under - {l} == held;
    assert Safe(order, under, [Release(l)], held);
    SafeCompose(order, under, code, under, [Release(l)], held);
    var all := [Acquire(l, m)] + code + [Release(l)];
    assert all[1..] == code + [Release(l)];
  }

  /** What a check needs of an order: manager before health before every adapter before the event log. */
  ghost predicate FitsCheck(order: Order) {
    && order(Manager) < order(Health)
    && forall id :: order(Health) < order(Adapter(id)) < order(EventLog)
  }

  /** The locks held lie below every adapter and the event log. */
  ghost predicate BelowAdapters(order: Order, held: map<Lock, Mode>) {
    forall k, id | k in held :: order(k) < order(Adapter(id)) < order(EventLog)
  }

  lemma {:induction false} VisitsSafe(order: Order, held: map<Lock, Mode>, visits: seq<Visit>)
    requires BelowAdapters(order, held) && FitsCheck(order)
    ensures Safe(order, held, VisitsCode(visits), held)
  {
    if visits != [] {
      VisitSafe(order, held, visits[0]);
      VisitsSafe(order, held, visits[1..]);
      SafeCompose(order, held, VisitCode(visits[0]), held, VisitsCode(visits[1..]), held);
    }
  }

  lemma VisitSafe(order: Order, held: map<Lock, Mode>, v: Visit)
    requires BelowAdapters(order, held) && FitsCheck(order)
    ensures Safe(order, held, VisitCode(v), held)
  {
    if v.Visited? {
      var inner := if v.logs then LOG_EVENT else [];
      TakeAndReturn(order, held[Adapter(v.id) := Read], EventLog, Write);
      Bracket(order, held, Adapter(v.id), Read, inner);
    }
  }

  lemma ForceSafe(order: Order)
    requires order(Manager) < order(Primary) < order(EventLog)
    ensures Safe(order, map[], CallCode(ForceFailover(true)), map[])
  {
    var outer := map[Manager := Read];
    TakeAndReturn(order, outer[Primary := Write], EventLog, Write);
    Bracket(order, outer, Primary, Write, LOG_EVENT);
    var inner := [Acquire(Primary, Write)] + LOG_EVENT + [Release(Primary)];
    Bracket(order, map[], Manager, Read, inner);
    assert CallCode(ForceFailover(true)) == [Acquire(Manager, Read)] + inner + [Release(Manager)];
  }

  /** Forcing a failover takes the event log while it holds the primary, so no order with the event
      log first allows it. */
  lemma ForceUnsafe(order: Order, end: map<Lock, Mode>)
    requires order(EventLog) <= order(Primary)
    ensures !Safe(order, map[], CallCode(ForceFailover(true)), end)
  {
    var code := CallCode(ForceFailover(true));
    assert code[1..][0] == Acquire(Primary, Write);
    assert code[1..][1..][0] == Acquire(EventLog, Write);
    var held: map<Lock, Mode> := map[];
    var held2 := held[Manager := Read][Primary := Write];
    assert Primary in held2;
    assert !Safe(order, held2, code[1..][1..], end);
  }

  lemma CheckSafe(order: Order, visits: seq<Visit>, ranked: bool, switches: bool)
    requires FitsCheck(order)
    ensures Safe(order, map[], CallCode(CheckAndFailover(visits, ranked, switches)), map[])
  {
    var outer := map[Manager := Read];
    VisitsSafe(order, outer[Health := Write], visits);
    Bracket(order, outer, Health, Write, VisitsCode(visits));
    var inner := [Acquire(Health, Write)] + VisitsCode(visits) + [Release(Health)];
    Bracket(order, map[], Manager, Read, inner);
    var scan := [Acquire(Manager, Read)] + inner + [Release(Manager)];
    DecideSafe(order, ranked, switches);
    SafeCompose(order, map[], scan, map[], DecideCode(ranked, switches), map[]);
    Regroup(Acquire(Manager, Read), Acquire(Health, Write), VisitsCode(visits), Release(Health), Release(Manager),
            DecideCode(ranked, switches));
  }

  lemma Regroup(a: Instr, b: Instr, v: seq<Instr>, c: Instr, d: Instr, x: seq<Instr>)
    ensures [a, b] + v + [c, d] + x == [a] + ([b] + v + [c]) + [d] + x
  {
  }

  lemma DecideSafe(order: Order, ranked: bool, switches: bool)
    ensures Safe(order, map[], DecideCode(ranked, switches), map[])
  {
    if ranked {
      var take := [Acquire(Primary, Write), Release(Primary)];
      TakeAndReturn(order, map[], Primary, Write);
      if switches {
        TakeAndReturn(order, map[], EventLog, Write);
        SafeCompose(order, map[], take, map[], LOG_EVENT, map[]);
      } else {
        assert DecideCode(ranked, switches) == take;
      }
    }
  }

  /** Which calls follow an order that suits a check: all of them if the event log comes after the
      primary, and all but a successful `force_failover` if it does not. */
  lemma {:induction false} CallSafeIff(order: Order, call: Call)
    requires FitsCheck(order) && order(Manager) < order(Primary)
    ensures Safe(order, map[], CallCode(call), map[])
       <==> (call == ForceFailover(true) ==> order(Primary) < order(EventLog))
  {
    match call
    case CheckAndFailover(visits, ranked, switches) => CheckSafe(order, visits, ranked, switches);
    case ForceFailover(found) =>
      if !found {
        TakeAndReturn(order, map[], Manager, Read);
      } else if order(Primary) < order(EventLog) {
        ForceSafe(order);
      } else {
        ForceUnsafe(order, map[]);
      }
    case GetPrimaryAdapter => TakeAndReturn(order, map[], Primary, Read);
    case GetRecentEvents => TakeAndReturn(order, map[], EventLog, Read);
    case GetAdapterHealth => TakeAndReturn(order, map[], Health, Read);
  }

  /** Every call follows the code's order and gives everything back. */
  lemma {:induction false} CallSafe(call: Call)
    ensures Safe(CodeOrder, map[], CallCode(call), map[])
  {
    CallSafeIff(CodeOrder, call);
  }

  /** The documented order is kept by every call except a `force_failover` whose adapter exists. */
  lemma {:induction false} DocumentedOrderKeptIff(call: Call)
    ensures Safe(DocumentedOrder, map[], CallCode(call), map[]) <==> call != ForceFailover(true)
  {
    CallSafeIff(DocumentedOrder, call);
  }

  lemma {:induction false} TaskSafe(order: Order, calls: seq<Call>)
    requires FitsCheck(order) && order(Manager) < order(Primary)
    requires order(Primary) < order(EventLog) || ForceFailover(true) !in calls
    ensures Safe(order, map[], TaskCode(calls), map[])
  {
    if calls != [] {
      CallSafeIff(order, calls[0]);
      TaskSafe(order, calls[1..]);
      SafeCompose(order, map[], CallCode(calls[0]), map[], TaskCode(calls[1..]), map[]);
    }
  }

  // ----- Tasks over fair-queue locks -----

  /** A running task: the locks it holds, the steps left, and whether it stands in a lock's queue. */
  datatype Task = Task(held: map<Lock, Mode>, rest: seq<Instr>, waiting: bool)

  /** Tasks, and for each lock the queue of tasks waiting for it, first come first served. */
  datatype State = State(tasks: seq<Task>, queues: map<Lock, seq<nat>>) {
    function Queue(l: Lock): seq<nat> {
      if l in queues then queues[l] else []
    }
  }

  function Start(programs: seq<seq<Instr>>): State {
    State(seq(|programs|, i requires 0 <= i < |programs| => Task(map[], programs[i], false)), map[])
  }

  predicate Unfinished(s: State, t: nat) {
    t < |s.tasks| && s.tasks[t].rest != []
  }

  predicate WantsLock(s: State, t: nat) {
    Unfinished(s, t) && s.tasks[t].rest[0].Acquire?
  }

  /** Holding l in mode m is compatible with what task u holds. */
  predicate Compatible(u: Task, l: Lock, m: Mode) {
    l in u.held ==> m == Read && u.held[l] == Read
  }

  ghost predicate Grantable(s: State, t: nat)
    requires WantsLock(s, t)
  {
    forall u | 0 <= u < |s.tasks| :: Compatible(s.tasks[u], s.tasks[t].rest[0].lock, s.tasks[t].rest[0].mode)
  }

  /** A task can step when it is not waiting, or when it heads its queue and the lock is free for it. */
  ghost predicate CanStep(s: State, t: nat) {
    && Unfinished(s, t)
    && (s.tasks[t].waiting ==>
          WantsLock(s, t) && s.Queue(s.tasks[t].rest[0].lock) != []
          && s.Queue(s.tasks[t].rest[0].lock)[0] == t && Grantable(s, t))
  }

  /** One step: join the queue of a lock, be granted it, or give one back. */
  function Step(s: State, t: nat): State
    requires Unfinished(s, t)
  {
    var task := s.tasks[t];
    match task.rest[0]
    case Acquire(l, m) =>
      if !task.waiting then
        State(s.tasks[t := task.(waiting := true)], s.queues[l := s.Queue(l) + [t]])
      else
        State(s.tasks[t := Task(task.held[l := m], task.rest[1..], false)],
              s.queues[l := if s.Queue(l) == [] then [] else s.Queue(l)[1..]])
    case Release(l) => s.(tasks := s.tasks[t := Task(task.held - {l}, task.rest[1..], false)])
  }

  ghost predicate TaskOk(order: Order, task: Task) {
    && Safe(order, task.held, task.rest, map[])
    && (task.waiting ==> task.rest != [] && task.rest[0].Acquire?)
  }

  /** Exactly the tasks waiting for a lock stand in its queue, each once. */
  ghost predicate QueueOk(s: State, l: Lock) {
    && (forall i | 0 <= i < |s.Queue(l)| ::
          WantsLock(s, s.Queue(l)[i]) && s.tasks[s.Queue(l)[i]].waiting && s.tasks[s.Queue(l)[i]].rest[0].lock == l)
    && (forall i, j | 0 <= i < j < |s.Queue(l)| :: s.Queue(l)[i] != s.Queue(l)[j])
  }

  ghost predicate Queued(s: State, t: nat) {
    t < |s.tasks| && s.tasks[t].waiting && WantsLock(s, t) ==> t in s.Queue(s.tasks[t].rest[0].lock)
  }

  ghost predicate Inv(order: Order, s: State) {
    && (forall t {:trigger s.tasks[t]} | 0 <= t < |s.tasks| :: TaskOk(order, s.tasks[t]))
    && (forall l :: QueueOk(s, l))
    && (forall t: nat {:trigger Queued(s, t)} :: Queued(s, t))
  }

  /** A lock held for writing is held by nobody else. */
  ghost predicate Exclusive(s: State) {
    forall t, u, l | 0 <= t < |s.tasks| && 0 <= u < |s.tasks| && t != u && l in s.tasks[t].held ::
      Compatible(s.tasks[u], l, s.tasks[t].held[l])
  }

  lemma StartInv(order: Order, programs: seq<seq<Instr>>)
    requires forall i | 0 <= i < |programs| :: Safe(order, map[], programs[i], map[])
    ensures Inv(order, Start(programs)) && Exclusive(Start(programs))
  {
  }

  /** In any state, whoever is blocked waits, in the end, for someone who can step: following the
      holder of the wanted lock goes up in the order. */
  lemma {:induction false} FindRunnable(order: Order, s: State, t: nat, top: nat) returns (u: nat)
    requires Inv(order, s) && Unfinished(s, t)
    requires forall l :: order(l) < top
    ensures CanStep(s, u)
    decreases if s.tasks[t].waiting then top - order(s.tasks[t].rest[0].lock) else 0
  {
    assert TaskOk(order, s.tasks[t]);
    if !s.tasks[t].waiting {
      u := t;
    } else {
      var l := s.tasks[t].rest[0].lock;
      assert Queued(s, t) && QueueOk(s, l);
      var head := s.Queue(l)[0];
      if Grantable(s, head) {
        u := head;
      } else {
        var v :| 0 <= v < |s.tasks| && !Compatible(s.tasks[v], l, s.tasks[head].rest[0].mode);
        assert TaskOk(order, s.tasks[v]);
        if s.tasks[v].waiting {
          u := FindRunnable(order, s, v, top);
        } else {
          u := v;
        }
      }
    }
  }

  /** Deadlock freedom of the calls themselves: while any task is unfinished, some task can step. */
  lemma {:induction false} SomeTaskCanStep(s: State, t: nat) returns (u: nat)
    requires Inv(CodeOrder, s) && Unfinished(s, t)
    ensures CanStep(s, u)
  {
    u := FindRunnable(CodeOrder, s, t, 5);
  }

  lemma StepKeepsTasks(order: Order, s: State, t: nat)
    requires Inv(order, s) && CanStep(s, t)
    ensures forall u | 0 <= u < |s.tasks| :: TaskOk(order, Step(s, t).tasks[u])
  {
    assert TaskOk(order, s.tasks[t]);
  }

  lemma StepKeepsQueue(order: Order, s: State, t: nat, l: Lock)
    requires Inv(order, s) && CanStep(s, t)
    ensures QueueOk(Step(s, t), l)
  {
    assert QueueOk(s, l) && TaskOk(order, s.tasks[t]);
    var r, q := Step(s, t), s.Queue(l);
    assert forall i | 0 <= i < |q| :: s.tasks[q[i]].waiting;
    var first := s.tasks[t].rest[0];
    if first.Acquire? && first.lock == l {
      if s.tasks[t].waiting {
        assert r.Queue(l) == q[1..];
      } else {
        assert r.Queue(l) == q + [t];
      }
    } else {
      assert r.Queue(l) == q;
      assert s.tasks[t].waiting ==> forall i | 0 <= i < |q| :: q[i] != t;
    }
  }

  lemma StepKeepsQueued(order: Order, s: State, t: nat, u: nat)
    requires Inv(order, s) && CanStep(s, t)
    ensures Queued(Step(s, t), u)
  {
    assert Queued(s, u) && TaskOk(order, s.tasks[t]);
    var r := Step(s, t);
    if u < |s.tasks| && r.tasks[u].waiting && WantsLock(r, u) {
      var l := r.tasks[u].rest[0].lock;
      var q := s.Queue(l);
      if u != t {
        assert u in q;
        var i :| 0 <= i < |q| && q[i] == u;
        assert r.Queue(l) == q || (r.Queue(l) == q + [t] && (q + [t])[i] == u)
            || (i > 0 && r.Queue(l) == q[1..] && q[1..][i - 1] == u);
      } else {
        assert r.Queue(l) == q + [t] && (q + [t])[|q|] == t;
      }
    }
  }

  lemma StepKeepsExclusive(s: State, t: nat)
    requires CanStep(s, t) && Exclusive(s)
    ensures Exclusive(Step(s, t))
  {
    var r := Step(s, t);
    forall a, b, l | 0 <= a < |r.tasks| && 0 <= b < |r.tasks| && a != b && l in r.tasks[a].held
      ensures Compatible(r.tasks[b], l, r.tasks[a].held[l])
    {
      if l in s.tasks[a].held && l in r.tasks[b].held && l in s.tasks[b].held {
        assert Compatible(s.tasks[b], l, s.tasks[a].held[l]);
      }
      assert a != t ==> r.tasks[a] == s.tasks[a];
      assert b != t ==> r.tasks[b] == s.tasks[b];
      assert WantsLock(s, t) && s.tasks[t].waiting
          ==> Compatible(s.tasks[a], s.tasks[t].rest[0].lock, s.tasks[t].rest[0].mode);
    }
  }

  /** Every step keeps the invariant and the exclusion of writers. */
  lemma {:induction false} StepKeeps(order: Order, s: State, t: nat)
    requires Inv(order, s) && CanStep(s, t) && Exclusive(s)
    ensures Inv(order, Step(s, t)) && Exclusive(Step(s, t))
  {
    StepKeepsTasks(order, s, t);
    forall l ensures QueueOk(Step(s, t), l) {
      StepKeepsQueue(order, s, t, l);
    }
    forall u: nat ensures Queued(Step(s, t), u) {
      StepKeepsQueued(order, s, t, u);
    }
    StepKeepsExclusive(s, t);
  }

  // ----- Whole schedules -----

  /** How many steps the tasks have left. */
  function StepsLeft(tasks: seq<Task>): nat {
    if tasks == [] then 0 else TaskSteps(tasks[0]) + StepsLeft(tasks[1..])
  }

  function TaskSteps(task: Task): nat {
    2 * |task.rest| - if task.waiting && task.rest != [] then 1 else 0
  }

  lemma {:induction false} StepsLeftUpdate(tasks: seq<Task>, t: nat, task: Task)
    requires t < |tasks|
    ensures StepsLeft(tasks[t := task]) == StepsLeft(tasks) - TaskSteps(tasks[t]) + TaskSteps(task)
  {
    var updated := tasks[t := task];
    if t == 0 {
      assert updated[1..] == tasks[1..];
    } else {
      assert updated[1..] == tasks[1..][t - 1 := task];
      StepsLeftUpdate(tasks[1..], t - 1, task);
    }
  }

  lemma StepUsesSteps(s: State, t: nat)
    requires CanStep(s, t)
    ensures StepsLeft(Step(s, t).tasks) < StepsLeft(s.tasks)
  {
    StepsLeftUpdate(s.tasks, t, Step(s, t).tasks[t]);
    assert Step(s, t).tasks == s.tasks[t := Step(s, t).tasks[t]];
  }

  /** A schedule names, at each point, a task that can step there. */
  ghost predicate ValidSchedule(s: State, schedule: seq<nat>)
    decreases |schedule|
  {
    schedule == [] || (CanStep(s, schedule[0]) && ValidSchedule(Step(s, schedule[0]), schedule[1..]))
  }

  function After(s: State, schedule: seq<nat>): State
    decreases |schedule|
  {
    if schedule == [] || !Unfinished(s, schedule[0]) then s else After(Step(s, schedule[0]), schedule[1..])
  }

  lemma {:induction false} ScheduleKeeps(order: Order, s: State, schedule: seq<nat>)
    requires Inv(order, s) && Exclusive(s) && ValidSchedule(s, schedule)
    ensures Inv(order, After(s, schedule)) && Exclusive(After(s, schedule))
    ensures |schedule| + StepsLeft(After(s, schedule).tasks) <= StepsLeft(s.tasks)
    decreases |schedule|
  {
    if schedule != [] {
      StepKeeps(order, s, schedule[0]);
      StepUsesSteps(s, schedule[0]);
      ScheduleKeeps(order, Step(s, schedule[0]), schedule[1..]);
    }
  }

  /** No reached state is stuck, no schedule is longer than the steps there are, writers are alone on
      their lock, and a schedule that cannot go on has finished every task with every lock given back. */
  ghost predicate NeverStuck(s: State, schedule: seq<nat>) {
    var r := After(s, schedule);
    && Exclusive(r)
    && |schedule| <= StepsLeft(s.tasks)
    && ((exists t: nat :: Unfinished(r, t)) ==> exists u: nat :: CanStep(r, u))
    && ((forall u: nat :: !CanStep(r, u)) ==> forall t | 0 <= t < |r.tasks| :: r.tasks[t] == Task(map[], [], false))
  }

  /** Programs that all respect one order, whatever they are, are never stuck under any schedule. */
  lemma {:induction false} OrderedNeverStuck(order: Order, top: nat, programs: seq<seq<Instr>>, schedule: seq<nat>)
    requires forall l :: order(l) < top
    requires forall i | 0 <= i < |programs| :: Safe(order, map[], programs[i], map[])
    requires ValidSchedule(Start(programs), schedule)
    ensures NeverStuck(Start(programs), schedule)
  {
    var s := Start(programs);
    StartInv(order, programs);
    ScheduleKeeps(order, s, schedule);
    var r := After(s, schedule);
    if t: nat :| Unfinished(r, t) {
      var u := FindRunnable(order, r, t, top);
    } else {
      forall t | 0 <= t < |r.tasks| ensures r.tasks[t] == Task(map[], [], false) {
        assert !Unfinished(r, t) && TaskOk(order, r.tasks[t]);
      }
    }
  }

  /** Any number of tasks, each making any sequence of calls, under any schedule. */
  lemma {:induction false} NoDeadlock(calls: seq<seq<Call>>, schedule: seq<nat>)
    requires ValidSchedule(Start(seq(|calls|, i requires 0 <= i < |calls| => TaskCode(calls[i]))), schedule)
    ensures NeverStuck(Start(seq(|calls|, i requires 0 <= i < |calls| => TaskCode(calls[i]))), schedule)
  {
    forall i | 0 <= i < |calls| ensures Safe(CodeOrder, map[], TaskCode(calls[i]), map[]) {
      TaskSafe(CodeOrder, calls[i]);
    }
    OrderedNeverStuck(CodeOrder, 5, seq(|calls|, i requires 0 <= i < |calls| => TaskCode(calls[i])), schedule);
  }

  // ----- Why the documented order must not be relied on -----

  /** A caller that does take the locks in the documented order. */
  const DOCUMENTED_CALLER: seq<Instr> :=
    [Acquire(EventLog, Write), Acquire(Primary, Write), Release(Primary), Release(EventLog)]

  /** Two tasks, each waiting for a lock the other holds for writing: nobody can step. */
  lemma CrossedWaitIsStuck(s: State)
    requires |s.tasks| == 2 && WantsLock(s, 0) && WantsLock(s, 1)
    requires s.tasks[0].waiting && s.tasks[1].waiting
    requires s.tasks[0].rest[0].lock in s.tasks[1].held && s.tasks[1].held[s.tasks[0].rest[0].lock] == Write
    requires s.tasks[1].rest[0].lock in s.tasks[0].held && s.tasks[0].held[s.tasks[1].rest[0].lock] == Write
    ensures forall u: nat :: !CanStep(s, u)
  {
    forall u: nat ensures !CanStep(s, u) {
      if u < 2 {
        assert !Compatible(s.tasks[1 - u], s.tasks[u].rest[0].lock, s.tasks[u].rest[0].mode);
      }
    }
  }

  lemma FirstStep(s: State, t: nat, rest: seq<nat>)
    requires CanStep(s, t) && ValidSchedule(Step(s, t), rest)
    ensures ValidSchedule(s, [t] + rest)
    ensures After(s, [t] + rest) == After(Step(s, t), rest)
  {
    assert ([t] + rest)[1..] == rest;
  }

  /** Beside one caller that follows the documentation, `force_failover` can block for ever: a
      schedule that leads both into a state where nobody can step. */
  lemma {:induction false} DocumentedOrderCanDeadlock() returns (schedule: seq<nat>)
    ensures
      var s := Start([CallCode(ForceFailover(true)), DOCUMENTED_CALLER]);
      && Safe(DocumentedOrder, map[], DOCUMENTED_CALLER, map[])
      && ValidSchedule(s, schedule)
      && Unfinished(After(s, schedule), 0) && Unfinished(After(s, schedule), 1)
      && forall u: nat :: !CanStep(After(s, schedule), u)
  {
    DocumentedCallerSafe();
    BothHold([0] + [1]);
    ForceHolds([1, 1] + ([0] + [1]));
    schedule := [0, 0] + ([0, 0] + ([1, 1] + ([0] + [1])));
  }

  /** Callers that keep the documented order, whatever they do, beside tasks that make any calls other
      than a successful `force_failover`: never stuck. */
  lemma {:induction false} DocumentedCallersNeverStuck(
      callers: seq<seq<Instr>>, calls: seq<seq<Call>>, schedule: seq<nat>)
    requires forall i | 0 <= i < |callers| :: Safe(DocumentedOrder, map[], callers[i], map[])
    requires forall i | 0 <= i < |calls| :: ForceFailover(true) !in calls[i]
    requires ValidSchedule(Start(callers + seq(|calls|, i requires 0 <= i < |calls| => TaskCode(calls[i]))), schedule)
    ensures NeverStuck(Start(callers + seq(|calls|, i requires 0 <= i < |calls| => TaskCode(calls[i]))), schedule)
  {
    forall i | 0 <= i < |calls| ensures Safe(DocumentedOrder, map[], TaskCode(calls[i]), map[]) {
      TaskSafe(DocumentedOrder, calls[i]);
    }
    OrderedNeverStuck(
      DocumentedOrder, 5, callers + seq(|calls|, i requires 0 <= i < |calls| => TaskCode(calls[i])), schedule);
  }

  /** A call can be made beside any caller that keeps the documented order. */
  ghost predicate SafeBesideDocumented(call: Call) {
    forall caller: seq<Instr>, schedule: seq<nat> |
      Safe(DocumentedOrder, map[], caller, map[]) && ValidSchedule(Start([CallCode(call), caller]), schedule) ::
      NeverStuck(Start([CallCode(call), caller]), schedule)
  }

  /** That holds of every call exactly but the one that breaks the documented order. */
  lemma {:induction false} DocumentationTrustedIff(call: Call)
    ensures SafeBesideDocumented(call) <==> call != ForceFailover(true)
  {
    if call == ForceFailover(true) {
      var schedule := DocumentedOrderCanDeadlock();
      assert !NeverStuck(Start([CallCode(call), DOCUMENTED_CALLER]), schedule);
    } else {
      forall caller: seq<Instr>, schedule: seq<nat> |
        Safe(DocumentedOrder, map[], caller, map[]) && ValidSchedule(Start([CallCode(call), caller]), schedule)
        ensures NeverStuck(Start([CallCode(call), caller]), schedule)
      {
        DocumentedOrderKeptIff(call);
        OrderedNeverStuck(DocumentedOrder, 5, [CallCode(call), caller], schedule);
      }
    }
  }

  /** `force_failover` holds the manager and the primary and is about to log; the other task has not begun. */
  function ForceHolding(): State {
    State([Task(map[Manager := Read, Primary := Write], CallCode(ForceFailover(true))[2..], false),
           Task(map[], DOCUMENTED_CALLER, false)],
          map[Manager := [], Primary := []])
  }

  lemma ForceHolds(rest: seq<nat>)
    requires ValidSchedule(ForceHolding(), rest)
    ensures
      var s := Start([CallCode(ForceFailover(true)), DOCUMENTED_CALLER]);
      && ValidSchedule(s, [0, 0] + ([0, 0] + rest))
      && After(s, [0, 0] + ([0, 0] + rest)) == After(ForceHolding(), rest)
  {
    var force := CallCode(ForceFailover(true));
    var mid := State([Task(map[Manager := Read], force[1..], false), Task(map[], DOCUMENTED_CALLER, false)],
                     map[Manager := []]);
    assert force[1..][0] == Acquire(Primary, Write) && force[1..][1..] == force[2..];
    TakeLock(mid, 0, Primary, Write, ForceHolding(), rest);
    TakeLock(Start([force, DOCUMENTED_CALLER]), 0, Manager, Read, mid, [0, 0] + rest);
  }

  lemma BothHold(rest: seq<nat>)
    requires rest == [0] + [1]
    ensures ValidSchedule(ForceHolding(), [1, 1] + rest)
    ensures
      var r := After(ForceHolding(), [1, 1] + rest);
      Unfinished(r, 0) && Unfinished(r, 1) && forall u: nat :: !CanStep(r, u)
  {
    var force := CallCode(ForceFailover(true));
    var both := State([Task(map[Manager := Read, Primary := Write], force[2..], false),
                       Task(map[EventLog := Write], DOCUMENTED_CALLER[1..], false)],
                      map[Manager := [], Primary := [], EventLog := []]);
    assert force[2..][0] == Acquire(EventLog, Write) && DOCUMENTED_CALLER[1..][0] == Acquire(Primary, Write);
    CrossingIsStuck(both, EventLog, Primary);
    TakeLock(ForceHolding(), 1, EventLog, Write, both, rest);
  }

  /** Two running tasks that now ask for each other's lock: after both asked, nobody can step. */
  lemma CrossingIsStuck(s: State, l: Lock, k: Lock)
    requires |s.tasks| == 2 && l != k && s.Queue(l) == [] && s.Queue(k) == []
    requires WantsLock(s, 0) && !s.tasks[0].waiting && s.tasks[0].rest[0].lock == l
    requires WantsLock(s, 1) && !s.tasks[1].waiting && s.tasks[1].rest[0].lock == k
    requires l in s.tasks[1].held && s.tasks[1].held[l] == Write
    requires k in s.tasks[0].held && s.tasks[0].held[k] == Write
    ensures ValidSchedule(s, [0] + [1])
    ensures
      var r := After(s, [0] + [1]);
      Unfinished(r, 0) && Unfinished(r, 1) && forall u: nat :: !CanStep(r, u)
  {
    var s' := Step(s, 0);
    var r := Step(s', 1);
    CrossedWaitIsStuck(r);
    assert [1] + [] == [1];
    FirstStep(s', 1, []);
    FirstStep(s, 0, [1]);
  }

  lemma DocumentedCallerSafe()
    ensures Safe(DocumentedOrder, map[], DOCUMENTED_CALLER, map[])
  {
    var held: map<Lock, Mode> := map[];
    TakeAndReturn(DocumentedOrder, held[EventLog := Write], Primary, Write);
    Bracket(DocumentedOrder, held, EventLog, Write, [Acquire(Primary, Write), Release(Primary)]);
    assert DOCUMENTED_CALLER
        == [Acquire(EventLog, Write)] + [Acquire(Primary, Write), Release(Primary)] + [Release(EventLog)];
  }

  /** Joining an empty queue for a free lock and being granted it. */
  lemma TakeLock(s: State, t: nat, l: Lock, m: Mode, r: State, rest: seq<nat>)
    requires WantsLock(s, t) && !s.tasks[t].waiting && s.tasks[t].rest[0] == Acquire(l, m)
    requires s.Queue(l) == [] && forall u | 0 <= u < |s.tasks| :: l !in s.tasks[u].held
    requires r == State(s.tasks[t := Task(s.tasks[t].held[l := m], s.tasks[t].rest[1..], false)], s.queues[l := []])
    requires ValidSchedule(r, rest)
    ensures ValidSchedule(s, [t, t] + rest)
    ensures After(s, [t, t] + rest) == After(r, rest)
  {
    var q := Step(s, t);
    assert q.Queue(l) == [t];
    assert forall u | 0 <= u < |q.tasks| :: q.tasks[u].held == s.tasks[u].held;
    assert Grantable(q, t);
    assert Step(q, t).tasks == r.tasks;
    assert [t][1..] == [];
    assert Step(q, t).queues == r.queues;
    FirstStep(q, t, rest);
    FirstStep(s, t, [t] + rest);
    assert [t] + ([t] + rest) == [t, t] + rest;
  }
}
