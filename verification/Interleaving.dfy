/** Schedule requests handled by many tasks at once: reading the neighbours, checking for conflicts and
    registering the downtime are separate lock sections (crates/myriadmesh-updates/src/coordination.rs). */
module Interleaving {
  import opened UpdateWindows
  import opened Coordination

  /** A task handles nothing, has read the neighbours for a request, or has found no conflict with them. */
  datatype Task =
    | Idle
    | Asked(schedule: UpdateSchedule, nodes: set<NodeId>)
    | Cleared(schedule: UpdateSchedule, nodes: set<NodeId>)

  datatype Shared = Shared(office: Office, tasks: seq<Task>)

  datatype Event =
    | Begin(task: nat, schedule: UpdateSchedule)
    | Check(task: nat)
    | Finish(task: nat)
    | Other(op: Op)
  {
    predicate Of(t: nat) {
      !Other? && task == t
    }
  }

  /** The fallbacks are looked up and the downtime registered while the set of available adapters is held. */
  ghost predicate Next(s: Shared, e: Event, s': Shared) {
    match e
    case Begin(t, schedule) =>
      && t < |s.tasks| && s.tasks[t].Idle?
      && s' == s.(tasks := s.tasks[t := Asked(schedule, NeighborsOf(s.office.neighbors, schedule.adapterType))])
    case Check(t) =>
      && t < |s.tasks| && s.tasks[t].Asked?
      && var b, nodes := s.tasks[t].schedule, s.tasks[t].nodes;
      && s' == s.(tasks := s.tasks[t :=
           if Conflict(s.office.downtimes, b.scheduledStart, b.ScheduledEnd(), nodes) then Idle else Cleared(b, nodes)])
    case Finish(t) =>
      && t < |s.tasks| && s.tasks[t].Cleared?
      && var b := s.tasks[t].schedule;
      && s' == Shared(
           if Backed(s.office, b) then s.office.(downtimes := Register(s.office.downtimes, b.Downtime())) else s.office,
           s.tasks[t := Idle])
    case Other(op) => !op.Request? && s' == s.(office := Apply(s.office, op))
  }

  ghost predicate StepAt(states: seq<Shared>, events: seq<Event>, i: nat)
    requires |states| == |events| + 1 && i < |events|
  {
    Next(states[i], events[i], states[i + 1])
  }

  predicate AllIdle(s: Shared) {
    forall t | 0 <= t < |s.tasks| :: s.tasks[t].Idle?
  }

  ghost predicate IsSchedule(states: seq<Shared>, events: seq<Event>) {
    && |states| == |events| + 1
    && AllIdle(states[0])
    && forall i | 0 <= i < |events| :: StepAt(states, events, i)
  }

  /** Event e accepts schedule a, for which the given nodes were the neighbours. */
  ghost predicate RegistersAt(states: seq<Shared>, events: seq<Event>, e: nat, a: UpdateSchedule, nodes: set<NodeId>)
    requires |states| == |events| + 1 && e < |events|
  {
    && events[e].Finish? && events[e].task < |states[e].tasks|
    && states[e].tasks[events[e].task] == Cleared(a, nodes)
    && Backed(states[e].office, a)
  }

  ghost predicate CleanedUp(events: seq<Event>, i: int, k: nat, end: nat)
    requires k <= |events|
  {
    exists c: nat | i < c < k :: events[c].Other? && events[c].op.CleanupAt? && end <= events[c].op.now
  }

  /** Event e accepts a schedule whose downtime is d. */
  ghost predicate RegistersFor(states: seq<Shared>, events: seq<Event>, e: nat, d: PeerDowntime)
    requires |states| == |events| + 1 && e < |events|
  {
    && events[e].Finish? && events[e].task < |states[e].tasks| && states[e].tasks[events[e].task].Cleared?
    && Backed(states[e].office, states[e].tasks[events[e].task].schedule)
    && states[e].tasks[events[e].task].schedule.Downtime() == d
  }

  /** By the history alone: d was known at the start, or some event registered it, and no cleanup since
      has found it over. */
  ghost predicate Surviving(states: seq<Shared>, events: seq<Event>, k: nat, d: PeerDowntime)
    requires |states| == |events| + 1 && k <= |events|
  {
    || (Registered(states[0].office.downtimes, d) && !CleanedUp(events, -1, k, d.endTime))
    || exists e: nat | e < k :: RegistersFor(states, events, e, d) && !CleanedUp(events, e, k, d.endTime)
  }

  ghost predicate EndsIn(e: Event, d: PeerDowntime) {
    e.Other? && e.op.CleanupAt? && d.endTime <= e.op.now
  }

  lemma RegisteredAfterStep(states: seq<Shared>, events: seq<Event>, k: nat, d: PeerDowntime)
    requires |states| == |events| + 1 && k < |events| && StepAt(states, events, k)
    ensures
      Registered(states[k + 1].office.downtimes, d)
      <==> (Registered(states[k].office.downtimes, d) && !EndsIn(events[k], d)) || RegistersFor(states, events, k, d)
  {
    if events[k].Other? {
      RegisteredStep(states[k].office, events[k].op, d);
    }
  }

  lemma CleanedUpStep(events: seq<Event>, i: int, k: nat, d: PeerDowntime)
    requires i < k < |events|
    ensures CleanedUp(events, i, k + 1, d.endTime) <==> CleanedUp(events, i, k, d.endTime) || EndsIn(events[k], d)
  {
  }

  lemma SurvivingStep(states: seq<Shared>, events: seq<Event>, k: nat, d: PeerDowntime)
    requires |states| == |events| + 1 && k < |events|
    ensures
      Surviving(states, events, k + 1, d)
      <==> (Surviving(states, events, k, d) && !EndsIn(events[k], d)) || RegistersFor(states, events, k, d)
  {
    CleanedUpStep(events, -1, k, d);
    forall e: nat | e < k
      ensures CleanedUp(events, e, k + 1, d.endTime) <==> CleanedUp(events, e, k, d.endTime) || EndsIn(events[k], d)
    {
      CleanedUpStep(events, e, k, d);
    }
    if RegistersFor(states, events, k, d) {
      assert !CleanedUp(events, k, k + 1, d.endTime);
    }
  }

  /** What the selector knows at any point of any interleaving is exactly what survives by the history. */
  lemma {:induction false} RegisteredIff(states: seq<Shared>, events: seq<Event>, k: nat, d: PeerDowntime)
    requires IsSchedule(states, events) && k <= |events|
    ensures Registered(states[k].office.downtimes, d) <==> Surviving(states, events, k, d)
  {
    if k > 0 {
      RegisteredIff(states, events, k - 1, d);
      assert StepAt(states, events, k - 1);
      RegisteredAfterStep(states, events, k - 1, d);
      SurvivingStep(states, events, k - 1, d);
    } else {
      assert !CleanedUp(events, -1, 0, d.endTime);
    }
  }

  lemma {:induction false} WellKeyedStays(states: seq<Shared>, events: seq<Event>, k: nat)
    requires IsSchedule(states, events) && k <= |events| && WellKeyed(states[0].office.downtimes)
    ensures WellKeyed(states[k].office.downtimes)
  {
    if k > 0 {
      WellKeyedStays(states, events, k - 1);
      assert StepAt(states, events, k - 1);
    }
  }

  /** What a check answers, exactly, in any interleaving: it clears its task if and only if no surviving
      downtime of a node among the neighbours the task has read overlaps the task's schedule. */
  lemma {:induction false} CheckClearsIff(states: seq<Shared>, events: seq<Event>, c: nat)
    requires IsSchedule(states, events) && c < |events| && events[c].Check?
    requires WellKeyed(states[0].office.downtimes)
    ensures events[c].task < |states[c].tasks| && |states[c + 1].tasks| == |states[c].tasks|
    ensures states[c].tasks[events[c].task].Asked?
    ensures
      var t := events[c].task;
      var b, nodes := states[c].tasks[t].schedule, states[c].tasks[t].nodes;
      states[c + 1].tasks[t].Cleared?
      <==> forall d | Surviving(states, events, c, d) && d.peerId in nodes ::
             !d.Overlaps(b.scheduledStart, b.ScheduledEnd())
  {
    assert StepAt(states, events, c);
    var m, t := states[c].office.downtimes, events[c].task;
    var b, nodes := states[c].tasks[t].schedule, states[c].tasks[t].nodes;
    WellKeyedStays(states, events, c);
    ConflictIffRegistered(m, b.scheduledStart, b.ScheduledEnd(), nodes);
    forall d ensures Registered(m, d) <==> Surviving(states, events, c, d) {
      RegisteredIff(states, events, c, d);
    }
  }

  /** Event e registered a downtime of one of these nodes that overlaps b. */
  ghost predicate Blocks(states: seq<Shared>, events: seq<Event>, e: nat, b: UpdateSchedule, nodes: set<NodeId>)
    requires |states| == |events| + 1 && e < |events|
  {
    && events[e].Finish? && events[e].task < |states[e].tasks| && states[e].tasks[events[e].task].Cleared?
    && var a := states[e].tasks[events[e].task].schedule;
    && Backed(states[e].office, a) && a.nodeId in nodes && a.OverlapsWith(b)
  }

  function EndOf(states: seq<Shared>, events: seq<Event>, e: nat): nat
    requires |states| == |events| + 1 && e < |events| && events[e].Finish?
    requires events[e].task < |states[e].tasks| && states[e].tasks[events[e].task].Cleared?
  {
    states[e].tasks[events[e].task].schedule.ScheduledEnd()
  }

  /** From a new coordinator: the check clears its task if and only if every earlier registration that
      blocks it had ended by a cleanup in between. */
  lemma {:induction false} CheckClearsIffNotBlocked(states: seq<Shared>, events: seq<Event>, c: nat)
    requires IsSchedule(states, events) && c < |events| && events[c].Check?
    requires states[0].office.downtimes == map[]
    ensures events[c].task < |states[c].tasks| && |states[c + 1].tasks| == |states[c].tasks|
    ensures states[c].tasks[events[c].task].Asked?
    ensures
      var t := events[c].task;
      var b, nodes := states[c].tasks[t].schedule, states[c].tasks[t].nodes;
      states[c + 1].tasks[t].Cleared?
      <==> forall e: nat | e < c && Blocks(states, events, e, b, nodes) ::
             CleanedUp(events, e, c, EndOf(states, events, e))
  {
    CheckClearsIff(states, events, c);
    var t := events[c].task;
    var b, nodes := states[c].tasks[t].schedule, states[c].tasks[t].nodes;
    var start, end := b.scheduledStart, b.ScheduledEnd();
    if e: nat :| e < c && Blocks(states, events, e, b, nodes) && !CleanedUp(events, e, c, EndOf(states, events, e)) {
      var d := states[e].tasks[events[e].task].schedule.Downtime();
      assert RegistersFor(states, events, e, d) && Surviving(states, events, c, d);
      assert d.Overlaps(start, end);
    }
    if d: PeerDowntime :| Surviving(states, events, c, d) && d.peerId in nodes && d.Overlaps(start, end) {
      var e: nat :| e < c && RegistersFor(states, events, e, d) && !CleanedUp(events, e, c, d.endTime);
      assert Blocks(states, events, e, b, nodes);
    }
  }

  /** The check that cleared a task, with nothing else done by the task since. */
  ghost predicate ClearedBy(states: seq<Shared>, events: seq<Event>, c: nat, e: nat, t: nat)
    requires |states| == |events| + 1 && c < e <= |events|
  {
    && events[c] == Check(t) && (forall k | c < k < e :: !events[k].Of(t))
    && t < |states[c].tasks| && states[c].tasks[t].Asked?
    && var b, nodes := states[c].tasks[t].schedule, states[c].tasks[t].nodes;
    && !Conflict(states[c].office.downtimes, b.scheduledStart, b.ScheduledEnd(), nodes)
    && (forall k | c < k <= e :: t < |states[k].tasks| && states[k].tasks[t] == Cleared(b, nodes))
  }

  lemma RegisteredConflicts(m: Downtimes, d: PeerDowntime, slot: nat, slotEnd: nat, nodes: set<NodeId>)
    ensures Registered(m, d) && d.peerId in nodes && d.Overlaps(slot, slotEnd) ==> Conflict(m, slot, slotEnd, nodes)
  {
  }

  /** Every cleared task was cleared by one check that found no conflict. */
  lemma {:induction false} CheckCleared(states: seq<Shared>, events: seq<Event>, e: nat, t: nat) returns (c: nat)
    requires IsSchedule(states, events) && e <= |events|
    requires t < |states[e].tasks| && states[e].tasks[t].Cleared?
    ensures c < e && ClearedBy(states, events, c, e, t)
  {
    assert e > 0;
    assert StepAt(states, events, e - 1);
    if events[e - 1] == Check(t) {
      c := e - 1;
    } else {
      c := CheckCleared(states, events, e - 1, t);
    }
  }

  /** Two accepted schedules that overlap, the later one having the earlier one's node among its
      neighbours: the later one's check ran before the earlier one was registered, unless a cleanup
      between that registration and that check had found the earlier one over. */
  lemma {:induction false} OverlapMeansEarlyCheck(
      states: seq<Shared>, events: seq<Event>, first: nat, a: UpdateSchedule, aNodes: set<NodeId>,
      second: nat, b: UpdateSchedule, bNodes: set<NodeId>) returns (c: nat)
    requires IsSchedule(states, events) && first < second < |events|
    requires RegistersAt(states, events, first, a, aNodes) && RegistersAt(states, events, second, b, bNodes)
    requires a.nodeId in bNodes && a.OverlapsWith(b)
    ensures c < second && ClearedBy(states, events, c, second, events[second].task)
    ensures c < first || CleanedUp(events, first, c, a.ScheduledEnd())
  {
    c := CheckCleared(states, events, second, events[second].task);
    var d := a.Downtime();
    RegisteredIff(states, events, c, d);
    RegisteredConflicts(states[c].office.downtimes, d, b.scheduledStart, b.ScheduledEnd(), bNodes);
    if first < c {
      assert RegistersFor(states, events, first, d) && !Surviving(states, events, c, d);
    }
  }

  // ----- One request at a time -----

  /** No request begins while another is in flight. */
  predicate OneAtATime(states: seq<Shared>, events: seq<Event>)
    requires |states| == |events| + 1
  {
    forall i | 0 <= i < |events| && events[i].Begin? :: AllIdle(states[i])
  }

  lemma {:induction false} AtMostOneInFlight(states: seq<Shared>, events: seq<Event>, k: nat, t: nat, u: nat)
    requires IsSchedule(states, events) && OneAtATime(states, events) && k <= |events|
    requires t < |states[k].tasks| && u < |states[k].tasks| && t != u
    ensures states[k].tasks[t].Idle? || states[k].tasks[u].Idle?
  {
    if k > 0 {
      assert StepAt(states, events, k - 1);
      AtMostOneInFlight(states, events, k - 1, t, u);
    }
  }

  /** Then accepted downtimes of neighbours are exclusive, up to cleanups, as for a single task. */
  lemma {:induction false} OneAtATimeExcludes(
      states: seq<Shared>, events: seq<Event>, first: nat, a: UpdateSchedule, aNodes: set<NodeId>,
      second: nat, b: UpdateSchedule, bNodes: set<NodeId>)
    requires IsSchedule(states, events) && first < second < |events|
    requires OneAtATime(states, events)
    requires RegistersAt(states, events, first, a, aNodes) && RegistersAt(states, events, second, b, bNodes)
    requires a.nodeId in bNodes
    ensures !a.OverlapsWith(b) || CleanedUp(events, first, second, a.ScheduledEnd())
  {
    if a.OverlapsWith(b) {
      var c := OverlapMeansEarlyCheck(states, events, first, a, aNodes, second, b, bNodes);
      if c < first {
        AtMostOneInFlight(states, events, first, events[first].task, events[second].task);
      } else {
        var x: nat :| first < x < c && EndsIn(events[x], a.Downtime());
        assert x < second;
      }
    }
  }

  /** And an early check is all it takes: of any two acceptable requests, overlapping or not, both are
      registered when both checks run before either registration. */
  lemma {:induction false} BothChecksFirst(o: Office, a: UpdateSchedule, b: UpdateSchedule)
      returns (states: seq<Shared>, events: seq<Event>)
    requires Accepts(o, a) && Accepts(o, b)
    ensures events == [Begin(0, a), Begin(1, b), Check(0), Check(1), Finish(0), Finish(1)]
    ensures IsSchedule(states, events) && states[0].office == o
    ensures RegistersAt(states, events, 4, a, NeighborsOf(o.neighbors, a.adapterType))
    ensures RegistersAt(states, events, 5, b, NeighborsOf(o.neighbors, b.adapterType))
  {
    events := [Begin(0, a), Begin(1, b), Check(0), Check(1), Finish(0), Finish(1)];
    var m, n := NeighborsOf(o.neighbors, a.adapterType), NeighborsOf(o.neighbors, b.adapterType);
    var o1 := o.(downtimes := Register(o.downtimes, a.Downtime()));
    var o2 := o1.(downtimes := Register(o1.downtimes, b.Downtime()));
    states := [
      Shared(o, [Idle, Idle]), Shared(o, [Asked(a, m), Idle]), Shared(o, [Asked(a, m), Asked(b, n)]),
      Shared(o, [Cleared(a, m), Asked(b, n)]), Shared(o, [Cleared(a, m), Cleared(b, n)]),
      Shared(o1, [Idle, Cleared(b, n)]), Shared(o2, [Idle, Idle])];
    forall i | 0 <= i < |events| ensures StepAt(states, events, i) {
      assert states[i].tasks[0 := states[i + 1].tasks[0]] == states[i + 1].tasks
          || states[i].tasks[1 := states[i + 1].tasks[1]] == states[i + 1].tasks;
    }
  }
}
