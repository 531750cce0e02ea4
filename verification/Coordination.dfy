/** Admission of neighbours' update schedules (crates/myriadmesh-updates/src/coordination.rs), and
    which accepted downtimes can fall together. */
module Coordination {
  import opened Common
  import opened UpdateWindows

  /** The fields of an update schedule that admission reads; times in seconds. */
  datatype UpdateSchedule = UpdateSchedule(
    nodeId: NodeId,
    adapterType: AdapterType,
    scheduledStart: nat,
    estimatedDuration: nat,
    fallbackAdapters: seq<AdapterType>)
  {
    function ScheduledEnd(): nat {
      scheduledStart + estimatedDuration
    }

    predicate OverlapsWith(other: UpdateSchedule) {
      scheduledStart < other.ScheduledEnd() && other.scheduledStart < ScheduledEnd()
    }

    predicate DownAt(t: nat) {
      scheduledStart <= t < ScheduledEnd()
    }

    function Downtime(): PeerDowntime {
      PeerDowntime(nodeId, adapterType, scheduledStart, ScheduledEnd(), fallbackAdapters)
    }
  }

  datatype Response =
    | Acknowledged(fallbackAdapters: seq<AdapterType>)
    | Reschedule(proposedStart: nat)
    | Rejected(missing: AdapterType)

  /** Two schedules that take time overlap exactly when some instant finds both nodes down. */
  lemma {:induction false} OverlapIsSharedInstant(a: UpdateSchedule, b: UpdateSchedule)
    requires a.estimatedDuration > 0 && b.estimatedDuration > 0
    ensures a.OverlapsWith(b) <==> exists t: nat :: a.DownAt(t) && b.DownAt(t)
    ensures a.OverlapsWith(b) <==> b.OverlapsWith(a)
  {
    if a.OverlapsWith(b) {
      var t := Max(a.scheduledStart, b.scheduledStart);
      assert a.DownAt(t) && b.DownAt(t);
    }
  }

  // ----- One request -----

  type Neighbors = map<AdapterType, set<NodeId>>

  function NeighborsOf(m: Neighbors, a: AdapterType): set<NodeId> {
    if a in m then m[a] else {}
  }

  datatype Office = Office(neighbors: Neighbors, available: set<AdapterType>, downtimes: Downtimes, load: Loads)

  ghost predicate Conflicts(o: Office, s: UpdateSchedule) {
    Conflict(o.downtimes, s.scheduledStart, s.ScheduledEnd(), NeighborsOf(o.neighbors, s.adapterType))
  }

  predicate Backed(o: Office, s: UpdateSchedule) {
    forall f | f in s.fallbackAdapters :: f in o.available
  }

  /** A request is accepted exactly when nothing known of the adapter's neighbours overlaps it and
      every fallback it names is available. */
  ghost predicate Accepts(o: Office, s: UpdateSchedule) {
    !Conflicts(o, s) && Backed(o, s)
  }

  ghost function AfterRequest(o: Office, s: UpdateSchedule): Office {
    if Accepts(o, s) then o.(downtimes := Register(o.downtimes, s.Downtime())) else o
  }

  /** Fallback i is the first one not available. */
  predicate MissingAt(o: Office, s: UpdateSchedule, i: nat)
    requires i < |s.fallbackAdapters|
  {
    s.fallbackAdapters[i] !in o.available && forall j | 0 <= j < i :: s.fallbackAdapters[j] in o.available
  }

  /** r is the answer to s at time now. */
  ghost predicate Answers(o: Office, s: UpdateSchedule, now: nat, r: Response) {
    match r
    case Acknowledged(fallbacks) => Accepts(o, s) && fallbacks == s.fallbackAdapters
    case Rejected(missing) =>
      !Conflicts(o, s) && exists i: nat | i < |s.fallbackAdapters| ::
          MissingAt(o, s, i) && missing == s.fallbackAdapters[i]
    case Reschedule(proposed) =>
      && Conflicts(o, s)
      && exists order: seq<NodeId> :: Enumerates(order, NeighborsOf(o.neighbors, s.adapterType))
                         && EarliestBest(Query(o.downtimes, o.load, order, s.estimatedDuration, now), proposed)
  }

  /** State, schedule and clock determine the answer, whatever order the neighbours are handed out in. */
  lemma {:induction false} AnswersAgree(o: Office, s: UpdateSchedule, now: nat, a: Response, b: Response)
    requires Answers(o, s, now, a) && Answers(o, s, now, b)
    ensures a == b
  {
    if a.Reschedule? && b.Reschedule? {
      var nodes := NeighborsOf(o.neighbors, s.adapterType);
      var x: seq<NodeId> :| Enumerates(x, nodes)
          && EarliestBest(Query(o.downtimes, o.load, x, s.estimatedDuration, now), a.proposedStart);
      var y: seq<NodeId> :| Enumerates(y, nodes)
          && EarliestBest(Query(o.downtimes, o.load, y, s.estimatedDuration, now), b.proposedStart);
      var q := Query(o.downtimes, o.load, x, s.estimatedDuration, now);
      ChoiceIgnoresNeighborOrder(q, y, nodes, a.proposedStart);
      EarliestBestUnique(q.(neighbors := y), a.proposedStart, b.proposedStart);
    }
  }

  /** A proposed start overlaps at most two more downtimes than the best slot of the day, so at most
      two when any slot of the day is free. */
  lemma {:induction false} ProposalIsNearlyFree(o: Office, s: UpdateSchedule, now: nat, proposed: nat, k: nat)
    requires Answers(o, s, now, Reschedule(proposed)) && Clamped(o.load) && k < SLOTS
    requires !Conflict(o.downtimes, now + SLOT_SECONDS * k, now + SLOT_SECONDS * k + s.estimatedDuration,
                       NeighborsOf(o.neighbors, s.adapterType))
    ensures exists order: seq<NodeId> :: Enumerates(order, NeighborsOf(o.neighbors, s.adapterType))
                            && OverlapCount(o.downtimes, order, proposed, proposed + s.estimatedDuration) <= 2
  {
    var nodes := NeighborsOf(o.neighbors, s.adapterType);
    var order: seq<NodeId> :| Enumerates(order, nodes)
        && EarliestBest(Query(o.downtimes, o.load, order, s.estimatedDuration, now), proposed);
    var q := Query(o.downtimes, o.load, order, s.estimatedDuration, now);
    ChosenSlotOverlaps(q, proposed, k);
    assert Elements(order) == nodes;
    ConflictIffCounted(o.downtimes, order, q.Slot(k), q.Slot(k) + s.estimatedDuration);
  }

  // ----- Runs -----

  datatype Op =
    | Request(schedule: UpdateSchedule)
    | CleanupAt(now: nat)
    | SetNeighbors(adapter: AdapterType, nodes: set<NodeId>)
    | SetAvailable(adapters: set<AdapterType>)
    | RecordLoad(hour: nat, load: real)

  ghost function Apply(o: Office, op: Op): Office {
    match op
    case Request(s) => AfterRequest(o, s)
    case CleanupAt(now) => o.(downtimes := Cleanup(o.downtimes, now))
    case SetNeighbors(a, nodes) => o.(neighbors := o.neighbors[a := nodes])
    case SetAvailable(adapters) => o.(available := adapters)
    case RecordLoad(hour, load) => o.(load := Recorded(o.load, hour, load))
  }

  /** The state before operation k. */
  ghost function At(o: Office, ops: seq<Op>, k: nat): Office
    requires k <= |ops|
  {
    if k == 0 then o else Apply(At(o, ops, k - 1), ops[k - 1])
  }

  ghost predicate AcceptedAt(o: Office, ops: seq<Op>, i: nat)
    requires i < |ops|
  {
    ops[i].Request? && Accepts(At(o, ops, i), ops[i].schedule)
  }

  /** Between i and k some cleanup ran at or after time end. */
  ghost predicate EndedByCleanup(ops: seq<Op>, i: int, k: nat, end: nat)
    requires k <= |ops|
  {
    exists c: nat | i < c < k :: ops[c].CleanupAt? && end <= ops[c].now
  }

  ghost predicate Registered(m: Downtimes, d: PeerDowntime) {
    d.peerId in m && d in m[d.peerId]
  }

  /** Downtimes are filed under their own peer. */
  ghost predicate WellKeyed(m: Downtimes) {
    forall n, d | n in m && d in m[n] :: d.peerId == n
  }

  /** By the history alone: d was known at the start, or some request for it was accepted, and no
      cleanup since has found it over. */
  ghost predicate Surviving(o: Office, ops: seq<Op>, k: nat, d: PeerDowntime)
    requires k <= |ops|
  {
    || (Registered(o.downtimes, d) && !EndedByCleanup(ops, -1, k, d.endTime))
    || exists i: nat | i < k :: AcceptedFor(o, ops, i, d) && !EndedByCleanup(ops, i, k, d.endTime)
  }

  ghost predicate AcceptedFor(o: Office, ops: seq<Op>, i: nat, d: PeerDowntime)
    requires i < |ops|
  {
    AcceptedAt(o, ops, i) && ops[i].schedule.Downtime() == d
  }

  ghost predicate Ends(op: Op, d: PeerDowntime) {
    op.CleanupAt? && d.endTime <= op.now
  }

  /** One operation makes a downtime known, or forgets it, in exactly these cases. */
  lemma RegisteredStep(o: Office, op: Op, d: PeerDowntime)
    ensures
      Registered(Apply(o, op).downtimes, d)
      <==> (Registered(o.downtimes, d) && !Ends(op, d))
           || (op.Request? && Accepts(o, op.schedule) && op.schedule.Downtime() == d)
  {
    if op.CleanupAt? && d.peerId in o.downtimes {
      assert d in Live(o.downtimes[d.peerId], op.now) <==> d in o.downtimes[d.peerId] && d.endTime > op.now;
    }
  }

  lemma EndedStep(ops: seq<Op>, i: int, k: nat, end: nat)
    requires i < k < |ops|
    ensures
      EndedByCleanup(ops, i, k + 1, end)
      <==> EndedByCleanup(ops, i, k, end) || (ops[k].CleanupAt? && end <= ops[k].now)
  {
  }

  lemma SurvivingStep(o: Office, ops: seq<Op>, k: nat, d: PeerDowntime)
    requires k < |ops|
    ensures
      Surviving(o, ops, k + 1, d)
      <==> (Surviving(o, ops, k, d) && !Ends(ops[k], d)) || AcceptedFor(o, ops, k, d)
  {
    EndedStep(ops, -1, k, d.endTime);
    forall i: nat | i < k
      ensures EndedByCleanup(ops, i, k + 1, d.endTime) <==> EndedByCleanup(ops, i, k, d.endTime) || Ends(ops[k], d)
    {
      EndedStep(ops, i, k, d.endTime);
    }
    if AcceptedFor(o, ops, k, d) {
      assert !EndedByCleanup(ops, k, k + 1, d.endTime);
    }
  }

  /** What the selector knows at any point of any run is exactly what survives by the history. */
  lemma {:induction false} RegisteredIff(o: Office, ops: seq<Op>, k: nat, d: PeerDowntime)
    requires k <= |ops|
    ensures Registered(At(o, ops, k).downtimes, d) <==> Surviving(o, ops, k, d)
  {
    if k > 0 {
      RegisteredIff(o, ops, k - 1, d);
      RegisteredStep(At(o, ops, k - 1), ops[k - 1], d);
      SurvivingStep(o, ops, k - 1, d);
    } else {
      assert !EndedByCleanup(ops, -1, 0, d.endTime);
    }
  }

  lemma {:induction false} WellKeyedStays(o: Office, ops: seq<Op>, k: nat)
    requires WellKeyed(o.downtimes) && k <= |ops|
    ensures WellKeyed(At(o, ops, k).downtimes)
  {
    if k > 0 {
      WellKeyedStays(o, ops, k - 1);
    }
  }

  lemma ConflictIffRegistered(m: Downtimes, slot: nat, slotEnd: nat, nodes: set<NodeId>)
    requires WellKeyed(m)
    ensures Conflict(m, slot, slotEnd, nodes)
       <==> exists d: PeerDowntime :: Registered(m, d) && d.peerId in nodes && d.Overlaps(slot, slotEnd)
  {
    if d: PeerDowntime :| Registered(m, d) && d.peerId in nodes && d.Overlaps(slot, slotEnd) {
      assert d in m[d.peerId];
    }
    if Conflict(m, slot, slotEnd, nodes) {
      var n, d: PeerDowntime :| n in nodes && n in m && d in m[n] && d.Overlaps(slot, slotEnd);
      assert Registered(m, d);
    }
  }

  /** Admission, exactly: request j is accepted if and only if its fallbacks are available and no
      surviving downtime of a node that is a neighbour then overlaps it. */
  lemma {:induction false} AdmissionIff(o: Office, ops: seq<Op>, j: nat)
    requires WellKeyed(o.downtimes) && j < |ops| && ops[j].Request?
    ensures
      AcceptedAt(o, ops, j)
      <==> && Backed(At(o, ops, j), ops[j].schedule)
           && forall d | Surviving(o, ops, j, d)
                && d.peerId in NeighborsOf(At(o, ops, j).neighbors, ops[j].schedule.adapterType) ::
                !d.Overlaps(ops[j].schedule.scheduledStart, ops[j].schedule.ScheduledEnd())
  {
    var p, s := At(o, ops, j), ops[j].schedule;
    WellKeyedStays(o, ops, j);
    ConflictIffRegistered(p.downtimes, s.scheduledStart, s.ScheduledEnd(), NeighborsOf(p.neighbors, s.adapterType));
    forall d ensures Registered(p.downtimes, d) <==> Surviving(o, ops, j, d) {
      RegisteredIff(o, ops, j, d);
    }
  }

  /** Accepted request i, of a node that is a neighbour when request j arrives, overlaps it. */
  ghost predicate InTheWay(o: Office, ops: seq<Op>, i: nat, j: nat)
    requires i < j < |ops| && ops[j].Request?
  {
    && AcceptedAt(o, ops, i)
    && ops[i].schedule.nodeId in NeighborsOf(At(o, ops, j).neighbors, ops[j].schedule.adapterType)
    && ops[i].schedule.OverlapsWith(ops[j].schedule)
  }

  /** From a new coordinator: a request is accepted if and only if its fallbacks are available and every
      accepted request in its way had ended by a cleanup in between. */
  lemma {:induction false} AcceptedIffNoneInTheWay(o: Office, ops: seq<Op>, j: nat)
    requires o.downtimes == map[] && j < |ops| && ops[j].Request?
    ensures
      AcceptedAt(o, ops, j)
      <==> && Backed(At(o, ops, j), ops[j].schedule)
           && forall i: nat | i < j && InTheWay(o, ops, i, j) ::
               EndedByCleanup(ops, i, j, ops[i].schedule.ScheduledEnd())
  {
    AdmissionIff(o, ops, j);
    var s, nodes := ops[j].schedule, NeighborsOf(At(o, ops, j).neighbors, ops[j].schedule.adapterType);
    if i: nat :| i < j && InTheWay(o, ops, i, j) && !EndedByCleanup(ops, i, j, ops[i].schedule.ScheduledEnd()) {
      var d := ops[i].schedule.Downtime();
      assert AcceptedFor(o, ops, i, d) && Surviving(o, ops, j, d);
      assert d.Overlaps(s.scheduledStart, s.ScheduledEnd());
    }
    var start, end := s.scheduledStart, s.ScheduledEnd();
    if d: PeerDowntime :| Surviving(o, ops, j, d) && d.peerId in nodes && d.Overlaps(start, end) {
      var i: nat :| i < j && AcceptedFor(o, ops, i, d) && !EndedByCleanup(ops, i, j, d.endTime);
      assert InTheWay(o, ops, i, j);
    }
  }

  /** Two accepted schedules of which the later one's neighbours include the earlier one's node never
      overlap, unless a cleanup in between ran after the earlier one had ended (and so after the start
      of the later one, if they do overlap). */
  lemma {:induction false} AcceptedAreDisjoint(o: Office, ops: seq<Op>, i: nat, j: nat)
    requires i < j < |ops| && AcceptedAt(o, ops, i) && AcceptedAt(o, ops, j)
    requires ops[i].schedule.nodeId in NeighborsOf(At(o, ops, j).neighbors, ops[j].schedule.adapterType)
    ensures
      || !ops[i].schedule.OverlapsWith(ops[j].schedule)
      || EndedByCleanup(ops, i, j, ops[i].schedule.ScheduledEnd())
  {
    var d := ops[i].schedule.Downtime();
    RegisteredIff(o, ops, j, d);
    assert AcceptedFor(o, ops, i, d);
    if Registered(At(o, ops, j).downtimes, d) && ops[i].schedule.OverlapsWith(ops[j].schedule) {
      assert d.Overlaps(ops[j].schedule.scheduledStart, ops[j].schedule.ScheduledEnd());
    }
  }

  /** The neighbours of the adapter never change during the run. */
  predicate FixedNeighbors(ops: seq<Op>, a: AdapterType) {
    forall i | 0 <= i < |ops| && ops[i].SetNeighbors? :: ops[i].adapter != a
  }

  /** No request asks for a start that an earlier cleanup's clock had already passed. */
  predicate NoLateRequests(ops: seq<Op>) {
    forall c, j | 0 <= c < j < |ops| && ops[c].CleanupAt? && ops[j].Request? ::
        ops[c].now <= ops[j].schedule.scheduledStart
  }

  lemma {:induction false} NeighborsStay(o: Office, ops: seq<Op>, a: AdapterType, k: nat)
    requires FixedNeighbors(ops, a) && k <= |ops|
    ensures NeighborsOf(At(o, ops, k).neighbors, a) == NeighborsOf(o.neighbors, a)
  {
    if k > 0 {
      NeighborsStay(o, ops, a, k - 1);
    }
  }

  /** The neighbours of an adapter are the set registered last. */
  lemma {:induction false} LastNeighbors(o: Office, ops: seq<Op>, a: AdapterType, i: nat, k: nat)
    requires i < k <= |ops| && ops[i].SetNeighbors? && ops[i].adapter == a
    requires forall j | i < j < k && ops[j].SetNeighbors? :: ops[j].adapter != a
    ensures NeighborsOf(At(o, ops, k).neighbors, a) == ops[i].nodes
  {
    if i + 1 < k {
      LastNeighbors(o, ops, a, i, k - 1);
    }
  }

  /** And the available adapters are the set registered last. */
  lemma {:induction false} LastAvailable(o: Office, ops: seq<Op>, i: nat, k: nat)
    requires i < k <= |ops| && ops[i].SetAvailable?
    requires forall j | i < j < k :: !ops[j].SetAvailable?
    ensures At(o, ops, k).available == ops[i].adapters
  {
    if i + 1 < k {
      LastAvailable(o, ops, i, k - 1);
    }
  }

  predicate AcceptedNeighbor(s: UpdateSchedule, a: AdapterType, nodes: set<NodeId>) {
    s.adapterType == a && s.nodeId in nodes
  }

  /** With the neighbours of an adapter fixed, two of its accepted downtimes can run at one instant only
      if a cleanup between the two requests had found the first one over; if no request asks for a start
      that an earlier cleanup's clock had passed, at any instant at most one is running. */
  lemma {:induction false} OneDownAtATime(o: Office, ops: seq<Op>, a: AdapterType, i: nat, j: nat, t: nat)
    requires FixedNeighbors(ops, a)
    requires i < j < |ops| && AcceptedAt(o, ops, i) && AcceptedAt(o, ops, j)
    requires AcceptedNeighbor(ops[i].schedule, a, NeighborsOf(o.neighbors, a))
    requires AcceptedNeighbor(ops[j].schedule, a, NeighborsOf(o.neighbors, a))
    ensures
      ops[i].schedule.DownAt(t) && ops[j].schedule.DownAt(t)
      ==> EndedByCleanup(ops, i, j, ops[i].schedule.ScheduledEnd()) && !NoLateRequests(ops)
  {
    NeighborsStay(o, ops, a, j);
    AcceptedAreDisjoint(o, ops, i, j);
    if EndedByCleanup(ops, i, j, ops[i].schedule.ScheduledEnd()) && NoLateRequests(ops) {
      var c: nat :| i < c < j && ops[c].CleanupAt? && ops[i].schedule.ScheduledEnd() <= ops[c].now;
      assert ops[c].now <= ops[j].schedule.scheduledStart;
    }
  }

  /** A new coordinator whose adapter has this one neighbour, with every fallback of both available. */
  function OneNeighbor(earlier: UpdateSchedule, s: UpdateSchedule): Office {
    var available := Elements(earlier.fallbackAdapters + s.fallbackAdapters);
    Office(map[s.adapterType := {earlier.nodeId}], available, map[], map[])
  }

  /** The neighbour's request, a cleanup, and a request that overlaps it: the first is accepted, and
      the second exactly when the cleanup ran at or after the end of the first. */
  lemma {:induction false} OverlapAcceptedIff(earlier: UpdateSchedule, s: UpdateSchedule, now: nat)
    requires earlier.adapterType == s.adapterType && earlier.OverlapsWith(s)
    ensures
      var o, ops := OneNeighbor(earlier, s), [Request(earlier), CleanupAt(now), Request(s)];
      && AcceptedAt(o, ops, 0)
      && (AcceptedAt(o, ops, 2) <==> earlier.ScheduledEnd() <= now)
  {
    var o, ops := OneNeighbor(earlier, s), [Request(earlier), CleanupAt(now), Request(s)];
    assert At(o, ops, 0) == o;
    AcceptedIffNoneInTheWay(o, ops, 0);
    AcceptedIffNoneInTheWay(o, ops, 2);
    assert At(o, ops, 2) == Apply(Apply(o, ops[0]), ops[1]);
    assert InTheWay(o, ops, 0, 2);
    assert ops[1].CleanupAt? && ops[1].now == now;
    assert EndedByCleanup(ops, 0, 2, earlier.ScheduledEnd()) <==> earlier.ScheduledEnd() <= now;
  }

  /** So it is with the same request made twice. */
  lemma {:induction false} LateRequestOverlaps(s: UpdateSchedule, now: nat)
    requires s.estimatedDuration > 0
    ensures
      var o, ops := OneNeighbor(s, s), [Request(s), CleanupAt(now), Request(s)];
      && AcceptedAt(o, ops, 0) && s.OverlapsWith(s)
      && (AcceptedAt(o, ops, 2) <==> s.ScheduledEnd() <= now)
  {
    OverlapAcceptedIff(s, s, now);
  }

  /** After a cleanup at time now, some accepted neighbour may be overlapped by s. */
  ghost predicate MayOverlapAfter(s: UpdateSchedule, now: nat) {
    exists earlier: UpdateSchedule ::
      && earlier.adapterType == s.adapterType && earlier.OverlapsWith(s)
      && AcceptedAt(OneNeighbor(earlier, s), [Request(earlier), CleanupAt(now), Request(s)], 2)
  }

  /** Which requests can break the exclusion after a cleanup: exactly those that start before it. The
      condition of OneDownAtATime can therefore not be relaxed for any start and clock. */
  lemma {:induction false} LateRequestIff(s: UpdateSchedule, now: nat)
    requires s.estimatedDuration > 0
    ensures MayOverlapAfter(s, now) <==> s.scheduledStart < now
  {
    if MayOverlapAfter(s, now) {
      var earlier: UpdateSchedule :|
        && earlier.adapterType == s.adapterType && earlier.OverlapsWith(s)
        && AcceptedAt(OneNeighbor(earlier, s), [Request(earlier), CleanupAt(now), Request(s)], 2);
      OverlapAcceptedIff(earlier, s, now);
    }
    if s.scheduledStart < now {
      OverlapAcceptedIff(s.(estimatedDuration := 1), s, now);
    }
  }

  /** A downtime of a node outside the neighbour set never blocks anyone. */
  lemma {:induction false} OutsidersBlockNobody(
      m: Downtimes, d: PeerDowntime, nodes: set<NodeId>, slot: nat, slotEnd: nat)
    requires d.peerId !in nodes
    ensures Conflict(Register(m, d), slot, slotEnd, nodes) <==> Conflict(m, slot, slotEnd, nodes)
  {
    forall n | n in nodes ensures n in Register(m, d) <==> n in m {
    }
    if Conflict(m, slot, slotEnd, nodes) {
      var n, e: PeerDowntime :| n in nodes && n in m && e in m[n] && e.Overlaps(slot, slotEnd);
      assert e in Register(m, d)[n];
    }
  }

  /** Of two acceptable requests of neighbours, made one after the other, the second is still accepted
      exactly when they do not overlap. */
  lemma {:induction false} SecondAcceptedIff(o: Office, a: UpdateSchedule, b: UpdateSchedule)
    requires Accepts(o, a) && Accepts(o, b)
    requires a.nodeId in NeighborsOf(o.neighbors, b.adapterType)
    ensures Accepts(AfterRequest(o, a), b) <==> !a.OverlapsWith(b)
  {
    if a.OverlapsWith(b) {
      var m := Register(o.downtimes, a.Downtime());
      assert a.Downtime() in m[a.nodeId] && a.Downtime().Overlaps(b.scheduledStart, b.ScheduledEnd());
    }
  }

  // ----- The class -----

  class UpdateCoordinator {
    const selector: UpdateWindowSelector
    var adapterNeighbors: Neighbors
    var availableAdapters: set<AdapterType>

    ghost function Value(): Office
      reads this, selector
    {
      Office(adapterNeighbors, availableAdapters, selector.peerDowntimes, selector.networkLoad)
    }

    constructor ()
      ensures Value() == Office(map[], {}, map[], map[]) && fresh(selector) && selector.Valid()
    {
      selector := new UpdateWindowSelector();
      adapterNeighbors, availableAdapters := map[], {};
    }

    method RegisterAdapterNeighbors(a: AdapterType, nodes: set<NodeId>)
      modifies this`adapterNeighbors
      ensures Value() == Apply(old(Value()), SetNeighbors(a, nodes))
    {
      adapterNeighbors := adapterNeighbors[a := nodes];
    }

    method RegisterAvailableAdapters(adapters: set<AdapterType>)
      modifies this`availableAdapters
      ensures Value() == Apply(old(Value()), SetAvailable(adapters))
    {
      availableAdapters := adapters;
    }

    /** Answers a neighbour's schedule: only an acknowledgement changes anything. */
    method HandleScheduleRequest(s: UpdateSchedule, now: nat) returns (r: Response)
      modifies selector`peerDowntimes
      ensures Value() == AfterRequest(old(Value()), s)
      ensures Answers(old(Value()), s, now, r)
    {
      var nodes := if s.adapterType in adapterNeighbors then adapterNeighbors[s.adapterType] else {};
      var order := SomeOrder(nodes);
      assert Elements(order) == nodes;
      var conflict := selector.HasConflict(s.scheduledStart, s.estimatedDuration, order);
      if conflict {
        var proposed := selector.FindOptimalWindow(order, s.estimatedDuration, now);
        return Reschedule(proposed);
      }
      for i := 0 to |s.fallbackAdapters|
        invariant forall j | 0 <= j < i :: s.fallbackAdapters[j] in availableAdapters
      {
        if s.fallbackAdapters[i] !in availableAdapters {
          return Rejected(s.fallbackAdapters[i]);
        }
      }
      selector.RegisterPeerDowntime(
        PeerDowntime(s.nodeId, s.adapterType, s.scheduledStart, s.ScheduledEnd(), s.fallbackAdapters));
      r := Acknowledged(s.fallbackAdapters);
    }
  }

  // ----- Runs of the object -----

  /** One operation on the object, at the clock reading now, does what Apply does to its value. */
  method Perform(c: UpdateCoordinator, op: Op, now: nat)
    requires c.selector.Valid()
    modifies c, c.selector
    ensures c.selector.Valid() && c.Value() == Apply(old(c.Value()), op)
  {
    match op {
      case Request(s) =>
        var r := c.HandleScheduleRequest(s, now);
      case CleanupAt(time) => c.selector.CleanupExpiredDowntimes(time);
      case SetNeighbors(a, nodes) => c.RegisterAdapterNeighbors(a, nodes);
      case SetAvailable(adapters) => c.RegisterAvailableAdapters(adapters);
      case RecordLoad(hour, load) => c.selector.UpdateNetworkLoad(hour, load);
    }
  }

  /** A whole run of the object, with any clock readings, goes through the values the results above are
      about: on the way it is At(start, ops, k) after k operations, and that is where it ends. */
  method PerformAll(c: UpdateCoordinator, ops: seq<Op>, clock: seq<nat>)
    requires c.selector.Valid() && |clock| == |ops|
    modifies c, c.selector
    ensures c.selector.Valid() && c.Value() == At(old(c.Value()), ops, |ops|)
  {
    ghost var start := c.Value();
    for i := 0 to |ops|
      invariant c.selector.Valid() && c.Value() == At(start, ops, i)
    {
      Perform(c, ops[i], clock[i]);
    }
  }
}
