/** The cache file against the memory it mirrors, for tasks that interleave between a change made
    under the write lock and the save made later under the read lock
    (crates/myriadmesh-appliance/src/cache.rs). */
module CacheFile {
  import opened MessageCache

  /** A task is outside the cache, has changed the data and not yet begun its save, or is writing what
      it read under the read lock. */
  datatype Task = Idle | MustSave | Saving(snapshot: Messages)

  datatype Shared = Shared(data: Messages, file: Messages, tasks: seq<Task>)

  datatype Event =
    | Change(task: nat, op: CacheOp, now: nat, saves: bool)
    | BeginSave(task: nat)
    | EndSave(task: nat)

  /** The write lock is free exactly when nobody reads; the read lock is free between changes. */
  predicate NobodyReads(s: Shared) {
    forall t | 0 <= t < |s.tasks| :: !s.tasks[t].Saving?
  }

  predicate AtRest(s: Shared) {
    forall t | 0 <= t < |s.tasks| :: s.tasks[t].Idle?
  }

  ghost predicate Next(cfg: CacheConfig, s: Shared, e: Event, s': Shared) {
    && e.task < |s.tasks|
    && match e
       case Change(t, op, now, saves) =>
         && s.tasks[t].Idle? && NobodyReads(s)
         && Effect(cfg, s.data, op, now, s'.data, saves)
         && s'.file == s.file
         && s'.tasks == s.tasks[t := if saves then MustSave else Idle]
       case BeginSave(t) =>
         && s.tasks[t].MustSave?
         && s' == s.(tasks := s.tasks[t := Saving(s.data)])
       case EndSave(t) =>
         && s.tasks[t].Saving?
         && s' == s.(file := s.tasks[t].snapshot, tasks := s.tasks[t := Idle])
  }

  ghost predicate IsSchedule(cfg: CacheConfig, states: seq<Shared>, events: seq<Event>) {
    && |states| == |events| + 1
    && AtRest(states[0]) && states[0].file == states[0].data
    && forall i | 0 <= i < |events| :: StepAt(cfg, states, events, i)
  }

  ghost predicate StepAt(cfg: CacheConfig, states: seq<Shared>, events: seq<Event>, i: nat)
    requires |states| == |events| + 1 && i < |events|
  {
    Next(cfg, states[i], events[i], states[i + 1])
  }

  // ----- Changes that no save follows -----

  /** A test on the cache before a store: it will be refused and yet remove messages. */
  predicate RefusedWithLoss(cfg: CacheConfig, m: Messages, op: CacheOp, now: nat) {
    op.StoreOp? && Refuses(cfg, m, op.msg, now) && RefusalEvicts(cfg, m, op.msg, now)
  }

  /** That test picks out exactly the operations that change memory and are not followed by a save. */
  lemma {:induction false} UnsavedChangeIff(
      cfg: CacheConfig, m: Messages, op: CacheOp, now: nat, m': Messages, saves: bool)
    requires Effect(cfg, m, op, now, m', saves)
    ensures !saves && m' != m <==> RefusedWithLoss(cfg, m, op, now)
  {
    if op.StoreOp? {
      RefusedIff(cfg, m, op.msg, now, m', saves);
      if !saves {
        RefusalEvictsIff(cfg, m, op.msg, now, m');
      }
    } else if !saves {
      UnsavedOnlyRemoves(cfg, m, op, now, m');
    }
  }

  predicate LossAt(cfg: CacheConfig, states: seq<Shared>, events: seq<Event>, i: nat)
    requires |states| == |events| + 1 && i < |events|
  {
    events[i].Change? && RefusedWithLoss(cfg, states[i].data, events[i].op, events[i].now)
  }

  /** Such a store happened before k and no save has ended since. */
  ghost predicate Unsaved(cfg: CacheConfig, states: seq<Shared>, events: seq<Event>, k: nat)
    requires |states| == |events| + 1 && k <= |events|
  {
    exists i: nat | i < k ::
      LossAt(cfg, states, events, i) && forall j | i < j < k :: !events[j].EndSave?
  }

  lemma UnsavedStep(cfg: CacheConfig, states: seq<Shared>, events: seq<Event>, k: nat)
    requires |states| == |events| + 1 && k < |events|
    ensures
      Unsaved(cfg, states, events, k + 1)
      <==> LossAt(cfg, states, events, k) || (Unsaved(cfg, states, events, k) && !events[k].EndSave?)
  {
    if Unsaved(cfg, states, events, k) && !events[k].EndSave? {
      StillUnsaved(cfg, states, events, k);
    }
    if Unsaved(cfg, states, events, k + 1) && !LossAt(cfg, states, events, k) {
      AlreadyUnsaved(cfg, states, events, k);
    }
  }

  lemma StillUnsaved(cfg: CacheConfig, states: seq<Shared>, events: seq<Event>, k: nat)
    requires |states| == |events| + 1 && k < |events|
    requires Unsaved(cfg, states, events, k) && !events[k].EndSave?
    ensures Unsaved(cfg, states, events, k + 1)
  {
    var i: nat :| i < k && LossAt(cfg, states, events, i) && forall j | i < j < k :: !events[j].EndSave?;
    assert forall j | i < j < k + 1 :: !events[j].EndSave?;
  }

  lemma AlreadyUnsaved(cfg: CacheConfig, states: seq<Shared>, events: seq<Event>, k: nat)
    requires |states| == |events| + 1 && k < |events|
    requires Unsaved(cfg, states, events, k + 1) && !LossAt(cfg, states, events, k)
    ensures Unsaved(cfg, states, events, k) && !events[k].EndSave?
  {
    var i: nat :| i < k + 1 && LossAt(cfg, states, events, i) && forall j | i < j < k + 1 :: !events[j].EndSave?;
    assert i < k && !events[k].EndSave?;
    assert forall j | i < j < k :: !events[j].EndSave?;
  }

  // ----- The invariant -----

  predicate Within(a: Messages, b: Messages) {
    forall id | id in a :: id in b && b[id] == a[id]
  }

  predicate SnapshotsCurrent(s: Shared) {
    forall t | 0 <= t < |s.tasks| && s.tasks[t].Saving? :: s.tasks[t].snapshot == s.data
  }

  ghost predicate FileInv(s: Shared, unsaved: bool) {
    && SnapshotsCurrent(s)
    && (AtRest(s) ==> Within(s.data, s.file) && (s.data == s.file <==> !unsaved))
  }

  lemma StrictlyWithin(a: Messages, b: Messages, c: Messages)
    requires Within(a, b) && Within(b, c) && a == c
    ensures a == b
  {
  }

  lemma ChangeKeeps(cfg: CacheConfig, s: Shared, e: Event, s': Shared, unsaved: bool)
    requires Next(cfg, s, e, s') && e.Change? && FileInv(s, unsaved)
    ensures FileInv(s', unsaved || (!e.saves && s'.data != s.data))
  {
    if e.saves {
      assert s'.tasks[e.task].MustSave?;
    } else {
      UnsavedOnlyRemoves(cfg, s.data, e.op, e.now, s'.data);
      assert s'.tasks == s.tasks;
      if AtRest(s) && s'.data == s.file {
        StrictlyWithin(s'.data, s.data, s.file);
      }
    }
  }

  lemma SaveKeeps(cfg: CacheConfig, s: Shared, e: Event, s': Shared, unsaved: bool)
    requires Next(cfg, s, e, s') && !e.Change? && FileInv(s, unsaved)
    ensures FileInv(s', unsaved && !e.EndSave?)
  {
    if e.BeginSave? {
      assert s'.tasks[e.task].Saving?;
    }
  }

  lemma {:induction false} ScheduleKeeps(cfg: CacheConfig, states: seq<Shared>, events: seq<Event>, k: nat)
    requires IsSchedule(cfg, states, events) && k < |states|
    ensures FileInv(states[k], Unsaved(cfg, states, events, k))
  {
    if k > 0 {
      ScheduleKeeps(cfg, states, events, k - 1);
      UnsavedStep(cfg, states, events, k - 1);
      StepKeeps(cfg, states, events, k - 1, Unsaved(cfg, states, events, k - 1));
    }
  }

  lemma StepKeeps(cfg: CacheConfig, states: seq<Shared>, events: seq<Event>, i: nat, unsaved: bool)
    requires |states| == |events| + 1 && i < |events| && StepAt(cfg, states, events, i) && FileInv(states[i], unsaved)
    ensures FileInv(states[i + 1], LossAt(cfg, states, events, i) || (unsaved && !events[i].EndSave?))
  {
    var e := events[i];
    if e.Change? {
      UnsavedChangeIff(cfg, states[i].data, e.op, e.now, states[i + 1].data, e.saves);
      ChangeKeeps(cfg, states[i], e, states[i + 1], unsaved);
    } else {
      SaveKeeps(cfg, states[i], events[i], states[i + 1], unsaved);
    }
  }

  /** Whatever the interleaving, once no task is inside the cache the file equals the memory unless
      since the last save some store met the test above, and then the file merely holds more. */
  lemma {:induction false} FileMatchesAtRest(cfg: CacheConfig, states: seq<Shared>, events: seq<Event>, k: nat)
    requires IsSchedule(cfg, states, events) && k < |states| && AtRest(states[k])
    ensures states[k].file == states[k].data <==> !Unsaved(cfg, states, events, k)
    ensures Within(states[k].data, states[k].file)
  {
    ScheduleKeeps(cfg, states, events, k);
  }

  /** What reaches the file is what the memory holds at that moment, never an older state. */
  lemma {:induction false} SaveWritesCurrentData(cfg: CacheConfig, states: seq<Shared>, events: seq<Event>, k: nat)
    requires IsSchedule(cfg, states, events) && k < |events| && events[k].EndSave?
    ensures states[k + 1].file == states[k + 1].data == states[k].data
  {
    ScheduleKeeps(cfg, states, events, k);
    assert StepAt(cfg, states, events, k);
  }

  lemma {:induction false} LimitsKept(cfg: CacheConfig, states: seq<Shared>, events: seq<Event>, k: nat)
    requires IsSchedule(cfg, states, events) && k < |states| && InLimits(cfg, states[0].data)
    ensures InLimits(cfg, states[k].data)
  {
    if k > 0 {
      LimitsKept(cfg, states, events, k - 1);
      assert StepAt(cfg, states, events, k - 1);
      var e := events[k - 1];
      if e.Change? {
        EffectKeepsLimits(cfg, states[k - 1].data, e.op, e.now, states[k].data, e.saves);
      }
    }
  }

  /** A cache that starts within its limits never shows the difference: at every rest the file is the memory. */
  lemma {:induction false} FileMatchesWithinLimits(cfg: CacheConfig, states: seq<Shared>, events: seq<Event>, k: nat)
    requires IsSchedule(cfg, states, events) && k < |states| && InLimits(cfg, states[0].data) && AtRest(states[k])
    ensures states[k].file == states[k].data
  {
    FileMatchesAtRest(cfg, states, events, k);
    forall i: nat | i < k ensures !LossAt(cfg, states, events, i) {
      LimitsKept(cfg, states, events, i);
      assert StepAt(cfg, states, events, i);
      var e := events[i];
      if e.Change? {
        UnsavedChangeIff(cfg, states[i].data, e.op, e.now, states[i + 1].data, e.saves);
        if e.op.StoreOp? && !e.saves {
          RefusalChangesNothing(cfg, states[i].data, e.op.msg, e.now, states[i + 1].data);
        }
      }
    }
  }

  /** From rest with file and memory equal, one operation leaves them apart at rest exactly when it is
      a store that meets the test. */
  lemma {:induction false} OneChangeDivergesIff(
      cfg: CacheConfig, s: Shared, t: nat, op: CacheOp, now: nat, saves: bool, s': Shared)
    requires AtRest(s) && s.file == s.data
    requires Next(cfg, s, Change(t, op, now, saves), s')
    ensures AtRest(s') && s'.file != s'.data <==> RefusedWithLoss(cfg, s.data, op, now)
  {
    UnsavedChangeIff(cfg, s.data, op, now, s'.data, saves);
    if saves {
      assert s'.tasks[t].MustSave?;
    }
  }

  /** Being over a device's limit is enough: a store for a device with more undelivered messages than
      allowed meets the test. */
  lemma {:induction false} OverLimitRefusalDiverges(
      cfg: CacheConfig, s: Shared, t: nat, msg: CachedMessage, now: nat, saves: bool, s': Shared)
    requires AtRest(s) && s.file == s.data
    requires Next(cfg, s, Change(t, StoreOp(msg), now, saves), s')
    requires |OfDevice(DropDelivered(s.data, msg.deviceId), msg.deviceId)| > cfg.maxMessagesPerDevice
    ensures AtRest(s') && s'.file != s'.data && Within(s'.data, s'.file)
  {
    ShrinkSizes(s.data, DropDelivered(s.data, msg.deviceId), msg.deviceId);
    RefusedIff(cfg, s.data, msg, now, s'.data, saves);
    RefusalEvictsIff(cfg, s.data, msg, now, s'.data);
    UnsavedOnlyRemoves(cfg, s.data, StoreOp(msg), now, s'.data);
  }

  /** So is being over the total limit: two devices hold one message each, as each may, where one in
      all is allowed. A store for a third device evicts the delivered one and is refused. */
  lemma {:induction false} OverTotalRefusalDiverges(a: CachedMessage, b: CachedMessage, c: CachedMessage, now: nat)
    requires a.messageId != b.messageId && a.deviceId != b.deviceId
    requires c.deviceId != a.deviceId && c.deviceId != b.deviceId
    requires a.delivered && !b.delivered && b.expiresAt > now
    ensures
      var m := map[a.messageId := a, b.messageId := b];
      && (forall device :: |OfDevice(m, device)| <= 1)
      && RefusedWithLoss(CacheConfig(1, 1), m, StoreOp(c), now)
      && EvictGlobal(m, now) == map[b.messageId := b]
  {
    var m := map[a.messageId := a, b.messageId := b];
    forall device ensures |OfDevice(m, device)| <= 1 {
      var one := if device == a.deviceId then a.messageId else b.messageId;
      SubsetSize(OfDevice(m, device), {one});
    }
    assert m.Keys == {a.messageId, b.messageId};
    assert |m| == |m.Keys| == 2;
    assert EvictGlobal(m, now) == map[b.messageId := b];
    assert OfDevice(m, c.deviceId) == {};
  }
}
