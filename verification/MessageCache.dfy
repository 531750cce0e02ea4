/** The appliance message cache (crates/myriadmesh-appliance/src/cache.rs): two capacity bounds,
    eviction, and what may be lost. */
module MessageCache {
  import opened Common

  datatype MessagePriority = Low | Normal | High | Urgent {
    function Rank(): nat {
      match this case Low => 0 case Normal => 1 case High => 2 case Urgent => 3
    }
  }

  /** a stands above b in urgency. */
  predicate Above(a: MessagePriority, b: MessagePriority) {
    match a
    case Urgent => !b.Urgent?
    case High => b.Normal? || b.Low?
    case Normal => b.Low?
    case Low => false
  }

  datatype MessageDirection = Inbound | Outbound

  datatype CachedMessage = CachedMessage(
    messageId: string,
    deviceId: string,
    direction: MessageDirection,
    priority: MessagePriority,
    payload: seq<nat>,
    receivedAt: nat,
    expiresAt: nat,
    delivered: bool,
    deliveryAttempts: nat)

  datatype CacheConfig = CacheConfig(maxMessagesPerDevice: nat, maxTotalMessages: nat)

  type Messages = map<string, CachedMessage>

  /** The ids of a device's messages. */
  function OfDevice(m: Messages, device: string): set<string> {
    set id | id in m && m[id].deviceId == device
  }

  ghost predicate InLimits(cfg: CacheConfig, m: Messages) {
    && |m| <= cfg.maxTotalMessages
    && forall device :: |OfDevice(m, device)| <= cfg.maxMessagesPerDevice
  }

  // ----- Eviction -----

  function DropDelivered(m: Messages, device: string): Messages {
    map id | id in m && !(m[id].deviceId == device && m[id].delivered) :: m[id]
  }

  /** All delivered messages, then all expired ones. */
  function EvictGlobal(m: Messages, now: nat): Messages {
    map id | id in m && !m[id].delivered && m[id].expiresAt > now :: m[id]
  }

  function DropExpired(m: Messages, now: nat): Messages {
    map id | id in m && m[id].expiresAt > now :: m[id]
  }

  function DropDevice(m: Messages, device: string): Messages {
    map id | id in m && m[id].deviceId != device :: m[id]
  }

  /** What eviction sorts by. */
  datatype Entry = Entry(id: string, rank: nat, receivedAt: nat)

  predicate LessUrgent(a: Entry, b: Entry) {
    a.rank < b.rank || (a.rank == b.rank && a.receivedAt <= b.receivedAt)
  }

  function EntryOf(m: Messages, id: string): Entry
    requires id in m
  {
    Entry(id, m[id].priority.Rank(), m[id].receivedAt)
  }

  function Entries(m: Messages, order: seq<string>): (r: seq<Entry>)
    requires forall i | 0 <= i < |order| :: order[i] in m
    ensures |r| == |order| && forall i | 0 <= i < |r| :: r[i] == EntryOf(m, order[i])
  {
    seq(|order|, i requires 0 <= i < |order| => EntryOf(m, order[i]))
  }

  function Ids(entries: seq<Entry>): set<string> {
    set e | e in entries :: e.id
  }

  /** The first `count` entries in order of priority and age; `order` is the map's iteration order. */
  function Oldest(m: Messages, order: seq<string>, count: nat): seq<Entry>
    requires forall i | 0 <= i < |order| :: order[i] in m
  {
    var sorted := SortBy(LessUrgent, Entries(m, order));
    if count <= |sorted| then sorted[..count] else sorted
  }

  /** The result of evicting for one device: its delivered messages go, and if it is still above the
      limit so do its least urgent ones, ties in the order the map is iterated. */
  ghost predicate EvictedTo(cfg: CacheConfig, m: Messages, device: string, e: Messages) {
    var d := DropDelivered(m, device);
    if |OfDevice(d, device)| <= cfg.maxMessagesPerDevice then e == d
    else exists order :: TrimmedBy(cfg, d, device, order, e)
  }

  ghost predicate TrimmedBy(cfg: CacheConfig, d: Messages, device: string, order: seq<string>, e: Messages) {
    && Enumerates(order, OfDevice(d, device))
    && |order| >= cfg.maxMessagesPerDevice
    && e == d - Ids(Oldest(d, order, |order| - cfg.maxMessagesPerDevice))
  }

  // ----- Operations -----

  /** The second half of a store: the total limit, then the insertion. */
  function StoreUnderTotal(cfg: CacheConfig, m: Messages, msg: CachedMessage, now: nat): (Messages, bool) {
    if |m| < cfg.maxTotalMessages then (m[msg.messageId := msg], true)
    else
      var g := EvictGlobal(m, now);
      if |g| < cfg.maxTotalMessages then (g[msg.messageId := msg], true) else (g, false)
  }

  /** m' and ok are a possible outcome of storing msg in m; ok is false for CacheFull. */
  ghost predicate StoredTo(cfg: CacheConfig, m: Messages, msg: CachedMessage, now: nat, m': Messages, ok: bool) {
    if |OfDevice(m, msg.deviceId)| < cfg.maxMessagesPerDevice then (m', ok) == StoreUnderTotal(cfg, m, msg, now)
    else exists e :: EvictedTo(cfg, m, msg.deviceId, e) && AfterEviction(cfg, e, msg, now, m', ok)
  }

  ghost predicate AfterEviction(cfg: CacheConfig, e: Messages, msg: CachedMessage, now: nat, m': Messages, ok: bool) {
    if |OfDevice(e, msg.deviceId)| < cfg.maxMessagesPerDevice then (m', ok) == StoreUnderTotal(cfg, e, msg, now)
    else m' == e && !ok
  }

  function MarkDelivered(m: Messages, ids: seq<string>): Messages {
    map id | id in m :: if id in ids then m[id].(delivered := true) else m[id]
  }

  function CountAttempt(m: Messages, id: string): Messages {
    if id in m then m[id := m[id].(deliveryAttempts := m[id].deliveryAttempts + 1)] else m
  }

  /** Priority descending, then age. */
  predicate MoreUrgent(a: CachedMessage, b: CachedMessage) {
    a.priority.Rank() > b.priority.Rank() || (a.priority.Rank() == b.priority.Rank() && a.receivedAt <= b.receivedAt)
  }

  predicate Wanted(msg: CachedMessage, device: string, onlyUndelivered: bool) {
    msg.deviceId == device && (!onlyUndelivered || !msg.delivered)
  }

  function Select(m: Messages, order: seq<string>, device: string, onlyUndelivered: bool): (r: seq<CachedMessage>)
    requires forall i | 0 <= i < |order| :: order[i] in m
    ensures forall msg ::
      msg in r <==> exists i :: 0 <= i < |order| && m[order[i]] == msg && Wanted(msg, device, onlyUndelivered)
  {
    if order == [] then []
    else
      var last := m[order[|order| - 1]];
      Select(m, order[..|order| - 1], device, onlyUndelivered)
      + if Wanted(last, device, onlyUndelivered) then [last] else []
  }

  function Retrieve(
      m: Messages, order: seq<string>, device: string, limit: nat, onlyUndelivered: bool): seq<CachedMessage>
    requires forall i | 0 <= i < |order| :: order[i] in m
  {
    var sorted := SortBy(MoreUrgent, Select(m, order, device, onlyUndelivered));
    if limit < |sorted| then sorted[..limit] else sorted
  }

  /** A possible answer, for some order in which the map is iterated. */
  ghost predicate RetrievedFrom(m: Messages, device: string, limit: nat, onlyUndelivered: bool, r: seq<CachedMessage>) {
    exists order :: Enumerates(order, m.Keys) && r == Retrieve(m, order, device, limit, onlyUndelivered)
  }

  // ----- Sizes -----

  /** Fewer messages, each still of its device. */
  ghost predicate Shrinks(m: Messages, m': Messages) {
    forall id | id in m' :: id in m && m'[id].deviceId == m[id].deviceId
  }

  lemma SubsetSize<T>(a: set<T>, b: set<T>)
    requires a <= b
    ensures |a| <= |b|
    ensures a != b ==> |a| < |b|
  {
    assert b == a + (b - a);
  }

  lemma ShrinkSizes(m: Messages, m': Messages, device: string)
    requires Shrinks(m, m')
    ensures |m'| <= |m| && |OfDevice(m', device)| <= |OfDevice(m, device)|
  {
    SubsetSize(m'.Keys, m.Keys);
    assert |m'| == |m'.Keys| && |m| == |m.Keys|;
    SubsetSize(OfDevice(m', device), OfDevice(m, device));
  }

  lemma ShrinkKeepsLimits(cfg: CacheConfig, m: Messages, m': Messages)
    requires Shrinks(m, m') && InLimits(cfg, m)
    ensures InLimits(cfg, m')
  {
    forall device ensures |OfDevice(m', device)| <= cfg.maxMessagesPerDevice {
      ShrinkSizes(m, m', device);
    }
    ShrinkSizes(m, m', "");
  }

  lemma InsertKeepsLimits(cfg: CacheConfig, m: Messages, msg: CachedMessage)
    requires InLimits(cfg, m)
    requires |m| < cfg.maxTotalMessages && |OfDevice(m, msg.deviceId)| < cfg.maxMessagesPerDevice
    ensures InLimits(cfg, m[msg.messageId := msg])
  {
    var m' := m[msg.messageId := msg];
    assert m'.Keys == m.Keys + {msg.messageId};
    assert |m'| == |m'.Keys| <= |m.Keys| + 1 == |m| + 1;
    forall device ensures |OfDevice(m', device)| <= cfg.maxMessagesPerDevice {
      var larger := OfDevice(m, device) + if device == msg.deviceId then {msg.messageId} else {};
      SubsetSize(OfDevice(m', device), larger);
    }
  }

  lemma StoreUnderTotalKeepsLimits(cfg: CacheConfig, m: Messages, msg: CachedMessage, now: nat)
    requires InLimits(cfg, m) && |OfDevice(m, msg.deviceId)| < cfg.maxMessagesPerDevice
    ensures InLimits(cfg, StoreUnderTotal(cfg, m, msg, now).0)
  {
    if |m| < cfg.maxTotalMessages {
      InsertKeepsLimits(cfg, m, msg);
    } else {
      var g := EvictGlobal(m, now);
      ShrinkKeepsLimits(cfg, m, g);
      ShrinkSizes(m, g, msg.deviceId);
      if |g| < cfg.maxTotalMessages {
        InsertKeepsLimits(cfg, g, msg);
      }
    }
  }

  /** From a state within limits, eviction for a device only drops its delivered messages. */
  lemma EvictionWithinLimits(cfg: CacheConfig, m: Messages, device: string, e: Messages)
    requires |OfDevice(m, device)| <= cfg.maxMessagesPerDevice && EvictedTo(cfg, m, device, e)
    ensures e == DropDelivered(m, device) && Shrinks(m, e)
  {
    ShrinkSizes(m, DropDelivered(m, device), device);
  }

  /** Both bounds hold after a store that started within them, whether it succeeds or not. */
  lemma {:induction false} StoreKeepsLimits(
      cfg: CacheConfig, m: Messages, msg: CachedMessage, now: nat, m': Messages, ok: bool)
    requires InLimits(cfg, m) && StoredTo(cfg, m, msg, now, m', ok)
    ensures InLimits(cfg, m')
  {
    if |OfDevice(m, msg.deviceId)| < cfg.maxMessagesPerDevice {
      StoreUnderTotalKeepsLimits(cfg, m, msg, now);
    } else {
      var e :| EvictedTo(cfg, m, msg.deviceId, e) && AfterEviction(cfg, e, msg, now, m', ok);
      EvictionWithinLimits(cfg, m, msg.deviceId, e);
      ShrinkKeepsLimits(cfg, m, e);
      if |OfDevice(e, msg.deviceId)| < cfg.maxMessagesPerDevice {
        StoreUnderTotalKeepsLimits(cfg, e, msg, now);
      }
    }
  }

  /** What a store within limits removes, exactly: if the device is at its limit, that device's
      delivered messages; if not, and the total limit is reached, every delivered or expired message. */
  predicate RemovedByStore(cfg: CacheConfig, m: Messages, msg: CachedMessage, now: nat, id: string)
    requires id in m
  {
    if |OfDevice(m, msg.deviceId)| >= cfg.maxMessagesPerDevice then m[id].deviceId == msg.deviceId && m[id].delivered
    else |m| >= cfg.maxTotalMessages && (m[id].delivered || m[id].expiresAt <= now)
  }

  lemma {:induction false} StoreRemovesExactly(
      cfg: CacheConfig, m: Messages, msg: CachedMessage, now: nat, m': Messages, ok: bool, id: string)
    requires InLimits(cfg, m) && StoredTo(cfg, m, msg, now, m', ok)
    requires id in m && (id != msg.messageId || !ok)
    ensures id !in m' <==> RemovedByStore(cfg, m, msg, now, id)
    ensures id in m' ==> m'[id] == m[id]
  {
    if |OfDevice(m, msg.deviceId)| >= cfg.maxMessagesPerDevice {
      var e :| EvictedTo(cfg, m, msg.deviceId, e) && AfterEviction(cfg, e, msg, now, m', ok);
      EvictionWithinLimits(cfg, m, msg.deviceId, e);
      DeliveredMakeRoom(m, msg.deviceId);
    }
  }

  /** A successful store holds the message; a refused one adds nothing and alters nothing it keeps. */
  lemma {:induction false} StoreOutcome(
      cfg: CacheConfig, m: Messages, msg: CachedMessage, now: nat, m': Messages, ok: bool)
    requires StoredTo(cfg, m, msg, now, m', ok)
    ensures ok ==> msg.messageId in m' && m'[msg.messageId] == msg
    ensures forall id | id in m' && (id != msg.messageId || !ok) :: id in m && m'[id] == m[id]
  {
    if |OfDevice(m, msg.deviceId)| >= cfg.maxMessagesPerDevice {
      var e :| EvictedTo(cfg, m, msg.deviceId, e) && AfterEviction(cfg, e, msg, now, m', ok);
      EvictionRemovesOnly(cfg, m, msg.deviceId, e);
      if |OfDevice(e, msg.deviceId)| < cfg.maxMessagesPerDevice {
        UnderTotalOutcome(cfg, e, msg, now);
      }
    } else {
      UnderTotalOutcome(cfg, m, msg, now);
    }
  }

  lemma UnderTotalOutcome(cfg: CacheConfig, m: Messages, msg: CachedMessage, now: nat)
    ensures
      var (m', ok) := StoreUnderTotal(cfg, m, msg, now);
      && (ok ==> msg.messageId in m' && m'[msg.messageId] == msg)
      && forall id | id in m' && (id != msg.messageId || !ok) :: id in m && m'[id] == m[id]
  {
  }

  lemma EvictionRemovesOnly(cfg: CacheConfig, m: Messages, device: string, e: Messages)
    requires EvictedTo(cfg, m, device, e)
    ensures forall id | id in e :: id in m && e[id] == m[id]
  {
    var d := DropDelivered(m, device);
    if |OfDevice(d, device)| > cfg.maxMessagesPerDevice {
      var order :| TrimmedBy(cfg, d, device, order, e);
    }
  }

  // ----- Trimming a device that is over its limit -----

  lemma EntryOrder()
    ensures TotalPreorder(LessUrgent)
  {
  }

  lemma {:induction false} DistinctIds(entries: seq<Entry>)
    requires forall i, j | 0 <= i < j < |entries| :: entries[i].id != entries[j].id
    ensures |Ids(entries)| == |entries|
  {
    if entries == [] {
      assert Ids(entries) == {};
    } else {
      var front, last := entries[..|entries| - 1], entries[|entries| - 1];
      DistinctIds(front);
      SplitLast(entries);
      assert Ids(entries) == Ids(front) + {last.id};
    }
  }

  /** Sorting the entries of a device lists each of its messages once. */
  lemma SortedEntries(m: Messages, order: seq<string>, s: set<string>) returns (sorted: seq<Entry>)
    requires Enumerates(order, s) && s <= m.Keys
    ensures sorted == SortBy(LessUrgent, Entries(m, order)) && |sorted| == |order|
    ensures SortedBy(LessUrgent, sorted)
    ensures forall i | 0 <= i < |sorted| :: sorted[i].id in s && sorted[i] == EntryOf(m, sorted[i].id)
    ensures Ids(sorted) == s
    ensures forall i, j | 0 <= i < j < |sorted| :: sorted[i].id != sorted[j].id
  {
    var raw := Entries(m, order);
    sorted := SortBy(LessUrgent, raw);
    EntryOrder();
    SortByCorrect(LessUrgent, raw);
    forall i | 0 <= i < |sorted| ensures sorted[i].id in s && sorted[i] == EntryOf(m, sorted[i].id) {
      assert sorted[i] in multiset(raw);
    }
    forall id | id in s ensures id in Ids(sorted) {
      var k :| 0 <= k < |order| && order[k] == id;
      assert raw[k] in multiset(sorted);
      assert raw[k] in sorted;
    }
    assert forall e | e in sorted :: e.id in s;
    assert Ids(sorted) == s;
    SortedDistinct(raw, sorted);
  }

  lemma SortedDistinct(raw: seq<Entry>, sorted: seq<Entry>)
    requires multiset(sorted) == multiset(raw)
    requires forall i, j | 0 <= i < j < |raw| :: raw[i].id != raw[j].id
    requires forall i, j | 0 <= i < |sorted| && 0 <= j < |sorted| && sorted[i].id == sorted[j].id ::
        sorted[i] == sorted[j]
    ensures forall i, j | 0 <= i < j < |sorted| :: sorted[i].id != sorted[j].id
  {
    ArrangementDistinct(raw, sorted);
  }

  /** The sorted entries of the device, cut where the trim cuts them. */
  lemma TrimmedSplit(cfg: CacheConfig, d: Messages, device: string, order: seq<string>, e: Messages)
      returns (cut: seq<Entry>, stay: seq<Entry>)
    requires TrimmedBy(cfg, d, device, order, e)
    ensures e == d - Ids(cut)
    ensures |Ids(stay)| == cfg.maxMessagesPerDevice
    ensures Ids(cut) + Ids(stay) == OfDevice(d, device) && Ids(cut) !! Ids(stay)
    ensures forall a | a in cut + stay :: a.id in d && a == EntryOf(d, a.id)
    ensures forall a, b | a in cut && b in stay :: LessUrgent(a, b)
  {
    var sorted := SortedEntries(d, order, OfDevice(d, device));
    var count := |order| - cfg.maxMessagesPerDevice;
    cut, stay := sorted[..count], sorted[count..];
    CutInTwo(sorted, count);
    CutInOrder(sorted, count);
    CutMembers(sorted, count);
    DistinctIds(stay);
  }

  lemma CutInOrder(sorted: seq<Entry>, count: nat)
    requires count <= |sorted| && SortedBy(LessUrgent, sorted)
    ensures forall a, b | a in sorted[..count] && b in sorted[count..] :: LessUrgent(a, b)
  {
    forall a, b | a in sorted[..count] && b in sorted[count..] ensures LessUrgent(a, b) {
      var i :| 0 <= i < count && sorted[i] == a;
      var j :| 0 <= j < |sorted| - count && sorted[count..][j] == b;
      assert sorted[count + j] == b;
    }
  }

  lemma CutMembers(sorted: seq<Entry>, count: nat)
    requires count <= |sorted|
    ensures forall a | a in sorted[..count] + sorted[count..] :: a in sorted
  {
    assert sorted == sorted[..count] + sorted[count..];
  }

  /** A device above its limit is cut to exactly the limit; what is cut is at or below everything
      that stays in (priority, age), and other devices are untouched. */
  lemma {:induction false} TrimKeepsMostUrgent(
      cfg: CacheConfig, d: Messages, device: string, order: seq<string>, e: Messages)
    requires TrimmedBy(cfg, d, device, order, e)
    ensures |OfDevice(e, device)| == cfg.maxMessagesPerDevice
    ensures forall id | id in d && d[id].deviceId != device :: id in e && e[id] == d[id]
    ensures forall gone, kept | gone in d && gone !in e && kept in OfDevice(e, device) ::
      gone in OfDevice(d, device) && kept in d && LessUrgent(EntryOf(d, gone), EntryOf(d, kept))
  {
    var cut, stay := TrimmedSplit(cfg, d, device, order, e);
    assert OfDevice(e, device) == Ids(stay);
    forall gone, kept | gone in Ids(cut) && kept in Ids(stay)
      ensures gone in d && kept in d && LessUrgent(EntryOf(d, gone), EntryOf(d, kept))
    {
      EntriesCompare(d, cut, stay, gone, kept);
    }
  }

  lemma EntriesCompare(d: Messages, cut: seq<Entry>, stay: seq<Entry>, gone: string, kept: string)
    requires forall a | a in cut + stay :: a.id in d && a == EntryOf(d, a.id)
    requires forall a, b | a in cut && b in stay :: LessUrgent(a, b)
    requires gone in Ids(cut) && kept in Ids(stay)
    ensures gone in d && kept in d && LessUrgent(EntryOf(d, gone), EntryOf(d, kept))
  {
    var a :| a in cut && a.id == gone;
    var b :| b in stay && b.id == kept;
    assert a in cut + stay && b in cut + stay;
  }

  lemma CutInTwo(sorted: seq<Entry>, count: nat)
    requires count <= |sorted|
    requires forall i, j | 0 <= i < j < |sorted| :: sorted[i].id != sorted[j].id
    ensures Ids(sorted) == Ids(sorted[..count]) + Ids(sorted[count..])
    ensures Ids(sorted[..count]) !! Ids(sorted[count..])
  {
    assert sorted == sorted[..count] + sorted[count..];
    forall id | id in Ids(sorted[..count]) ensures id !in Ids(sorted[count..]) {
      var a :| a in sorted[..count] && a.id == id;
      var i :| 0 <= i < count && sorted[i] == a;
      forall b | b in sorted[count..] ensures b.id != id {
        var j :| 0 <= j < |sorted| - count && sorted[count..][j] == b;
        assert sorted[count + j] == b;
      }
    }
  }

  /** A store for a device that holds more undelivered messages than allowed is refused and cuts the
      device to its limit: nothing delivered stays, what goes undelivered is at or below everything
      that stays in (priority, age), and other devices are untouched. */
  lemma {:induction false} OverLimitStoreRefused(
      cfg: CacheConfig, m: Messages, msg: CachedMessage, now: nat, m': Messages, ok: bool)
    requires |OfDevice(DropDelivered(m, msg.deviceId), msg.deviceId)| > cfg.maxMessagesPerDevice
    requires StoredTo(cfg, m, msg, now, m', ok)
    ensures !ok && |OfDevice(m', msg.deviceId)| == cfg.maxMessagesPerDevice
    ensures forall id | id in m && m[id].deviceId != msg.deviceId :: id in m' && m'[id] == m[id]
    ensures forall kept | kept in OfDevice(m', msg.deviceId) :: kept in m && m'[kept] == m[kept] && !m[kept].delivered
    ensures forall gone, kept |
      gone in m && gone !in m' && !m[gone].delivered && kept in OfDevice(m', msg.deviceId) ::
      kept in m && Outlasts(m[kept], m[gone])
  {
    var order := OverLimitTrims(cfg, m, msg, now, m', ok);
    TrimKeepsMostUrgent(cfg, DropDelivered(m, msg.deviceId), msg.deviceId, order, m');
    SurvivorsOutrank(cfg, m, msg.deviceId, order, m');
  }

  lemma OverLimitTrims(cfg: CacheConfig, m: Messages, msg: CachedMessage, now: nat, m': Messages, ok: bool)
      returns (order: seq<string>)
    requires |OfDevice(DropDelivered(m, msg.deviceId), msg.deviceId)| > cfg.maxMessagesPerDevice
    requires StoredTo(cfg, m, msg, now, m', ok)
    ensures !ok && TrimmedBy(cfg, DropDelivered(m, msg.deviceId), msg.deviceId, order, m')
  {
    var d := DropDelivered(m, msg.deviceId);
    ShrinkSizes(m, d, msg.deviceId);
    var e :| EvictedTo(cfg, m, msg.deviceId, e) && AfterEviction(cfg, e, msg, now, m', ok);
    order :| TrimmedBy(cfg, d, msg.deviceId, order, e);
    TrimKeepsMostUrgent(cfg, d, msg.deviceId, order, e);
  }

  /** kept is more urgent than gone, or as urgent and not received earlier. */
  predicate Outlasts(kept: CachedMessage, gone: CachedMessage) {
    Above(kept.priority, gone.priority) || (kept.priority == gone.priority && gone.receivedAt <= kept.receivedAt)
  }

  lemma SurvivorsOutrank(cfg: CacheConfig, m: Messages, device: string, order: seq<string>, e: Messages)
    requires TrimmedBy(cfg, DropDelivered(m, device), device, order, e)
    ensures forall kept | kept in OfDevice(e, device) :: kept in m && e[kept] == m[kept] && !m[kept].delivered
    ensures forall gone, kept | gone in m && gone !in e && !m[gone].delivered && kept in OfDevice(e, device) ::
      kept in m && Outlasts(m[kept], m[gone])
  {
    var d := DropDelivered(m, device);
    TrimKeepsMostUrgent(cfg, d, device, order, e);
    forall gone, kept | gone in m && gone !in e && !m[gone].delivered && kept in OfDevice(e, device)
      ensures kept in m && Outlasts(m[kept], m[gone])
    {
      assert gone in d && kept in d && LessUrgent(EntryOf(d, gone), EntryOf(d, kept));
    }
  }

  /** From a state within limits a refused store leaves the cache exactly as it was: any eviction
      that removes something also makes room. */
  lemma {:induction false} RefusalChangesNothing(
      cfg: CacheConfig, m: Messages, msg: CachedMessage, now: nat, m': Messages)
    requires InLimits(cfg, m) && StoredTo(cfg, m, msg, now, m', false)
    ensures m' == m
  {
    if |OfDevice(m, msg.deviceId)| < cfg.maxMessagesPerDevice {
      RemovedMakesRoom(m, EvictGlobal(m, now));
    } else {
      var e :| EvictedTo(cfg, m, msg.deviceId, e) && AfterEviction(cfg, e, msg, now, m', false);
      EvictionWithinLimits(cfg, m, msg.deviceId, e);
      DeliveredMakeRoom(m, msg.deviceId);
      RemovedMakesRoom(e, EvictGlobal(e, now));
    }
  }

  lemma RemovedMakesRoom(m: Messages, m': Messages)
    requires forall id | id in m' :: id in m && m'[id] == m[id]
    ensures m' == m || |m'| < |m|
  {
    assert m'.Keys <= m.Keys;
    SubsetSize(m'.Keys, m.Keys);
    assert |m'| == |m'.Keys| && |m| == |m.Keys|;
  }

  lemma DeliveredMakeRoom(m: Messages, device: string)
    ensures
      var e := DropDelivered(m, device);
      e == m || (|e| < |m| && |OfDevice(e, device)| < |OfDevice(m, device)|)
  {
    var e := DropDelivered(m, device);
    RemovedMakesRoom(m, e);
    SubsetSize(OfDevice(e, device), OfDevice(m, device));
    if OfDevice(e, device) == OfDevice(m, device) {
      forall id | id in m ensures id in e {
        assert id in OfDevice(e, device) || m[id].deviceId != device;
      }
      assert e == m;
    }
  }

  // ----- Refused stores -----

  /** Whether a store will be refused: the device's undelivered messages alone reach its limit, or the
      total limit is reached even by what is left once the eviction that applies has run. */
  predicate Refuses(cfg: CacheConfig, m: Messages, msg: CachedMessage, now: nat) {
    var d := DropDelivered(m, msg.deviceId);
    if |OfDevice(m, msg.deviceId)| < cfg.maxMessagesPerDevice then OverTotal(cfg, m, now)
    else |OfDevice(d, msg.deviceId)| >= cfg.maxMessagesPerDevice || OverTotal(cfg, d, now)
  }

  predicate OverTotal(cfg: CacheConfig, m: Messages, now: nat) {
    |m| >= cfg.maxTotalMessages && |EvictGlobal(m, now)| >= cfg.maxTotalMessages
  }

  /** Whether a refused store removes messages all the same: below the device limit, if anything is
      delivered or expired; with the undelivered messages at the limit, if the device is above it; in
      between, always. */
  predicate RefusalEvicts(cfg: CacheConfig, m: Messages, msg: CachedMessage, now: nat) {
    var count := |OfDevice(m, msg.deviceId)|;
    if count < cfg.maxMessagesPerDevice then EvictGlobal(m, now) != m
    else if |OfDevice(DropDelivered(m, msg.deviceId), msg.deviceId)| >= cfg.maxMessagesPerDevice then
      count > cfg.maxMessagesPerDevice
    else true
  }

  /** Eviction leaves the device at its limit exactly when its undelivered messages reach it. */
  lemma EvictionMakesRoomIff(cfg: CacheConfig, m: Messages, device: string, e: Messages)
    requires EvictedTo(cfg, m, device, e)
    ensures
      var undelivered := |OfDevice(DropDelivered(m, device), device)|;
      && (undelivered <= cfg.maxMessagesPerDevice ==> e == DropDelivered(m, device))
      && (undelivered > cfg.maxMessagesPerDevice ==> |OfDevice(e, device)| == cfg.maxMessagesPerDevice)
  {
    var d := DropDelivered(m, device);
    if |OfDevice(d, device)| > cfg.maxMessagesPerDevice {
      var order :| TrimmedBy(cfg, d, device, order, e);
      TrimKeepsMostUrgent(cfg, d, device, order, e);
    }
  }

  /** A store is refused exactly when that test on the cache before it says so. */
  lemma {:induction false} RefusedIff(
      cfg: CacheConfig, m: Messages, msg: CachedMessage, now: nat, m': Messages, ok: bool)
    requires StoredTo(cfg, m, msg, now, m', ok)
    ensures !ok <==> Refuses(cfg, m, msg, now)
  {
    if |OfDevice(m, msg.deviceId)| >= cfg.maxMessagesPerDevice {
      var e :| EvictedTo(cfg, m, msg.deviceId, e) && AfterEviction(cfg, e, msg, now, m', ok);
      EvictionMakesRoomIff(cfg, m, msg.deviceId, e);
    }
  }

  /** And a refused one changes the cache exactly when this test says so. */
  lemma {:induction false} RefusalEvictsIff(cfg: CacheConfig, m: Messages, msg: CachedMessage, now: nat, m': Messages)
    requires StoredTo(cfg, m, msg, now, m', false)
    ensures m' != m <==> RefusalEvicts(cfg, m, msg, now)
  {
    if |OfDevice(m, msg.deviceId)| >= cfg.maxMessagesPerDevice {
      var e :| EvictedTo(cfg, m, msg.deviceId, e) && AfterEviction(cfg, e, msg, now, m', false);
      EvictionMakesRoomIff(cfg, m, msg.deviceId, e);
      DeliveredMakeRoom(m, msg.deviceId);
      GlobalShrinks(e, now, msg.deviceId);
    }
  }

  lemma GlobalShrinks(m: Messages, now: nat, device: string)
    ensures |OfDevice(EvictGlobal(m, now), device)| <= |OfDevice(m, device)|
  {
    ShrinkSizes(m, EvictGlobal(m, now), device);
  }

  // ----- Runs -----

  datatype CacheOp =
    | StoreOp(msg: CachedMessage)
    | MarkDeliveredOp(ids: seq<string>)
    | AttemptOp(id: string)
    | CleanupOp
    | DeleteDeviceOp(device: string)

  /** m' is a possible result of the operation at time now; `saves` says whether it goes on to write the file. */
  ghost predicate Effect(cfg: CacheConfig, m: Messages, op: CacheOp, now: nat, m': Messages, saves: bool) {
    match op
    case StoreOp(msg) => StoredTo(cfg, m, msg, now, m', saves)
    case MarkDeliveredOp(ids) => m' == MarkDelivered(m, ids) && saves == (ids != [])
    case AttemptOp(id) => m' == CountAttempt(m, id) && saves
    case CleanupOp => m' == DropExpired(m, now) && saves == (|m'| < |m|)
    case DeleteDeviceOp(device) => m' == DropDevice(m, device) && saves
  }

  lemma EffectKeepsLimits(cfg: CacheConfig, m: Messages, op: CacheOp, now: nat, m': Messages, saves: bool)
    requires InLimits(cfg, m) && Effect(cfg, m, op, now, m', saves)
    ensures InLimits(cfg, m')
  {
    if op.StoreOp? {
      StoreKeepsLimits(cfg, m, op.msg, now, m', saves);
    } else {
      ShrinkKeepsLimits(cfg, m, m');
    }
  }

  datatype Step = Step(op: CacheOp, now: nat, saves: bool)

  /** A run: states, and between neighbours the operation that led from one to the next. */
  ghost predicate IsRun(cfg: CacheConfig, states: seq<Messages>, steps: seq<Step>) {
    && |states| == |steps| + 1
    && forall i | 0 <= i < |steps| :: Effect(cfg, states[i], steps[i].op, steps[i].now, states[i + 1], steps[i].saves)
  }

  /** The operation, made in state m, concerns this undelivered message: it stores it anew, delivers
      it, deletes its device, or finds it expired, in a cleanup or in a store at the total limit. */
  predicate Touches(cfg: CacheConfig, m: Messages, s: Step, id: string, msg: CachedMessage) {
    match s.op
    case StoreOp(other) =>
      || other.messageId == id
      || (s.now >= msg.expiresAt && |m| >= cfg.maxTotalMessages
          && |OfDevice(m, other.deviceId)| < cfg.maxMessagesPerDevice)
    case MarkDeliveredOp(ids) => id in ids
    case AttemptOp(_) => false
    case CleanupOp => s.now >= msg.expiresAt
    case DeleteDeviceOp(device) => device == msg.deviceId
  }

  /** Equal but for the delivery attempts. */
  predicate SameMessage(a: CachedMessage, b: CachedMessage) {
    a.(deliveryAttempts := 0) == b.(deliveryAttempts := 0)
  }

  /** Over any run from a state within limits both bounds hold throughout, and an undelivered message
      stays, unchanged but for its attempt count, until it is delivered or stored anew, its device is
      deleted, or it has expired and a cleanup or a store at the total limit comes by. */
  lemma {:induction false} RunKeepsLimitsAndMessages(
      cfg: CacheConfig, states: seq<Messages>, steps: seq<Step>, id: string, k: nat)
    requires IsRun(cfg, states, steps) && InLimits(cfg, states[0]) && k < |states|
    ensures InLimits(cfg, states[k])
    ensures
      id in states[0] && !states[0][id].delivered
      && (forall i | 0 <= i < k :: !Touches(cfg, states[i], steps[i], id, states[0][id]))
      ==> id in states[k] && SameMessage(states[k][id], states[0][id])
  {
    if k > 0 {
      RunKeepsLimitsAndMessages(cfg, states, steps, id, k - 1);
      var s := steps[k - 1];
      EffectKeepsLimits(cfg, states[k - 1], s.op, s.now, states[k], s.saves);
      if id in states[0] && !states[0][id].delivered && forall i | 0 <= i < k ::
          !Touches(cfg, states[i], steps[i], id, states[0][id]) {
        UntouchedStays(cfg, states[k - 1], s, states[k], id);
      }
    }
  }

  lemma UntouchedStays(cfg: CacheConfig, m: Messages, s: Step, m': Messages, id: string)
    requires InLimits(cfg, m) && Effect(cfg, m, s.op, s.now, m', s.saves)
    requires id in m && !m[id].delivered && !Touches(cfg, m, s, id, m[id])
    ensures id in m' && SameMessage(m'[id], m[id])
  {
    if s.op.StoreOp? {
      StoreRemovesExactly(cfg, m, s.op.msg, s.now, m', s.saves, id);
    }
  }

  /** What the operations other than a store do, outright, and when they go on to save. */
  lemma {:induction false} OtherOpsOutcome(
      cfg: CacheConfig, m: Messages, op: CacheOp, now: nat, m': Messages, saves: bool)
    requires Effect(cfg, m, op, now, m', saves) && !op.StoreOp?
    ensures
      match op
      case MarkDeliveredOp(ids) =>
        && m'.Keys == m.Keys && saves == (ids != [])
        && forall id | id in m :: m'[id] == if id in ids then m[id].(delivered := true) else m[id]
      case AttemptOp(one) =>
        && m'.Keys == m.Keys && saves
        && forall id | id in m ::
             m'[id] == m[id].(deliveryAttempts := m[id].deliveryAttempts + if id == one then 1 else 0)
      case CleanupOp =>
        && (forall id :: id in m' <==> id in m && m[id].expiresAt > now)
        && (forall id | id in m' :: m'[id] == m[id])
        && (saves <==> exists id :: id in m && m[id].expiresAt <= now)
      case DeleteDeviceOp(device) =>
        && (forall id :: id in m' <==> id in m && m[id].deviceId != device)
        && (forall id | id in m' :: m'[id] == m[id]) && saves
  {
    if op.CleanupOp? {
      RemovedMakesRoom(m, m');
      if |m'| < |m| {
        assert m'.Keys != m.Keys;
      }
    }
  }

  /** No store of this id between steps i and k. */
  predicate NotStored(steps: seq<Step>, id: string, i: nat, k: nat)
    requires k <= |steps|
  {
    forall j | i <= j < k && steps[j].op.StoreOp? :: steps[j].op.msg.messageId != id
  }

  /** Over any run, from any state: what is gone stays gone and what is delivered stays delivered, until
      it is stored anew. So a message found expired by a cleanup, deleted with its device or marked as
      delivered never comes back as undelivered by itself. */
  lemma {:induction false} RunNeverRevives(
      cfg: CacheConfig, states: seq<Messages>, steps: seq<Step>, id: string, i: nat, k: nat)
    requires IsRun(cfg, states, steps) && i <= k < |states| && NotStored(steps, id, i, k)
    ensures id !in states[i] ==> id !in states[k]
    ensures id in states[i] && states[i][id].delivered ==> id !in states[k] || states[k][id].delivered
  {
    if i < k {
      RunNeverRevives(cfg, states, steps, id, i, k - 1);
      var s := steps[k - 1];
      if s.op.StoreOp? {
        StoreOutcome(cfg, states[k - 1], s.op.msg, s.now, states[k], s.saves);
      } else {
        OtherOpsOutcome(cfg, states[k - 1], s.op, s.now, states[k], s.saves);
      }
    }
  }

  /** An operation that does not save has only removed messages. */
  lemma {:induction false} UnsavedOnlyRemoves(cfg: CacheConfig, m: Messages, op: CacheOp, now: nat, m': Messages)
    requires Effect(cfg, m, op, now, m', false)
    ensures forall id | id in m' :: id in m && m'[id] == m[id]
    ensures !op.StoreOp? ==> m' == m
  {
    match op
    case StoreOp(msg) => StoreOutcome(cfg, m, msg, now, m', false);
    case CleanupOp =>
      SubsetSize(m'.Keys, m.Keys);
      assert |m'| == |m'.Keys| && |m| == |m.Keys|;
    case _ =>
  }

  // ----- Retrieval -----

  /** a is more urgent than b, or as urgent and not received later. */
  predicate Before(a: CachedMessage, b: CachedMessage) {
    Above(a.priority, b.priority) || (a.priority == b.priority && a.receivedAt <= b.receivedAt)
  }

  lemma MoreUrgentIsBefore(a: CachedMessage, b: CachedMessage)
    ensures MoreUrgent(a, b) <==> Before(a, b)
  {
  }

  /** The ids of a device's messages, the delivered ones left out if so asked. */
  function WantedIds(m: Messages, device: string, onlyUndelivered: bool): set<string> {
    set id | id in m && m[id].deviceId == device && (onlyUndelivered ==> !m[id].delivered)
  }

  /** Retrieval returns messages of as many different wanted ids as there are, up to the limit, the more
      urgent and older ones first; a wanted message it leaves out comes after all it returns. */
  lemma {:induction false} RetrieveTakesMostUrgent(
      m: Messages, device: string, limit: nat, onlyUndelivered: bool, r: seq<CachedMessage>)
      returns (ids: seq<string>)
    requires RetrievedFrom(m, device, limit, onlyUndelivered, r)
    ensures
      var wanted := WantedIds(m, device, onlyUndelivered);
      && |r| == (if limit < |wanted| then limit else |wanted|)
      && |ids| == |r| && (forall i | 0 <= i < |r| :: ids[i] in wanted && m[ids[i]] == r[i])
      && (forall i, j | 0 <= i < j < |ids| :: ids[i] != ids[j])
      && (forall i, j | 0 <= i < j < |r| :: Before(r[i], r[j]))
      && (forall i, id | 0 <= i < |r| && id in wanted && id !in ids :: Before(r[i], m[id]))
  {
    var order :| Enumerates(order, m.Keys) && r == Retrieve(m, order, device, limit, onlyUndelivered);
    var sorted, all := SortedWithIds(m, order, device, onlyUndelivered);
    ids := all[..|r|];
    forall i, j | 0 <= i < j < |sorted| ensures Before(sorted[i], sorted[j]) {
      MoreUrgentIsBefore(sorted[i], sorted[j]);
    }
    forall i, id | 0 <= i < |r| && id in WantedIds(m, device, onlyUndelivered) && id !in ids
      ensures Before(r[i], m[id])
    {
      var p :| 0 <= p < |all| && all[p] == id;
      assert p >= |r|;
    }
  }

  /** The wanted ids in iteration order, and their messages. */
  function SelectIds(m: Messages, order: seq<string>, device: string, onlyUndelivered: bool): (ids: seq<string>)
    requires forall i | 0 <= i < |order| :: order[i] in m
    ensures forall i | 0 <= i < |ids| :: ids[i] in m
  {
    if order == [] then []
    else
      var last := order[|order| - 1];
      SelectIds(m, order[..|order| - 1], device, onlyUndelivered)
      + if Wanted(m[last], device, onlyUndelivered) then [last] else []
  }

  function MessagesOf(m: Messages, ids: seq<string>): (r: seq<CachedMessage>)
    requires forall i | 0 <= i < |ids| :: ids[i] in m
    ensures |r| == |ids| && forall i | 0 <= i < |r| :: r[i] == m[ids[i]]
  {
    seq(|ids|, i requires 0 <= i < |ids| => m[ids[i]])
  }

  lemma {:induction false} SelectIdsCorrect(m: Messages, order: seq<string>, device: string, onlyUndelivered: bool)
    requires forall i | 0 <= i < |order| :: order[i] in m
    requires forall i, j | 0 <= i < j < |order| :: order[i] != order[j]
    ensures
      var ids := SelectIds(m, order, device, onlyUndelivered);
      && (forall id :: id in ids <==> id in order && Wanted(m[id], device, onlyUndelivered))
      && (forall i, j | 0 <= i < j < |ids| :: ids[i] != ids[j])
      && MessagesOf(m, ids) == Select(m, order, device, onlyUndelivered)
  {
    if order != [] {
      var front, last := order[..|order| - 1], order[|order| - 1];
      SplitLast(order);
      SelectIdsCorrect(m, front, device, onlyUndelivered);
      var ids := SelectIds(m, front, device, onlyUndelivered);
      if Wanted(m[last], device, onlyUndelivered) {
        OneMoreId(ids, last);
        MessagesAppend(m, ids, last);
      }
    }
  }

  lemma MessagesAppend(m: Messages, ids: seq<string>, id: string)
    requires id in m && forall i | 0 <= i < |ids| :: ids[i] in m
    ensures MessagesOf(m, ids + [id]) == MessagesOf(m, ids) + [m[id]]
  {
  }

  lemma MessagesWithout(m: Messages, ids: seq<string>, p: nat)
    requires p < |ids| && forall i | 0 <= i < |ids| :: ids[i] in m
    ensures
      var rest := ids[..p] + ids[p + 1..];
      multiset(MessagesOf(m, ids)) == multiset(MessagesOf(m, rest)) + multiset{m[ids[p]]}
  {
    var rest := ids[..p] + ids[p + 1..];
    var a, b := MessagesOf(m, ids[..p]), MessagesOf(m, ids[p + 1..]);
    assert MessagesOf(m, ids) == a + [m[ids[p]]] + b;
    assert MessagesOf(m, rest) == a + b;
  }

  /** A rearrangement of the messages comes with one of their ids. */
  lemma {:induction false} IdsFollow(m: Messages, ids: seq<string>, sorted: seq<CachedMessage>) returns (r: seq<string>)
    requires forall i | 0 <= i < |ids| :: ids[i] in m
    requires forall i, j | 0 <= i < j < |ids| :: ids[i] != ids[j]
    requires multiset(MessagesOf(m, ids)) == multiset(sorted)
    ensures |r| == |sorted| == |ids| && (forall id :: id in r <==> id in ids)
    ensures forall i | 0 <= i < |r| :: r[i] in m && m[r[i]] == sorted[i]
    ensures forall i, j | 0 <= i < j < |r| :: r[i] != r[j]
    decreases |sorted|
  {
    SameLength(MessagesOf(m, ids), sorted);
    if sorted == [] {
      r := [];
    } else {
      var p := IdOfLast(m, ids, sorted);
      WithoutOneId(ids, p);
      var some := IdsFollow(m, ids[..p] + ids[p + 1..], sorted[..|sorted| - 1]);
      r := some + [ids[p]];
      OneMoreId(some, ids[p]);
    }
  }

  lemma IdOfLast(m: Messages, ids: seq<string>, sorted: seq<CachedMessage>) returns (p: nat)
    requires forall i | 0 <= i < |ids| :: ids[i] in m
    requires multiset(MessagesOf(m, ids)) == multiset(sorted) && sorted != []
    ensures p < |ids| && m[ids[p]] == sorted[|sorted| - 1]
    ensures forall id | id in ids[..p] + ids[p + 1..] :: id in m
    ensures multiset(MessagesOf(m, ids[..p] + ids[p + 1..])) == multiset(sorted[..|sorted| - 1])
  {
    var messages, last := MessagesOf(m, ids), sorted[|sorted| - 1];
    SplitLast(sorted);
    assert last in multiset(messages);
    p :| 0 <= p < |messages| && messages[p] == last;
    MessagesWithout(m, ids, p);
    assert multiset(sorted[..|sorted| - 1]) == multiset(sorted) - multiset{last};
  }

  lemma WithoutOneId(ids: seq<string>, p: nat)
    requires p < |ids| && forall i, j | 0 <= i < j < |ids| :: ids[i] != ids[j]
    ensures
      var rest := ids[..p] + ids[p + 1..];
      && (forall id :: id in ids <==> id in rest || id == ids[p]) && ids[p] !in rest
      && (forall i, j | 0 <= i < j < |rest| :: rest[i] != rest[j])
  {
    assert ids == ids[..p] + [ids[p]] + ids[p + 1..];
  }

  lemma OneMoreId(some: seq<string>, id: string)
    requires id !in some && forall i, j | 0 <= i < j < |some| :: some[i] != some[j]
    ensures forall i, j | 0 <= i < j <= |some| :: (some + [id])[i] != (some + [id])[j]
    ensures forall x :: x in some + [id] <==> x in some || x == id
  {
  }

  lemma SortedWithIds(m: Messages, order: seq<string>, device: string, onlyUndelivered: bool)
      returns (sorted: seq<CachedMessage>, ids: seq<string>)
    requires Enumerates(order, m.Keys)
    ensures sorted == SortBy(MoreUrgent, Select(m, order, device, onlyUndelivered)) && SortedBy(MoreUrgent, sorted)
    ensures |ids| == |sorted| == |WantedIds(m, device, onlyUndelivered)|
    ensures forall id :: id in ids <==> id in WantedIds(m, device, onlyUndelivered)
    ensures forall i | 0 <= i < |ids| :: ids[i] in m && m[ids[i]] == sorted[i]
    ensures forall i, j | 0 <= i < j < |ids| :: ids[i] != ids[j]
  {
    var raw := SelectIds(m, order, device, onlyUndelivered);
    SelectIdsCorrect(m, order, device, onlyUndelivered);
    sorted := SortBy(MoreUrgent, Select(m, order, device, onlyUndelivered));
    SortByCorrect(MoreUrgent, Select(m, order, device, onlyUndelivered));
    ids := IdsFollow(m, raw, sorted);
    EnumerationSize(ids, WantedIds(m, device, onlyUndelivered));
  }

  // ----- The class -----

  class Cache {
    const config: CacheConfig
    var data: Messages
    var file: Messages

    /** Opens the cache on what its file holds. */
    constructor (config: CacheConfig, file: Messages)
      ensures this.config == config && data == file && this.file == file
    {
      this.config, this.data, this.file := config, file, file;
    }

    method Save()
      modifies this`file
      ensures file == data
    {
      file := data;
    }

    /** Check both limits, evict where needed, insert, save; a refused store returns without saving. */
    method Store(msg: CachedMessage, now: nat) returns (ok: bool)
      modifies this
      ensures StoredTo(config, old(data), msg, now, data, ok)
      ensures file == if ok then data else old(file)
    {
      if |OfDevice(data, msg.deviceId)| >= config.maxMessagesPerDevice {
        EvictMessages(msg.deviceId);
        if |OfDevice(data, msg.deviceId)| >= config.maxMessagesPerDevice {
          return false;
        }
      }
      if |data| >= config.maxTotalMessages {
        data := EvictGlobal(data, now);
        if |data| >= config.maxTotalMessages {
          return false;
        }
      }
      data := data[msg.messageId := msg];
      Save();
      ok := true;
    }

    method EvictMessages(device: string)
      modifies this`data
      ensures EvictedTo(config, old(data), device, data)
    {
      data := DropDelivered(data, device);
      var count := |OfDevice(data, device)|;
      if count > config.maxMessagesPerDevice {
        ghost var d := data;
        var order := SomeOrder(OfDevice(data, device));
        EnumerationSize(order, OfDevice(data, device));
        var idsToRemove := Oldest(data, order, |order| - config.maxMessagesPerDevice);
        RemoveAll(idsToRemove);
        assert TrimmedBy(config, d, device, order, data);
      }
    }

    /** The removal loop of the eviction. */
    method RemoveAll(entries: seq<Entry>)
      modifies this`data
      ensures data == old(data) - Ids(entries)
    {
      for i := 0 to |entries|
        invariant data == old(data) - Ids(entries[..i])
      {
        assert entries[..i + 1] == entries[..i] + [entries[i]];
        assert Ids(entries[..i + 1]) == Ids(entries[..i]) + {entries[i].id};
        data := data - {entries[i].id};
      }
      assert entries[..|entries|] == entries;
    }

    /** Filter, sort, truncate; 100 messages when no limit is given. */
    method RetrieveMessages(
        device: string, limit: Option<nat>, onlyUndelivered: bool) returns (messages: seq<CachedMessage>)
      ensures RetrievedFrom(data, device, if limit.Some? then limit.value else 100, onlyUndelivered, messages)
    {
      var order := SomeOrder(data.Keys);
      var count := if limit.Some? then limit.value else 100;
      messages := SortBy(MoreUrgent, Select(data, order, device, onlyUndelivered));
      if count < |messages| {
        messages := messages[..count];
      }
      assert messages == Retrieve(data, order, device, count, onlyUndelivered);
    }

    method MarkAsDelivered(ids: seq<string>)
      modifies this
      ensures data == MarkDelivered(old(data), ids)
      ensures file == if ids == [] then old(file) else data
    {
      if ids == [] {
        assert data == MarkDelivered(data, ids);
        return;
      }
      for i := 0 to |ids|
        invariant data == MarkDelivered(old(data), ids[..i])
      {
        assert ids[..i + 1] == ids[..i] + [ids[i]];
        if ids[i] in data {
          data := data[ids[i] := data[ids[i]].(delivered := true)];
        }
      }
      assert ids[..|ids|] == ids;
      Save();
    }

    method IncrementDeliveryAttempts(id: string)
      modifies this
      ensures data == CountAttempt(old(data), id) && file == data
    {
      if id in data {
        data := data[id := data[id].(deliveryAttempts := data[id].deliveryAttempts + 1)];
      }
      Save();
    }

    method CleanupExpired(now: nat) returns (deleted: nat)
      modifies this
      ensures data == DropExpired(old(data), now) && deleted == |old(data)| - |data|
      ensures file == if deleted > 0 then data else old(file)
    {
      var before := data;
      ShrinkSizes(data, DropExpired(data, now), "");
      data := DropExpired(data, now);
      deleted := |before| - |data|;
      if deleted > 0 {
        Save();
      }
    }

    method DeleteDeviceMessages(device: string)
      modifies this
      ensures data == DropDevice(old(data), device) && file == data
    {
      data := DropDevice(data, device);
      Save();
    }
  }

  /** One operation on the object has one of the effects that the results on runs are about, and the
      file follows exactly when that effect says so. */
  method Perform(cache: Cache, op: CacheOp, now: nat) returns (saves: bool)
    modifies cache
    ensures Effect(cache.config, old(cache.data), op, now, cache.data, saves)
    ensures cache.file == if saves then cache.data else old(cache.file)
  {
    match op {
      case StoreOp(msg) => saves := cache.Store(msg, now);
      case MarkDeliveredOp(ids) =>
        cache.MarkAsDelivered(ids);
        saves := ids != [];
        assert ids == [] ==> cache.data == old(cache.data);
      case AttemptOp(id) =>
        cache.IncrementDeliveryAttempts(id);
        saves := true;
      case CleanupOp =>
        var deleted := cache.CleanupExpired(now);
        saves := deleted > 0;
      case DeleteDeviceOp(device) =>
        cache.DeleteDeviceMessages(device);
        saves := true;
    }
  }
}
