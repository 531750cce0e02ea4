/** The update-window selector (crates/myriadmesh-updates/src/schedule.rs): registered downtimes,
    conflicts, and the choice among scored slots. */
module UpdateWindows {
  import opened Common

  type NodeId = nat
  type AdapterType = nat

  /** A peer is down on an adapter from startTime up to but not at endTime. */
  datatype PeerDowntime = PeerDowntime(
    peerId: NodeId,
    adapterType: AdapterType,
    startTime: nat,
    endTime: nat,
    fallbackAdapters: seq<AdapterType>)
  {
    predicate Overlaps(slot: nat, slotEnd: nat) {
      slot < endTime && startTime < slotEnd
    }

    predicate DownAt(t: nat) {
      startTime <= t < endTime
    }
  }

  type Downtimes = map<NodeId, seq<PeerDowntime>>
  type Loads = map<nat, real>

  const SLOT_SECONDS := 300
  const DAY_SECONDS := 86400
  const SLOTS := 288

  // ----- Conflicts -----

  /** A registered downtime of one of these nodes, on whatever adapter, overlaps the slot. */
  ghost predicate Conflict(m: Downtimes, slot: nat, slotEnd: nat, nodes: set<NodeId>) {
    exists n, d | n in nodes && n in m && d in m[n] :: d.Overlaps(slot, slotEnd)
  }

  function CountOverlaps(ds: seq<PeerDowntime>, slot: nat, slotEnd: nat): nat {
    if ds == [] then 0
    else CountOverlaps(ds[..|ds| - 1], slot, slotEnd) + if ds[|ds| - 1].Overlaps(slot, slotEnd) then 1 else 0
  }

  function NodeOverlaps(m: Downtimes, n: NodeId, slot: nat, slotEnd: nat): nat {
    if n in m then CountOverlaps(m[n], slot, slotEnd) else 0
  }

  function OverlapCount(m: Downtimes, neighbors: seq<NodeId>, slot: nat, slotEnd: nat): nat {
    if neighbors == [] then 0
    else
      OverlapCount(m, neighbors[..|neighbors| - 1], slot, slotEnd)
      + NodeOverlaps(m, neighbors[|neighbors| - 1], slot, slotEnd)
  }

  lemma {:induction false} CountPositive(ds: seq<PeerDowntime>, slot: nat, slotEnd: nat)
    ensures CountOverlaps(ds, slot, slotEnd) > 0 <==> exists d | d in ds :: d.Overlaps(slot, slotEnd)
  {
    if ds != [] {
      SplitLast(ds);
      CountPositive(ds[..|ds| - 1], slot, slotEnd);
    }
  }

  /** The positions in a list of the downtimes that overlap the slot. */
  function Positions(ds: seq<PeerDowntime>, slot: nat, slotEnd: nat): set<nat> {
    set j: nat | j < |ds| && slot < ds[j].endTime && ds[j].startTime < slotEnd
  }

  lemma LastPosition(ds: seq<PeerDowntime>, slot: nat, slotEnd: nat)
    requires ds != []
    ensures
      var front, last := ds[..|ds| - 1], |ds| - 1;
      && last !in Positions(front, slot, slotEnd)
      && Positions(ds, slot, slotEnd)
         == Positions(front, slot, slotEnd)
            + if slot < ds[last].endTime && ds[last].startTime < slotEnd then {last} else {}
  {
  }

  /** The count of a list is the number of its downtimes that overlap the slot. */
  lemma {:induction false} CountIsPositions(ds: seq<PeerDowntime>, slot: nat, slotEnd: nat)
    ensures CountOverlaps(ds, slot, slotEnd) == |Positions(ds, slot, slotEnd)|
  {
    if ds == [] {
      assert Positions(ds, slot, slotEnd) == {};
    } else {
      CountIsPositions(ds[..|ds| - 1], slot, slotEnd);
      LastPosition(ds, slot, slotEnd);
    }
  }

  function Elements<T>(s: seq<T>): set<T> {
    set x | x in s
  }

  /** The conflict test and the scorer agree: a slot conflicts exactly when its overlap count is positive. */
  lemma {:induction false} ConflictIffCounted(m: Downtimes, neighbors: seq<NodeId>, slot: nat, slotEnd: nat)
    ensures Conflict(m, slot, slotEnd, Elements(neighbors)) <==> OverlapCount(m, neighbors, slot, slotEnd) > 0
  {
    if neighbors != [] {
      var front, last := neighbors[..|neighbors| - 1], neighbors[|neighbors| - 1];
      SplitLast(neighbors);
      assert Elements(neighbors) == Elements(front) + {last};
      ConflictIffCounted(m, front, slot, slotEnd);
      if last in m {
        CountPositive(m[last], slot, slotEnd);
      }
    }
  }

  // ----- The order of the neighbours -----

  lemma {:induction false} OverlapCountConcat(m: Downtimes, a: seq<NodeId>, b: seq<NodeId>, slot: nat, slotEnd: nat)
    ensures OverlapCount(m, a + b, slot, slotEnd)
        == OverlapCount(m, a, slot, slotEnd) + OverlapCount(m, b, slot, slotEnd)
  {
    if b == [] {
      assert a + b == a;
    } else {
      assert (a + b)[..|a + b| - 1] == a + b[..|b| - 1];
      OverlapCountConcat(m, a, b[..|b| - 1], slot, slotEnd);
    }
  }

  lemma WithoutOne<T>(b: seq<T>, i: nat)
    requires i < |b|
    ensures b == b[..i] + ([b[i]] + b[i + 1..])
    ensures multiset(b[..i] + b[i + 1..]) == multiset(b) - multiset{b[i]}
  {
    assert b == b[..i] + ([b[i]] + b[i + 1..]);
  }

  lemma TakeOut(m: Downtimes, b: seq<NodeId>, i: nat, slot: nat, slotEnd: nat)
    requires i < |b|
    ensures
      OverlapCount(m, b, slot, slotEnd)
      == OverlapCount(m, b[..i] + b[i + 1..], slot, slotEnd) + NodeOverlaps(m, b[i], slot, slotEnd)
  {
    WithoutOne(b, i);
    OverlapCountConcat(m, b[..i], b[i + 1..], slot, slotEnd);
    OverlapCountConcat(m, [b[i]], b[i + 1..], slot, slotEnd);
    OverlapCountConcat(m, b[..i], [b[i]] + b[i + 1..], slot, slotEnd);
    CountOneNeighbor(m, b[i], slot, slotEnd);
  }

  lemma LastAmong<T>(a: seq<T>, b: seq<T>) returns (i: nat)
    requires a != [] && multiset(a) == multiset(b)
    ensures i < |b| && b[i] == a[|a| - 1]
    ensures multiset(a[..|a| - 1]) == multiset(b[..i] + b[i + 1..])
  {
    SplitLast(a);
    var last := a[|a| - 1];
    assert last in multiset(b);
    i :| i < |b| && b[i] == last;
    WithoutOne(b, i);
    assert multiset(a) == multiset(a[..|a| - 1]) + multiset{last};
  }

  /** The count does not depend on the order the neighbours are listed in. */
  lemma {:induction false} OverlapCountPermutes(m: Downtimes, a: seq<NodeId>, b: seq<NodeId>, slot: nat, slotEnd: nat)
    requires multiset(a) == multiset(b)
    ensures OverlapCount(m, a, slot, slotEnd) == OverlapCount(m, b, slot, slotEnd)
    decreases |a|
  {
    SameLength(a, b);
    if a != [] {
      var i := LastAmong(a, b);
      OverlapCountPermutes(m, a[..|a| - 1], b[..i] + b[i + 1..], slot, slotEnd);
      TakeOut(m, b, i, slot, slotEnd);
    }
  }

  // ----- Scores -----

  /** Hours are UTC: nights are preferred, business hours avoided. */
  function HourBonus(hour: nat): (r: real)
    ensures -20.0 <= r <= 50.0
  {
    if 2 <= hour <= 5 then 50.0
    else if 22 <= hour <= 23 || hour == 0 || hour == 1 then 30.0
    else if 9 <= hour <= 17 then -20.0
    else 0.0
  }

  function HourOf(slot: nat): nat {
    (slot / 3600) % 24
  }

  function LoadOf(load: Loads, hour: nat): real {
    if hour in load then load[hour] else 0.0
  }

  /** Loads are clamped when recorded. */
  predicate Clamped(load: Loads) {
    forall h | h in load :: 0.0 <= load[h] <= 1.0
  }

  /** Everything the choice of a window depends on, with one reading of the clock. */
  datatype Query = Query(downtimes: Downtimes, load: Loads, neighbors: seq<NodeId>, duration: nat, now: nat) {
    function Overlaps(slot: nat): nat {
      OverlapCount(downtimes, neighbors, slot, slot + duration)
    }

    function Score(slot: nat): real {
      100.0 + HourBonus(HourOf(slot))
      - 40.0 * (Overlaps(slot) as real)
      - LoadOf(load, HourOf(slot)) * 30.0
      - ((SaturatingSub(slot, now) / 3600) as real) * 0.5
    }

    /** The k-th of the slots looked at. */
    function Slot(k: nat): nat {
      now + SLOT_SECONDS * k
    }
  }

  /** What the parts of a score are worth. An hour of the night (2 to 5) is worth 50 points, a late or
      early one (22 to 1) 30, and a business hour (9 to 17) costs 20; an overlap costs 40, a full load
      30, and an hour of delay half a point. */
  lemma {:induction false} ScoreParts(q: Query, slot: nat)
    ensures
      var hour := slot / 3600 % 24;
      var base := q.Score(slot) + 40.0 * (q.Overlaps(slot) as real)
                  + (if hour in q.load then 30.0 * q.load[hour] else 0.0)
                  + (if slot >= q.now then ((slot - q.now) / 3600) as real / 2.0 else 0.0);
      && (hour == 2 || hour == 3 || hour == 4 || hour == 5 ==> base == 150.0)
      && (hour == 22 || hour == 23 || hour == 0 || hour == 1 ==> base == 130.0)
      && (9 <= hour <= 17 ==> base == 80.0)
      && (6 <= hour <= 8 || 18 <= hour <= 21 ==> base == 100.0)
  {
  }

  /** The earliest slot among those with the highest score. */
  ghost predicate EarliestBest(q: Query, best: nat) {
    exists k: nat | k < SLOTS :: best == q.Slot(k) && BestOf(q, k, SLOTS)
  }

  ghost predicate BestOf(q: Query, k: nat, n: nat) {
    && (forall j: nat | j < n :: q.Score(q.Slot(j)) <= q.Score(q.Slot(k)))
    && (forall j: nat | j < k :: q.Score(q.Slot(j)) < q.Score(q.Slot(k)))
  }

  lemma BestBeatsSlot(q: Query, best: nat, k: nat)
    requires EarliestBest(q, best) && k < SLOTS
    ensures q.now <= best < q.now + DAY_SECONDS && q.Score(q.now + SLOT_SECONDS * k) <= q.Score(best)
  {
    assert q.Slot(k) == q.now + SLOT_SECONDS * k;
  }

  /** In plain numbers: the choice lies within the coming day, on a five-minute step from now; no step of
      the day scores higher, and no earlier one as high. */
  lemma {:induction false} BestOfDay(q: Query, best: nat)
    requires EarliestBest(q, best)
    ensures q.now <= best < q.now + 86400 && (best - q.now) % 300 == 0
    ensures forall k: nat | k < 288 :: q.Score(q.now + 300 * k) <= q.Score(best)
    ensures forall k: nat | q.now + 300 * k < best :: q.Score(q.now + 300 * k) < q.Score(best)
  {
    OnStep(q, best);
    forall k: nat | k < 288 ensures q.Score(q.now + 300 * k) <= q.Score(best) {
      BestBeatsSlot(q, best, k);
    }
    forall k: nat | q.now + 300 * k < best ensures q.Score(q.now + 300 * k) < q.Score(best) {
      EarlierScoresLess(q, best, k);
    }
  }

  lemma OnStep(q: Query, best: nat)
    requires EarliestBest(q, best)
    ensures q.now <= best < q.now + 86400 && (best - q.now) % 300 == 0
  {
  }

  lemma EarlierScoresLess(q: Query, best: nat, k: nat)
    requires EarliestBest(q, best) && q.now + 300 * k < best
    ensures q.Score(q.now + 300 * k) < q.Score(best)
  {
    var i: nat :| i < SLOTS && best == q.Slot(i) && BestOf(q, i, SLOTS);
    assert q.Slot(k) == q.now + 300 * k && k < i;
  }

  /** There is only one. */
  lemma {:induction false} EarliestBestUnique(q: Query, a: nat, b: nat)
    requires EarliestBest(q, a) && EarliestBest(q, b)
    ensures a == b
  {
    var i: nat :| i < SLOTS && a == q.Slot(i) && BestOf(q, i, SLOTS);
    var j: nat :| j < SLOTS && b == q.Slot(j) && BestOf(q, j, SLOTS);
    assert q.Score(q.Slot(i)) == q.Score(q.Slot(j));
  }

  /** The chosen window does not depend on the order a hash set hands out the neighbours. */
  lemma {:induction false} ChoiceIgnoresNeighborOrder(q: Query, order: seq<NodeId>, s: set<NodeId>, best: nat)
    requires Enumerates(q.neighbors, s) && Enumerates(order, s)
    ensures EarliestBest(q, best) <==> EarliestBest(q.(neighbors := order), best)
  {
    var r := q.(neighbors := order);
    EnumerationsArePermutations(q.neighbors, order, s);
    SameScoresSameChoice(q, r, best) by {
      forall slot: nat ensures q.Score(slot) == r.Score(slot) {
        OverlapCountPermutes(q.downtimes, q.neighbors, order, slot, slot + q.duration);
      }
    }
  }

  lemma SameScoresSameChoice(q: Query, r: Query, best: nat)
    requires q.now == r.now
    requires forall slot: nat | q.now <= slot :: q.Score(slot) == r.Score(slot)
    ensures EarliestBest(q, best) <==> EarliestBest(r, best)
  {
    forall k: nat | k < SLOTS ensures BestOf(q, k, SLOTS) <==> BestOf(r, k, SLOTS) {
      assert forall j: nat :: q.Slot(j) == r.Slot(j) && q.Score(q.Slot(j)) == r.Score(r.Slot(j));
    }
  }

  /** Hour, load and delay together move a score by at most 111.5 within the day looked ahead. */
  lemma {:induction false} ScoreSwing(q: Query, j: nat, k: nat)
    requires Clamped(q.load) && j < SLOTS && k < SLOTS
    ensures
      var a, b := q.Slot(j), q.Slot(k);
      q.Score(a) + 40.0 * (q.Overlaps(a) as real) - (q.Score(b) + 40.0 * (q.Overlaps(b) as real)) <= 111.5
  {
    var a, b := q.Slot(j), q.Slot(k);
    assert 0 <= SaturatingSub(a, q.now) / 3600 <= 23 && 0 <= SaturatingSub(b, q.now) / 3600 <= 23;
    assert 0.0 <= LoadOf(q.load, HourOf(a)) <= 1.0 && 0.0 <= LoadOf(q.load, HourOf(b)) <= 1.0;
  }

  /** So an overlap, at 40 points, can be outweighed only twice: the chosen slot overlaps at most two
      more downtimes than any other. */
  lemma {:induction false} ChosenSlotOverlaps(q: Query, best: nat, k: nat)
    requires Clamped(q.load) && EarliestBest(q, best) && k < SLOTS
    ensures q.Overlaps(best) <= q.Overlaps(q.Slot(k)) + 2
  {
    var i: nat :| i < SLOTS && best == q.Slot(i) && BestOf(q, i, SLOTS);
    ScoreSwing(q, i, k);
    assert q.Score(q.Slot(k)) <= q.Score(best);
    assert 40.0 * (q.Overlaps(best) as real) <= 40.0 * (q.Overlaps(q.Slot(k)) as real) + 111.5;
  }

  /** Two is attained. Outside business hours every slot meets two downtimes; inside them none, but
      there the load is full: the night slot wins. */
  function BusyOffice(): Query {
    var morning, evening := PeerDowntime(0, 0, 0, 32400, []), PeerDowntime(0, 0, 64800, 90000, []);
    Query(map[0 := [morning, morning, evening, evening]], OFFICE_LOAD, [0], 1, 0)
  }

  const OFFICE_LOAD: Loads := map[
    9 := 1.0, 10 := 1.0, 11 := 1.0, 12 := 1.0, 13 := 1.0, 14 := 1.0, 15 := 1.0, 16 := 1.0, 17 := 1.0]

  lemma CountOfFour(a: PeerDowntime, b: PeerDowntime, slot: nat, slotEnd: nat)
    ensures
      CountOverlaps([a, a, b, b], slot, slotEnd)
      == (if a.Overlaps(slot, slotEnd) then 2 else 0) + (if b.Overlaps(slot, slotEnd) then 2 else 0)
  {
    CountAppend([], a, slot, slotEnd);
    CountAppend([a], a, slot, slotEnd);
    CountAppend([a, a], b, slot, slotEnd);
    CountAppend([a, a, b], b, slot, slotEnd);
    assert [] + [a] == [a] && [a] + [a] == [a, a] && [a, a] + [b] == [a, a, b] && [a, a, b] + [b] == [a, a, b, b];
  }

  lemma CountAppend(ds: seq<PeerDowntime>, d: PeerDowntime, slot: nat, slotEnd: nat)
    ensures CountOverlaps(ds + [d], slot, slotEnd)
        == CountOverlaps(ds, slot, slotEnd) + if d.Overlaps(slot, slotEnd) then 1 else 0
  {
    assert (ds + [d])[..|ds|] == ds;
  }

  lemma CountOneNeighbor(m: Downtimes, n: NodeId, slot: nat, slotEnd: nat)
    ensures OverlapCount(m, [n], slot, slotEnd) == NodeOverlaps(m, n, slot, slotEnd)
  {
    assert [n][..0] == [];
  }

  lemma OfficeOverlaps(slot: nat)
    requires slot < DAY_SECONDS
    ensures BusyOffice().Overlaps(slot) == if 9 <= HourOf(slot) <= 17 then 0 else 2
  {
    var q := BusyOffice();
    var morning, evening := PeerDowntime(0, 0, 0, 32400, []), PeerDowntime(0, 0, 64800, 90000, []);
    CountOfFour(morning, evening, slot, slot + 1);
    CountOneNeighbor(q.downtimes, 0, slot, slot + 1);
  }

  /** In business hours no slot reaches 50 points; the slot at two in the morning has 69. */
  lemma OfficeScores(slot: nat)
    requires slot < DAY_SECONDS
    ensures 9 <= HourOf(slot) <= 17 ==> BusyOffice().Score(slot) <= 50.0
    ensures slot == 7200 ==> BusyOffice().Score(slot) == 69.0
  {
    OfficeOverlaps(slot);
    if 9 <= HourOf(slot) <= 17 {
      assert HourOf(slot) in OFFICE_LOAD;
    }
  }

  lemma {:induction false} TwoMoreOverlapsHappen(best: nat)
    requires EarliestBest(BusyOffice(), best)
    ensures BusyOffice().Overlaps(best) == BusyOffice().Overlaps(32400) + 2
    ensures 32400 == BusyOffice().Slot(108)
  {
    BestOutsideHours(best);
    TwoMoreOutsideHours(best);
  }

  lemma TwoMoreOutsideHours(slot: nat)
    requires slot < DAY_SECONDS && !(9 <= HourOf(slot) <= 17)
    ensures BusyOffice().Overlaps(slot) == BusyOffice().Overlaps(32400) + 2
    ensures 32400 == BusyOffice().Slot(108)
  {
    OfficeOverlaps(slot);
    OfficeOverlaps(32400);
  }

  lemma BestOutsideHours(best: nat)
    requires EarliestBest(BusyOffice(), best)
    ensures best < DAY_SECONDS && !(9 <= HourOf(best) <= 17)
  {
    BestBeatsSlot(BusyOffice(), best, 24);
    OfficeScores(7200);
    OfficeScores(best);
  }

  // ----- Cleanup -----

  function Live(ds: seq<PeerDowntime>, now: nat): (r: seq<PeerDowntime>)
    ensures forall d :: d in r <==> d in ds && d.endTime > now
  {
    if ds == [] then []
    else
      var last := ds[|ds| - 1];
      Live(ds[..|ds| - 1], now) + if last.endTime > now then [last] else []
  }

  /** Downtimes that have not ended; peers left without any are dropped. */
  function Cleanup(m: Downtimes, now: nat): Downtimes {
    map n | n in m && Live(m[n], now) != [] :: Live(m[n], now)
  }

  /** The lists of these peers cut to what has not ended. */
  function Trimmed(m: Downtimes, peers: set<NodeId>, now: nat): Downtimes {
    map n | n in m :: if n in peers then Live(m[n], now) else m[n]
  }

  lemma TrimOne(m: Downtimes, peers: set<NodeId>, n: NodeId, now: nat)
    requires n in m && n !in peers
    ensures Trimmed(m, peers + {n}, now) == Trimmed(m, peers, now)[n := Live(m[n], now)]
  {
  }

  /** With every list cut, dropping the empty ones is the whole cleanup. */
  lemma TrimAllIsCleanup(m: Downtimes, order: seq<NodeId>, now: nat)
    requires Enumerates(order, m.Keys)
    ensures
      var t := Trimmed(m, Elements(order), now);
      (map n | n in t && t[n] != [] :: t[n]) == Cleanup(m, now)
  {
    assert Elements(order) == m.Keys;
  }

  lemma OneMore<T>(s: seq<T>, i: nat)
    requires i < |s| && forall j, k | 0 <= j < k < |s| :: s[j] != s[k]
    ensures Elements(s[..i + 1]) == Elements(s[..i]) + {s[i]} && s[i] !in Elements(s[..i])
  {
    assert s[..i + 1] == s[..i] + [s[i]];
  }

  lemma {:induction false} CountLive(ds: seq<PeerDowntime>, now: nat, slot: nat, slotEnd: nat)
    requires now <= slot
    ensures CountOverlaps(Live(ds, now), slot, slotEnd) == CountOverlaps(ds, slot, slotEnd)
  {
    if ds != [] {
      var front, last := ds[..|ds| - 1], ds[|ds| - 1];
      CountLive(front, now, slot, slotEnd);
      if last.endTime > now {
        assert Live(ds, now)[..|Live(ds, now)| - 1] == Live(front, now);
      } else {
        assert Live(ds, now) == Live(front, now);
      }
    }
  }

  /** Cleanup changes no overlap count of a slot at or after its time. */
  lemma {:induction false} CleanupKeepsCounts(m: Downtimes, now: nat, neighbors: seq<NodeId>, slot: nat, slotEnd: nat)
    requires now <= slot
    ensures OverlapCount(Cleanup(m, now), neighbors, slot, slotEnd) == OverlapCount(m, neighbors, slot, slotEnd)
  {
    if neighbors != [] {
      CleanupKeepsCounts(m, now, neighbors[..|neighbors| - 1], slot, slotEnd);
      var n := neighbors[|neighbors| - 1];
      if n in m {
        CountLive(m[n], now, slot, slotEnd);
      }
    }
  }

  /** Nor any conflict answer for such a slot. */
  lemma {:induction false} CleanupKeepsConflicts(m: Downtimes, now: nat, nodes: set<NodeId>, slot: nat, slotEnd: nat)
    requires now <= slot
    ensures Conflict(Cleanup(m, now), slot, slotEnd, nodes) <==> Conflict(m, slot, slotEnd, nodes)
  {
    if Conflict(m, slot, slotEnd, nodes) {
      var n, d :| n in nodes && n in m && d in m[n] && d.Overlaps(slot, slotEnd);
      assert d in Live(m[n], now);
      assert n in Cleanup(m, now) && d in Cleanup(m, now)[n];
    }
  }

  /** Nor the window chosen at or after it. */
  lemma {:induction false} CleanupKeepsChoice(q: Query, now: nat, best: nat)
    requires now <= q.now
    ensures EarliestBest(q, best) <==> EarliestBest(q.(downtimes := Cleanup(q.downtimes, now)), best)
  {
    var r := q.(downtimes := Cleanup(q.downtimes, now));
    forall slot: nat | q.now <= slot ensures q.Score(slot) == r.Score(slot) {
      CleanupKeepsCounts(q.downtimes, now, q.neighbors, slot, slot + q.duration);
    }
    SameScoresSameChoice(q, r, best);
  }

  // ----- The class -----

  function Register(m: Downtimes, d: PeerDowntime): Downtimes {
    m[d.peerId := (if d.peerId in m then m[d.peerId] else []) + [d]]
  }

  function ClampLoad(load: real): (r: real)
    ensures 0.0 <= r <= 1.0
  {
    if load < 0.0 then 0.0 else if load > 1.0 then 1.0 else load
  }

  function Recorded(m: Loads, hour: nat, load: real): Loads {
    m[hour % 24 := ClampLoad(load)]
  }

  /** A recorded load takes the place of the hour's, kept between 0 and 1; other hours keep theirs. */
  lemma {:induction false} RecordedLoad(m: Loads, hour: nat, load: real, other: nat)
    requires other < 24
    ensures
      LoadOf(Recorded(m, hour, load), other)
      == if other != hour % 24 then LoadOf(m, other)
         else if load <= 0.0 then 0.0
         else if load >= 1.0 then 1.0
         else load
    ensures Clamped(m) ==> Clamped(Recorded(m, hour, load))
  {
  }

  class UpdateWindowSelector {
    var peerDowntimes: Downtimes
    var networkLoad: Loads

    ghost predicate Valid()
      reads this
    {
      Clamped(networkLoad) && forall h | h in networkLoad :: h < 24
    }

    ghost function Ask(neighbors: seq<NodeId>, duration: nat, now: nat): Query
      reads this
    {
      Query(peerDowntimes, networkLoad, neighbors, duration, now)
    }

    constructor ()
      ensures Valid() && peerDowntimes == map[] && networkLoad == map[]
    {
      peerDowntimes, networkLoad := map[], map[];
    }

    method RegisterPeerDowntime(d: PeerDowntime)
      modifies this`peerDowntimes
      ensures peerDowntimes == Register(old(peerDowntimes), d)
    {
      var known := if d.peerId in peerDowntimes then peerDowntimes[d.peerId] else [];
      peerDowntimes := peerDowntimes[d.peerId := known + [d]];
    }

    method CleanupExpiredDowntimes(now: nat)
      modifies this`peerDowntimes
      ensures peerDowntimes == Cleanup(old(peerDowntimes), now)
    {
      var order := SomeOrder(peerDowntimes.Keys);
      TrimLists(order, now);
      TrimAllIsCleanup(old(peerDowntimes), order, now);
      peerDowntimes := map n | n in peerDowntimes && peerDowntimes[n] != [] :: peerDowntimes[n];
    }

    /** The loop over the lists. */
    method TrimLists(peers: seq<NodeId>, now: nat)
      requires forall i, j | 0 <= i < j < |peers| :: peers[i] != peers[j]
      requires forall i | 0 <= i < |peers| :: peers[i] in peerDowntimes
      modifies this`peerDowntimes
      ensures peerDowntimes == Trimmed(old(peerDowntimes), Elements(peers), now)
    {
      for i := 0 to |peers|
        invariant peerDowntimes == Trimmed(old(peerDowntimes), Elements(peers[..i]), now)
      {
        OneMore(peers, i);
        TrimOne(old(peerDowntimes), Elements(peers[..i]), peers[i], now);
        peerDowntimes := peerDowntimes[peers[i] := Live(peerDowntimes[peers[i]], now)];
      }
      assert peers[..|peers|] == peers;
    }

    /** Looks ahead a day in steps of five minutes and keeps the first slot with the highest score. */
    method FindOptimalWindow(neighbors: seq<NodeId>, duration: nat, now: nat) returns (bestWindow: nat)
      ensures EarliestBest(Ask(neighbors, duration, now), bestWindow)
    {
      ghost var q := Ask(neighbors, duration, now);
      bestWindow := now + 300;
      var bestScore: Option<real> := None;
      var slot := now;
      ghost var i: nat, k: nat := 0, 0;
      while slot < now + DAY_SECONDS
        invariant i <= SLOTS && slot == q.Slot(i)
        invariant i == 0 <==> bestScore.None?
        invariant i > 0 ==> k < i && bestWindow == q.Slot(k) && BestOf(q, k, i)
        invariant i > 0 ==> bestScore == Some(q.Score(bestWindow))
      {
        var score := EvaluateUpdateSlot(slot, neighbors, duration, now);
        if bestScore.None? || score > bestScore.value {
          bestScore, bestWindow := Some(score), slot;
          k := i;
        }
        slot := slot + SLOT_SECONDS;
        i := i + 1;
      }
    }

    method EvaluateUpdateSlot(slot: nat, neighbors: seq<NodeId>, duration: nat, now: nat) returns (score: real)
      ensures score == Ask(neighbors, duration, now).Score(slot)
    {
      score := 100.0;
      var hour := (slot / 3600) % 24;
      if 2 <= hour <= 5 {
        score := score + 50.0;
      } else if 22 <= hour <= 23 || hour == 0 || hour == 1 {
        score := score + 30.0;
      } else if 9 <= hour <= 17 {
        score := score - 20.0;
      }
      score := PenalizeOverlaps(score, slot, slot + duration, neighbors);
      if hour in networkLoad {
        score := score - networkLoad[hour] * 30.0;
      }
      var hoursFromNow := SaturatingSub(slot, now) / 3600;
      score := score - (hoursFromNow as real) * 0.5;
    }

    /** The nested loop over neighbours and their downtimes. */
    method PenalizeOverlaps(start: real, slot: nat, slotEnd: nat, neighbors: seq<NodeId>) returns (score: real)
      ensures score == start - 40.0 * (OverlapCount(peerDowntimes, neighbors, slot, slotEnd) as real)
    {
      score := start;
      for i := 0 to |neighbors|
        invariant score == start - 40.0 * (OverlapCount(peerDowntimes, neighbors[..i], slot, slotEnd) as real)
      {
        assert neighbors[..i + 1][..i] == neighbors[..i];
        if neighbors[i] in peerDowntimes {
          var ds := peerDowntimes[neighbors[i]];
          ghost var before := score;
          for j := 0 to |ds|
            invariant score == before - 40.0 * (CountOverlaps(ds[..j], slot, slotEnd) as real)
          {
            assert ds[..j + 1][..j] == ds[..j];
            if slot < ds[j].endTime && ds[j].startTime < slotEnd {
              score := score - 40.0;
            }
          }
          assert ds[..|ds|] == ds;
        }
      }
      assert neighbors[..|neighbors|] == neighbors;
    }

    /** Stops at the first overlap found. */
    method HasConflict(slot: nat, duration: nat, neighbors: seq<NodeId>) returns (conflict: bool)
      ensures conflict <==> Conflict(peerDowntimes, slot, slot + duration, Elements(neighbors))
    {
      var slotEnd := slot + duration;
      for i := 0 to |neighbors|
        invariant !Conflict(peerDowntimes, slot, slotEnd, Elements(neighbors[..i]))
      {
        var n := neighbors[i];
        if n in peerDowntimes {
          var ds := peerDowntimes[n];
          for j := 0 to |ds|
            invariant forall d | d in ds[..j] :: !d.Overlaps(slot, slotEnd)
          {
            if slot < ds[j].endTime && ds[j].startTime < slotEnd {
              assert n in Elements(neighbors) && ds[j] in peerDowntimes[n] && ds[j].Overlaps(slot, slotEnd);
              return true;
            }
          }
          assert ds[..|ds|] == ds;
        }
        assert Elements(neighbors[..i + 1]) == Elements(neighbors[..i]) + {n};
      }
      assert neighbors[..|neighbors|] == neighbors;
      conflict := false;
    }

    method UpdateNetworkLoad(hour: nat, load: real)
      requires Valid()
      modifies this`networkLoad
      ensures Valid()
      ensures networkLoad == Recorded(old(networkLoad), hour, load)
    {
      var clamped := if load < 0.0 then 0.0 else if load > 1.0 then 1.0 else load;
      networkLoad := networkLoad[hour % 24 := clamped];
    }
  }
}
