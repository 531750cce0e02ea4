/** The failover manager's decisions, health records and event log (myriadnode-full/src/failover.rs). */
module Failover {
  import opened Common
  import opened Scoring

  // ----- Health of one adapter -----

  datatype HealthStatus = Healthy | Degraded | Failed

  datatype AdapterHealth = AdapterHealth(
    status: HealthStatus,
    consecutiveFailures: nat,
    currentMetrics: Option<AdapterMetrics>,
    baselineLatency: Option<real>)
  {
    function RecordSuccess(m: AdapterMetrics): AdapterHealth {
      AdapterHealth(
        Healthy, 0, Some(m),
        match baselineLatency
        case Some(baseline) => Some(baseline * 0.9 + m.latencyMs * 0.1)
        case None => Some(m.latencyMs))
    }

    function RecordFailure(): AdapterHealth {
      var failures := consecutiveFailures + 1;
      this.(consecutiveFailures := failures, status := if failures >= 3 then Failed else Degraded)
    }

    /** Compares the latency recorded last, not the one just read, with the baseline. */
    predicate IsLatencyDegraded(multiplier: real) {
      baselineLatency.Some? && currentMetrics.Some?
      && currentMetrics.value.latencyMs > LatencyThreshold(multiplier)
    }

    function LatencyThreshold(multiplier: real): real
      requires baselineLatency.Some?
    {
      baselineLatency.value * multiplier
    }
  }

  const NEW_HEALTH := AdapterHealth(Healthy, 0, None, None)

  // ----- One scan over the adapters -----

  datatype Event =
    | AdapterSwitch(from: string, to: string, score: Option<real>)
    | ThresholdViolation(adapter: string, value: real, threshold: real)
    | AdapterDown(adapter: string)

  function Least(a: nat, b: nat): nat {
    if a < b then a else b
  }

  /** What the adapter manager reports for one adapter id: nothing, not ready, or its metrics. */
  datatype Reading = Unknown | NotReady | Ready(metrics: AdapterMetrics)

  datatype Scan = Scan(health: map<string, AdapterHealth>, events: seq<Event>, metrics: map<string, AdapterMetrics>)

  function HealthOf(health: map<string, AdapterHealth>, id: string): AdapterHealth {
    if id in health then health[id] else NEW_HEALTH
  }

  /** One adapter's turn in the loop. */
  function ScanOne(multiplier: real, s: Scan, id: string, reading: Reading): Scan {
    var h := HealthOf(s.health, id);
    match reading
    case Unknown => s.(health := s.health[id := h])
    case NotReady =>
      var failed := h.RecordFailure();
      var events := if failed.status == Failed then s.events + [AdapterDown(id)] else s.events;
      Scan(s.health[id := failed], events, s.metrics)
    case Ready(m) =>
      if h.IsLatencyDegraded(multiplier) then
        Scan(s.health[id := h.RecordFailure()],
             s.events + [ThresholdViolation(id, m.latencyMs, h.LatencyThreshold(multiplier))],
             s.metrics[id := m])
      else Scan(s.health[id := h.RecordSuccess(m)], s.events, s.metrics[id := m])
  }

  function ScanAll(multiplier: real, s: Scan, readings: seq<(string, Reading)>): Scan
    decreases |readings|
  {
    if readings == [] then s
    else ScanAll(multiplier, ScanOne(multiplier, s, readings[0].0, readings[0].1), readings[1..])
  }

  /** One visit, outright: what becomes of the record, and what is logged. An adapter that is not ready,
      or is degraded in latency, counts one more failure; a success clears the count; a down event is
      logged exactly for one that is not ready for the third time running or more. */
  lemma {:induction false} VisitOutcome(multiplier: real, s: Scan, id: string, reading: Reading)
    ensures
      var before := if id in s.health then s.health[id] else AdapterHealth(Healthy, 0, None, None);
      var t := ScanOne(multiplier, s, id, reading);
      && t.health.Keys == s.health.Keys + {id}
      && (forall other | other in s.health && other != id :: t.health[other] == s.health[other])
      && match reading
         case Unknown => t.health[id] == before && t.events == s.events
         case NotReady =>
           && t.health[id].consecutiveFailures == before.consecutiveFailures + 1
           && (t.health[id].status.Failed? <==> before.consecutiveFailures >= 2)
           && t.events == s.events + if before.consecutiveFailures >= 2 then [AdapterDown(id)] else []
         case Ready(m) =>
           if before.IsLatencyDegraded(multiplier) then
             && t.health[id].consecutiveFailures == before.consecutiveFailures + 1
             && t.events == s.events
                + [ThresholdViolation(id, m.latencyMs, before.baselineLatency.value * multiplier)]
           else
             && t.health[id].consecutiveFailures == 0 && t.health[id].status == Healthy
             && t.health[id].currentMetrics == Some(m) && t.events == s.events
  {
    var before := if id in s.health then s.health[id] else AdapterHealth(Healthy, 0, None, None);
    if before.baselineLatency.Some? {
      var threshold := before.baselineLatency.value * multiplier;
      assert before.LatencyThreshold(multiplier) == threshold;
    }
  }

  // ----- Choosing the primary -----

  function ScoreOf(scores: seq<AdapterScore>, id: string): Option<real> {
    if scores == [] then None
    else if scores[0].adapterId == id then Some(scores[0].totalScore)
    else ScoreOf(scores[1..], id)
  }

  /** Switch when there is no primary, it is not ranked, or the best beats it by more than a tenth. */
  predicate ShouldSwitch(scores: seq<AdapterScore>, primary: Option<string>)
    requires scores != []
  {
    match primary
    case None => true
    case Some(id) =>
      match ScoreOf(scores, id)
      case None => true
      case Some(current) => scores[0].totalScore > current * 1.10
  }

  function Decide(scores: seq<AdapterScore>, primary: Option<string>): Option<string> {
    if scores != [] && ShouldSwitch(scores, primary) then Some(scores[0].adapterId) else primary
  }

  /** The primary after a check over the ready adapters' metrics; fewer than two change nothing. */
  function Check(
      w: ScoringWeights, metrics: map<string, AdapterMetrics>, order: seq<string>, primary: Option<string>)
      : Option<string>
    requires Enumerates(order, metrics.Keys)
  {
    if |metrics| < 2 then primary else Decide(RankAdapters(w, metrics, order), primary)
  }

  function PrimaryName(primary: Option<string>): string {
    match primary case Some(id) => id case None => "none"
  }

  /** What that check logs about the switch: one event when it switches, none otherwise. */
  function SwitchEvents(
      w: ScoringWeights, metrics: map<string, AdapterMetrics>, order: seq<string>, primary: Option<string>): seq<Event>
    requires Enumerates(order, metrics.Keys)
  {
    if |metrics| < 2 then []
    else
      var scores := RankAdapters(w, metrics, order);
      if scores != [] && ShouldSwitch(scores, primary) then
        [AdapterSwitch(PrimaryName(primary), scores[0].adapterId, Some(scores[0].totalScore))]
      else []
  }

  lemma {:induction false} ScoreOfListed(scores: seq<AdapterScore>, id: string, value: real)
    requires AdapterScore(id, value) in scores
    requires forall i | 0 <= i < |scores| && scores[i].adapterId == id :: scores[i].totalScore == value
    ensures ScoreOf(scores, id) == Some(value)
  {
    if scores[0].adapterId != id {
      assert scores == [scores[0]] + scores[1..];
      ScoreOfListed(scores[1..], id, value);
    }
  }

  lemma {:induction false} ScoreOfUnlisted(scores: seq<AdapterScore>, id: string)
    requires forall i | 0 <= i < |scores| :: scores[i].adapterId != id
    ensures ScoreOf(scores, id) == None
  {
    if scores != [] {
      ScoreOfUnlisted(scores[1..], id);
    }
  }

  /** In a ranking, looking up an adapter gives its score, or nothing when it is not ready. */
  lemma {:induction false} ScoreInRanking(
      w: ScoringWeights, metrics: map<string, AdapterMetrics>, order: seq<string>, id: string)
    requires Enumerates(order, metrics.Keys)
    ensures
      ScoreOf(RankAdapters(w, metrics, order), id)
      == if id in metrics then Some(TotalScore(w, metrics[id])) else None
  {
    RankingLists(w, metrics, order);
    var r := RankAdapters(w, metrics, order);
    if id in metrics {
      ScoreOfListed(r, id, TotalScore(w, metrics[id]));
    } else {
      ScoreOfUnlisted(r, id);
    }
  }

  /** The adapter is ready and no ready adapter beats it by more than a tenth. */
  ghost predicate Settled(w: ScoringWeights, metrics: map<string, AdapterMetrics>, primary: Option<string>) {
    && primary.Some? && primary.value in metrics
    && forall id | id in metrics :: TotalScore(w, metrics[id]) <= TotalScore(w, metrics[primary.value]) * 1.10
  }

  /** A check leaves the primary alone exactly when it is settled, whatever order the map gives. */
  lemma {:induction false} SwitchIffNotSettled(
      w: ScoringWeights, metrics: map<string, AdapterMetrics>, order: seq<string>, primary: Option<string>)
    requires Enumerates(order, metrics.Keys) && |metrics| >= 2
    ensures RankAdapters(w, metrics, order) != []
    ensures ShouldSwitch(RankAdapters(w, metrics, order), primary) <==> !Settled(w, metrics, primary)
  {
    RankingLists(w, metrics, order);
    var r := RankAdapters(w, metrics, order);
    if primary.Some? {
      ScoreInRanking(w, metrics, order, primary.value);
      if primary.value in metrics && r[0].totalScore <= TotalScore(w, metrics[primary.value]) * 1.10 {
        forall id | id in metrics
          ensures TotalScore(w, metrics[id]) <= TotalScore(w, metrics[primary.value]) * 1.10
        {
          var i :| 0 <= i < |r| && r[i] == AdapterScore(id, TotalScore(w, metrics[id]));
        }
      }
    }
  }

  /** After a check that ranks two or more ready adapters with nonnegative scores, the primary is
      ready and within a factor 1.10 of the best. */
  lemma {:induction false} CheckSettles(
      w: ScoringWeights, metrics: map<string, AdapterMetrics>, order: seq<string>, primary: Option<string>)
    requires Enumerates(order, metrics.Keys) && |metrics| >= 2
    requires NonNegative(w) && forall id | id in metrics :: InRange(metrics[id])
    ensures Settled(w, metrics, Check(w, metrics, order, primary))
  {
    SwitchIffNotSettled(w, metrics, order, primary);
    RankingLists(w, metrics, order);
    var r := RankAdapters(w, metrics, order);
    if ShouldSwitch(r, primary) {
      var best := r[0].adapterId;
      ScoreBounds(w, metrics[best]);
      forall id | id in metrics ensures TotalScore(w, metrics[id]) <= TotalScore(w, metrics[best]) * 1.10 {
        var i :| 0 <= i < |r| && r[i] == AdapterScore(id, TotalScore(w, metrics[id]));
      }
    }
  }

  /** A switch goes to the best ready adapter, and is logged as such; a settled primary stays, and
      nothing is logged. */
  lemma {:induction false} SwitchGoesToBest(
      w: ScoringWeights, metrics: map<string, AdapterMetrics>, order: seq<string>, primary: Option<string>)
    requires Enumerates(order, metrics.Keys) && |metrics| >= 2
    ensures
      var chosen, events := Check(w, metrics, order, primary), SwitchEvents(w, metrics, order, primary);
      if Settled(w, metrics, primary) then chosen == primary && events == []
      else
        && chosen.Some? && chosen.value in metrics
        && (forall id | id in metrics :: TotalScore(w, metrics[id]) <= TotalScore(w, metrics[chosen.value]))
        && events == [AdapterSwitch(if primary.Some? then primary.value else "none", chosen.value,
                                    Some(TotalScore(w, metrics[chosen.value])))]
  {
    SwitchIffNotSettled(w, metrics, order, primary);
    RankingLists(w, metrics, order);
    var r := RankAdapters(w, metrics, order);
    forall id | id in metrics ensures TotalScore(w, metrics[id]) <= r[0].totalScore {
      var i :| 0 <= i < |r| && r[i] == AdapterScore(id, TotalScore(w, metrics[id]));
    }
  }

  /** The primary after a series of checks over the same metrics, each with its own iteration order. */
  function Checks(
      w: ScoringWeights, metrics: map<string, AdapterMetrics>, orders: seq<seq<string>>, primary: Option<string>)
      : Option<string>
    requires forall i | 0 <= i < |orders| :: Enumerates(orders[i], metrics.Keys)
    decreases |orders|
  {
    if orders == [] then primary
    else Checks(w, metrics, orders[1..], Check(w, metrics, orders[0], primary))
  }

  /** While the metrics stay as they are, no check after the first ever switches again, whatever
      order ties come out of the hash map in. */
  lemma {:induction false} NoFlapping(
      w: ScoringWeights, metrics: map<string, AdapterMetrics>, first: seq<string>, later: seq<seq<string>>,
      primary: Option<string>)
    requires Enumerates(first, metrics.Keys)
    requires forall i | 0 <= i < |later| :: Enumerates(later[i], metrics.Keys)
    requires NonNegative(w) && forall id | id in metrics :: InRange(metrics[id])
    ensures Checks(w, metrics, later, Check(w, metrics, first, primary)) == Check(w, metrics, first, primary)
  {
    if |metrics| >= 2 {
      CheckSettles(w, metrics, first, primary);
      SettledStays(w, metrics, later, Check(w, metrics, first, primary));
    } else {
      TooFewStays(w, metrics, later, Check(w, metrics, first, primary));
    }
  }

  lemma {:induction false} SettledStays(
      w: ScoringWeights, metrics: map<string, AdapterMetrics>, orders: seq<seq<string>>, primary: Option<string>)
    requires forall i | 0 <= i < |orders| :: Enumerates(orders[i], metrics.Keys)
    requires Settled(w, metrics, primary) && |metrics| >= 2
    ensures Checks(w, metrics, orders, primary) == primary
    decreases |orders|
  {
    if orders != [] {
      SwitchIffNotSettled(w, metrics, orders[0], primary);
      SettledStays(w, metrics, orders[1..], primary);
    }
  }

  lemma {:induction false} TooFewStays(
      w: ScoringWeights, metrics: map<string, AdapterMetrics>, orders: seq<seq<string>>, primary: Option<string>)
    requires forall i | 0 <= i < |orders| :: Enumerates(orders[i], metrics.Keys)
    requires |metrics| < 2
    ensures Checks(w, metrics, orders, primary) == primary
    decreases |orders|
  {
    if orders != [] {
      TooFewStays(w, metrics, orders[1..], primary);
    }
  }

  /** Why nonnegative scores matter, exactly: right after a switch, the same check switches again if
      and only if the best score is negative. */
  lemma {:induction false} SwitchRepeatsIffBestNegative(
      w: ScoringWeights, metrics: map<string, AdapterMetrics>, order: seq<string>, again: seq<string>)
    requires Enumerates(order, metrics.Keys) && Enumerates(again, metrics.Keys) && |metrics| >= 2
    ensures RankAdapters(w, metrics, order) != [] && RankAdapters(w, metrics, again) != []
    ensures
      var best := RankAdapters(w, metrics, order)[0];
      ShouldSwitch(RankAdapters(w, metrics, again), Some(best.adapterId)) <==> best.totalScore < 0.0
  {
    var r := RankAdapters(w, metrics, order);
    RankingLists(w, metrics, order);
    SwitchIffNotSettled(w, metrics, again, Some(r[0].adapterId));
    forall id | id in metrics ensures TotalScore(w, metrics[id]) <= r[0].totalScore {
      var i :| 0 <= i < |r| && r[i] == AdapterScore(id, TotalScore(w, metrics[id]));
    }
  }

  // ----- A degraded adapter stays degraded -----

  /** The health record of one adapter after its turn in a scan. */
  function HealthStep(multiplier: real, h: AdapterHealth, reading: Reading): AdapterHealth {
    HealthOf(ScanOne(multiplier, Scan(map["" := h], [], map[]), "", reading).health, "")
  }

  /** The health record of one adapter over a series of readings. */
  function HealthAfter(multiplier: real, h: AdapterHealth, readings: seq<Reading>): AdapterHealth
    decreases |readings|
  {
    if readings == [] then h
    else HealthAfter(multiplier, HealthStep(multiplier, h, readings[0]), readings[1..])
  }

  function Seen(readings: seq<Reading>): nat {
    if readings == [] then 0 else (if readings[0] == Unknown then 0 else 1) + Seen(readings[1..])
  }

  /** The status is the one its failure count stands for. */
  ghost predicate StatusOk(h: AdapterHealth) {
    h.status == if h.consecutiveFailures >= 3 then Failed else if h.consecutiveFailures >= 1 then Degraded else Healthy
  }

  /** Once the recorded latency exceeds the threshold, no reading clears it: every later check counts
      as a failure, however good the adapter has become, the record it is judged by never changes,
      and three checks later the adapter reads Failed. */
  lemma {:induction false} DegradedForEver(multiplier: real, h: AdapterHealth, readings: seq<Reading>)
    requires h.IsLatencyDegraded(multiplier) && StatusOk(h)
    ensures
      var g := HealthAfter(multiplier, h, readings);
      && g.IsLatencyDegraded(multiplier) && StatusOk(g)
      && g.currentMetrics == h.currentMetrics && g.baselineLatency == h.baselineLatency
      && g.consecutiveFailures == h.consecutiveFailures + Seen(readings)
      && (Seen(readings) >= 3 ==> g.status == Failed)
    decreases |readings|
  {
    if readings != [] {
      var next := HealthStep(multiplier, h, readings[0]);
      assert next == if readings[0] == Unknown then h else h.RecordFailure();
      DegradedForEver(multiplier, next, readings[1..]);
    }
  }

  /** When that happens, exactly: a success is followed by degradation if and only if its latency
      exceeds the multiplier times the updated average, which a first success is itself. */
  lemma {:induction false} DegradedAfterSuccess(multiplier: real, h: AdapterHealth, m: AdapterMetrics)
    ensures h.baselineLatency.None? ==>
      (h.RecordSuccess(m).IsLatencyDegraded(multiplier) <==> m.latencyMs > m.latencyMs * multiplier)
    ensures h.baselineLatency.Some? ==>
      (h.RecordSuccess(m).IsLatencyDegraded(multiplier)
       <==> m.latencyMs * (1.0 - 0.1 * multiplier) > 0.9 * multiplier * h.baselineLatency.value)
  {
    if h.baselineLatency.Some? {
      AverageTimes(h.baselineLatency.value, m.latencyMs, multiplier);
    } else {
      var after := h.RecordSuccess(m);
      assert after.baselineLatency == Some(m.latencyMs) && after.currentMetrics == Some(m);
      var threshold := m.latencyMs * multiplier;
      assert after.LatencyThreshold(multiplier) == threshold;
    }
  }

  lemma AverageTimes(baseline: real, latency: real, multiplier: real)
    ensures
      latency > (baseline * 0.9 + latency * 0.1) * multiplier
      <==> latency * (1.0 - 0.1 * multiplier) > 0.9 * multiplier * baseline
  {
    assert (baseline * 0.9 + latency * 0.1) * multiplier == 0.9 * multiplier * baseline + latency * (0.1 * multiplier);
  }

  lemma HealthAfterOne(multiplier: real, h: AdapterHealth, reading: Reading, rest: seq<Reading>)
    ensures
      HealthAfter(multiplier, h, [reading] + rest)
      == HealthAfter(multiplier, HealthStep(multiplier, h, reading), rest)
  {
    assert ([reading] + rest)[1..] == rest;
  }

  /** It happens to an adapter in good health: with the threshold at twice the average, one reading of a
      second after one of ten milliseconds leaves it degraded, and after any three further readings,
      all of ten milliseconds if you like, it reads Failed. */
  lemma {:induction false} OneSpikeFailsAdapter(fast: AdapterMetrics, slow: AdapterMetrics, rest: seq<Reading>)
    requires fast.latencyMs == 10.0 && slow.latencyMs == 1000.0
    ensures HealthAfter(2.0, NEW_HEALTH, [Ready(fast), Ready(slow)]).IsLatencyDegraded(2.0)
    ensures HealthAfter(2.0, NEW_HEALTH, [Ready(fast), Ready(slow)]).status == Healthy
    ensures Seen(rest) >= 3 ==> HealthAfter(2.0, NEW_HEALTH, [Ready(fast), Ready(slow)] + rest).status == Failed
  {
    var once := NEW_HEALTH.RecordSuccess(fast);
    var twice := once.RecordSuccess(slow);
    assert [Ready(fast), Ready(slow)] == [Ready(fast)] + ([Ready(slow)] + []);
    assert [Ready(fast), Ready(slow)] + rest == [Ready(fast)] + ([Ready(slow)] + rest);
    HealthAfterOne(2.0, NEW_HEALTH, Ready(fast), [Ready(slow)] + []);
    HealthAfterOne(2.0, NEW_HEALTH, Ready(fast), [Ready(slow)] + rest);
    HealthAfterOne(2.0, once, Ready(slow), []);
    HealthAfterOne(2.0, once, Ready(slow), rest);
    DegradedForEver(2.0, twice, rest);
  }

  /** How many of n further failures after f earlier ones are the third running or more. */
  function Downs(f: nat, n: nat): nat {
    if f >= 2 then n else if f + n <= 2 then 0 else f + n - 2
  }

  lemma FirstDown(events: seq<Event>, id: string, f: nat, n: nat)
    requires n > 0
    ensures
      (events + if f >= 2 then [AdapterDown(id)] else []) + seq(Downs(f + 1, n - 1), _ => AdapterDown(id))
      == events + seq(Downs(f, n), _ => AdapterDown(id))
  {
  }

  /** An adapter that is not ready n times running is logged as down from the third failure on, and only
      then; meanwhile nothing else is logged or ranked. */
  lemma {:induction false} DownFromThird(multiplier: real, s: Scan, id: string, n: nat)
    ensures
      var t := ScanAll(multiplier, s, seq(n, _ => (id, NotReady)));
      var f := HealthOf(s.health, id).consecutiveFailures;
      && HealthOf(t.health, id).consecutiveFailures == f + n
      && t.events == s.events + seq(Downs(f, n), _ => AdapterDown(id))
      && t.metrics == s.metrics
    decreases n
  {
    var readings := seq(n, _ => (id, NotReady));
    if n > 0 {
      var t := ScanOne(multiplier, s, id, NotReady);
      assert readings[1..] == seq(n - 1, _ => (id, NotReady));
      DownFromThird(multiplier, t, id, n - 1);
      VisitOutcome(multiplier, s, id, NotReady);
      var f := HealthOf(s.health, id).consecutiveFailures;
      FirstDown(s.events, id, f, n);
    }
  }

  /** A failed or degraded adapter that reports metrics is still ranked. */
  lemma {:induction false} RankedExactlyWhenReady(
      multiplier: real, s: Scan, readings: seq<(string, Reading)>, id: string)
    ensures
      id in ScanAll(multiplier, s, readings).metrics
      <==> id in s.metrics || exists i :: 0 <= i < |readings| && readings[i].0 == id && readings[i].1.Ready?
    decreases |readings|
  {
    if readings != [] {
      var t := ScanOne(multiplier, s, readings[0].0, readings[0].1);
      RankedExactlyWhenReady(multiplier, t, readings[1..], id);
      assert readings == [readings[0]] + readings[1..];
      forall i | 0 <= i < |readings[1..]| ensures readings[1..][i] == readings[i + 1] {
      }
      if i :| 0 <= i < |readings| && readings[i].0 == id && readings[i].1.Ready? {
        assert i == 0 || readings[1..][i - 1] == readings[i];
      }
    }
  }

  /** The metrics of the adapters that report ready, the last reading of an adapter counting. */
  function ReadyMetrics(
      metrics: map<string, AdapterMetrics>, readings: seq<(string, Reading)>): map<string, AdapterMetrics>
    decreases |readings|
  {
    if readings == [] then metrics
    else
      var (id, reading) := readings[0];
      ReadyMetrics(if reading.Ready? then metrics[id := reading.metrics] else metrics, readings[1..])
  }

  /** What a scan ranks depends on the readings alone, not on the health records. */
  lemma {:induction false} ScanMetrics(multiplier: real, s: Scan, readings: seq<(string, Reading)>)
    ensures ScanAll(multiplier, s, readings).metrics == ReadyMetrics(s.metrics, readings)
    decreases |readings|
  {
    if readings != [] {
      ScanMetrics(multiplier, ScanOne(multiplier, s, readings[0].0, readings[0].1), readings[1..]);
    }
  }

  // ----- The manager object -----

  const MAX_EVENTS: nat := 100

  function LastEvents(events: seq<Event>): seq<Event> {
    if |events| <= MAX_EVENTS then events else events[|events| - MAX_EVENTS..]
  }

  lemma LastEventsExtend(events: seq<Event>, e: Event)
    ensures LastEvents(events + [e]) == LastEvents(LastEvents(events) + [e])
  {
  }

  class FailoverManager {
    const weights: ScoringWeights
    const latencyThresholdMultiplier: real
    var adapterHealth: map<string, AdapterHealth>
    var currentPrimary: Option<string>
    var eventLog: seq<Event>
    ghost var logged: seq<Event>

    /** The event log is always the last hundred events ever logged. */
    ghost predicate Valid()
      reads this
    {
      eventLog == LastEvents(logged)
    }

    constructor (weights: ScoringWeights, latencyThresholdMultiplier: real)
      ensures Valid() && logged == [] && currentPrimary == None && adapterHealth == map[]
      ensures this.weights == weights && this.latencyThresholdMultiplier == latencyThresholdMultiplier
    {
      this.weights, this.latencyThresholdMultiplier := weights, latencyThresholdMultiplier;
      adapterHealth, currentPrimary, eventLog, logged := map[], None, [], [];
    }

    method LogEvent(e: Event)
      requires Valid()
      modifies this`eventLog, this`logged
      ensures Valid() && logged == old(logged) + [e]
    {
      LastEventsExtend(logged, e);
      logged := logged + [e];
      eventLog := eventLog + [e];
      var len := |eventLog|;
      if len > MAX_EVENTS {
        eventLog := eventLog[len - MAX_EVENTS..];
      }
    }

    /** The newest events first, at most `count` of them. */
    method GetRecentEvents(count: nat) returns (r: seq<Event>)
      requires Valid()
      ensures |r| == Least(count, Least(100, |logged|))
      ensures forall i | 0 <= i < |r| :: r[i] == logged[|logged| - 1 - i]
    {
      r := [];
      while |r| < count && |r| < |eventLog|
        invariant |r| <= count && |r| <= |eventLog|
        invariant forall i | 0 <= i < |r| :: r[i] == eventLog[|eventLog| - 1 - i]
      {
        r := r + [eventLog[|eventLog| - 1 - |r|]];
      }
    }

    /** One scan over the adapters, in the order their ids are listed. */
    method ScanAdapters(readings: seq<(string, Reading)>) returns (allMetrics: map<string, AdapterMetrics>)
      requires Valid()
      modifies this`adapterHealth, this`eventLog, this`logged
      ensures Valid()
      ensures
        Scan(adapterHealth, logged, allMetrics)
        == ScanAll(latencyThresholdMultiplier, Scan(old(adapterHealth), old(logged), map[]), readings)
    {
      allMetrics := map[];
      ghost var start := Scan(adapterHealth, logged, allMetrics);
      for i := 0 to |readings|
        invariant Valid()
        invariant ScanAll(latencyThresholdMultiplier, Scan(adapterHealth, logged, allMetrics), readings[i..])
               == ScanAll(latencyThresholdMultiplier, start, readings)
      {
        assert readings[i..][0] == readings[i] && readings[i..][1..] == readings[i + 1..];
        var (id, reading) := readings[i];
        ScanAdapter(id, reading, allMetrics);
        if reading.Ready? {
          allMetrics := allMetrics[id := reading.metrics];
        }
      }
    }

    /** The body of the scan loop. */
    method ScanAdapter(id: string, reading: Reading, ghost metrics: map<string, AdapterMetrics>)
      requires Valid()
      modifies this`adapterHealth, this`eventLog, this`logged
      ensures Valid()
      ensures
        ScanOne(latencyThresholdMultiplier, Scan(old(adapterHealth), old(logged), metrics), id, reading)
        == Scan(adapterHealth, logged, if reading.Ready? then metrics[id := reading.metrics] else metrics)
    {
      var h := if id in adapterHealth then adapterHealth[id] else NEW_HEALTH;
      match reading {
        case Unknown =>
        case NotReady =>
          h := h.RecordFailure();
          if h.status == Failed {
            LogEvent(AdapterDown(id));
          }
        case Ready(m) =>
          if h.IsLatencyDegraded(latencyThresholdMultiplier) {
            LogEvent(ThresholdViolation(id, m.latencyMs, h.LatencyThreshold(latencyThresholdMultiplier)));
            h := h.RecordFailure();
          } else {
            h := h.RecordSuccess(m);
          }
      }
      adapterHealth := adapterHealth[id := h];
    }

    /** Scan, rank, and switch the primary if the ranking calls for it; `order` is the order in which
        the hash map of metrics came out. */
    method CheckAndFailover(readings: seq<(string, Reading)>) returns (ghost order: seq<string>)
      requires Valid()
      modifies this`adapterHealth, this`currentPrimary, this`eventLog, this`logged
      ensures Valid()
      ensures
        var scan := ScanAll(latencyThresholdMultiplier, Scan(old(adapterHealth), old(logged), map[]), readings);
        && adapterHealth == scan.health
        && Enumerates(order, scan.metrics.Keys)
        && currentPrimary == Check(weights, scan.metrics, order, old(currentPrimary))
        && logged == scan.events + SwitchEvents(weights, scan.metrics, order, old(currentPrimary))
    {
      var allMetrics := ScanAdapters(readings);
      var iteration := SomeOrder(allMetrics.Keys);
      order := iteration;
      if |allMetrics| < 2 {
        return;
      }
      var scores := RankAdapters(weights, allMetrics, iteration);
      if scores == [] {
        return;
      }
      if ShouldSwitch(scores, currentPrimary) {
        var from := PrimaryName(currentPrimary);
        currentPrimary := Some(scores[0].adapterId);
        LogEvent(AdapterSwitch(from, scores[0].adapterId, Some(scores[0].totalScore)));
      }
    }

    /** A manual override of the primary, refused for an adapter that does not exist. */
    method ForceFailover(id: string, found: bool) returns (ok: bool)
      requires Valid()
      modifies this`currentPrimary, this`eventLog, this`logged
      ensures Valid() && ok == found
      ensures currentPrimary == if ok then Some(id) else old(currentPrimary)
      ensures
        logged == old(logged) +
          if ok then [AdapterSwitch(PrimaryName(old(currentPrimary)), id, None)] else []
    {
      if !found {
        return false;
      }
      var from := PrimaryName(currentPrimary);
      currentPrimary := Some(id);
      LogEvent(AdapterSwitch(from, id, None));
      ok := true;
    }
  }

  ghost predicate NoSwitch(events: seq<Event>) {
    forall e | e in events :: !e.AdapterSwitch?
  }

  /** A scan only adds to the log, and never a switch. */
  lemma {:induction false} ScanLogs(multiplier: real, s: Scan, readings: seq<(string, Reading)>)
    ensures s.events <= ScanAll(multiplier, s, readings).events
    ensures NoSwitch(ScanAll(multiplier, s, readings).events[|s.events|..])
    decreases |readings|
  {
    if readings != [] {
      var t := ScanOne(multiplier, s, readings[0].0, readings[0].1);
      ScanLogs(multiplier, t, readings[1..]);
      LaterEvents(s.events, t.events, ScanAll(multiplier, s, readings).events);
    }
  }

  lemma LaterEvents(a: seq<Event>, b: seq<Event>, c: seq<Event>)
    requires a <= b <= c && NoSwitch(b[|a|..]) && NoSwitch(c[|b|..])
    ensures a <= c && NoSwitch(c[|a|..])
  {
    assert c[|a|..] == b[|a|..] + c[|b|..];
  }

  /** The monitoring loop while the readings stay as they are: whatever the health records and the
      iteration orders of the rounds, the primary remains the one the first round chose, and no switch is
      logged after that round. `order` and `logged` are the first round's iteration order and log. */
  method Monitor(manager: FailoverManager, readings: seq<(string, Reading)>, rounds: nat)
      returns (ghost first: Option<string>, ghost order: seq<string>, ghost logged: seq<Event>)
    requires manager.Valid() && NonNegative(manager.weights)
    requires forall id | id in ReadyMetrics(map[], readings) :: InRange(ReadyMetrics(map[], readings)[id])
    requires rounds >= 1
    modifies manager
    ensures manager.Valid()
    ensures
      var metrics := ReadyMetrics(map[], readings);
      var scan := ScanAll(
        manager.latencyThresholdMultiplier, Scan(old(manager.adapterHealth), old(manager.logged), map[]), readings);
      && Enumerates(order, metrics.Keys)
      && first == Check(manager.weights, metrics, order, old(manager.currentPrimary))
      && logged == scan.events + SwitchEvents(manager.weights, metrics, order, old(manager.currentPrimary))
    ensures manager.currentPrimary == first
    ensures logged <= manager.logged && NoSwitch(manager.logged[|logged|..])
  {
    ghost var metrics := ReadyMetrics(map[], readings);
    ghost var primary := manager.currentPrimary;
    ScanMetrics(manager.latencyThresholdMultiplier, Scan(manager.adapterHealth, manager.logged, map[]), readings);
    order := manager.CheckAndFailover(readings);
    first, logged := manager.currentPrimary, manager.logged;
    for i := 1 to rounds
      invariant manager.Valid() && manager.currentPrimary == first
      invariant logged <= manager.logged && NoSwitch(manager.logged[|logged|..])
    {
      ghost var before := manager.logged;
      ghost var scan := Scan(manager.adapterHealth, before, map[]);
      ScanMetrics(manager.latencyThresholdMultiplier, scan, readings);
      ScanLogs(manager.latencyThresholdMultiplier, scan, readings);
      ghost var again := manager.CheckAndFailover(readings);
      OneMoreCheck(manager.weights, metrics, order, again, primary);
      LaterEvents(logged, before, manager.logged);
    }
  }

  /** A further check over the same metrics changes nothing and logs nothing. */
  lemma OneMoreCheck(
      w: ScoringWeights, metrics: map<string, AdapterMetrics>, order: seq<string>, again: seq<string>,
      primary: Option<string>)
    requires Enumerates(order, metrics.Keys) && Enumerates(again, metrics.Keys)
    requires NonNegative(w) && forall id | id in metrics :: InRange(metrics[id])
    ensures
      var first := Check(w, metrics, order, primary);
      Check(w, metrics, again, first) == first && SwitchEvents(w, metrics, again, first) == []
  {
    if |metrics| >= 2 {
      CheckSettles(w, metrics, order, primary);
      SwitchIffNotSettled(w, metrics, again, Check(w, metrics, order, primary));
    }
  }
}
