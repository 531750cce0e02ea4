/** Adapter scores and their ranking (myriadnode-full/src/scoring.rs), over the reals. */
module Scoring {
  import opened Common

  datatype ScoringWeights =
    ScoringWeights(latency: real, bandwidth: real, reliability: real, power: real, privacy: real)

  datatype AdapterMetrics = AdapterMetrics(
    latencyMs: real,
    bandwidthBps: nat,
    reliability: real,
    powerConsumption: real,
    privacyLevel: real)

  datatype AdapterScore = AdapterScore(adapterId: string, totalScore: real)

  const MAX_BANDWIDTH_BPS: real := 100_000_000.0
  const MAX_LATENCY_MS: real := 1000.0

  function Clamp01(x: real): real {
    if x < 0.0 then 0.0 else if x > 1.0 then 1.0 else x
  }

  function ScoreLatency(latencyMs: real): real {
    if latencyMs <= 0.0 then 1.0 else Clamp01(1.0 - latencyMs / MAX_LATENCY_MS)
  }

  function ScoreBandwidth(bandwidthBps: nat): real {
    var normalized := bandwidthBps as real / MAX_BANDWIDTH_BPS;
    if normalized < 1.0 then normalized else 1.0
  }

  function ScorePower(powerConsumption: real): real {
    Clamp01(1.0 - powerConsumption)
  }

  function WeightedTotal(w: ScoringWeights, a: real, b: real, c: real, d: real, e: real): real {
    a * w.latency + b * w.bandwidth + c * w.reliability + d * w.power + e * w.privacy
  }

  function TotalScore(w: ScoringWeights, m: AdapterMetrics): real {
    WeightedTotal(w, ScoreLatency(m.latencyMs), ScoreBandwidth(m.bandwidthBps), m.reliability,
                  ScorePower(m.powerConsumption), m.privacyLevel)
  }

  predicate NonNegative(w: ScoringWeights) {
    w.latency >= 0.0 && w.bandwidth >= 0.0 && w.reliability >= 0.0 && w.power >= 0.0 && w.privacy >= 0.0
  }

  /** The two metrics that are used as scores unclamped lie between 0 and 1. */
  predicate InRange(m: AdapterMetrics) {
    0.0 <= m.reliability <= 1.0 && 0.0 <= m.privacyLevel <= 1.0
  }

  lemma FractionOf(score: real, weight: real) returns (part: real)
    requires 0.0 <= score <= 1.0 && weight >= 0.0
    ensures part == score * weight && 0.0 <= part <= weight
  {
    part := score * weight;
    ProductNonNegative(score, weight);
    ProductNonNegative(1.0 - score, weight);
    assert (1.0 - score) * weight == weight - part;
  }

  lemma ProductNonNegative(x: real, y: real)
    requires x >= 0.0 && y >= 0.0
    ensures x * y >= 0.0
  {
  }

  /** A weighted sum of scores between 0 and 1 lies between 0 and the sum of the weights. */
  lemma WeightedSum(a: real, b: real, c: real, d: real, e: real, w: ScoringWeights)
    requires 0.0 <= a <= 1.0 && 0.0 <= b <= 1.0 && 0.0 <= c <= 1.0 && 0.0 <= d <= 1.0 && 0.0 <= e <= 1.0
    requires NonNegative(w)
    ensures 0.0 <= WeightedTotal(w, a, b, c, d, e) <= w.latency + w.bandwidth + w.reliability + w.power + w.privacy
  {
    var p := FractionOf(a, w.latency);
    var q := FractionOf(b, w.bandwidth);
    var r := FractionOf(c, w.reliability);
    var s := FractionOf(d, w.power);
    var t := FractionOf(e, w.privacy);
    assert 0.0 <= p + q + r + s + t <= w.latency + w.bandwidth + w.reliability + w.power + w.privacy;
  }

  /** With nonnegative weights and in-range metrics a score lies between 0 and the sum of the weights. */
  lemma {:induction false} ScoreBounds(w: ScoringWeights, m: AdapterMetrics)
    requires NonNegative(w) && InRange(m)
    ensures 0.0 <= TotalScore(w, m) <= w.latency + w.bandwidth + w.reliability + w.power + w.privacy
  {
    WeightedSum(ScoreLatency(m.latencyMs), ScoreBandwidth(m.bandwidthBps), m.reliability,
                ScorePower(m.powerConsumption), m.privacyLevel, w);
  }

  /** m' is at least as good as m in every metric. */
  predicate NoWorse(m: AdapterMetrics, m': AdapterMetrics) {
    && m'.latencyMs <= m.latencyMs && m'.bandwidthBps >= m.bandwidthBps && m'.reliability >= m.reliability
    && m'.powerConsumption <= m.powerConsumption && m'.privacyLevel >= m.privacyLevel
  }

  lemma MoreTimesWeight(x: real, y: real, weight: real) returns (less: real, more: real)
    requires x <= y && weight >= 0.0
    ensures less == x * weight && more == y * weight && less <= more
  {
    less, more := x * weight, y * weight;
    ProductNonNegative(y - x, weight);
    assert (y - x) * weight == more - less;
  }

  lemma ComponentsMonotone(m: AdapterMetrics, m': AdapterMetrics)
    requires NoWorse(m, m')
    ensures ScoreLatency(m.latencyMs) <= ScoreLatency(m'.latencyMs)
    ensures ScoreBandwidth(m.bandwidthBps) <= ScoreBandwidth(m'.bandwidthBps)
    ensures ScorePower(m.powerConsumption) <= ScorePower(m'.powerConsumption)
  {
  }

  lemma WeightedTotalMonotone(
      w: ScoringWeights, a: real, b: real, c: real, d: real, e: real, a': real, b': real, c': real, d': real, e': real)
    requires NonNegative(w) && a <= a' && b <= b' && c <= c' && d <= d' && e <= e'
    ensures WeightedTotal(w, a, b, c, d, e) <= WeightedTotal(w, a', b', c', d', e')
  {
    var a0, a1 := MoreTimesWeight(a, a', w.latency);
    var b0, b1 := MoreTimesWeight(b, b', w.bandwidth);
    var c0, c1 := MoreTimesWeight(c, c', w.reliability);
    var d0, d1 := MoreTimesWeight(d, d', w.power);
    var e0, e1 := MoreTimesWeight(e, e', w.privacy);
    assert a0 + b0 + c0 + d0 + e0 <= a1 + b1 + c1 + d1 + e1;
  }

  /** Improving any metric never lowers the score. */
  lemma {:induction false} ScoreMonotone(w: ScoringWeights, m: AdapterMetrics, m': AdapterMetrics)
    requires NonNegative(w) && NoWorse(m, m')
    ensures TotalScore(w, m) <= TotalScore(w, m')
  {
    ComponentsMonotone(m, m');
    WeightedTotalMonotone(w,
      ScoreLatency(m.latencyMs), ScoreBandwidth(m.bandwidthBps), m.reliability, ScorePower(m.powerConsumption),
          m.privacyLevel,
      ScoreLatency(m'.latencyMs), ScoreBandwidth(m'.bandwidthBps), m'.reliability, ScorePower(m'.powerConsumption),
          m'.privacyLevel);
  }

  lemma PartMoves(x: real, y: real, weight: real) returns (less: real, more: real)
    ensures less == x * weight && more == y * weight && more - less == (y - x) * weight
  {
    less, more := x * weight, y * weight;
  }

  lemma OnePartMoves(
      w: ScoringWeights, a: real, b: real, c: real, d: real, e: real, a': real, b': real, c': real, d': real, e': real)
    ensures b == b' && c == c' && d == d' && e == e' ==>
      WeightedTotal(w, a', b', c', d', e') - WeightedTotal(w, a, b, c, d, e) == (a' - a) * w.latency
    ensures a == a' && c == c' && d == d' && e == e' ==>
      WeightedTotal(w, a', b', c', d', e') - WeightedTotal(w, a, b, c, d, e) == (b' - b) * w.bandwidth
    ensures a == a' && b == b' && d == d' && e == e' ==>
      WeightedTotal(w, a', b', c', d', e') - WeightedTotal(w, a, b, c, d, e) == (c' - c) * w.reliability
    ensures a == a' && b == b' && c == c' && e == e' ==>
      WeightedTotal(w, a', b', c', d', e') - WeightedTotal(w, a, b, c, d, e) == (d' - d) * w.power
    ensures a == a' && b == b' && c == c' && d == d' ==>
      WeightedTotal(w, a', b', c', d', e') - WeightedTotal(w, a, b, c, d, e) == (e' - e) * w.privacy
  {
    var a0, a1 := PartMoves(a, a', w.latency);
    var b0, b1 := PartMoves(b, b', w.bandwidth);
    var c0, c1 := PartMoves(c, c', w.reliability);
    var d0, d1 := PartMoves(d, d', w.power);
    var e0, e1 := PartMoves(e, e', w.privacy);
  }

  /** How a component follows its metric: latency falls from 1 at none to 0 at a second, bandwidth rises
      to 1 at a hundred megabits, power falls from 1 at none to 0 at full, and beyond that they stay. */
  lemma {:induction false} ComponentScores(latencyMs: real, bandwidthBps: nat, power: real)
    ensures ScoreLatency(latencyMs)
         == if latencyMs <= 0.0 then 1.0 else if latencyMs >= 1000.0 then 0.0 else 1.0 - latencyMs / 1000.0
    ensures ScoreBandwidth(bandwidthBps)
         == if bandwidthBps >= 100_000_000 then 1.0 else bandwidthBps as real / 100_000_000.0
    ensures ScorePower(power) == if power <= 0.0 then 1.0 else if power >= 1.0 then 0.0 else 1.0 - power
  {
  }

  /** How much the total moves when one metric alone changes: the move of that metric's component, taken
      with that metric's weight. */
  lemma {:induction false} OneMetricMoves(w: ScoringWeights, m: AdapterMetrics, x: real, n: nat)
    ensures TotalScore(w, m.(latencyMs := x)) - TotalScore(w, m)
         == (ScoreLatency(x) - ScoreLatency(m.latencyMs)) * w.latency
    ensures TotalScore(w, m.(bandwidthBps := n)) - TotalScore(w, m)
         == (ScoreBandwidth(n) - ScoreBandwidth(m.bandwidthBps)) * w.bandwidth
    ensures TotalScore(w, m.(reliability := x)) - TotalScore(w, m) == (x - m.reliability) * w.reliability
    ensures TotalScore(w, m.(powerConsumption := x)) - TotalScore(w, m)
         == (ScorePower(x) - ScorePower(m.powerConsumption)) * w.power
    ensures TotalScore(w, m.(privacyLevel := x)) - TotalScore(w, m) == (x - m.privacyLevel) * w.privacy
  {
    var a, b, c := ScoreLatency(m.latencyMs), ScoreBandwidth(m.bandwidthBps), m.reliability;
    var d, e := ScorePower(m.powerConsumption), m.privacyLevel;
    OnePartMoves(w, a, b, c, d, e, ScoreLatency(x), b, c, d, e);
    OnePartMoves(w, a, b, c, d, e, a, ScoreBandwidth(n), c, d, e);
    OnePartMoves(w, a, b, c, d, e, a, b, x, d, e);
    OnePartMoves(w, a, b, c, d, e, a, b, c, ScorePower(x), e);
    OnePartMoves(w, a, b, c, d, e, a, b, c, d, x);
  }

  predicate HigherFirst(a: AdapterScore, b: AdapterScore) {
    a.totalScore >= b.totalScore
  }

  /** Scores in the order the map happens to be iterated. */
  function Scores(w: ScoringWeights, metrics: map<string, AdapterMetrics>, order: seq<string>): (r: seq<AdapterScore>)
    requires forall i | 0 <= i < |order| :: order[i] in metrics
    ensures |r| == |order|
    ensures forall i | 0 <= i < |r| :: r[i] == AdapterScore(order[i], TotalScore(w, metrics[order[i]]))
  {
    seq(|order|, i requires 0 <= i < |order| => AdapterScore(order[i], TotalScore(w, metrics[order[i]])))
  }

  /** `rank_adapters`: highest score first, ties in iteration order. */
  function RankAdapters(w: ScoringWeights, metrics: map<string, AdapterMetrics>, order: seq<string>): seq<AdapterScore>
    requires forall i | 0 <= i < |order| :: order[i] in metrics
  {
    SortBy(HigherFirst, Scores(w, metrics, order))
  }

  /** A ranking lists exactly the adapters, each with its score, best first. */
  lemma {:induction false} RankingLists(
      w: ScoringWeights, metrics: map<string, AdapterMetrics>, order: seq<string>)
    requires Enumerates(order, metrics.Keys)
    ensures
      var r := RankAdapters(w, metrics, order);
      && |r| == |metrics|
      && (forall i | 0 <= i < |r| ::
          r[i].adapterId in metrics && r[i].totalScore == TotalScore(w, metrics[r[i].adapterId]))
      && (forall id | id in metrics :: AdapterScore(id, TotalScore(w, metrics[id])) in r)
      && (forall i | 0 <= i < |r| :: r[0].totalScore >= r[i].totalScore)
  {
    var raw := Scores(w, metrics, order);
    var r := RankAdapters(w, metrics, order);
    SortByCorrect(HigherFirst, raw);
    EnumerationSize(order, metrics.Keys);
    assert |metrics| == |metrics.Keys|;
    forall i | 0 <= i < |r|
      ensures r[i].adapterId in metrics && r[i].totalScore == TotalScore(w, metrics[r[i].adapterId])
    {
      assert r[i] in multiset(raw);
    }
    forall id | id in metrics ensures AdapterScore(id, TotalScore(w, metrics[id])) in r {
      var k :| 0 <= k < |order| && order[k] == id;
      assert raw[k] in multiset(r);
    }
    forall i | 0 <= i < |r| ensures r[0].totalScore >= r[i].totalScore {
      assert i > 0 ==> HigherFirst(r[0], r[i]);
    }
  }
}
