/** The heartbeat rate limiter (myriadnode-full/src/heartbeat.rs): a sliding window that drops old
    entries, proved to decide exactly as a limiter that remembers everything. */
module RateLimiter {

  type NodeId = nat

  /** Length of the global window, in the clock's unit (nanoseconds). */
  const ONE_SECOND: nat := 1_000_000_000

  /** One accepted heartbeat. */
  datatype Acceptance = Acceptance(node: NodeId, time: nat)

  datatype Limits = Limits(minInterval: nat, maxPerSecond: nat)

  /** How many acceptances are at most one second old. */
  function CountRecent(history: seq<Acceptance>, now: nat): (n: nat)
    ensures n <= |history|
  {
    if history == [] then 0
    else
      var last := history[|history| - 1];
      CountRecent(history[..|history| - 1], now) + if now - last.time <= ONE_SECOND then 1 else 0
  }

  /** No acceptance of the node is closer than the minimum interval. */
  predicate Spaced(minInterval: nat, history: seq<Acceptance>, now: nat, node: NodeId) {
    forall i | 0 <= i < |history| && history[i].node == node :: now - history[i].time >= minInterval
  }

  /** The decision of a limiter that keeps the full history. */
  predicate NaiveAllow(limits: Limits, history: seq<Acceptance>, now: nat, node: NodeId) {
    Spaced(limits.minInterval, history, now, node) && CountRecent(history, now) < limits.maxPerSecond
  }

  /** Times never go down. */
  ghost predicate Ordered(history: seq<Acceptance>, clock: nat) {
    && (forall i, j | 0 <= i < j < |history| :: history[i].time <= history[j].time)
    && (forall i | 0 <= i < |history| :: history[i].time <= clock)
  }

  function Times(history: seq<Acceptance>): (r: seq<nat>)
    ensures |r| == |history|
    ensures forall i | 0 <= i < |r| :: r[i] == history[i].time
  {
    seq(|history|, i requires 0 <= i < |history| => history[i].time)
  }

  /** `recent` is the history without its first entries, all of them already over a second old. */
  ghost predicate WindowOk(history: seq<Acceptance>, dropped: nat, recent: seq<nat>, clock: nat) {
    && dropped <= |history|
    && recent == Times(history)[dropped..]
    && (forall i | 0 <= i < dropped :: clock - history[i].time > ONE_SECOND)
  }

  ghost predicate AcceptedAt(history: seq<Acceptance>, node: NodeId, time: nat) {
    exists i :: 0 <= i < |history| && history[i] == Acceptance(node, time)
  }

  /** `lastReceived` holds each node's latest acceptance. */
  ghost predicate LastOk(history: seq<Acceptance>, lastReceived: map<NodeId, nat>) {
    && (forall i | 0 <= i < |history| ::
          history[i].node in lastReceived && history[i].time <= lastReceived[history[i].node])
    && (forall node | node in lastReceived :: AcceptedAt(history, node, lastReceived[node]))
  }

  class HeartbeatRateLimiter {
    const limits: Limits
    var lastReceived: map<NodeId, nat>
    var recent: seq<nat>
    ghost var history: seq<Acceptance>
    ghost var dropped: nat
    ghost var clock: nat

    ghost predicate Valid()
      reads this
    {
      Ordered(history, clock) && WindowOk(history, dropped, recent, clock) && LastOk(history, lastReceived)
    }

    constructor (limits: Limits)
      ensures Valid() && this.limits == limits && history == [] && clock == 0
    {
      this.limits := limits;
      lastReceived, recent := map[], [];
      history, dropped, clock := [], 0, 0;
    }

    /** Decides exactly as the naive limiter over the whole history of acceptances. */
    method Allow(now: nat, node: NodeId) returns (ok: bool)
      requires Valid() && clock <= now
      modifies this
      ensures Valid() && clock == now
      ensures ok <==> NaiveAllow(limits, old(history), now, node)
      ensures history == if ok then old(history) + [Acceptance(node, now)] else old(history)
    {
      clock := now;
      SpacedFromLast(history, lastReceived, now, node, limits.minInterval);
      if node in lastReceived {
        var last := lastReceived[node];
        if now - last < limits.minInterval {
          return false;
        }
      }
      DropOld(now);
      if |recent| >= limits.maxPerSecond {
        return false;
      }
      Accept(now, node);
      ok := true;
    }

    /** Enters an accepted heartbeat in both records. */
    method Accept(now: nat, node: NodeId)
      requires Valid() && clock == now
      modifies this`recent, this`lastReceived, this`history
      ensures Valid() && history == old(history) + [Acceptance(node, now)]
    {
      LastExtended(history, lastReceived, now, node);
      WindowExtended(history, dropped, recent, now, node);
      lastReceived := lastReceived[node := now];
      recent := recent + [now];
      history := history + [Acceptance(node, now)];
    }

    /** Removes the entries that are more than one second old. */
    method DropOld(now: nat)
      requires Valid() && clock == now
      modifies this`recent, this`dropped
      ensures Valid() && |recent| == CountRecent(history, now)
    {
      while recent != [] && now - recent[0] > ONE_SECOND
        invariant WindowOk(history, dropped, recent, now)
        decreases |recent|
      {
        DropFirst(history, dropped, recent, now);
        recent := recent[1..];
        dropped := dropped + 1;
      }
      WindowDone(history, dropped, recent, now);
    }
  }

  /** Looking at the latest acceptance of the node is enough. */
  lemma SpacedFromLast(
      history: seq<Acceptance>, lastReceived: map<NodeId, nat>, now: nat, node: NodeId, minInterval: nat)
    requires LastOk(history, lastReceived)
    ensures Spaced(minInterval, history, now, node)
        <==> (node in lastReceived ==> now - lastReceived[node] >= minInterval)
  {
    assert node in lastReceived ==> AcceptedAt(history, node, lastReceived[node]);
  }

  lemma LastExtended(history: seq<Acceptance>, lastReceived: map<NodeId, nat>, now: nat, node: NodeId)
    requires LastOk(history, lastReceived) && Ordered(history, now)
    ensures LastOk(history + [Acceptance(node, now)], lastReceived[node := now])
  {
    var longer, last := history + [Acceptance(node, now)], lastReceived[node := now];
    forall n | n in last ensures AcceptedAt(longer, n, last[n]) {
      if n == node {
        assert longer[|history|] == Acceptance(node, now);
      } else {
        assert AcceptedAt(history, n, lastReceived[n]);
        var i :| 0 <= i < |history| && history[i] == Acceptance(n, lastReceived[n]);
        assert longer[i] == Acceptance(n, last[n]);
      }
    }
  }

  lemma DropFirst(history: seq<Acceptance>, dropped: nat, recent: seq<nat>, now: nat)
    requires WindowOk(history, dropped, recent, now)
    requires recent != [] && now - recent[0] > ONE_SECOND
    ensures WindowOk(history, dropped + 1, recent[1..], now)
  {
  }

  lemma WindowExtended(history: seq<Acceptance>, dropped: nat, recent: seq<nat>, now: nat, node: NodeId)
    requires WindowOk(history, dropped, recent, now)
    requires Ordered(history, now)
    ensures WindowOk(history + [Acceptance(node, now)], dropped, recent + [now], now)
    ensures Ordered(history + [Acceptance(node, now)], now)
  {
    Extended(history, Acceptance(node, now), dropped);
  }

  lemma Extended(history: seq<Acceptance>, a: Acceptance, dropped: nat)
    requires dropped <= |history|
    ensures Times(history + [a])[dropped..] == Times(history)[dropped..] + [a.time]
  {
  }

  /** When the first `dropped` entries are too old and the rest are not, the count is what is left. */
  lemma {:induction false} RecentIsCount(history: seq<Acceptance>, dropped: nat, now: nat)
    requires dropped <= |history| && Ordered(history, now)
    requires forall i | 0 <= i < dropped :: now - history[i].time > ONE_SECOND
    requires dropped < |history| ==> now - history[dropped].time <= ONE_SECOND
    ensures CountRecent(history, now) == |history| - dropped
  {
    if history != [] {
      var front := history[..|history| - 1];
      if dropped < |history| {
        assert history[dropped].time <= history[|history| - 1].time;
        RecentIsCount(front, dropped, now);
      } else {
        RecentIsCount(front, |front|, now);
      }
    }
  }

  lemma WindowDone(history: seq<Acceptance>, dropped: nat, recent: seq<nat>, now: nat)
    requires WindowOk(history, dropped, recent, now) && Ordered(history, now)
    requires recent != [] ==> now - recent[0] <= ONE_SECOND
    ensures |recent| == CountRecent(history, now)
  {
    RecentIsCount(history, dropped, now);
  }

  // ----- Whole runs -----

  datatype Call = Call(node: NodeId, time: nat)

  /** The acceptances of the naive limiter over a sequence of calls. */
  function Accepted(limits: Limits, calls: seq<Call>): seq<Acceptance> {
    if calls == [] then []
    else
      var earlier := Accepted(limits, calls[..|calls| - 1]);
      var c := calls[|calls| - 1];
      if NaiveAllow(limits, earlier, c.time, c.node) then earlier + [Acceptance(c.node, c.time)] else earlier
  }

  ghost predicate ClockMonotone(calls: seq<Call>) {
    forall i, j | 0 <= i < j < |calls| :: calls[i].time <= calls[j].time
  }

  lemma {:induction false} AcceptedOrdered(limits: Limits, calls: seq<Call>)
    requires ClockMonotone(calls)
    ensures calls != [] ==> Ordered(Accepted(limits, calls), calls[|calls| - 1].time)
    ensures calls == [] ==> Accepted(limits, calls) == []
  {
    if calls != [] {
      AcceptedOrdered(limits, calls[..|calls| - 1]);
    }
  }

  /** What the naive limiter answers to call i. */
  predicate Decision(limits: Limits, calls: seq<Call>, i: nat)
    requires i < |calls|
  {
    NaiveAllow(limits, Accepted(limits, calls[..i]), calls[i].time, calls[i].node)
  }

  /** `Accepted` grows by the very step that `Allow` is proved to make. */
  lemma NextAccepted(limits: Limits, calls: seq<Call>, k: nat)
    requires k < |calls|
    ensures
      Accepted(limits, calls[..k + 1])
      == Accepted(limits, calls[..k])
         + if Decision(limits, calls, k) then [Acceptance(calls[k].node, calls[k].time)] else []
  {
    assert calls[..k + 1][..k] == calls[..k];
  }

  /** The naive limiter's answers over a sequence of calls. */
  function Answers(limits: Limits, calls: seq<Call>): seq<bool> {
    if calls == [] then []
    else Answers(limits, calls[..|calls| - 1]) + [Decision(limits, calls, |calls| - 1)]
  }

  lemma NextAnswer(limits: Limits, calls: seq<Call>, k: nat)
    requires k < |calls|
    ensures Answers(limits, calls[..k + 1]) == Answers(limits, calls[..k]) + [Decision(limits, calls, k)]
  {
    var c := calls[..k + 1];
    assert c[..k] == calls[..k];
  }

  /** One call of a run: the limiter answers and remembers as the naive one does. */
  method AllowNext(limiter: HeartbeatRateLimiter, ghost calls: seq<Call>, ghost k: nat, call: Call) returns (ok: bool)
    requires k < |calls| && call == calls[k]
    requires limiter.Valid() && limiter.clock <= call.time
    requires limiter.history == Accepted(limiter.limits, calls[..k])
    modifies limiter
    ensures limiter.Valid() && limiter.clock == call.time
    ensures limiter.history == Accepted(limiter.limits, calls[..k + 1])
    ensures ok == Decision(limiter.limits, calls, k)
  {
    NextAccepted(limiter.limits, calls, k);
    ok := limiter.Allow(call.time, call.node);
  }

  /** Driving the limiter through a whole run: its history and its answers are the naive limiter's. */
  method AllowAll(limiter: HeartbeatRateLimiter, calls: seq<Call>) returns (answers: seq<bool>)
    requires limiter.Valid() && limiter.history == [] && ClockMonotone(calls)
    requires calls != [] ==> limiter.clock <= calls[0].time
    modifies limiter
    ensures limiter.Valid() && limiter.history == Accepted(limiter.limits, calls)
    ensures answers == Answers(limiter.limits, calls)
  {
    answers := [];
    for i := 0 to |calls|
      invariant limiter.Valid() && limiter.history == Accepted(limiter.limits, calls[..i])
      invariant i < |calls| ==> limiter.clock <= calls[i].time
      invariant answers == Answers(limiter.limits, calls[..i])
    {
      NextAnswer(limiter.limits, calls, i);
      var ok := AllowNext(limiter, calls, i, calls[i]);
      answers := answers + [ok];
    }
    assert calls[..|calls|] == calls;
  }

  /** How many acceptances fall in the closed interval [from, to]. */
  function CountBetween(history: seq<Acceptance>, from: nat, to: nat): nat {
    if history == [] then 0
    else
      var last := history[|history| - 1];
      CountBetween(history[..|history| - 1], from, to) + if from <= last.time <= to then 1 else 0
  }

  /** Entries of a window that ends after the clock are among those at most a second old. */
  lemma {:induction false} WindowWithinRecent(history: seq<Acceptance>, from: nat, now: nat)
    requires Ordered(history, now) && from <= now <= from + ONE_SECOND
    ensures CountBetween(history, from, from + ONE_SECOND) <= CountRecent(history, now)
  {
    if history != [] {
      WindowWithinRecent(history[..|history| - 1], from, now);
    }
  }

  /** No closed one-second interval, wherever it lies, ever holds more than the allowed number of acceptances. */
  lemma {:induction false} EveryWindowBounded(limits: Limits, calls: seq<Call>, from: nat)
    requires ClockMonotone(calls)
    ensures CountBetween(Accepted(limits, calls), from, from + 1_000_000_000) <= limits.maxPerSecond
  {
    if calls != [] {
      var front, c := calls[..|calls| - 1], calls[|calls| - 1];
      var earlier := Accepted(limits, front);
      EveryWindowBounded(limits, front, from);
      AcceptedOrdered(limits, front);
      if NaiveAllow(limits, earlier, c.time, c.node) {
        assert (earlier + [Acceptance(c.node, c.time)])[..|earlier|] == earlier;
        if from <= c.time <= from + ONE_SECOND {
          WindowWithinRecent(earlier, from, c.time);
        }
      }
    }
  }

  /** Two acceptances of one node are at least the minimum interval apart. */
  lemma {:induction false} SameNodeSpaced(limits: Limits, calls: seq<Call>, i: nat, j: nat)
    requires ClockMonotone(calls)
    requires i < j < |Accepted(limits, calls)|
    requires Accepted(limits, calls)[i].node == Accepted(limits, calls)[j].node
    ensures Accepted(limits, calls)[j].time - Accepted(limits, calls)[i].time >= limits.minInterval
  {
    if calls != [] {
      var front := calls[..|calls| - 1];
      if j < |Accepted(limits, front)| {
        SameNodeSpaced(limits, front, i, j);
      }
    }
  }

  /** The window is as large as it can be: a heartbeat is refused only because its node was accepted
      too recently or because the last second already holds the maximum. */
  lemma {:induction false} RefusalHasReason(limits: Limits, calls: seq<Call>, now: nat, node: NodeId)
    requires ClockMonotone(calls) && (calls != [] ==> calls[|calls| - 1].time <= now)
    requires !NaiveAllow(limits, Accepted(limits, calls), now, node)
    ensures
      || (exists i :: 0 <= i < |Accepted(limits, calls)| && Accepted(limits, calls)[i].node == node
            && now - Accepted(limits, calls)[i].time < limits.minInterval)
      || CountBetween(Accepted(limits, calls), if now < 1_000_000_000 then 0 else now - 1_000_000_000, now)
         == limits.maxPerSecond
  {
    var history := Accepted(limits, calls);
    var from := if now < ONE_SECOND then 0 else now - ONE_SECOND;
    AcceptedOrdered(limits, calls);
    RecentIsBetween(history, now);
    EveryWindowBounded(limits, calls, from);
    WiderWindow(history, from, now, from + ONE_SECOND);
  }

  lemma {:induction false} RecentIsBetween(history: seq<Acceptance>, now: nat)
    requires Ordered(history, now)
    ensures CountRecent(history, now) == CountBetween(history, if now < ONE_SECOND then 0 else now - ONE_SECOND, now)
  {
    if history != [] {
      RecentIsBetween(history[..|history| - 1], now);
    }
  }

  lemma {:induction false} WiderWindow(history: seq<Acceptance>, from: nat, to: nat, to': nat)
    requires to <= to'
    ensures CountBetween(history, from, to) <= CountBetween(history, from, to')
  {
    if history != [] {
      WiderWindow(history[..|history| - 1], from, to, to');
    }
  }
}
