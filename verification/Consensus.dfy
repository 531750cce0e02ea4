/** Reputation, block rotation and fork choice (crates/myriadmesh-ledger/src/consensus.rs). */
module Consensus {
  import opened Common
  import opened Blocks

  const SUCCESSFUL_RELAYS_WEIGHT: real := 0.50
  const UPTIME_WEIGHT: real := 0.30
  const LEDGER_PARTICIPATION_WEIGHT: real := 0.20

  datatype NodeReputation = NodeReputation(
    successfulRelays: nat,
    totalRelayAttempts: nat,
    uptime: real,
    blocksCreated: nat,
    blocksValidated: nat)
  {
    function Score(): real {
      var relay := if totalRelayAttempts > 0 then successfulRelays as real / totalRelayAttempts as real else 0.0;
      var shared := (blocksCreated + blocksValidated) as real / 100.0;
      var capped := if shared < 1.0 then shared else 1.0;
      var participation := if blocksCreated > 0 || blocksValidated > 0 then capped else 0.0;
      relay * SUCCESSFUL_RELAYS_WEIGHT + uptime * UPTIME_WEIGHT + participation * LEDGER_PARTICIPATION_WEIGHT
    }
  }

  datatype ConsensusManager = ConsensusManager(reputations: map<NodeId, NodeReputation>, minReputation: real) {

    predicate CanCreateBlocks(node: NodeId) {
      node in reputations && reputations[node].Score() >= minReputation
    }

    function ValidateBlockCreator(node: NodeId): Outcome {
      if CanCreateBlocks(node) then Pass
      else
        var score := if node in reputations then reputations[node].Score() else 0.0;
        Fail(InsufficientReputation(node, score, minReputation))
    }

    /** Two thirds of the known nodes; with no node known, anything passes. */
    function ValidateConsensus(b: Block): Outcome {
      var total := |reputations|;
      if total == 0 || HasConsensus(b, total) then Pass
      else Fail(InsufficientSignatures(RequiredSignatures(total), |b.validatorSignatures|))
    }

    /** The creator check passes exactly for a known node with the minimum score. */
    lemma CreatorIff(node: NodeId)
      ensures ValidateBlockCreator(node).Pass? <==> node in reputations && reputations[node].Score() >= minReputation
    {
    }

    /** The quorum check passes exactly when no node is known or two thirds of them, counted in list
        entries, signed. */
    lemma ConsensusIff(b: Block)
      ensures
        ValidateConsensus(b).Pass?
        <==> reputations == map[] || 3 * |b.validatorSignatures| >= 2 * |reputations|
    {
      assert |reputations| == 0 <==> reputations == map[];
    }

    /** The nodes with enough reputation, in the order the map happens to be iterated. */
    function EligibleCreators(order: seq<NodeId>): (r: seq<NodeId>)
      ensures forall id :: id in r <==> id in order && CanCreateBlocks(id)
    {
      if order == [] then []
      else (if CanCreateBlocks(order[0]) then [order[0]] else []) + EligibleCreators(order[1..])
    }

    function SelectNextCreator(order: seq<NodeId>, blockHeight: nat): Option<NodeId> {
      var eligible := SortBy(AtMost, EligibleCreators(order));
      if eligible == [] then None else Some(eligible[blockHeight % |eligible|])
    }

    function ChainReputation(blocks: seq<Block>): real {
      if blocks == [] then 0.0
      else
        var creator := blocks[0].header.creator;
        (if creator in reputations then reputations[creator].Score() else 0.0) + ChainReputation(blocks[1..])
    }

    /** Index of the chosen chain: the longer, then the one of strictly higher reputation, else the first. */
    function ResolveFork(chain1: seq<Block>, chain2: seq<Block>): nat {
      if |chain1| > |chain2| then 0
      else if |chain2| > |chain1| then 1
      else if ChainReputation(chain1) >= ChainReputation(chain2) then 0
      else 1
    }
  }

  /** The counters of a reputation as the recording operations leave them. */
  predicate Recorded(r: NodeReputation) {
    r.successfulRelays <= r.totalRelayAttempts && 0.0 <= r.uptime <= 1.0
  }

  lemma RatioInUnit(a: nat, b: nat) returns (q: real)
    requires a <= b && b > 0
    ensures q == a as real / b as real && 0.0 <= q <= 1.0
    ensures q == 1.0 <==> a == b
  {
    q := a as real / b as real;
    assert q * b as real == a as real;
    assert q > 1.0 ==> q * b as real > b as real;
    assert q < 0.0 ==> q * b as real < 0.0;
  }

  /** A score lies between 0 and 1, and is 1 exactly for a node that relayed without a failure, was
      always up, and took part in a hundred blocks. */
  lemma {:induction false} ScoreRange(r: NodeReputation)
    requires Recorded(r)
    ensures 0.0 <= r.Score() <= 1.0
    ensures r.Score() == 1.0 <==>
      && r.totalRelayAttempts > 0 && r.successfulRelays == r.totalRelayAttempts
      && r.uptime == 1.0
      && r.blocksCreated + r.blocksValidated >= 100
  {
    if r.totalRelayAttempts > 0 {
      var q := RatioInUnit(r.successfulRelays, r.totalRelayAttempts);
    }
  }

  /** Two nodes on different sides of a fork settle on the same chain unless the chains tie in length
      and reputation, when each keeps its own; and preferring one chain to another never goes in circles. */
  lemma {:induction false} ForkChoiceConsistent(c: ConsensusManager, x: seq<Block>, y: seq<Block>, z: seq<Block>)
    ensures c.ResolveFork(x, y) == 1
       <==> |y| > |x| || (|y| == |x| && c.ChainReputation(y) > c.ChainReputation(x))
    ensures c.ResolveFork(x, y) == 1 ==> c.ResolveFork(y, x) == 0
    ensures
      c.ResolveFork(x, y) == 0 && c.ResolveFork(y, x) == 0
      <==> |x| == |y| && c.ChainReputation(x) == c.ChainReputation(y)
    ensures c.ResolveFork(x, y) == 1 && c.ResolveFork(y, z) == 1 ==> c.ResolveFork(x, z) == 1
  {
  }

  predicate AtMost(a: NodeId, b: NodeId) {
    a <= b
  }

  lemma {:induction false} EligibleDistinct(c: ConsensusManager, order: seq<NodeId>)
    requires forall i, j | 0 <= i < j < |order| :: order[i] != order[j]
    ensures forall i, j | 0 <= i < j < |c.EligibleCreators(order)| ::
      c.EligibleCreators(order)[i] != c.EligibleCreators(order)[j]
  {
    if order != [] {
      EligibleDistinct(c, order[1..]);
      assert order[0] !in order[1..];
    }
  }

  /** The sorted list of eligible nodes, which no iteration order can change. */
  lemma {:induction false} SortedEligible(c: ConsensusManager, order: seq<NodeId>)
    requires Enumerates(order, c.reputations.Keys)
    ensures
      var e := SortBy(AtMost, c.EligibleCreators(order));
      && (forall i, j | 0 <= i < j < |e| :: e[i] < e[j])
      && (forall id :: id in e <==> c.CanCreateBlocks(id))
  {
    var raw := c.EligibleCreators(order);
    var e := SortBy(AtMost, raw);
    SortByCorrect(AtMost, raw);
    EligibleDistinct(c, order);
    forall id ensures id in e <==> c.CanCreateBlocks(id) {
      assert id in multiset(e) <==> id in multiset(raw);
    }
    ArrangementDistinct(raw, e);
    assert forall i, j | 0 <= i < j < |e| :: AtMost(e[i], e[j]) && e[i] != e[j];
  }

  /** Whatever order the hash map is iterated in, every node picks the same creator. */
  lemma {:induction false} SelectionIgnoresIterationOrder(
      c: ConsensusManager, order1: seq<NodeId>, order2: seq<NodeId>, blockHeight: nat)
    requires Enumerates(order1, c.reputations.Keys) && Enumerates(order2, c.reputations.Keys)
    ensures c.SelectNextCreator(order1, blockHeight) == c.SelectNextCreator(order2, blockHeight)
  {
    var a, b := SortBy(AtMost, c.EligibleCreators(order1)), SortBy(AtMost, c.EligibleCreators(order2));
    SortedEligible(c, order1);
    SortedEligible(c, order2);
    SameAscending(a, b);
  }

  lemma SomeMember(a: seq<NodeId>)
    ensures a != [] ==> exists id :: id in a
  {
    if a != [] {
      assert a[0] in a;
    }
  }

  /** Two strictly ascending lists of the same numbers are the same list. */
  lemma {:induction false} SameAscending(a: seq<NodeId>, b: seq<NodeId>)
    requires forall i, j | 0 <= i < j < |a| :: a[i] < a[j]
    requires forall i, j | 0 <= i < j < |b| :: b[i] < b[j]
    requires forall id :: id in a <==> id in b
    ensures a == b
  {
    SomeMember(a);
    SomeMember(b);
    if a != [] {
      assert a[0] in b;
      assert b[0] in a;
      assert a[0] == b[0];
      forall id ensures id in a[1..] <==> id in b[1..] {
        assert a == [a[0]] + a[1..] && b == [b[0]] + b[1..];
        assert id in a <==> id == a[0] || id in a[1..];
        assert id in b <==> id == b[0] || id in b[1..];
      }
      SameAscending(a[1..], b[1..]);
      assert a == [a[0]] + a[1..] && b == [b[0]] + b[1..];
    }
  }

  /** A score is half the relay success rate, three tenths of the uptime, and a fifth of the
      participation, which is full at a hundred blocks; and eligibility is that score against the minimum. */
  lemma {:induction false} EligibleIff(c: ConsensusManager, node: NodeId)
    ensures
      c.CanCreateBlocks(node)
      <==> node in c.reputations
           && var r := c.reputations[node];
              var blocks := r.blocksCreated + r.blocksValidated;
              (if r.totalRelayAttempts > 0 then r.successfulRelays as real / r.totalRelayAttempts as real else 0.0)
                / 2.0
              + r.uptime * 3.0 / 10.0 + (if blocks >= 100 then 100 else blocks) as real / 500.0
              >= c.minReputation
  {
  }

  function EligibleNodes(c: ConsensusManager): set<NodeId> {
    set id | id in c.reputations && c.CanCreateBlocks(id)
  }

  function Below(nodes: set<NodeId>, node: NodeId): set<NodeId> {
    set id | id in nodes && id < node
  }

  /** The creator of a height, by rank: with k eligible nodes, the one that has exactly height modulo k
      eligible nodes below it; none if there are none. */
  lemma {:induction false} CreatorByRank(c: ConsensusManager, order: seq<NodeId>, blockHeight: nat)
    requires Enumerates(order, c.reputations.Keys)
    ensures
      var eligible, chosen := EligibleNodes(c), c.SelectNextCreator(order, blockHeight);
      if eligible == {} then chosen == None
      else
        && chosen.Some? && chosen.value in eligible
        && |Below(eligible, chosen.value)| == blockHeight % |eligible|
  {
    var e := SortBy(AtMost, c.EligibleCreators(order));
    SortedEligible(c, order);
    ListsEligible(c, e);
    if e != [] {
      var i := blockHeight % |e|;
      RankInSorted(e, EligibleNodes(c), i);
      assert c.SelectNextCreator(order, blockHeight) == Some(e[i]);
    }
  }

  lemma ListsEligible(c: ConsensusManager, e: seq<NodeId>)
    requires forall i, j | 0 <= i < j < |e| :: e[i] < e[j]
    requires forall id :: id in e <==> c.CanCreateBlocks(id)
    ensures (forall id :: id in e <==> id in EligibleNodes(c)) && |e| == |EligibleNodes(c)|
    ensures e == [] <==> EligibleNodes(c) == {}
  {
    forall id ensures id in e <==> id in EligibleNodes(c) {
      assert c.CanCreateBlocks(id) ==> id in c.reputations;
    }
    forall i | 0 <= i < |e| ensures e[i] in EligibleNodes(c) {
      assert e[i] in e;
    }
    EnumerationSize(e, EligibleNodes(c));
  }

  lemma RankInSorted(e: seq<NodeId>, all: set<NodeId>, i: nat)
    requires i < |e| && forall j, k | 0 <= j < k < |e| :: e[j] < e[k]
    requires forall id :: id in e <==> id in all
    ensures |Below(all, e[i])| == i && e[i] in all
  {
    var below := Below(all, e[i]);
    assert e[i] in e;
    forall j | 0 <= j < i ensures e[..i][j] in below {
      assert e[j] in e;
    }
    forall id | id in below ensures id in e[..i] {
      var k :| 0 <= k < |e| && e[k] == id;
      assert k < i;
    }
    EnumerationSize(e[..i], below);
  }

  /** A remainder comes round again after k steps. */
  lemma RemainderPeriod(x: nat, k: nat)
    requires k > 0
    ensures (x + k) % k == x % k
  {
    var q, r := x / k, x % k;
    assert x + k == (q + 1) * k + r;
    RemainderUnique(x + k, k, q + 1, r);
  }

  lemma RemainderUnique(x: nat, k: nat, q: nat, r: nat)
    requires k > 0 && x == q * k + r && r < k
    ensures x % k == r
  {
    var d := q - x / k;
    assert d * k == x % k - r;
    assert d >= 1 ==> d * k >= k;
    assert d <= -1 ==> d * k + k <= 0;
  }

  /** Among any k consecutive numbers exactly one leaves remainder i. */
  lemma {:induction false} OneHeightPerRemainder(start: nat, k: nat, i: nat) returns (h: nat)
    requires i < k
    ensures start <= h < start + k && h % k == i
    ensures forall g: nat | start <= g < start + k && g % k == i :: g == h
  {
    if start == 0 {
      h := i;
      RemainderUnique(i, k, 0, i);
      forall g: nat | 0 <= g < k && g % k == i ensures g == h {
        RemainderUnique(g, k, 0, g);
      }
    } else {
      h := OneHeightPerRemainder(start - 1, k, i);
      var last := start - 1 + k;
      RemainderPeriod(start - 1, k);
      if h == start - 1 {
        h := last;
      }
    }
  }

  /** In any window of k consecutive heights, k being the number of eligible nodes, each eligible
      node creates exactly one block. */
  lemma {:induction false} EachEligibleNodeOncePerWindow(
      c: ConsensusManager, order: seq<NodeId>, start: nat, id: NodeId) returns (h: nat)
    requires Enumerates(order, c.reputations.Keys) && c.CanCreateBlocks(id)
    ensures
      var k := |SortBy(AtMost, c.EligibleCreators(order))|;
      && start <= h < start + k
      && c.SelectNextCreator(order, h) == Some(id)
      && forall g: nat | start <= g < start + k && c.SelectNextCreator(order, g) == Some(id) :: g == h
  {
    var e := SortBy(AtMost, c.EligibleCreators(order));
    SortedEligible(c, order);
    var i :| 0 <= i < |e| && e[i] == id;
    h := OneHeightPerRemainder(start, |e|, i);
    forall g: nat | start <= g < start + |e| && c.SelectNextCreator(order, g) == Some(id) ensures g == h {
      var r := g % |e|;
      assert e[r] == e[i];
      assert r == i;
    }
  }
}
