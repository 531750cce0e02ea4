/** What fork detection reports, and what it leaves alone. */
module Forks {
  import opened Common
  import opened Blocks
  import opened Consensus
  import opened Storage
  import opened Sync
  import opened Runs
  import opened History

  /** An alternative chain: every block links to the one before it. */
  ghost predicate AscendingChain(hs: Hasher, blocks: seq<Block>) {
    forall i {:trigger LinksBack(hs, blocks, i)} | 0 < i < |blocks| :: LinksBack(hs, blocks, i)
  }

  lemma {:induction false} HeightsOf(hs: Hasher, blocks: seq<Block>, i: nat, j: nat)
    requires AscendingChain(hs, blocks) && i <= j < |blocks|
    ensures blocks[j].header.height == blocks[i].header.height + (j - i)
    decreases j
  {
    if i < j {
      assert LinksBack(hs, blocks, j);
      HeightsOf(hs, blocks, i, j - 1);
    }
  }

  /** The stored block of that height has the same hash. */
  ghost predicate Matches(hs: Hasher, s: Store, b: Block) {
    && s.LoadBlock(b.header.height).Success?
    && HeaderHash(hs, BlockAt(s, b.header.height).header) == HeaderHash(hs, b.header)
  }

  /** The scan stops at the first stored height whose hash differs. */
  lemma {:induction false} FirstMismatch(w: World, s: Store, alternative: seq<Block>) returns (i: nat)
    requires w.config.Usable() && StoreInv(w, s)
    ensures ForkHeight(w.hasher, s, alternative).Success?
    ensures i <= |alternative|
    ensures forall j | 0 <= j < i :: alternative[j].header.height in s.index ==> Matches(w.hasher, s, alternative[j])
    ensures i == |alternative| ==> ForkHeight(w.hasher, s, alternative) == Success(0)
    ensures i < |alternative| ==>
      && ForkHeight(w.hasher, s, alternative) == Success(alternative[i].header.height)
      && alternative[i].header.height in s.index && !Matches(w.hasher, s, alternative[i])
    decreases |alternative|
  {
    if alternative == [] {
      i := 0;
    } else {
      var b := alternative[0];
      StoredAt(w, s, b.header.height);
      if b.header.height in s.index && !Matches(w.hasher, s, b) {
        i := 0;
      } else {
        i := FirstMismatch(w, s, alternative[1..]);
        i := i + 1;
        ShiftMatches(w.hasher, s, alternative, i);
      }
    }
  }

  lemma ShiftMatches(hs: Hasher, s: Store, alternative: seq<Block>, i: nat)
    requires 0 < i <= |alternative|
    requires alternative[0].header.height in s.index ==> Matches(hs, s, alternative[0])
    requires forall j | 0 <= j < i - 1 ::
      alternative[1..][j].header.height in s.index ==> Matches(hs, s, alternative[1..][j])
    ensures forall j | 0 <= j < i :: alternative[j].header.height in s.index ==> Matches(hs, s, alternative[j])
  {
    forall j | 0 <= j < i ensures alternative[j].header.height in s.index ==> Matches(hs, s, alternative[j]) {
      if j > 0 {
        assert alternative[j] == alternative[1..][j - 1];
      }
    }
  }

  /** The stored block of that height has another header with the same hash. */
  ghost predicate HeadersCollide(hs: Hasher, s: Store, b: Block) {
    Matches(hs, s, b) && BlockAt(s, b.header.height).header != b.header
  }

  /** If a linked alternative chain meets the stored chain at some height, they met at every lower
      shared height of the alternative, or the two headers at some height m in between collide. */
  lemma {:induction false} MeetingReachesDown(w: World, s: Store, alternative: seq<Block>, i: nat, j: nat)
      returns (m: nat)
    requires w.config.Usable() && StoreInv(w, s) && AscendingChain(w.hasher, alternative)
    requires i <= j < |alternative|
    requires alternative[i].header.height in s.index && Matches(w.hasher, s, alternative[j])
    ensures m <= j
    ensures Matches(w.hasher, s, alternative[i]) || (i < m && HeadersCollide(w.hasher, s, alternative[m]))
    decreases j
  {
    m := j;
    if i < j && !HeadersCollide(w.hasher, s, alternative[j]) {
      MeetsBelow(w, s, alternative, i, j);
      m := MeetingReachesDown(w, s, alternative, i, j - 1);
    }
  }

  /** One height: where the two chains hold one header, they match at the height below. */
  lemma MeetsBelow(w: World, s: Store, alternative: seq<Block>, i: nat, j: nat)
    requires w.config.Usable() && StoreInv(w, s) && AscendingChain(w.hasher, alternative)
    requires i < j < |alternative| && alternative[i].header.height in s.index
    requires Matches(w.hasher, s, alternative[j]) && !HeadersCollide(w.hasher, s, alternative[j])
    ensures Matches(w.hasher, s, alternative[j - 1])
  {
    var h := alternative[j].header.height;
    HeightsOf(w.hasher, alternative, i, j);
    assert LinksBack(w.hasher, alternative, j);
    StoredAt(w, s, h);
    NoGap(w, s, alternative[i].header.height, h);
    StoredAt(w, s, h - 1);
  }

  /** A nonzero fork height f splits the shared heights of a linked alternative chain exactly: below f
      all stored blocks have the alternative's hashes; from f on none has, or the stored header and the
      alternative's at some height m up to there, above f, are different and have one hash. */
  lemma {:induction false} ForkHeightSplits(w: World, s: Store, alternative: seq<Block>, k: nat) returns (m: nat)
    requires w.config.Usable() && StoreInv(w, s) && AscendingChain(w.hasher, alternative)
    requires ForkHeight(w.hasher, s, alternative) != Success(0)
    requires k < |alternative| && alternative[k].header.height in s.index
    ensures ForkHeight(w.hasher, s, alternative).Success?
    ensures m <= k
    ensures
      var f := ForkHeight(w.hasher, s, alternative).value;
      && (alternative[k].header.height < f ==> Matches(w.hasher, s, alternative[k]))
      && (alternative[k].header.height >= f ==>
            || !Matches(w.hasher, s, alternative[k])
            || (alternative[m].header.height > f && HeadersCollide(w.hasher, s, alternative[m])))
  {
    var i := FirstMismatch(w, s, alternative);
    m := k;
    if k < i {
      HeightsOf(w.hasher, alternative, k, i);
    } else {
      HeightsOf(w.hasher, alternative, i, k);
      if Matches(w.hasher, s, alternative[k]) {
        m := MeetingReachesDown(w, s, alternative, i, k);
        HeightsOf(w.hasher, alternative, i, m);
      }
    }
  }

  /** The stored chain from a stored height to the tip loads completely. */
  lemma {:induction false} RangeLoadsAll(w: World, s: Store, h: nat)
    requires w.config.Usable() && StoreInv(w, s) && s.index != map[]
    requires h in s.index || h == s.chainHeight + 1
    ensures |s.LoadRange(h, s.chainHeight)| == s.chainHeight + 1 - h
    decreases s.chainHeight + 1 - h
  {
    if h <= s.chainHeight {
      StoredAt(w, s, h);
      assert h + 1 in Interval(Floor(w.config, s.chainHeight), s.chainHeight) || h == s.chainHeight;
      RangeLoadsAll(w, s, h + 1);
    }
  }

  /** The alternative from height f on is preferred to the local chain from there to the tip. */
  predicate AlternativeWins(w: World, s: Store, alternative: seq<Block>, f: nat) {
    w.consensus.ResolveFork(s.LoadRange(f, s.chainHeight), FromHeight(alternative, f)) == 1
  }

  /** Fork detection always succeeds on a well-formed store; it reports a number exactly when there
      is a fork height and the alternative wins from there, and then the number of local blocks from
      that height to the tip, computed without underflow; only the pending queue and its counter may
      change. */
  lemma {:induction false} ForkResult(w: World, c: Chain, alternative: seq<Block>)
    requires w.config.Usable() && StoreInv(w, c.store)
    ensures DetectForks(w, c, alternative).1.Success?
    ensures
      var (d, r) := DetectForks(w, c, alternative);
      var f := ForkHeight(w.hasher, c.store, alternative).value;
      && d == c.(pending := d.pending, stats := c.stats.(blocksDiscovered := d.stats.blocksDiscovered))
      && (r.value == 0 ==> d == c)
      && (r.value != 0 <==> f > 0 && AlternativeWins(w, c.store, alternative, f))
      && (r.value != 0 ==>
            && f in c.store.index
            && r.value == |c.store.LoadRange(f, c.store.chainHeight)| == c.store.chainHeight - f + 1
            && d.pending == c.pending + FromHeight(alternative, f))
  {
    var i := FirstMismatch(w, c.store, alternative);
    var f := ForkHeight(w.hasher, c.store, alternative).value;
    AddAllPendingEffect(c, FromHeight(alternative, f));
    if i < |alternative| {
      assert f in Interval(Floor(w.config, c.store.chainHeight), c.store.chainHeight);
      RangeLoadsAll(w, c.store, f);
    }
  }

  // ----- What is reported and queued, outright -----

  /** The summed scores of the creators, unknown ones counting nothing. */
  function CreatorScores(reputations: map<NodeId, NodeReputation>, blocks: seq<Block>): real {
    if blocks == [] then 0.0
    else
      var last := blocks[|blocks| - 1].header.creator;
      CreatorScores(reputations, blocks[..|blocks| - 1])
      + if last in reputations then reputations[last].Score() else 0.0
  }

  lemma {:induction false} ScoresFromFirst(c: ConsensusManager, blocks: seq<Block>)
    requires blocks != []
    ensures
      CreatorScores(c.reputations, blocks)
      == CreatorScores(c.reputations, blocks[..1]) + CreatorScores(c.reputations, blocks[1..])
  {
    var front := blocks[..|blocks| - 1];
    if |blocks| > 1 {
      assert blocks[1..][..|blocks| - 2] == front[1..] && front[..1] == blocks[..1];
      ScoresFromFirst(c, front);
    } else {
      assert blocks[..1] == blocks;
    }
  }

  lemma {:induction false} ReputationIsScores(c: ConsensusManager, blocks: seq<Block>)
    ensures c.ChainReputation(blocks) == CreatorScores(c.reputations, blocks)
  {
    if blocks != [] {
      ScoresFromFirst(c, blocks);
      ReputationIsScores(c, blocks[1..]);
      assert blocks[..1][..0] == [];
    }
  }

  /** The blocks stored from height h to the tip. */
  function StoredFrom(s: Store, h: nat): (r: seq<Block>)
    requires h <= s.chainHeight + 1 && forall g: nat | h <= g <= s.chainHeight :: s.LoadBlock(g).Success?
    ensures |r| == s.chainHeight + 1 - h
  {
    seq(s.chainHeight + 1 - h, j requires 0 <= j < s.chainHeight + 1 - h => BlockAt(s, h + j))
  }

  lemma StoredFromFirst(s: Store, h: nat)
    requires h <= s.chainHeight && forall g: nat | h <= g <= s.chainHeight :: s.LoadBlock(g).Success?
    ensures StoredFrom(s, h) == [BlockAt(s, h)] + StoredFrom(s, h + 1)
  {
  }

  lemma AllLoad(w: World, s: Store, h: nat)
    requires w.config.Usable() && StoreInv(w, s) && h in s.index
    ensures h <= s.chainHeight && forall g: nat | h <= g <= s.chainHeight :: s.LoadBlock(g).Success?
  {
    assert s.index.Keys == Interval(Floor(w.config, s.chainHeight), s.chainHeight) && h in s.index.Keys;
    forall g: nat | h <= g <= s.chainHeight ensures s.LoadBlock(g).Success? {
      assert g in s.index.Keys;
      StoredAt(w, s, g);
    }
  }

  /** Loading a range of stored heights up to the tip gives the block of each height in turn. */
  lemma {:induction false} RangeIsStored(s: Store, h: nat)
    requires h <= s.chainHeight + 1 && forall g: nat | h <= g <= s.chainHeight :: s.LoadBlock(g).Success?
    ensures s.LoadRange(h, s.chainHeight) == StoredFrom(s, h)
    decreases s.chainHeight + 1 - h
  {
    if h <= s.chainHeight {
      RangeIsStored(s, h + 1);
      StoredFromFirst(s, h);
    }
  }

  /** Of a linked chain, the blocks from the height of block i on are those from position i on. */
  lemma {:induction false} FromHeightIsSuffix(hs: Hasher, blocks: seq<Block>, i: nat)
    requires AscendingChain(hs, blocks) && i < |blocks|
    ensures FromHeight(blocks, blocks[i].header.height) == blocks[i..]
    decreases |blocks|
  {
    var f := blocks[i].header.height;
    HeightsOf(hs, blocks, 0, i);
    TailAscends(hs, blocks);
    if i > 0 {
      FromHeightIsSuffix(hs, blocks[1..], i - 1);
      assert blocks[1..][i - 1..] == blocks[i..];
    } else {
      AllFromHeight(hs, blocks, f);
    }
  }

  lemma TailAscends(hs: Hasher, blocks: seq<Block>)
    requires AscendingChain(hs, blocks) && blocks != []
    ensures AscendingChain(hs, blocks[1..])
  {
    forall i | 0 < i < |blocks[1..]| ensures LinksBack(hs, blocks[1..], i) {
      assert LinksBack(hs, blocks, i + 1);
    }
  }

  lemma {:induction false} AllFromHeight(hs: Hasher, blocks: seq<Block>, f: nat)
    requires AscendingChain(hs, blocks) && (blocks != [] ==> blocks[0].header.height >= f)
    ensures FromHeight(blocks, f) == blocks
    decreases |blocks|
  {
    if blocks != [] {
      TailAscends(hs, blocks);
      assert |blocks| > 1 ==> LinksBack(hs, blocks, 1);
      AllFromHeight(hs, blocks[1..], f);
      assert blocks == [blocks[0]] + blocks[1..];
    }
  }

  /** Block i is the first whose stored counterpart has another hash. */
  ghost predicate FirstDifference(hs: Hasher, s: Store, alternative: seq<Block>, i: nat) {
    && i < |alternative| && alternative[i].header.height in s.index && !Matches(hs, s, alternative[i])
    && forall j | 0 <= j < i :: alternative[j].header.height in s.index ==> Matches(hs, s, alternative[j])
  }

  lemma FirstDifferenceIsForkHeight(w: World, s: Store, alternative: seq<Block>, i: nat)
    requires w.config.Usable() && StoreInv(w, s) && FirstDifference(w.hasher, s, alternative, i)
    ensures ForkHeight(w.hasher, s, alternative) == Success(alternative[i].header.height)
  {
    var k := FirstMismatch(w, s, alternative);
    assert k == i;
  }

  /** The alternative from its block i on beats the stored chain from that height on: by length, and at
      equal length by strictly higher creator scores. */
  ghost predicate Beats(w: World, s: Store, alternative: seq<Block>, i: nat)
    requires i < |alternative| && alternative[i].header.height <= s.chainHeight + 1
    requires forall g: nat | alternative[i].header.height <= g <= s.chainHeight :: s.LoadBlock(g).Success?
  {
    var f := alternative[i].header.height;
    var mine, theirs := s.chainHeight + 1 - f, |alternative| - i;
    || theirs > mine
    || (theirs == mine
        && CreatorScores(w.consensus.reputations, alternative[i..])
           > CreatorScores(w.consensus.reputations, StoredFrom(s, f)))
  }

  /** What detection reports on a linked alternative that first differs in its block i, at a height above
      genesis: if the alternative beats the stored chain from there on, the number of stored blocks from
      there to the tip, and exactly alternative[i..] is queued; if not, nothing. */
  lemma {:induction false} DetectionOutcome(w: World, c: Chain, alternative: seq<Block>, i: nat)
    requires w.config.Usable() && StoreInv(w, c.store) && AscendingChain(w.hasher, alternative)
    requires FirstDifference(w.hasher, c.store, alternative, i) && alternative[i].header.height > 0
    ensures alternative[i].header.height <= c.store.chainHeight
    ensures
      forall g: nat | alternative[i].header.height <= g <= c.store.chainHeight :: c.store.LoadBlock(g).Success?
    ensures
      DetectForks(w, c, alternative)
      == if Beats(w, c.store, alternative, i) then
           (c.(pending := c.pending + alternative[i..],
               stats := c.stats.(blocksDiscovered := c.stats.blocksDiscovered + |alternative| - i)),
            Success(c.store.chainHeight - alternative[i].header.height + 1))
         else (c, Success(0))
  {
    var s, f := c.store, alternative[i].header.height;
    AllLoad(w, s, f);
    FirstDifferenceIsForkHeight(w, s, alternative, i);
    WinsIffBeats(w, s, alternative, i);
    DetectAbove(w, c, alternative, f);
    FromHeightIsSuffix(w.hasher, alternative, i);
    AddAllPendingEffect(c, alternative[i..]);
  }

  lemma WinsIffBeats(w: World, s: Store, alternative: seq<Block>, i: nat)
    requires AscendingChain(w.hasher, alternative)
    requires i < |alternative| && alternative[i].header.height <= s.chainHeight + 1
    requires forall g: nat | alternative[i].header.height <= g <= s.chainHeight :: s.LoadBlock(g).Success?
    ensures AlternativeWins(w, s, alternative, alternative[i].header.height) <==> Beats(w, s, alternative, i)
  {
    var f := alternative[i].header.height;
    FromHeightIsSuffix(w.hasher, alternative, i);
    RangeIsStored(s, f);
    SecondWinsIff(w.consensus, StoredFrom(s, f), alternative[i..]);
  }

  lemma SecondWinsIff(c: ConsensusManager, mine: seq<Block>, theirs: seq<Block>)
    ensures
      c.ResolveFork(mine, theirs) == 1
      <==> || |theirs| > |mine|
           || (|theirs| == |mine| && CreatorScores(c.reputations, theirs) > CreatorScores(c.reputations, mine))
  {
    ReputationIsScores(c, mine);
    ReputationIsScores(c, theirs);
  }

  lemma DetectAbove(w: World, c: Chain, alternative: seq<Block>, f: nat)
    requires alternative != [] && f > 0 && ForkHeight(w.hasher, c.store, alternative) == Success(f)
    ensures
      DetectForks(w, c, alternative)
      == if AlternativeWins(w, c.store, alternative, f) then
           (AddAllPending(c, FromHeight(alternative, f)), Success(c.store.chainHeight - f + 1))
         else (c, Success(0))
  {
  }

  /** And on one that nowhere differs from a stored block: nothing. */
  lemma {:induction false} NoDifferenceNoReport(w: World, c: Chain, alternative: seq<Block>)
    requires w.config.Usable() && StoreInv(w, c.store) && !Differs(w.hasher, c.store, alternative)
    ensures DetectForks(w, c, alternative) == (c, Success(0))
  {
    var i := FirstMismatch(w, c.store, alternative);
  }

  /** The reported roll-back does not happen: after detecting the fork and processing the queue,
      every height stored before and still stored holds the block it held before. */
  lemma {:induction false} ForkedBlocksStay(w: World, c: Chain, alternative: seq<Block>, h: nat)
    requires w.config.Usable() && StoreInv(w, c.store)
    requires h in c.store.index
    requires h in ProcessPending(w, DetectForks(w, c, alternative).0).store.index
    ensures
      ProcessPending(w, DetectForks(w, c, alternative).0).store.LoadBlock(h) == c.store.LoadBlock(h)
  {
    DetectForksStore(w, c, alternative);
    ApplyKeeps(w, DetectForks(w, c, alternative).0, ProcessOp);
  }

  /** Some stored block of the alternative's heights has another hash. */
  ghost predicate Differs(hs: Hasher, s: Store, alternative: seq<Block>) {
    exists k :: 0 <= k < |alternative| && alternative[k].header.height in s.index && !Matches(hs, s, alternative[k])
  }

  /** When a difference is taken for "no fork", exactly: the alternative begins with a different
      genesis block while height 0 is stored. */
  lemma {:induction false} DifferenceSilentIff(w: World, s: Store, alternative: seq<Block>)
    requires w.config.Usable() && StoreInv(w, s) && AscendingChain(w.hasher, alternative)
    requires Differs(w.hasher, s, alternative)
    ensures
      ForkHeight(w.hasher, s, alternative) == Success(0)
      <==> alternative[0].header.height == 0 && 0 in s.index && !Matches(w.hasher, s, alternative[0])
  {
    var i := FirstMismatch(w, s, alternative);
    if i < |alternative| {
      HeightsOf(w.hasher, alternative, 0, i);
    }
  }

  /** Such a fork changes nothing and reports nothing. */
  lemma {:induction false} GenesisForkIsSilent(w: World, c: Chain, alternative: seq<Block>)
    requires w.config.Usable() && StoreInv(w, c.store)
    requires alternative != [] && alternative[0].header.height == 0
    requires 0 in c.store.index && !Matches(w.hasher, c.store, alternative[0])
    ensures DetectForks(w, c, alternative) == (c, Success(0))
  {
    StoredAt(w, c.store, 0);
  }
}
