/** A concrete chain and alternative for which fork detection reports a roll-back that does not happen. */
module ForkWitness {
  import opened Common
  import opened Merkle
  import opened Blocks
  import opened Consensus
  import opened Storage
  import opened Sync
  import opened Runs
  import opened ArrivalOrder
  import opened History
  import opened Forks

  const ZERO: ShortHash := Repeated(32, 0)

  function Repeated(n: nat, b: byte): (r: seq<byte>)
    ensures |r| == n && forall i | 0 <= i < n :: r[i] == b
  {
    seq(n, _ => b)
  }

  function SmallDigest(bytes: seq<byte>): Digest {
    Repeated(64, if bytes == [] then 0 else bytes[0])
  }

  function SmallEncoding(header: BlockHeader): seq<byte> {
    [(header.timestamp % 256) as byte]
  }

  /** A hasher that tells blocks apart by their timestamp, one known node, and no pruning. */
  function SmallWorld(): World {
    World(
      Hasher(SmallDigest, SmallEncoding),
      StorageConfig(false, 0),
      ConsensusManager(map[0 := NodeReputation(0, 0, 1.0, 0, 0)], 0.1))
  }

  /** An empty block signed by the one known node. */
  function SmallBlock(height: nat, timestamp: int, previousHash: ShortHash): Block {
    Block(
      BlockHeader(BLOCK_VERSION, height, timestamp, previousHash, Truncate(SmallDigest([])), 0, []),
      [], [ValidatorSignature(0, [])])
  }

  function HashOf(timestamp: int): ShortHash {
    Repeated(32, (timestamp % 256) as byte)
  }

  lemma SmallBlockHash(height: nat, timestamp: int, previousHash: ShortHash)
    ensures HeaderHash(SmallWorld().hasher, SmallBlock(height, timestamp, previousHash).header) == HashOf(timestamp)
  {
  }

  lemma SmallBlockVetted(height: nat, timestamp: int, previousHash: ShortHash)
    ensures Vetted(SmallWorld(), SmallBlock(height, timestamp, previousHash))
  {
    var c := SmallWorld().consensus;
    assert c.reputations.Keys == {0};
    assert |c.reputations| == |c.reputations.Keys| == 1;
  }

  lemma SmallLink(height: nat, timestamp: int, above: int, previousHash: ShortHash)
    requires timestamp < above
    ensures
      ValidateChainLink(SmallWorld().hasher, SmallBlock(height + 1, above, HashOf(timestamp)),
                        SmallBlock(height, timestamp, previousHash)).Pass?
  {
    SmallBlockHash(height, timestamp, previousHash);
  }

  /** The chain of a node that was sent a genesis block and one block above it. */
  function SmallChain(): Chain {
    Execute(SmallWorld(), NewChain(EMPTY_STORE),
            [AddPendingOp(SmallBlock(0, 0, ZERO)), AddPendingOp(SmallBlock(1, 1, HashOf(0))), ProcessOp])
  }

  lemma SmallChainStored()
    ensures StoreInv(SmallWorld(), SmallChain().store)
    ensures SmallChain().store.chainHeight == 1
    ensures SmallChain().store.LoadBlock(1) == Success(SmallBlock(1, 1, HashOf(0)))
  {
    var w, genesis, mine := SmallWorld(), SmallBlock(0, 0, ZERO), SmallBlock(1, 1, HashOf(0));
    var ops := [AddPendingOp(genesis), AddPendingOp(mine), ProcessOp];
    var c := AddPending(AddPending(NewChain(EMPTY_STORE), genesis), mine);
    EmptyStoreInv(w);
    ExecuteKeeps(w, NewChain(EMPTY_STORE), ops);
    ThreeSteps(w, NewChain(EMPTY_STORE), ops[0], ops[1], ops[2]);
    assert c.pending == [genesis, mine];
    SmallExtension();
    ArrivalOrderDoesNotMatter(w, c, [genesis, mine]);
  }

  lemma SmallExtension()
    ensures ValidExtension(SmallWorld(), EMPTY_STORE, [SmallBlock(0, 0, ZERO), SmallBlock(1, 1, HashOf(0))])
  {
    SmallBlockVetted(0, 0, ZERO);
    SmallBlockVetted(1, 1, HashOf(0));
    SmallLink(0, 0, 1, ZERO);
  }

  lemma ThreeSteps(w: World, c: Chain, a: Op, b: Op, d: Op)
    requires w.config.Usable()
    ensures Execute(w, c, [a, b, d]) == Apply(w, Apply(w, Apply(w, c, a), b), d)
  {
    var c1 := Apply(w, c, a);
    var c2 := Apply(w, c1, b);
    assert [a, b, d][1..] == [b, d] && [b, d][1..] == [d] && [d][1..] == [];
    assert Execute(w, c2, [d]) == Execute(w, Apply(w, c2, d), []);
    assert Execute(w, c1, [b, d]) == Execute(w, c2, [d]);
  }

  /** Shown a longer chain that departs at height 1, that node reports one block as rolled back; and
      after processing the queue the block at height 1 is the one it had. */
  lemma {:induction false} RollBackReportedNotDone()
    ensures
      var theirs, next := SmallBlock(1, 2, HashOf(0)), SmallBlock(2, 3, HashOf(2));
      var (d, r) := DetectForks(SmallWorld(), SmallChain(), [theirs, next]);
      && AscendingChain(SmallWorld().hasher, [theirs, next])
      && r == Success(1)
      && ProcessPending(SmallWorld(), d).store.LoadBlock(1) == SmallChain().store.LoadBlock(1)
      && SmallChain().store.LoadBlock(1) == Success(SmallBlock(1, 1, HashOf(0)))
  {
    var w, c := SmallWorld(), SmallChain();
    var theirs, next := SmallBlock(1, 2, HashOf(0)), SmallBlock(2, 3, HashOf(2));
    var alternative := [theirs, next];
    SmallChainStored();
    SmallLink(1, 2, 3, HashOf(0));
    StoredAt(w, c.store, 1);
    SmallBlockHash(1, 1, HashOf(0));
    SmallBlockHash(1, 2, HashOf(0));
    assert HashOf(1)[0] != HashOf(2)[0];
    assert ForkHeight(w.hasher, c.store, alternative) == Success(1);
    BothFromHeight(theirs, next);
    RangeLoadsAll(w, c.store, 1);
    ForkResult(w, c, alternative);
    var d := DetectForks(w, c, alternative).0;
    ApplyKeeps(w, d, ProcessOp);
    StaysWithoutPruning(w, c.store, ProcessPending(w, d).store, 1);
    ForkedBlocksStay(w, c, alternative, 1);
  }

  lemma BothFromHeight(x: Block, y: Block)
    requires x.header.height >= 1 && y.header.height >= 1
    ensures FromHeight([x, y], 1) == [x, y]
  {
    assert [x, y][1..] == [y] && [y][1..] == [];
    assert FromHeight([y], 1) == [y];
  }

  lemma StaysWithoutPruning(w: World, s: Store, t: Store, h: nat)
    requires w.config.Usable() && !w.config.pruningEnabled
    requires StoreInv(w, s) && StoreInv(w, t) && Evolves(s, t) && h in s.index
    ensures h in t.index
  {
    assert t.index.Keys == Interval(0, t.chainHeight) && h in s.index.Keys;
  }
}
