/** Chain synchronization (crates/myriadmesh-ledger/src/sync.rs). */
module Sync {
  import opened Common
  import opened Blocks
  import opened Consensus
  import opened Storage

  datatype SyncState = Idle | Discovering | Downloading | Validating | Synced | SyncFailed

  datatype SyncStats = SyncStats(
    blocksDiscovered: nat,
    blocksDownloaded: nat,
    blocksValidated: nat,
    validationErrors: nat,
    state: SyncState)

  const NO_STATS := SyncStats(0, 0, 0, 0, Idle)

  /** What never changes during the life of a ChainSync. */
  datatype World = World(hasher: Hasher, config: StorageConfig, consensus: ConsensusManager)

  /** The value of a ChainSync. */
  datatype Chain = Chain(
    store: Store,
    state: SyncState,
    stats: SyncStats,
    pending: seq<Block>,
    queried: set<NodeId>)

  function NewChain(store: Store): Chain {
    Chain(store, Idle, NO_STATS, [], {})
  }

  datatype Verdict = NewBlock | AlreadyStored | Rejected(error: LedgerError)

  predicate HeightAtMost(a: Block, b: Block) {
    a.header.height <= b.header.height
  }

  function CheckPrevious(w: World, s: Store, b: Block): Outcome {
    if b.header.height == 0 then Pass
    else
      var previousHeight := b.header.height - 1;
      if !s.HasBlock(previousHeight) then Fail(MissingPreviousBlock(previousHeight))
      else
        match s.LoadBlock(previousHeight)
        case Failure(e) => Fail(e)
        case Success(previous) => ValidateChainLink(w.hasher, b, previous)
  }

  /** The checks on one pending block, in the order the source makes them. */
  function Judge(w: World, s: Store, b: Block): Verdict {
    var structure := ValidateStructure(w.hasher, b);
    var link := CheckPrevious(w, s, b);
    var creator := w.consensus.ValidateBlockCreator(b.header.creator);
    var quorum := w.consensus.ValidateConsensus(b);
    if structure.Fail? then Rejected(structure.error)
    else if s.HasBlock(b.header.height) then AlreadyStored
    else if link.Fail? then Rejected(link.error)
    else if creator.Fail? then Rejected(creator.error)
    else if quorum.Fail? then Rejected(quorum.error)
    else NewBlock
  }

  /** One turn of the processing loop. */
  function ProcessOne(w: World, c: Chain, b: Block): Chain
    requires w.config.Usable()
  {
    match Judge(w, c.store, b)
    case NewBlock =>
      c.(store := c.store.StoreBlock(w.hasher, w.config, b),
         stats := c.stats.(blocksDownloaded := c.stats.blocksDownloaded + 1,
                           blocksValidated := c.stats.blocksValidated + 1))
    case AlreadyStored => c.(stats := c.stats.(blocksValidated := c.stats.blocksValidated + 1))
    case Rejected(_) => c.(stats := c.stats.(validationErrors := c.stats.validationErrors + 1))
  }

  function ProcessAll(w: World, c: Chain, blocks: seq<Block>): Chain
    requires w.config.Usable()
    decreases |blocks|
  {
    if blocks == [] then c else ProcessAll(w, ProcessOne(w, c, blocks[0]), blocks[1..])
  }

  function ProcessPending(w: World, c: Chain): Chain
    requires w.config.Usable()
  {
    if c.pending == [] then c
    else
      var t := ProcessAll(w, c.(state := Validating, pending := []), SortBy(HeightAtMost, c.pending));
      t.(state := if t.stats.blocksValidated > c.stats.blocksValidated then Synced else SyncFailed)
  }

  function AddPending(c: Chain, b: Block): Chain {
    c.(pending := c.pending + [b], stats := c.stats.(blocksDiscovered := c.stats.blocksDiscovered + 1))
  }

  function AddAllPending(c: Chain, blocks: seq<Block>): Chain
    decreases |blocks|
  {
    if blocks == [] then c else AddAllPending(AddPending(c, blocks[0]), blocks[1..])
  }

  /** Height of the first block of the alternative chain whose stored counterpart has another
      hash; 0 when there is none. */
  function ForkHeight(hs: Hasher, s: Store, alternative: seq<Block>): Result<nat> {
    if alternative == [] then Success(0)
    else
      var b := alternative[0];
      if s.HasBlock(b.header.height) then
        match s.LoadBlock(b.header.height)
        case Failure(e) => Failure(e)
        case Success(local) =>
          if HeaderHash(hs, local.header) != HeaderHash(hs, b.header) then Success(b.header.height)
          else ForkHeight(hs, s, alternative[1..])
      else ForkHeight(hs, s, alternative[1..])
  }

  function FromHeight(blocks: seq<Block>, height: nat): seq<Block> {
    if blocks == [] then []
    else (if blocks[0].header.height >= height then [blocks[0]] else []) + FromHeight(blocks[1..], height)
  }

  /** New state and result; the result is an integer because the source subtracts heights. */
  function DetectForks(w: World, c: Chain, alternative: seq<Block>): (Chain, Result<int>) {
    if alternative == [] then (c, Success(0))
    else
      match ForkHeight(w.hasher, c.store, alternative)
      case Failure(e) => (c, Failure(e))
      case Success(forkHeight) =>
        if forkHeight == 0 then (c, Success(0))
        else
          var localHeight := c.store.chainHeight;
          var alt := FromHeight(alternative, forkHeight);
          if w.consensus.ResolveFork(c.store.LoadRange(forkHeight, localHeight), alt) == 1 then
            (AddAllPending(c, alt), Success(localHeight - forkHeight + 1))
          else (c, Success(0))
  }

  function ResetChain(c: Chain): Chain {
    c.(state := Idle, pending := [], queried := {})
  }

  // ----- The class -----

  class ChainSync {
    const storage: LedgerStorage
    const consensus: ConsensusManager
    var state: SyncState
    var stats: SyncStats
    var pendingBlocks: seq<Block>
    var queriedNodes: set<NodeId>

    ghost function Value(): Chain
      reads this, storage
    {
      Chain(storage.Value(), state, stats, pendingBlocks, queriedNodes)
    }

    function Fixed(): World {
      World(storage.hasher, storage.config, consensus)
    }

    constructor (storage: LedgerStorage, consensus: ConsensusManager)
      ensures this.storage == storage && this.consensus == consensus
      ensures Value() == NewChain(storage.Value())
    {
      this.storage, this.consensus := storage, consensus;
      state, stats, pendingBlocks, queriedNodes := Idle, NO_STATS, [], {};
    }

    method AddPendingBlock(b: Block)
      modifies this`pendingBlocks, this`stats
      ensures Value() == AddPending(old(Value()), b)
    {
      pendingBlocks := pendingBlocks + [b];
      stats := stats.(blocksDiscovered := stats.blocksDiscovered + 1);
    }

    /** Drains the queue in height order; one bad block does not stop the others. */
    method ProcessPendingBlocks() returns (processed: nat)
      requires storage.config.Usable()
      modifies this, storage
      ensures Value() == ProcessPending(Fixed(), old(Value()))
      ensures processed == stats.blocksValidated - old(stats.blocksValidated)
    {
      if pendingBlocks == [] {
        return 0;
      }
      ghost var before := Value();
      state := Validating;
      processed := 0;
      var sortedBlocks := SortBy(HeightAtMost, pendingBlocks);
      pendingBlocks := [];
      ghost var started := Value();
      ghost var w := Fixed();
      for i := 0 to |sortedBlocks|
        invariant processed == stats.blocksValidated - before.stats.blocksValidated
        invariant ProcessAll(w, Value(), sortedBlocks[i..]) == ProcessAll(w, started, sortedBlocks)
      {
        assert sortedBlocks[i..][0] == sortedBlocks[i] && sortedBlocks[i..][1..] == sortedBlocks[i + 1..];
        var ok := ProcessBlock(sortedBlocks[i]);
        if ok {
          processed := processed + 1;
        }
      }
      state := if processed > 0 then Synced else SyncFailed;
    }

    /** The body of the processing loop: validate, store, and count the outcome. */
    method ProcessBlock(b: Block) returns (ok: bool)
      requires storage.config.Usable()
      modifies this`stats, storage
      ensures Value() == ProcessOne(Fixed(), old(Value()), b)
      ensures stats.blocksValidated == old(stats.blocksValidated) + if ok then 1 else 0
    {
      var r := ValidateAndStoreBlock(b);
      match r {
        case Pass => stats := stats.(blocksValidated := stats.blocksValidated + 1);
        case Fail(_) => stats := stats.(validationErrors := stats.validationErrors + 1);
      }
      ok := r.Pass?;
    }

    method ValidateAndStoreBlock(b: Block) returns (r: Outcome)
      requires storage.config.Usable()
      modifies this`stats, storage
      ensures
        match Judge(Fixed(), old(storage.Value()), b)
        case NewBlock =>
          && r == Pass
          && storage.Value() == old(storage.Value()).StoreBlock(storage.hasher, storage.config, b)
          && stats == old(stats).(blocksDownloaded := old(stats).blocksDownloaded + 1)
        case AlreadyStored => r == Pass && storage.Value() == old(storage.Value()) && stats == old(stats)
        case Rejected(e) => r == Fail(e) && storage.Value() == old(storage.Value()) && stats == old(stats)
    {
      r := ValidateStructure(storage.hasher, b);
      if r.Fail? {
        return;
      }
      if b.header.height in storage.index {
        return Pass;
      }
      if b.header.height > 0 {
        var previousHeight := b.header.height - 1;
        if previousHeight !in storage.index {
          return Fail(MissingPreviousBlock(previousHeight));
        }
        var loaded := storage.LoadBlock(previousHeight);
        match loaded {
          case Failure(e) => return Fail(e);
          case Success(previous) =>
            r := ValidateChainLink(storage.hasher, b, previous);
            if r.Fail? {
              return;
            }
        }
      }
      r := consensus.ValidateBlockCreator(b.header.creator);
      if r.Fail? {
        return;
      }
      r := consensus.ValidateConsensus(b);
      if r.Fail? {
        return;
      }
      storage.StoreBlock(b);
      stats := stats.(blocksDownloaded := stats.blocksDownloaded + 1);
    }

    method RequestBlocks(startHeight: nat, endHeight: nat) returns (r: Outcome)
      modifies this`state
      ensures r.Fail? <==> startHeight > endHeight
      ensures Value() == if r.Pass? then old(Value()).(state := Downloading) else old(Value())
    {
      if startHeight > endHeight {
        return Fail(InvalidRange);
      }
      state := Downloading;
      r := Pass;
    }

    method DetectAndResolveForks(alternative: seq<Block>) returns (r: Result<int>)
      modifies this`pendingBlocks, this`stats
      ensures (Value(), r) == DetectForks(Fixed(), old(Value()), alternative)
    {
      if alternative == [] {
        return Success(0);
      }
      var fork := FindForkHeight(alternative);
      match fork {
        case Failure(e) => r := Failure(e);
        case Success(forkHeight) =>
          if forkHeight == 0 {
            return Success(0);
          }
          var localHeight := storage.chainHeight;
          var localChain := storage.LoadRange(forkHeight, localHeight);
          var altChain := FromHeight(alternative, forkHeight);
          var winner := consensus.ResolveFork(localChain, altChain);
          if winner == 1 {
            ghost var before := Value();
            for i := 0 to |altChain|
              invariant AddAllPending(Value(), altChain[i..]) == AddAllPending(before, altChain)
            {
              assert altChain[i..][0] == altChain[i] && altChain[i..][1..] == altChain[i + 1..];
              AddPendingBlock(altChain[i]);
            }
            r := Success(localHeight - forkHeight + 1);
          } else {
            r := Success(0);
          }
      }
    }

    /** The scan for the first differing block. */
    method FindForkHeight(alternative: seq<Block>) returns (r: Result<nat>)
      ensures r == ForkHeight(storage.hasher, storage.Value(), alternative)
    {
      for i := 0 to |alternative|
        invariant ForkHeight(storage.hasher, storage.Value(), alternative[i..])
               == ForkHeight(storage.hasher, storage.Value(), alternative)
      {
        assert alternative[i..][0] == alternative[i] && alternative[i..][1..] == alternative[i + 1..];
        var b := alternative[i];
        if b.header.height in storage.index {
          var loaded := storage.LoadBlock(b.header.height);
          match loaded {
            case Failure(e) => return Failure(e);
            case Success(local) =>
              if HeaderHash(storage.hasher, local.header) != HeaderHash(storage.hasher, b.header) {
                return Success(b.header.height);
              }
          }
        }
      }
      r := Success(0);
    }

    method MarkNodeQueried(node: NodeId)
      modifies this`queriedNodes
      ensures Value() == old(Value()).(queried := old(queriedNodes) + {node})
    {
      queriedNodes := queriedNodes + {node};
    }

    method Reset()
      modifies this`state, this`pendingBlocks, this`queriedNodes
      ensures Value() == ResetChain(old(Value()))
    {
      state, pendingBlocks, queriedNodes := Idle, [], {};
    }
  }
}
