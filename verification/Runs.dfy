/** What every run of ChainSync operations keeps: the shape of the store, the blocks in it, and the counters. */
module Runs {
  import opened Common
  import opened Blocks
  import opened Storage
  import opened Sync

  // ----- Operations and runs -----

  datatype Op =
    | AddPendingOp(block: Block)
    | ProcessOp
    | RequestOp(startHeight: nat, endHeight: nat)
    | DetectForksOp(alternative: seq<Block>)
    | MarkQueriedOp(node: NodeId)
    | ResetOp

  function Apply(w: World, c: Chain, op: Op): Chain
    requires w.config.Usable()
  {
    match op
    case AddPendingOp(b) => AddPending(c, b)
    case ProcessOp => ProcessPending(w, c)
    case RequestOp(startHeight, endHeight) => if startHeight > endHeight then c else c.(state := Downloading)
    case DetectForksOp(alternative) => DetectForks(w, c, alternative).0
    case MarkQueriedOp(node) => c.(queried := c.queried + {node})
    case ResetOp => ResetChain(c)
  }

  function Execute(w: World, c: Chain, ops: seq<Op>): Chain
    requires w.config.Usable()
    decreases |ops|
  {
    if ops == [] then c else Execute(w, Apply(w, c, ops[0]), ops[1..])
  }

  /** One operation on the object does what Apply does to its value. */
  method Perform(c: ChainSync, op: Op)
    requires c.storage.config.Usable()
    modifies c, c.storage
    ensures c.Value() == Apply(c.Fixed(), old(c.Value()), op)
  {
    match op {
      case AddPendingOp(b) => c.AddPendingBlock(b);
      case ProcessOp =>
        var processed := c.ProcessPendingBlocks();
      case RequestOp(startHeight, endHeight) =>
        var r := c.RequestBlocks(startHeight, endHeight);
      case DetectForksOp(alternative) =>
        var r := c.DetectAndResolveForks(alternative);
      case MarkQueriedOp(node) => c.MarkNodeQueried(node);
      case ResetOp => c.Reset();
    }
  }

  /** So a whole run of the object is a run of its value, which the results below are about. */
  method PerformAll(c: ChainSync, ops: seq<Op>)
    requires c.storage.config.Usable()
    modifies c, c.storage
    ensures c.Value() == Execute(c.Fixed(), old(c.Value()), ops)
  {
    ghost var w, start := c.Fixed(), c.Value();
    for i := 0 to |ops|
      invariant Execute(w, c.Value(), ops[i..]) == Execute(w, start, ops)
    {
      assert ops[i..][0] == ops[i] && ops[i..][1..] == ops[i + 1..];
      Perform(c, ops[i]);
    }
  }

  // ----- The shape of the store -----

  /** Lowest height kept when the tip is at the given height. */
  function Floor(cfg: StorageConfig, tip: nat): nat
    requires cfg.Usable()
  {
    if cfg.pruningEnabled then SaturatingSub(tip, cfg.keepBlocks - 1) else 0
  }

  /** The indexed heights are one interval that ends at the tip and, when pruning, has at most
      `keepBlocks` elements. */
  ghost predicate Contiguous(cfg: StorageConfig, s: Store)
    requires cfg.Usable()
  {
    if s.index == map[] then s.chainHeight == 0
    else s.index.Keys == Interval(Floor(cfg, s.chainHeight), s.chainHeight)
  }

  /** Entry h of the index and its file agree on a block of height h. */
  ghost predicate EntryOk(hs: Hasher, s: Store, h: nat)
    requires h in s.index
  {
    && s.LoadBlock(h).Success?
    && s.LoadBlock(h).value.header.height == h
    && s.index[h] == BlockMetadata(h, HeaderHash(hs, s.LoadBlock(h).value.header), BlockFileName(h))
  }

  /** A file holds a block of an indexed height, under the name for that height. */
  ghost predicate FileOk(s: Store, name: FileName)
    requires name in s.files
  {
    && s.files[name].BlockBytes?
    && s.files[name].block.header.height in s.index
    && s.index[s.files[name].block.header.height].filePath == name
  }

  /** Every index entry has its file and every file its index entry. */
  ghost predicate Mirrored(hs: Hasher, s: Store) {
    && (forall h {:trigger EntryOk(hs, s, h)} | h in s.index :: EntryOk(hs, s, h))
    && (forall name {:trigger FileOk(s, name)} | name in s.files :: FileOk(s, name))
  }

  /** Each stored block passed the checks that do not depend on other blocks. */
  ghost predicate Vetted(w: World, b: Block) {
    && ValidateStructure(w.hasher, b).Pass?
    && w.consensus.ValidateBlockCreator(b.header.creator).Pass?
    && w.consensus.ValidateConsensus(b).Pass?
  }

  ghost predicate AllVetted(w: World, s: Store) {
    forall h | h in s.index && s.LoadBlock(h).Success? :: Vetted(w, s.LoadBlock(h).value)
  }

  ghost predicate LinkedAt(w: World, s: Store, h: nat) {
    h > 0 && s.LoadBlock(h).Success? && s.LoadBlock(h - 1).Success? ==>
      ValidateChainLink(w.hasher, s.LoadBlock(h).value, s.LoadBlock(h - 1).value).Pass?
  }

  /** Adjacent stored blocks are linked by hash and by strictly rising time. */
  ghost predicate Linked(w: World, s: Store) {
    forall h {:trigger LinkedAt(w, s, h)} | h in s.index :: LinkedAt(w, s, h)
  }

  ghost predicate StoreInv(w: World, s: Store)
    requires w.config.Usable()
  {
    Contiguous(w.config, s) && Mirrored(w.hasher, s) && AllVetted(w, s) && Linked(w, s)
  }

  lemma EmptyStoreInv(w: World)
    requires w.config.Usable()
    ensures StoreInv(w, EMPTY_STORE)
  {
  }

  // ----- Storing one block -----

  /** A block that passes every check extends the tip, starts an empty store, or is a genesis
      block sent again after height 0 was pruned. */
  lemma NewBlockHeight(w: World, s: Store, b: Block)
    requires w.config.Usable()
    requires StoreInv(w, s) && Judge(w, s, b) == NewBlock
    ensures b.header.height !in s.index && Vetted(w, b)
    ensures
      || (s.index == map[] && b.header.height == 0)
      || (s.index != map[] && b.header.height == s.chainHeight + 1)
      || (s.index != map[] && b.header.height == 0 && 0 < Floor(w.config, s.chainHeight))
  {
  }

  /** No file of a stored block is in the way of a block of another height. */
  lemma FreshFile(hs: Hasher, s: Store, height: nat)
    requires Mirrored(hs, s) && height !in s.index
    ensures BlockFileName(height) !in s.files
  {
    var name := BlockFileName(height);
    if name in s.files {
      assert FileOk(s, name);
      var g := s.files[name].block.header.height;
      assert EntryOk(hs, s, g);
      BlockFileNameInjective(g, height);
    }
  }

  /** Inserting a new height, before any pruning, keeps index and files in step. */
  lemma InsertMirrors(hs: Hasher, s: Store, b: Block)
    requires Mirrored(hs, s) && b.header.height !in s.index
    ensures Mirrored(hs, s.Insert(hs, b))
    ensures forall h | h in s.index :: s.Insert(hs, b).LoadBlock(h) == s.LoadBlock(h)
    ensures s.Insert(hs, b).LoadBlock(b.header.height) == Success(b)
  {
    var t, path := s.Insert(hs, b), BlockFileName(b.header.height);
    FreshFile(hs, s, b.header.height);
    forall h | h in s.index ensures t.LoadBlock(h) == s.LoadBlock(h) && EntryOk(hs, t, h) {
      assert EntryOk(hs, s, h);
    }
    forall name | name in t.files ensures FileOk(t, name) {
      assert name != path ==> FileOk(s, name);
    }
  }

  /** Forgetting a set of heights keeps index and files in step. */
  lemma ForgetMirrors(hs: Hasher, s: Store, gone: set<nat>)
    requires Mirrored(hs, s) && gone <= s.index.Keys
    ensures Mirrored(hs, s.Forget(gone))
    ensures forall h | h in s.index && h !in gone :: s.Forget(gone).LoadBlock(h) == s.LoadBlock(h)
  {
    var t := s.Forget(gone);
    forall h | h in s.index && h !in gone ensures t.LoadBlock(h) == s.LoadBlock(h) && EntryOk(hs, t, h) {
      KeptFile(hs, s, gone, h);
    }
    forall name | name in t.files ensures FileOk(t, name) {
      assert FileOk(s, name);
      assert s.files[name].block.header.height !in gone;
    }
  }

  lemma KeptFile(hs: Hasher, s: Store, gone: set<nat>, h: nat)
    requires Mirrored(hs, s) && gone <= s.index.Keys
    requires h in s.index && h !in gone
    ensures s.Forget(gone).LoadBlock(h) == s.LoadBlock(h)
    ensures EntryOk(hs, s.Forget(gone), h)
  {
    assert EntryOk(hs, s, h);
    var path := s.index[h].filePath;
    forall g | g in gone ensures s.index[g].filePath != path {
      assert EntryOk(hs, s, g);
    }
    assert path in s.Forget(gone).files;
  }

  /** The heights below the kept window; none when nothing is pruned. */
  function BelowWindow(cfg: StorageConfig, s: Store): set<nat>
    requires cfg.Usable()
  {
    if cfg.pruningEnabled then s.Outdated(cfg) else {}
  }

  /** Storing is inserting and then forgetting the heights below the window, if any. */
  lemma StoreBlockForgets(w: World, s: Store, b: Block)
    requires w.config.Usable()
    ensures
      var t := s.Insert(w.hasher, b);
      s.StoreBlock(w.hasher, w.config, b)
      == if w.config.pruningEnabled && |t.index| > w.config.keepBlocks then t.Forget(BelowWindow(w.config, t)) else t
  {
  }

  /** How many heights are indexed once a new block is inserted. */
  lemma InsertedCount(w: World, s: Store, b: Block)
    requires w.config.Usable()
    requires StoreInv(w, s) && Judge(w, s, b) == NewBlock
    ensures s.index == map[] ==> |s.Insert(w.hasher, b).index| == 1
    ensures s.index != map[] ==>
      |s.Insert(w.hasher, b).index| == s.chainHeight + 2 - Floor(w.config, s.chainHeight)
  {
    var t := s.Insert(w.hasher, b);
    assert t.index.Keys == s.index.Keys + {b.header.height};
    assert |t.index| == |t.index.Keys| == |s.index.Keys| + 1;
    if s.index != map[] {
      IntervalSize(Floor(w.config, s.chainHeight), s.chainHeight);
    } else {
      assert s.index.Keys == {};
    }
  }

  /** The indexed heights after storing are again the window that ends at the tip. */
  lemma StoreBlockHeights(w: World, s: Store, b: Block)
    requires w.config.Usable()
    requires StoreInv(w, s) && Judge(w, s, b) == NewBlock
    ensures
      var u := s.StoreBlock(w.hasher, w.config, b);
      && u.chainHeight == Max(s.chainHeight, b.header.height)
      && u.index.Keys == Interval(Floor(w.config, u.chainHeight), u.chainHeight)
  {
    var u := s.StoreBlock(w.hasher, w.config, b);
    forall h: nat ensures h in u.index <==> Floor(w.config, u.chainHeight) <= h <= u.chainHeight {
      HeightAfterStoring(w, s, b, h);
    }
  }

  lemma HeightAfterStoring(w: World, s: Store, b: Block, h: nat)
    requires w.config.Usable()
    requires StoreInv(w, s) && Judge(w, s, b) == NewBlock
    ensures
      var u := s.StoreBlock(w.hasher, w.config, b);
      h in u.index <==> Floor(w.config, u.chainHeight) <= h <= u.chainHeight
  {
    NewBlockHeight(w, s, b);
    InsertedCount(w, s, b);
    StoreBlockForgets(w, s, b);
    var t := s.Insert(w.hasher, b);
    assert h in t.index <==> h in s.index || h == b.header.height;
    if s.index == map[] {
      assert h in t.index <==> h == 0;
    } else {
      assert h in s.index <==> Floor(w.config, s.chainHeight) <= h <= s.chainHeight;
    }
  }

  /** The complete effect of storing a block that passed the checks. */
  lemma StoreBlockEffect(w: World, s: Store, b: Block)
    requires w.config.Usable()
    requires StoreInv(w, s) && Judge(w, s, b) == NewBlock
    ensures
      var u := s.StoreBlock(w.hasher, w.config, b);
      && Contiguous(w.config, u) && Mirrored(w.hasher, u)
      && u.index != map[]
      && u.chainHeight == Max(s.chainHeight, b.header.height)
      && (forall h | h in u.index :: h in s.index || h == b.header.height)
      && (forall h | h in u.index && h != b.header.height :: u.LoadBlock(h) == s.LoadBlock(h))
      && (b.header.height in u.index ==> u.LoadBlock(b.header.height) == Success(b))
  {
    NewBlockHeight(w, s, b);
    StoreBlockHeights(w, s, b);
    StoreBlockMirrors(w, s, b);
    var u := s.StoreBlock(w.hasher, w.config, b);
    assert u.chainHeight in u.index.Keys;
  }

  /** Files and index stay in step, and what stays is unchanged. */
  lemma StoreBlockMirrors(w: World, s: Store, b: Block)
    requires w.config.Usable()
    requires Mirrored(w.hasher, s) && b.header.height !in s.index
    ensures
      var u := s.StoreBlock(w.hasher, w.config, b);
      && Mirrored(w.hasher, u)
      && (forall h | h in u.index :: h in s.index || h == b.header.height)
      && (forall h | h in u.index && h != b.header.height :: u.LoadBlock(h) == s.LoadBlock(h))
      && (b.header.height in u.index ==> u.LoadBlock(b.header.height) == Success(b))
  {
    var t := s.Insert(w.hasher, b);
    StoreBlockForgets(w, s, b);
    InsertMirrors(w.hasher, s, b);
    ForgetMirrors(w.hasher, t, BelowWindow(w.config, t));
  }

  /** Storing a block that passed the checks keeps the whole store invariant. */
  lemma StoreBlockInv(w: World, s: Store, b: Block)
    requires w.config.Usable()
    requires StoreInv(w, s) && Judge(w, s, b) == NewBlock
    ensures StoreInv(w, s.StoreBlock(w.hasher, w.config, b))
  {
    var u := s.StoreBlock(w.hasher, w.config, b);
    NewBlockHeight(w, s, b);
    StoreBlockEffect(w, s, b);
    forall h | h in u.index ensures LinkedAt(w, u, h) {
      NewLink(w, s, b, h);
    }
  }

  /** The new block itself is linked to the block it was checked against. */
  lemma NewBlockLinked(w: World, s: Store, b: Block)
    requires w.config.Usable()
    requires Judge(w, s, b) == NewBlock && b.header.height > 0
    ensures s.LoadBlock(b.header.height - 1).Success?
    ensures ValidateChainLink(w.hasher, b, s.LoadBlock(b.header.height - 1).value).Pass?
  {
  }

  lemma NewLink(w: World, s: Store, b: Block, h: nat)
    requires w.config.Usable()
    requires StoreInv(w, s) && Judge(w, s, b) == NewBlock
    requires h in s.StoreBlock(w.hasher, w.config, b).index
    ensures LinkedAt(w, s.StoreBlock(w.hasher, w.config, b), h)
  {
    var u := s.StoreBlock(w.hasher, w.config, b);
    StoreBlockEffect(w, s, b);
    if h > 0 && h - 1 in u.index {
      NothingAboveNewBlock(w, s, b, h);
      if h == b.header.height {
        NewBlockLinked(w, s, b);
        LinkToNew(w, s, u, b);
      } else {
        LinkStays(w, s, u, h);
      }
    }
  }

  lemma LinkToNew(w: World, s: Store, u: Store, b: Block)
    requires b.header.height > 0 && s.LoadBlock(b.header.height - 1).Success?
    requires ValidateChainLink(w.hasher, b, s.LoadBlock(b.header.height - 1).value).Pass?
    requires u.LoadBlock(b.header.height) == Success(b)
    requires u.LoadBlock(b.header.height - 1) == s.LoadBlock(b.header.height - 1)
    ensures LinkedAt(w, u, b.header.height)
  {
  }

  lemma LinkStays(w: World, s: Store, u: Store, h: nat)
    requires Linked(w, s) && h > 0 && h in s.index
    requires u.LoadBlock(h) == s.LoadBlock(h) && u.LoadBlock(h - 1) == s.LoadBlock(h - 1)
    ensures LinkedAt(w, u, h)
  {
    assert LinkedAt(w, s, h);
  }

  /** A new block that stays in the store has no successor there. */
  lemma NothingAboveNewBlock(w: World, s: Store, b: Block, h: nat)
    requires w.config.Usable()
    requires StoreInv(w, s) && Judge(w, s, b) == NewBlock
    requires h in s.StoreBlock(w.hasher, w.config, b).index
    requires h > 0 && h - 1 in s.StoreBlock(w.hasher, w.config, b).index
    ensures h - 1 != b.header.height
  {
    NewBlockHeight(w, s, b);
    StoreBlockHeights(w, s, b);
  }

  // ----- Evolution of the store -----

  /** The tip never goes down, a stored block is never replaced while it is kept, and a height that
      was pruned never comes back. */
  ghost predicate Evolves(s: Store, t: Store) {
    && s.chainHeight <= t.chainHeight
    && (s.index != map[] ==> t.index != map[])
    && (forall h | h in s.index && h in t.index :: t.LoadBlock(h) == s.LoadBlock(h))
    && (s.index != map[] ==> forall h | h in t.index && h !in s.index :: h > s.chainHeight)
  }

  lemma StoreBlockEvolves(w: World, s: Store, b: Block)
    requires w.config.Usable()
    requires StoreInv(w, s) && Judge(w, s, b) == NewBlock
    ensures Evolves(s, s.StoreBlock(w.hasher, w.config, b))
  {
    NewBlockHeight(w, s, b);
    StoreBlockEffect(w, s, b);
  }

  lemma EvolvesTransitive(w: World, s: Store, t: Store, u: Store)
    requires w.config.Usable()
    requires StoreInv(w, s) && StoreInv(w, t) && StoreInv(w, u)
    requires Evolves(s, t) && Evolves(t, u)
    ensures Evolves(s, u)
  {
    forall h | h in s.index && h in u.index ensures h in t.index {
      assert h in Interval(Floor(w.config, s.chainHeight), s.chainHeight);
      assert h in Interval(Floor(w.config, u.chainHeight), u.chainHeight);
    }
  }

  lemma {:induction false} ProcessAllKeeps(w: World, c: Chain, blocks: seq<Block>)
    requires w.config.Usable() && StoreInv(w, c.store)
    ensures StoreInv(w, ProcessAll(w, c, blocks).store)
    ensures Evolves(c.store, ProcessAll(w, c, blocks).store)
    decreases |blocks|
  {
    if blocks != [] {
      var d := ProcessOne(w, c, blocks[0]);
      if Judge(w, c.store, blocks[0]) == NewBlock {
        StoreBlockInv(w, c.store, blocks[0]);
        StoreBlockEvolves(w, c.store, blocks[0]);
      }
      ProcessAllKeeps(w, d, blocks[1..]);
      EvolvesTransitive(w, c.store, d.store, ProcessAll(w, d, blocks[1..]).store);
    }
  }

  lemma {:induction false} AddAllPendingEffect(c: Chain, blocks: seq<Block>)
    ensures AddAllPending(c, blocks)
         == c.(pending := c.pending + blocks,
               stats := c.stats.(blocksDiscovered := c.stats.blocksDiscovered + |blocks|))
    decreases |blocks|
  {
    if blocks != [] {
      AddAllPendingEffect(AddPending(c, blocks[0]), blocks[1..]);
      assert c.pending + [blocks[0]] + blocks[1..] == c.pending + blocks;
    } else {
      assert c.pending + blocks == c.pending;
    }
  }

  lemma ApplyKeeps(w: World, c: Chain, op: Op)
    requires w.config.Usable() && StoreInv(w, c.store)
    ensures StoreInv(w, Apply(w, c, op).store)
    ensures Evolves(c.store, Apply(w, c, op).store)
  {
    match op
    case ProcessOp =>
      ProcessAllKeeps(w, c.(state := Validating, pending := []), SortBy(HeightAtMost, c.pending));
    case DetectForksOp(alternative) =>
      DetectForksStore(w, c, alternative);
    case _ =>
  }

  /** Detecting forks never touches the store. */
  lemma DetectForksStore(w: World, c: Chain, alternative: seq<Block>)
    ensures DetectForks(w, c, alternative).0.store == c.store
  {
    var f := ForkHeight(w.hasher, c.store, alternative);
    if f.Success? {
      AddAllPendingEffect(c, FromHeight(alternative, f.value));
    }
  }

  /** Over any run: the store invariant stays, and the store only evolves. */
  lemma {:induction false} ExecuteKeeps(w: World, c: Chain, ops: seq<Op>)
    requires w.config.Usable() && StoreInv(w, c.store)
    ensures StoreInv(w, Execute(w, c, ops).store)
    ensures Evolves(c.store, Execute(w, c, ops).store)
    decreases |ops|
  {
    if ops != [] {
      var d := Apply(w, c, ops[0]);
      ApplyKeeps(w, c, ops[0]);
      ExecuteKeeps(w, d, ops[1..]);
      EvolvesTransitive(w, c.store, d.store, Execute(w, d, ops[1..]).store);
    }
  }

  /** The heights of a non-empty store: one interval up to the tip, bounded when pruning. */
  ghost predicate BoundedInterval(cfg: StorageConfig, s: Store) {
    && (exists lo: nat :: lo <= s.chainHeight && s.index.Keys == Interval(lo, s.chainHeight))
    && (cfg.pruningEnabled ==>
          |s.index| == if s.chainHeight + 1 < cfg.keepBlocks then s.chainHeight + 1 else cfg.keepBlocks)
    && (!cfg.pruningEnabled ==> |s.index| == s.chainHeight + 1)
  }

  lemma IntervalOf(w: World, s: Store)
    requires w.config.Usable() && StoreInv(w, s) && s.index != map[]
    ensures BoundedInterval(w.config, s)
  {
    var lo := Floor(w.config, s.chainHeight);
    assert s.index.Keys == Interval(lo, s.chainHeight);
    IntervalSize(lo, s.chainHeight);
    assert |s.index| == |s.index.Keys|;
  }

  lemma NoStrayFiles(hs: Hasher, s: Store)
    requires Mirrored(hs, s) && s.index == map[]
    ensures s.files == map[]
  {
    assert forall name | name in s.files :: FileOk(s, name);
  }

  /** Adjacent stored blocks, read back from their files, follow one another. */
  ghost predicate Follows(hs: Hasher, s: Store, h: nat) {
    && s.LoadBlock(h).Success? && s.LoadBlock(h + 1).Success?
    && var below, above := s.LoadBlock(h).value.header, s.LoadBlock(h + 1).value.header;
    && above.previousHash == HeaderHash(hs, below)
    && above.timestamp > below.timestamp
    && below.height == h && above.height == h + 1
  }

  lemma LinksOf(w: World, s: Store, h: nat)
    requires w.config.Usable() && StoreInv(w, s) && h in s.index && h + 1 in s.index
    ensures Follows(w.hasher, s, h)
  {
    assert EntryOk(w.hasher, s, h) && EntryOk(w.hasher, s, h + 1);
    assert LinkedAt(w, s, h + 1);
  }

  /** Every store reached from an empty one, whatever the operations: one interval of heights that
      ends at the tip and is at most `keepBlocks` long when pruning, the tip loadable, and each
      block linked to the next by height, hash and strictly rising time. */
  lemma {:induction false} ReachableStoreShape(w: World, ops: seq<Op>)
    requires w.config.Usable()
    ensures
      var s := Execute(w, NewChain(EMPTY_STORE), ops).store;
      && (s.index == map[] ==> s.chainHeight == 0 && s.files == map[])
      && (s.index != map[] ==>
            && BoundedInterval(w.config, s)
            && s.GetLatestBlock().Success? && s.GetLatestBlock().value.header.height == s.chainHeight
            && s.GetLatestBlock() == s.LoadBlock(s.chainHeight))
      && (s.index == map[] ==> s.GetLatestBlock().Failure?)
      && (forall h | h in s.index && h + 1 in s.index :: Follows(w.hasher, s, h))
  {
    EmptyStoreInv(w);
    ExecuteKeeps(w, NewChain(EMPTY_STORE), ops);
    var s := Execute(w, NewChain(EMPTY_STORE), ops).store;
    if s.index == map[] {
      NoStrayFiles(w.hasher, s);
    } else {
      IntervalOf(w, s);
      assert s.chainHeight in s.index.Keys;
      assert EntryOk(w.hasher, s, s.chainHeight);
    }
    forall h | h in s.index && h + 1 in s.index ensures Follows(w.hasher, s, h) {
      LinksOf(w, s, h);
    }
  }

  /** A genesis block sent again after height 0 was pruned is accepted, counted as stored, and
      gone again at once: index and files end up as they were. */
  lemma ResubmittedGenesisIsPruned(w: World, s: Store, b: Block)
    requires w.config.Usable() && StoreInv(w, s)
    requires s.index != map[] && 0 !in s.index
    requires b.header.height == 0 && Vetted(w, b)
    ensures Judge(w, s, b) == NewBlock
    ensures
      var u := s.StoreBlock(w.hasher, w.config, b);
      u.index == s.index && u.files == s.files && u.chainHeight == s.chainHeight
  {
    InsertedCount(w, s, b);
    StoreBlockForgets(w, s, b);
    FreshFile(w.hasher, s, 0);
    OnlyGenesisBelow(w, s, b);
    InsertThenForget(w.hasher, s, b);
  }

  lemma OnlyGenesisBelow(w: World, s: Store, b: Block)
    requires w.config.Usable() && Contiguous(w.config, s)
    requires s.index != map[] && 0 !in s.index && b.header.height == 0
    ensures BelowWindow(w.config, s.Insert(w.hasher, b)) == {0}
  {
    var t := s.Insert(w.hasher, b);
    assert forall h :: h in s.index <==> Floor(w.config, s.chainHeight) <= h <= s.chainHeight;
    assert t.chainHeight == s.chainHeight;
  }

  lemma InsertThenForget(hs: Hasher, s: Store, b: Block)
    requires b.header.height !in s.index && BlockFileName(b.header.height) !in s.files
    requires b.header.height <= s.chainHeight
    ensures
      var h := b.header.height;
      var u := s.Insert(hs, b).Forget({h});
      u.index == s.index && u.files == s.files && u.chainHeight == s.chainHeight
  {
    var t, h := s.Insert(hs, b), b.header.height;
    assert t.index - {h} == s.index;
    var only := {h};
    assert h in only && t.index[h].filePath == BlockFileName(h);
    assert (set g | g in only :: t.index[g].filePath) == {BlockFileName(h)};
    assert t.files - {BlockFileName(h)} == s.files;
  }

  // ----- Accounting -----

  /** Processing a list is processing its first block and then the rest. */
  lemma ProcessAllCons(w: World, c: Chain, blocks: seq<Block>)
    requires w.config.Usable() && blocks != []
    ensures ProcessAll(w, c, blocks) == ProcessAll(w, ProcessOne(w, c, blocks[0]), blocks[1..])
    ensures StoredIn(w, c, blocks) == WrittenBy(w, c, blocks[0]) + StoredIn(w, ProcessOne(w, c, blocks[0]), blocks[1..])
  {
  }

  function WrittenBy(w: World, c: Chain, b: Block): seq<Block> {
    if Judge(w, c.store, b) == NewBlock then [b] else []
  }

  /** The blocks really written while processing a list. */
  function StoredIn(w: World, c: Chain, blocks: seq<Block>): seq<Block>
    requires w.config.Usable()
    decreases |blocks|
  {
    if blocks == [] then []
    else
      WrittenBy(w, c, blocks[0]) + StoredIn(w, ProcessOne(w, c, blocks[0]), blocks[1..])
  }

  function StoredBy(w: World, c: Chain, op: Op): seq<Block>
    requires w.config.Usable()
  {
    if op.ProcessOp? then
      StoredIn(w, c.(state := Validating, pending := []), SortBy(HeightAtMost, c.pending))
    else []
  }

  /** The blocks written over a run, in order. */
  function StoredOver(w: World, c: Chain, ops: seq<Op>): seq<Block>
    requires w.config.Usable()
    decreases |ops|
  {
    if ops == [] then [] else StoredBy(w, c, ops[0]) + StoredOver(w, Apply(w, c, ops[0]), ops[1..])
  }

  /** How many pending blocks resets threw away over a run. */
  function DroppedOver(w: World, c: Chain, ops: seq<Op>): nat
    requires w.config.Usable()
    decreases |ops|
  {
    if ops == [] then 0
    else (if ops[0].ResetOp? then |c.pending| else 0) + DroppedOver(w, Apply(w, c, ops[0]), ops[1..])
  }

  lemma {:induction false} ProcessAllCounts(w: World, c: Chain, blocks: seq<Block>)
    requires w.config.Usable()
    ensures
      var d := ProcessAll(w, c, blocks);
      && d.stats.blocksDiscovered == c.stats.blocksDiscovered
      && d.stats.blocksValidated + d.stats.validationErrors
         == c.stats.blocksValidated + c.stats.validationErrors + |blocks|
      && d.stats.blocksDownloaded == c.stats.blocksDownloaded + |StoredIn(w, c, blocks)|
      && d.stats.blocksValidated >= c.stats.blocksValidated
      && d.stats.state == c.stats.state
      && d.pending == c.pending && d.queried == c.queried && d.state == c.state
    decreases |blocks|
  {
    if blocks != [] {
      ProcessAllCounts(w, ProcessOne(w, c, blocks[0]), blocks[1..]);
    }
  }

  lemma SortedLength(blocks: seq<Block>)
    ensures |SortBy(HeightAtMost, blocks)| == |blocks|
  {
    SortByCorrect(HeightAtMost, blocks);
  }

  /** Discovered blocks that are neither validated, refused nor waiting. */
  function Unaccounted(c: Chain): int {
    c.stats.blocksDiscovered - c.stats.blocksValidated - c.stats.validationErrors - |c.pending|
  }

  lemma ApplyCounts(w: World, c: Chain, op: Op)
    requires w.config.Usable()
    ensures
      var d := Apply(w, c, op);
      && Unaccounted(d) == Unaccounted(c) + (if op.ResetOp? then |c.pending| else 0)
      && d.stats.blocksDownloaded == c.stats.blocksDownloaded + |StoredBy(w, c, op)|
      && d.stats.state == c.stats.state
  {
    match op
    case ProcessOp =>
      SortedLength(c.pending);
      ProcessAllCounts(w, c.(state := Validating, pending := []), SortBy(HeightAtMost, c.pending));
    case DetectForksOp(alternative) =>
      var f := ForkHeight(w.hasher, c.store, alternative);
      if f.Success? {
        AddAllPendingEffect(c, FromHeight(alternative, f.value));
      }
    case _ =>
  }

  /** Over any run from a fresh ChainSync: discovered = validated + refused + pending + dropped by
      resets; downloaded counts the real stores; and the `state` inside the statistics never moves. */
  lemma {:induction false} Accounting(w: World, store: Store, ops: seq<Op>)
    requires w.config.Usable()
    ensures
      var c := NewChain(store);
      var d := Execute(w, c, ops);
      && d.stats.blocksDiscovered
         == d.stats.blocksValidated + d.stats.validationErrors + |d.pending| + DroppedOver(w, c, ops)
      && d.stats.blocksDownloaded == |StoredOver(w, c, ops)|
      && d.stats.state == Idle
  {
    AccountingFrom(w, NewChain(store), ops);
  }

  lemma {:induction false} AccountingFrom(w: World, c: Chain, ops: seq<Op>)
    requires w.config.Usable()
    ensures
      var d := Execute(w, c, ops);
      && Unaccounted(d) == Unaccounted(c) + DroppedOver(w, c, ops)
      && d.stats.blocksDownloaded == c.stats.blocksDownloaded + |StoredOver(w, c, ops)|
      && d.stats.state == c.stats.state
    decreases |ops|
  {
    if ops != [] {
      ApplyCounts(w, c, ops[0]);
      AccountingFrom(w, Apply(w, c, ops[0]), ops[1..]);
    }
  }
}
