/** The order in which the blocks of an extension arrive does not matter. */
module ArrivalOrder {
  import opened Common
  import opened Blocks
  import opened Storage
  import opened Sync
  import opened Runs

  /** A valid continuation of the stored chain: it starts right above the tip (at height 0 for an
      empty store), each block links to the one before and passes the checks on its own. */
  ghost predicate ValidExtension(w: World, s: Store, ext: seq<Block>) {
    && (forall i | 0 <= i < |ext| :: Vetted(w, ext[i]))
    && (forall i {:trigger LinksBack(w.hasher, ext, i)} | 0 < i < |ext| :: LinksBack(w.hasher, ext, i))
    && (ext != [] ==>
          if s.index == map[] then ext[0].header.height == 0
          else
            && s.LoadBlock(s.chainHeight).Success?
            && ValidateChainLink(w.hasher, ext[0], s.LoadBlock(s.chainHeight).value).Pass?)
  }

  function StoreEach(w: World, s: Store, blocks: seq<Block>): Store
    requires w.config.Usable()
    decreases |blocks|
  {
    if blocks == [] then s else StoreEach(w, s.StoreBlock(w.hasher, w.config, blocks[0]), blocks[1..])
  }

  lemma FirstIsNew(w: World, s: Store, ext: seq<Block>)
    requires w.config.Usable() && StoreInv(w, s)
    requires ext != [] && ValidExtension(w, s, ext)
    ensures Judge(w, s, ext[0]) == NewBlock
    ensures s.index != map[] ==> ext[0].header.height == s.chainHeight + 1
  {
    assert Vetted(w, ext[0]);
    if s.index != map[] {
      assert s.chainHeight in s.index.Keys;
      assert EntryOk(w.hasher, s, s.chainHeight);
    }
  }

  lemma RestExtends(w: World, s: Store, ext: seq<Block>)
    requires w.config.Usable() && StoreInv(w, s)
    requires ext != [] && ValidExtension(w, s, ext)
    ensures StoreInv(w, s.StoreBlock(w.hasher, w.config, ext[0]))
    ensures ValidExtension(w, s.StoreBlock(w.hasher, w.config, ext[0]), ext[1..])
  {
    FirstIsNew(w, s, ext);
    StoreBlockInv(w, s, ext[0]);
    StoreBlockEffect(w, s, ext[0]);
    var u := s.StoreBlock(w.hasher, w.config, ext[0]);
    assert u.chainHeight in u.index.Keys;
    assert |ext| > 1 ==> LinksBack(w.hasher, ext, 1);
    forall i | 0 < i < |ext[1..]| ensures LinksBack(w.hasher, ext[1..], i) {
      assert LinksBack(w.hasher, ext, i + 1);
    }
  }

  /** The chain after a list of blocks was stored: only the store and two counters differ. */
  function AfterStoring(c: Chain, store: Store, n: nat): Chain {
    c.(store := store,
       stats := c.stats.(blocksDownloaded := c.stats.blocksDownloaded + n,
                         blocksValidated := c.stats.blocksValidated + n))
  }

  lemma NewBlockProcessed(w: World, c: Chain, b: Block)
    requires w.config.Usable() && Judge(w, c.store, b) == NewBlock
    ensures ProcessOne(w, c, b) == AfterStoring(c, c.store.StoreBlock(w.hasher, w.config, b), 1)
  {
  }

  lemma AfterStoringNone(w: World, c: Chain)
    requires w.config.Usable()
    ensures ProcessAll(w, c, []) == AfterStoring(c, StoreEach(w, c.store, []), 0)
  {
  }

  lemma StoreEachCons(w: World, s: Store, blocks: seq<Block>)
    requires w.config.Usable() && blocks != []
    ensures StoreEach(w, s, blocks) == StoreEach(w, s.StoreBlock(w.hasher, w.config, blocks[0]), blocks[1..])
  {
  }

  lemma FirstIsStored(w: World, c: Chain, ext: seq<Block>)
    requires w.config.Usable() && StoreInv(w, c.store)
    requires ext != [] && ValidExtension(w, c.store, ext)
    ensures Judge(w, c.store, ext[0]) == NewBlock
    ensures StoreInv(w, ProcessOne(w, c, ext[0]).store)
    ensures ValidExtension(w, ProcessOne(w, c, ext[0]).store, ext[1..])
  {
    FirstIsNew(w, c.store, ext);
    NewBlockProcessed(w, c, ext[0]);
    RestExtends(w, c.store, ext);
  }

  /** In height order, every block of a valid extension is stored. */
  lemma {:induction false} InOrderStoresAll(w: World, c: Chain, ext: seq<Block>)
    requires w.config.Usable() && StoreInv(w, c.store) && ValidExtension(w, c.store, ext)
    ensures ProcessAll(w, c, ext) == AfterStoring(c, StoreEach(w, c.store, ext), |ext|)
    decreases |ext|
  {
    if ext == [] {
      AfterStoringNone(w, c);
    } else {
      FirstIsStored(w, c, ext);
      InOrderStoresAll(w, ProcessOne(w, c, ext[0]), ext[1..]);
      FirstThenRest(w, c, ext);
    }
  }

  lemma FirstThenRest(w: World, c: Chain, ext: seq<Block>)
    requires w.config.Usable() && ext != []
    requires Judge(w, c.store, ext[0]) == NewBlock
    requires
      var d := ProcessOne(w, c, ext[0]);
      ProcessAll(w, d, ext[1..]) == AfterStoring(d, StoreEach(w, d.store, ext[1..]), |ext[1..]|)
    ensures ProcessAll(w, c, ext) == AfterStoring(c, StoreEach(w, c.store, ext), |ext|)
  {
    NewBlockProcessed(w, c, ext[0]);
    StoreEachCons(w, c.store, ext);
    ProcessAllCons(w, c, ext);
  }

  lemma {:induction false} ExtensionAscends(w: World, s: Store, ext: seq<Block>, i: nat, j: nat)
    requires ValidExtension(w, s, ext) && i < j < |ext|
    ensures ext[i].header.height < ext[j].header.height
    decreases j
  {
    assert LinksBack(w.hasher, ext, j);
    if i < j - 1 {
      ExtensionAscends(w, s, ext, i, j - 1);
    }
  }

  /** However the blocks of a valid extension are queued, sorting puts them in chain order. */
  lemma {:induction false} QueueSortsToExtension(w: World, s: Store, ext: seq<Block>, queue: seq<Block>)
    requires ValidExtension(w, s, ext) && multiset(queue) == multiset(ext)
    ensures SortBy(HeightAtMost, queue) == ext
  {
    SortByCorrect(HeightAtMost, queue);
    forall i, j | 0 <= i < j < |ext| ensures HeightAtMost(ext[i], ext[j]) && !HeightAtMost(ext[j], ext[i]) {
      ExtensionAscends(w, s, ext, i, j);
    }
    StrictlySortedUnique(HeightAtMost, SortBy(HeightAtMost, queue), ext);
  }

  /** Each block queued and processed on its own, in chain order. */
  function OneByOne(ext: seq<Block>): seq<Op> {
    if ext == [] then [] else [AddPendingOp(ext[0]), ProcessOp] + OneByOne(ext[1..])
  }

  lemma {:induction false} OneByOneStoresAll(w: World, c: Chain, ext: seq<Block>)
    requires w.config.Usable() && StoreInv(w, c.store) && ValidExtension(w, c.store, ext)
    requires c.pending == []
    ensures Execute(w, c, OneByOne(ext)).store == StoreEach(w, c.store, ext)
    decreases |ext|
  {
    if ext != [] {
      OneBlockStored(w, c, ext[0]) by {
        FirstIsNew(w, c.store, ext);
      }
      RestExtends(w, c.store, ext);
      OneByOneStoresAll(w, ProcessPending(w, AddPending(c, ext[0])), ext[1..]);
      TwoSteps(w, c, AddPendingOp(ext[0]), ProcessOp, OneByOne(ext[1..]));
    }
  }

  lemma OneBlockStored(w: World, c: Chain, b: Block)
    requires w.config.Usable() && c.pending == [] && Judge(w, c.store, b) == NewBlock
    ensures
      var e := ProcessPending(w, AddPending(c, b));
      e.store == c.store.StoreBlock(w.hasher, w.config, b) && e.pending == []
  {
    var d := AddPending(c, b);
    assert d.pending == [b] && SortBy(HeightAtMost, [b]) == [b];
    var started := d.(state := Validating, pending := []);
    ProcessAllCons(w, started, [b]);
  }

  lemma TwoSteps(w: World, c: Chain, first: Op, second: Op, rest: seq<Op>)
    requires w.config.Usable()
    ensures Execute(w, c, [first, second] + rest) == Execute(w, Apply(w, Apply(w, c, first), second), rest)
  {
    var ops := [first, second] + rest;
    assert ops[1..][1..] == rest && ops[1..][0] == second;
  }

  /** If the pending queue is any arrangement of a valid extension, one call stores all of it,
      reports each block as processed, ends in Synced, records no error, empties the queue, and
      leaves the very store that one-by-one delivery in chain order leaves, pruning included. */
  lemma {:induction false} ArrivalOrderDoesNotMatter(w: World, c: Chain, ext: seq<Block>)
    requires w.config.Usable() && StoreInv(w, c.store) && ValidExtension(w, c.store, ext)
    requires ext != [] && multiset(c.pending) == multiset(ext)
    ensures
      var d := ProcessPending(w, c);
      && d.stats.blocksValidated - c.stats.blocksValidated == |ext|
      && d.stats.blocksDownloaded - c.stats.blocksDownloaded == |ext|
      && d.stats.validationErrors == c.stats.validationErrors
      && d.state == Synced && d.pending == []
      && d.store == Execute(w, c.(pending := []), OneByOne(ext)).store
      && d.store.chainHeight == ext[|ext| - 1].header.height
      && d.store.LoadBlock(d.store.chainHeight) == Success(ext[|ext| - 1])
  {
    SameLength(c.pending, ext);
    QueueSortsToExtension(w, c.store, ext, c.pending);
    InOrderStoresAll(w, c.(state := Validating, pending := []), ext);
    OneByOneStoresAll(w, c.(pending := []), ext);
    TipAfterAll(w, c.store, ext);
  }

  lemma {:induction false} TipAfterAll(w: World, s: Store, ext: seq<Block>)
    requires w.config.Usable() && StoreInv(w, s) && ValidExtension(w, s, ext) && ext != []
    ensures
      var u := StoreEach(w, s, ext);
      && u.chainHeight == ext[|ext| - 1].header.height
      && u.LoadBlock(u.chainHeight) == Success(ext[|ext| - 1])
    decreases |ext|
  {
    FirstIsNew(w, s, ext);
    RestExtends(w, s, ext);
    StoreBlockEffect(w, s, ext[0]);
    var u := s.StoreBlock(w.hasher, w.config, ext[0]);
    if |ext| > 1 {
      TipAfterAll(w, u, ext[1..]);
    } else {
      assert u.chainHeight in u.index.Keys;
    }
  }
}
