/** A fresh storage opened on the same directory and rebuilt from it is the storage that was lost. */
module Recovery {
  import opened Common
  import opened Blocks
  import opened Storage
  import opened Sync
  import opened Runs

  /** No two different headers among these blocks share a hash. */
  ghost predicate NoHeaderCollision(hs: Hasher, blocks: seq<Block>) {
    forall x, y | x in blocks && y in blocks && x.header != y.header ::
      HeaderHash(hs, x.header) != HeaderHash(hs, y.header)
  }

  /** The hash index is the exact inverse of the height index. */
  ghost predicate ExactInverse(s: Store) {
    && (forall hash | hash in s.hashLookup :: s.hashLookup[hash] in s.index && s.index[s.hashLookup[hash]].hash == hash)
    && (forall h | h in s.index :: s.index[h].hash in s.hashLookup && s.hashLookup[s.index[h].hash] == h)
  }

  /** Every stored block is one of those written so far. */
  ghost predicate AllWritten(s: Store, written: seq<Block>) {
    forall h | h in s.index && s.LoadBlock(h).Success? :: s.LoadBlock(h).value in written
  }

  ghost predicate HashInv(w: World, s: Store, written: seq<Block>) {
    AllWritten(s, written) && (NoHeaderCollision(w.hasher, written) ==> ExactInverse(s))
  }

  lemma InsertKeepsInverse(w: World, s: Store, b: Block, written: seq<Block>)
    requires Mirrored(w.hasher, s) && b.header.height !in s.index
    requires AllWritten(s, written) && ExactInverse(s)
    requires NoHeaderCollision(w.hasher, written + [b])
    ensures ExactInverse(s.Insert(w.hasher, b))
  {
    var t := s.Insert(w.hasher, b);
    forall h | h in s.index ensures s.index[h].hash != HeaderHash(w.hasher, b.header) {
      assert EntryOk(w.hasher, s, h);
      assert s.LoadBlock(h).value in written + [b] && b in written + [b];
    }
    forall hash | hash in t.hashLookup
      ensures t.hashLookup[hash] in t.index && t.index[t.hashLookup[hash]].hash == hash
    {
    }
  }

  lemma ForgetKeepsInverse(s: Store, gone: set<nat>)
    requires ExactInverse(s) && gone <= s.index.Keys
    ensures ExactInverse(s.Forget(gone))
  {
    var t := s.Forget(gone);
    forall hash | hash in t.hashLookup
      ensures t.hashLookup[hash] in t.index && t.index[t.hashLookup[hash]].hash == hash
    {
      var hashes := set g | g in gone :: s.index[g].hash;
      assert hash !in hashes;
      assert s.index[s.hashLookup[hash]].hash == hash;
    }
    forall h | h in t.index ensures t.index[h].hash in t.hashLookup && t.hashLookup[t.index[h].hash] == h {
      var hash := s.index[h].hash;
      assert s.hashLookup[hash] == h;
      assert forall g | g in gone :: s.hashLookup[s.index[g].hash] == g;
    }
  }

  lemma StoreBlockKeepsInverse(w: World, s: Store, b: Block, written: seq<Block>)
    requires w.config.Usable()
    requires Mirrored(w.hasher, s) && b.header.height !in s.index
    requires AllWritten(s, written) && ExactInverse(s)
    requires NoHeaderCollision(w.hasher, written + [b])
    ensures ExactInverse(s.StoreBlock(w.hasher, w.config, b))
  {
    var t := s.Insert(w.hasher, b);
    InsertKeepsInverse(w, s, b, written);
    ForgetKeepsInverse(t, BelowWindow(w.config, t));
    StoreBlockForgets(w, s, b);
  }

  lemma FewerBlocksFewerCollisions(hs: Hasher, blocks: seq<Block>, more: seq<Block>)
    requires NoHeaderCollision(hs, blocks + more)
    ensures NoHeaderCollision(hs, blocks)
  {
    forall x, y | x in blocks && y in blocks && x.header != y.header
      ensures HeaderHash(hs, x.header) != HeaderHash(hs, y.header)
    {
      assert x in blocks + more && y in blocks + more;
    }
  }

  lemma StoreBlockAllWritten(w: World, s: Store, b: Block, written: seq<Block>)
    requires w.config.Usable()
    requires StoreInv(w, s) && Judge(w, s, b) == NewBlock && AllWritten(s, written)
    ensures AllWritten(s.StoreBlock(w.hasher, w.config, b), written + [b])
  {
    StoreBlockEffect(w, s, b);
  }

  /** One turn of the processing loop keeps both invariants. */
  lemma ProcessOneHashInv(w: World, c: Chain, b: Block, written: seq<Block>)
    requires w.config.Usable() && StoreInv(w, c.store) && HashInv(w, c.store, written)
    ensures StoreInv(w, ProcessOne(w, c, b).store)
    ensures HashInv(w, ProcessOne(w, c, b).store, written + WrittenBy(w, c, b))
  {
    var s := c.store;
    if Judge(w, s, b) == NewBlock {
      NewBlockHeight(w, s, b);
      StoreBlockInv(w, s, b);
      StoreBlockAllWritten(w, s, b, written);
      if NoHeaderCollision(w.hasher, written + [b]) {
        FewerBlocksFewerCollisions(w.hasher, written, [b]);
        StoreBlockKeepsInverse(w, s, b, written);
      }
    } else {
      assert written + [] == written;
    }
  }

  lemma {:induction false} ProcessAllHashInv(w: World, c: Chain, blocks: seq<Block>, written: seq<Block>)
    requires w.config.Usable() && StoreInv(w, c.store) && HashInv(w, c.store, written)
    ensures HashInv(w, ProcessAll(w, c, blocks).store, written + StoredIn(w, c, blocks))
    decreases |blocks|
  {
    if blocks == [] {
      assert written + [] == written;
    } else {
      var d, now := ProcessOne(w, c, blocks[0]), WrittenBy(w, c, blocks[0]);
      ProcessOneHashInv(w, c, blocks[0], written);
      ProcessAllHashInv(w, d, blocks[1..], written + now);
      ProcessAllCons(w, c, blocks);
      Associate(written, now, StoredIn(w, d, blocks[1..]));
    }
  }

  lemma Associate(a: seq<Block>, b: seq<Block>, c: seq<Block>)
    ensures a + b + c == a + (b + c)
  {
  }

  lemma ApplyHashInv(w: World, c: Chain, op: Op, written: seq<Block>)
    requires w.config.Usable() && StoreInv(w, c.store) && HashInv(w, c.store, written)
    ensures HashInv(w, Apply(w, c, op).store, written + StoredBy(w, c, op))
  {
    if op.ProcessOp? {
      ProcessAllHashInv(w, c.(state := Validating, pending := []), SortBy(HeightAtMost, c.pending), written);
    } else {
      assert written + [] == written;
      if op.DetectForksOp? {
        DetectForksStore(w, c, op.alternative);
      }
    }
  }

  lemma {:induction false} ExecuteHashInv(w: World, c: Chain, ops: seq<Op>, written: seq<Block>)
    requires w.config.Usable() && StoreInv(w, c.store) && HashInv(w, c.store, written)
    ensures HashInv(w, Execute(w, c, ops).store, written + StoredOver(w, c, ops))
    decreases |ops|
  {
    if ops == [] {
      assert written + [] == written;
    } else {
      var d, now := Apply(w, c, ops[0]), StoredBy(w, c, ops[0]);
      ApplyKeeps(w, c, ops[0]);
      ApplyHashInv(w, c, ops[0], written);
      ExecuteHashInv(w, d, ops[1..], written + now);
      Associate(written, now, StoredOver(w, d, ops[1..]));
    }
  }

  // ----- Rebuilding -----

  /** A block file, its height and its index entry. */
  lemma BlockFile(hs: Hasher, s: Store, name: FileName) returns (g: nat)
    requires Mirrored(hs, s) && name in s.files
    ensures g in s.index && IsBinFile(name) && s.files[name].BlockBytes?
    ensures s.files[name].block.header.height == g
    ensures s.index[g] == BlockMetadata(g, HeaderHash(hs, s.files[name].block.header), name)
    ensures forall h | h in s.index && s.index[h].filePath == name :: h == g
  {
    assert FileOk(s, name);
    g := s.files[name].block.header.height;
    assert EntryOk(hs, s, g);
    BlockFileNameIsBin(g);
    forall h | h in s.index && s.index[h].filePath == name ensures h == g {
      assert EntryOk(hs, s, h);
    }
  }

  lemma BlockFileNameIsBin(h: nat)
    ensures IsBinFile(BlockFileName(h))
  {
    BlockFileNamesDistinct();
  }

  /** The heights whose files are among the first entries read. */
  ghost predicate PartlyRebuilt(s: Store, order: seq<FileName>, r: Store) {
    && (forall h :: h in r.index <==> h in s.index && s.index[h].filePath in order)
    && (forall h | h in r.index :: r.index[h] == s.index[h])
    && (forall h | h in r.index :: h <= r.chainHeight)
    && (r.chainHeight == 0 || r.chainHeight in r.index)
    && (forall hash | hash in r.hashLookup :: r.hashLookup[hash] in r.index && r.index[r.hashLookup[hash]].hash == hash)
    && (forall h | h in r.index :: r.index[h].hash in r.hashLookup)
  }

  lemma {:induction false} RebuildPrefix(hs: Hasher, s: Store, order: seq<FileName>)
    requires Mirrored(hs, s)
    requires forall i | 0 <= i < |order| :: order[i] in s.files
    ensures PartlyRebuilt(s, order, s.Rebuild(hs, order))
    decreases |order|
  {
    if order != [] {
      var prefix, name := order[..|order| - 1], order[|order| - 1];
      RebuildPrefix(hs, s, prefix);
      SplitLast(order);
      ReadNextFile(hs, s, prefix, s.Rebuild(hs, prefix), name, order);
    } else {
      NothingRead(s, s.Rebuild(hs, order));
    }
  }

  lemma NothingRead(s: Store, r: Store)
    requires r == Store(map[], map[], 0, s.files)
    ensures PartlyRebuilt(s, [], r)
  {
  }

  lemma ReadNextFile(hs: Hasher, s: Store, prefix: seq<FileName>, r: Store, name: FileName, order: seq<FileName>)
    requires Mirrored(hs, s) && name in s.files && r.files == s.files && order == prefix + [name]
    requires PartlyRebuilt(s, prefix, r)
    ensures PartlyRebuilt(s, order, r.RebuildEntry(hs, name))
  {
    var g := BlockFile(hs, s, name);
    EntryRead(hs, s, r, name, g);
    ReadOneFile(s, prefix, r, name, g, r.RebuildEntry(hs, name));
  }

  lemma EntryRead(hs: Hasher, s: Store, r: Store, name: FileName, g: nat)
    requires r.files == s.files && name in s.files && IsBinFile(name) && s.files[name].BlockBytes?
    requires g in s.index && s.files[name].block.header.height == g
    requires s.index[g] == BlockMetadata(g, HeaderHash(hs, s.files[name].block.header), name)
    ensures
      r.RebuildEntry(hs, name)
      == Store(r.index[g := s.index[g]], r.hashLookup[s.index[g].hash := g], Max(r.chainHeight, g), r.files)
  {
  }

  lemma ReadOneFile(s: Store, prefix: seq<FileName>, r: Store, name: FileName, g: nat, t: Store)
    requires PartlyRebuilt(s, prefix, r)
    requires g in s.index && s.index[g].filePath == name
    requires forall h | h in s.index && s.index[h].filePath == name :: h == g
    requires t.index == r.index[g := s.index[g]]
    requires t.hashLookup == r.hashLookup[s.index[g].hash := g]
    requires t.chainHeight == Max(r.chainHeight, g)
    ensures PartlyRebuilt(s, prefix + [name], t)
  {
    assert forall f :: f in prefix + [name] <==> f in prefix || f == name;
  }

  /** Rebuilding from the directory, in whatever order it is listed, restores the height index and
      the tip exactly; the hash index too, when it was the inverse of the height index and stored
      hashes differ. */
  lemma {:induction false} RebuildRestores(w: World, s: Store, order: seq<FileName>)
    requires w.config.Usable() && StoreInv(w, s)
    requires Enumerates(order, s.files.Keys)
    ensures s.Rebuild(w.hasher, order).index == s.index
    ensures s.Rebuild(w.hasher, order).chainHeight == s.chainHeight
    ensures s.Rebuild(w.hasher, order).files == s.files
    ensures ExactInverse(s) ==> s.Rebuild(w.hasher, order) == s
  {
    var r := s.Rebuild(w.hasher, order);
    RebuildPrefix(w.hasher, s, order);
    forall h | h in s.index ensures s.index[h].filePath in order {
      IndexedFileListed(w.hasher, s, order, h);
    }
    AllFilesRead(s, order, r);
    TipFromIndex(w, s, r);
    if ExactInverse(s) {
      SameInverse(s, r);
    }
  }

  lemma AllFilesRead(s: Store, order: seq<FileName>, r: Store)
    requires PartlyRebuilt(s, order, r)
    requires forall h | h in s.index :: s.index[h].filePath in order
    ensures r.index == s.index
  {
    assert r.index.Keys == s.index.Keys;
  }

  lemma IndexedFileListed(hs: Hasher, s: Store, order: seq<FileName>, h: nat)
    requires Mirrored(hs, s) && Enumerates(order, s.files.Keys) && h in s.index
    ensures s.index[h].filePath in order
  {
    assert EntryOk(hs, s, h);
    assert s.index[h].filePath in s.files.Keys;
  }

  /** Two exact inverses of one index are equal; a rebuilt one is exact when the hashes differ. */
  lemma SameInverse(s: Store, r: Store)
    requires ExactInverse(s) && r.index == s.index
    requires forall hash | hash in r.hashLookup ::
        r.hashLookup[hash] in r.index && r.index[r.hashLookup[hash]].hash == hash
    requires forall h | h in r.index :: r.index[h].hash in r.hashLookup
    ensures r.hashLookup == s.hashLookup
  {
    forall hash | hash in r.hashLookup ensures hash in s.hashLookup && s.hashLookup[hash] == r.hashLookup[hash] {
      var h := r.hashLookup[hash];
      assert s.index[h].hash == hash;
    }
    forall hash | hash in s.hashLookup ensures hash in r.hashLookup {
      var h := s.hashLookup[hash];
      assert r.index[h].hash == hash;
    }
  }

  lemma TipFromIndex(w: World, s: Store, r: Store)
    requires w.config.Usable() && StoreInv(w, s) && r.index == s.index
    requires forall h | h in r.index :: h <= r.chainHeight
    requires r.chainHeight == 0 || r.chainHeight in r.index
    ensures r.chainHeight == s.chainHeight
  {
    if s.index != map[] {
      assert s.chainHeight in s.index.Keys;
    }
  }

  /** Every store reached from an empty one is restored by reopening its directory and rebuilding:
      index, tip and files always; the hash index unless two written headers share a hash. */
  lemma {:induction false} ReachableStoreRecovers(w: World, ops: seq<Op>, order: seq<FileName>)
    requires w.config.Usable()
    requires Enumerates(order, Execute(w, NewChain(EMPTY_STORE), ops).store.files.Keys)
    ensures
      var s := Execute(w, NewChain(EMPTY_STORE), ops).store;
      var reopened := Store(map[], map[], 0, s.files);
      var r := reopened.Rebuild(w.hasher, order);
      && r.index == s.index && r.chainHeight == s.chainHeight && r.files == s.files
      && (NoHeaderCollision(w.hasher, StoredOver(w, NewChain(EMPTY_STORE), ops)) ==> r == s)
  {
    var c := NewChain(EMPTY_STORE);
    var s := Execute(w, c, ops).store;
    EmptyStoreInv(w);
    ExecuteKeeps(w, c, ops);
    assert HashInv(w, EMPTY_STORE, []);
    ExecuteHashInv(w, c, ops, []);
    assert [] + StoredOver(w, c, ops) == StoredOver(w, c, ops);
    RebuildRestores(w, s, order);
    RebuildReadsFilesOnly(w.hasher, s, order);
  }

  lemma {:induction false} RebuildReadsFilesOnly(hs: Hasher, s: Store, order: seq<FileName>)
    requires forall i | 0 <= i < |order| :: order[i] in s.files
    ensures Store(map[], map[], 0, s.files).Rebuild(hs, order) == s.Rebuild(hs, order)
    decreases |order|
  {
    if order != [] {
      RebuildReadsFilesOnly(hs, s, order[..|order| - 1]);
    }
  }

  /** In every reachable store, looking up the hash of a stored block finds that block. */
  lemma {:induction false} LookupByHash(w: World, ops: seq<Op>, h: nat)
    requires w.config.Usable()
    requires NoHeaderCollision(w.hasher, StoredOver(w, NewChain(EMPTY_STORE), ops))
    requires h in Execute(w, NewChain(EMPTY_STORE), ops).store.index
    ensures
      var s := Execute(w, NewChain(EMPTY_STORE), ops).store;
      s.LoadBlockByHash(s.index[h].hash) == s.LoadBlock(h) && s.LoadBlock(h).Success?
  {
    var c := NewChain(EMPTY_STORE);
    EmptyStoreInv(w);
    ExecuteKeeps(w, c, ops);
    assert HashInv(w, EMPTY_STORE, []);
    ExecuteHashInv(w, c, ops, []);
    assert [] + StoredOver(w, c, ops) == StoredOver(w, c, ops);
    assert EntryOk(w.hasher, Execute(w, c, ops).store, h);
  }

  /** The recovery path itself: open the directory, rebuild, and hold the value that was lost. */
  method Reopen(w: World, ghost lost: Store, files: map<FileName, FileContent>, order: seq<FileName>)
      returns (storage: LedgerStorage)
    requires w.config.Usable() && StoreInv(w, lost) && ExactInverse(lost)
    requires files == lost.files && Enumerates(order, files.Keys)
    ensures fresh(storage) && storage.Value() == lost
  {
    storage := new LedgerStorage(w.hasher, w.config, files);
    RebuildReadsFilesOnly(w.hasher, lost, order);
    RebuildRestores(w, lost, order);
    storage.RebuildIndex(order);
  }
}
