/** The block store (crates/myriadmesh-ledger/src/storage.rs): two indexes, the chain height and
    the block files, with pruning and rebuilding. */
module Storage {
  import opened Common
  import opened Merkle
  import opened Blocks

  datatype StorageConfig = StorageConfig(pruningEnabled: bool, keepBlocks: nat) {
    /** Pruning subtracts one from the number of blocks to keep. */
    predicate Usable() {
      pruningEnabled ==> keepBlocks >= 1
    }
  }

  /** What a file in the blocks directory holds: a serialized block, or bytes that do not decode. */
  datatype FileContent = BlockBytes(block: Block) | OtherBytes

  datatype BlockMetadata = BlockMetadata(height: nat, hash: ShortHash, filePath: FileName)

  // ----- File names -----

  /** The name of a file in the blocks directory. */
  datatype FileName = FileName(text: string)

  function Digit(d: nat): char
    requires d < 10
  {
    "0123456789"[d]
  }

  function Decimal(n: nat): string {
    if n < 10 then [Digit(n)] else Decimal(n / 10) + [Digit(n % 10)]
  }

  /** Zero padding on the left up to the given width. */
  function Padded(s: string, width: nat): string
    decreases width - |s|
  {
    if |s| >= width then s else Padded("0" + s, width)
  }

  /** `block_{:010}.bin` */
  function BlockFileName(height: nat): FileName {
    FileName("block_" + Padded(Decimal(height), 10) + ".bin")
  }

  /** The file extension test of the rebuild; a name that is nothing but ".bin" has no extension. */
  predicate IsBinFile(name: FileName) {
    |name.text| >= 5 && name.text[|name.text| - 4..] == ".bin"
  }

  function DigitValue(c: char): nat {
    if '0' <= c <= '9' then (c as int - '0' as int) as nat else 0
  }

  function ReadDecimal(s: string): nat {
    if s == "" then 0 else 10 * ReadDecimal(s[..|s| - 1]) + DigitValue(s[|s| - 1])
  }

  lemma {:induction false} ReadDecimalOfDecimal(n: nat)
    ensures ReadDecimal(Decimal(n)) == n
  {
    var s := Decimal(n);
    if n >= 10 {
      ReadDecimalOfDecimal(n / 10);
      assert s[..|s| - 1] == Decimal(n / 10);
    } else {
      assert s[..0] == "";
    }
  }

  lemma {:induction false} ReadDecimalIgnoresZero(s: string)
    ensures ReadDecimal("0" + s) == ReadDecimal(s)
  {
    var t := "0" + s;
    if s == "" {
      assert t[..0] == "";
    } else {
      ReadDecimalIgnoresZero(s[..|s| - 1]);
      assert t[..|t| - 1] == "0" + s[..|s| - 1];
    }
  }

  lemma {:induction false} ReadDecimalOfPadded(s: string, width: nat)
    ensures ReadDecimal(Padded(s, width)) == ReadDecimal(s)
    decreases width - |s|
  {
    if |s| < width {
      ReadDecimalIgnoresZero(s);
      ReadDecimalOfPadded("0" + s, width);
    }
  }

  lemma {:induction false} PaddedWidth(s: string, width: nat)
    ensures |Padded(s, width)| == if |s| < width then width else |s|
    decreases width - |s|
  {
    if |s| < width {
      PaddedWidth("0" + s, width);
    }
  }

  /** A file name is the height in decimal between prefix and extension, ten digits wide at least and
      wider only if the height needs more. */
  lemma {:induction false} BlockFileNameForm(height: nat) returns (digits: string)
    ensures BlockFileName(height) == FileName("block_" + digits + ".bin")
    ensures ReadDecimal(digits) == height
    ensures |digits| == if |Decimal(height)| < 10 then 10 else |Decimal(height)|
  {
    digits := Padded(Decimal(height), 10);
    ReadDecimalOfPadded(Decimal(height), 10);
    ReadDecimalOfDecimal(height);
    PaddedWidth(Decimal(height), 10);
  }

  /** Blocks of different heights go to different files. */
  lemma {:induction false} BlockFileNameInjective(g: nat, h: nat)
    requires BlockFileName(g) == BlockFileName(h)
    ensures g == h
  {
    var a, b := Padded(Decimal(g), 10), Padded(Decimal(h), 10);
    var s, t := BlockFileName(g).text, BlockFileName(h).text;
    assert s[6..|s| - 4] == a;
    assert t[6..|t| - 4] == b;
    ReadDecimalOfPadded(Decimal(g), 10);
    ReadDecimalOfPadded(Decimal(h), 10);
    ReadDecimalOfDecimal(g);
    ReadDecimalOfDecimal(h);
  }

  lemma BlockFileNamesDistinct()
    ensures forall g: nat, h: nat | BlockFileName(g) == BlockFileName(h) :: g == h
    ensures forall h: nat :: IsBinFile(BlockFileName(h))
  {
    forall g: nat, h: nat | BlockFileName(g) == BlockFileName(h) ensures g == h {
      BlockFileNameInjective(g, h);
    }
    forall h: nat ensures IsBinFile(BlockFileName(h)) {
      var name := BlockFileName(h).text;
      assert name[|name| - 4..] == ".bin";
    }
  }

  // ----- The store as a value -----

  /** The value of a LedgerStorage together with its blocks directory. */
  datatype Store = Store(
    index: map<nat, BlockMetadata>,
    hashLookup: map<ShortHash, nat>,
    chainHeight: nat,
    files: map<FileName, FileContent>)
  {
    predicate HasBlock(height: nat) {
      height in index
    }

    function LoadBlock(height: nat): Result<Block> {
      if height !in index then Failure(BlockNotFound(height))
      else if index[height].filePath !in files then Failure(IoError)
      else
        match files[index[height].filePath]
        case BlockBytes(block) => Success(block)
        case OtherBytes => Failure(DeserializationError)
    }

    function LoadBlockByHash(hash: ShortHash): Result<Block> {
      if hash !in hashLookup then Failure(StorageError) else LoadBlock(hashLookup[hash])
    }

    function GetLatestBlock(): Result<Block> {
      if chainHeight == 0 && index == map[] then Failure(StorageError) else LoadBlock(chainHeight)
    }

    /** The blocks of start..=end that load, in height order. */
    function LoadRange(start: nat, end: nat): seq<Block>
      decreases end + 1 - start
    {
      if start > end then []
      else
        (match LoadBlock(start) case Success(b) => [b] case Failure(_) => []) + LoadRange(start + 1, end)
    }

    /** Write the file and enter the block in both indexes. */
    function Insert(hs: Hasher, b: Block): Store {
      var height := b.header.height;
      var hash := HeaderHash(hs, b.header);
      var path := BlockFileName(height);
      Store(
        index[height := BlockMetadata(height, hash, path)],
        hashLookup[hash := height],
        Max(chainHeight, height),
        files[path := BlockBytes(b)])
    }

    /** Lowest height that pruning keeps. */
    function KeepFrom(cfg: StorageConfig): nat
      requires cfg.keepBlocks >= 1
    {
      SaturatingSub(chainHeight, cfg.keepBlocks - 1)
    }

    /** The heights that pruning deletes. */
    function Outdated(cfg: StorageConfig): set<nat>
      requires cfg.keepBlocks >= 1
    {
      set h | h in index && h < KeepFrom(cfg)
    }

    /** Forget the blocks at the given heights: index, file and hash entry. */
    function Forget(heights: set<nat>): Store
      requires heights <= index.Keys
    {
      Store(
        index - heights,
        hashLookup - (set h | h in heights :: index[h].hash),
        chainHeight,
        files - (set h | h in heights :: index[h].filePath))
    }

    function Prune(cfg: StorageConfig): Store
      requires cfg.keepBlocks >= 1
    {
      if |index| <= cfg.keepBlocks then this
      else Forget(Outdated(cfg))
    }

    function StoreBlock(hs: Hasher, cfg: StorageConfig, b: Block): Store
      requires cfg.Usable()
    {
      var t := Insert(hs, b);
      if cfg.pruningEnabled && |t.index| > cfg.keepBlocks then t.Prune(cfg) else t
    }

    /** Read one directory entry into the indexes. */
    function RebuildEntry(hs: Hasher, name: FileName): Store
      requires name in files
    {
      if IsBinFile(name) && files[name].BlockBytes? then
        var b := files[name].block;
        var hash := HeaderHash(hs, b.header);
        Store(
          index[b.header.height := BlockMetadata(b.header.height, hash, name)],
          hashLookup[hash := b.header.height],
          Max(chainHeight, b.header.height),
          files)
      else this
    }

    /** Clear the indexes and read the directory entries in the given order. */
    function Rebuild(hs: Hasher, order: seq<FileName>): (r: Store)
      requires forall i | 0 <= i < |order| :: order[i] in files
      ensures r.files == files
    {
      if order == [] then Store(map[], map[], 0, files)
      else Rebuild(hs, order[..|order| - 1]).RebuildEntry(hs, order[|order| - 1])
    }
  }

  const EMPTY_STORE := Store(map[], map[], 0, map[])

  // ----- The class -----

  /** Block storage; `files` is the content of its blocks directory. */
  class LedgerStorage {
    const hasher: Hasher
    const config: StorageConfig
    var index: map<nat, BlockMetadata>
    var hashLookup: map<ShortHash, nat>
    var chainHeight: nat
    var files: map<FileName, FileContent>

    ghost function Value(): Store
      reads this
    {
      Store(index, hashLookup, chainHeight, files)
    }

    /** Opens a directory: nothing is read from it until the index is rebuilt. */
    constructor (hasher: Hasher, config: StorageConfig, files: map<FileName, FileContent>)
      ensures this.hasher == hasher && this.config == config
      ensures Value() == Store(map[], map[], 0, files)
    {
      this.hasher, this.config, this.files := hasher, config, files;
      index, hashLookup, chainHeight := map[], map[], 0;
    }

    method StoreBlock(b: Block)
      requires config.Usable()
      modifies this
      ensures Value() == old(Value()).StoreBlock(hasher, config, b)
    {
      var height := b.header.height;
      var hash := HeaderHash(hasher, b.header);
      var path := BlockFileName(height);
      files := files[path := BlockBytes(b)];
      index := index[height := BlockMetadata(height, hash, path)];
      hashLookup := hashLookup[hash := height];
      if height > chainHeight {
        chainHeight := height;
      }
      if config.pruningEnabled && |index| > config.keepBlocks {
        Prune();
      }
    }

    /** Deletes the blocks below the kept window. */
    method Prune()
      requires config.keepBlocks >= 1
      modifies this
      ensures Value() == old(Value()).Prune(config)
    {
      if |index| <= config.keepBlocks {
        return;
      }
      var keepFrom := SaturatingSub(chainHeight, config.keepBlocks - 1);
      var heightsToDelete := set h | h in index && h < keepFrom;
      assert heightsToDelete == Value().Outdated(config);
      DeleteBlocks(heightsToDelete);
    }

    /** Deletes the blocks at the given heights, one at a time and in no particular order. */
    method DeleteBlocks(heights: set<nat>)
      requires heights <= index.Keys
      modifies this
      ensures Value() == old(Value()).Forget(heights)
    {
      ghost var before := Value();
      ghost var done: set<nat> := {};
      var rest := heights;
      NothingForgotten(before);
      while rest != {}
        invariant done + rest == heights && done !! rest
        invariant Value() == before.Forget(done)
        decreases |rest|
      {
        var height :| height in rest;
        ForgetOneMore(before, done, height);
        var metadata := index[height];
        index := index - {height};
        files := files - {metadata.filePath};
        hashLookup := hashLookup - {metadata.hash};
        rest, done := rest - {height}, done + {height};
      }
      assert done == heights;
    }

    method RebuildIndex(order: seq<FileName>)
      requires Enumerates(order, files.Keys)
      modifies this
      ensures Value() == old(Value()).Rebuild(hasher, order)
    {
      ghost var before := Value();
      index, hashLookup, chainHeight := map[], map[], 0;
      for i := 0 to |order|
        invariant files == before.files
        invariant Value() == before.Rebuild(hasher, order[..i])
      {
        var name := order[i];
        RebuildNext(before, hasher, order, i);
        if IsBinFile(name) {
          match files[name] {
            case BlockBytes(b) =>
              var hash := HeaderHash(hasher, b.header);
              index := index[b.header.height := BlockMetadata(b.header.height, hash, name)];
              hashLookup := hashLookup[hash := b.header.height];
              if b.header.height > chainHeight {
                chainHeight := b.header.height;
              }
            case OtherBytes =>
          }
        }
      }
      assert order[..|order|] == order;
    }

    method LoadBlock(height: nat) returns (r: Result<Block>)
      ensures r == Value().LoadBlock(height)
    {
      if height !in index {
        return Failure(BlockNotFound(height));
      }
      var path := index[height].filePath;
      if path !in files {
        return Failure(IoError);
      }
      match files[path] {
        case BlockBytes(b) => return Success(b);
        case OtherBytes => return Failure(DeserializationError);
      }
    }

    method LoadRange(start: nat, end: nat) returns (blocks: seq<Block>)
      ensures blocks == Value().LoadRange(start, end)
    {
      blocks := [];
      var height := start;
      while height <= end
        invariant start <= height
        invariant blocks + Value().LoadRange(height, end) == Value().LoadRange(start, end)
        decreases end + 1 - height
      {
        var r := LoadBlock(height);
        match r {
          case Success(b) => blocks := blocks + [b];
          case Failure(_) =>
        }
        height := height + 1;
      }
    }
  }

  lemma RebuildNext(s: Store, hs: Hasher, order: seq<FileName>, i: nat)
    requires i < |order| && forall j | 0 <= j < |order| :: order[j] in s.files
    ensures s.Rebuild(hs, order[..i + 1]) == s.Rebuild(hs, order[..i]).RebuildEntry(hs, order[i])
  {
    assert order[..i + 1][..i] == order[..i];
  }

  lemma NothingForgotten(s: Store)
    ensures s.Forget({}) == s
  {
    assert s.index - {} == s.index;
    assert s.hashLookup - {} == s.hashLookup;
    assert s.files - {} == s.files;
  }

  lemma ForgetOneMore(s: Store, done: set<nat>, height: nat)
    requires done + {height} <= s.index.Keys && height !in done
    ensures
      var t, u := s.Forget(done), s.Forget(done + {height});
      && height in t.index && t.index[height] == s.index[height]
      && u == Store(t.index - {height}, t.hashLookup - {s.index[height].hash}, t.chainHeight,
          t.files - {s.index[height].filePath})
  {
    var more := done + {height};
    assert (set h | h in more :: s.index[h].hash) == (set h | h in done :: s.index[h].hash) + {s.index[height].hash};
    assert (set h | h in more :: s.index[h].filePath)
        == (set h | h in done :: s.index[h].filePath) + {s.index[height].filePath};
    assert s.index - more == s.index - done - {height};
  }
}
