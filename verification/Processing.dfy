/** What becomes of each pending block, stated by the conditions themselves, and what one call of
    process_pending_blocks reports (crates/myriadmesh-ledger/src/sync.rs). */
module Processing {
  import opened Common
  import opened Merkle
  import opened Blocks
  import opened Storage
  import opened Sync
  import opened Runs

  // ----- One block -----

  /** Version 1, and the Merkle root of the entries in the header. */
  predicate WellFormed(w: World, b: Block) {
    b.header.version == 1 && b.header.merkleRoot == MerkleRoot(w.hasher.digest, b.entries)
  }

  /** Genesis, or the successor of a stored block: next height, its hash, and a later timestamp. */
  predicate ExtendsStored(w: World, s: Store, b: Block) {
    b.header.height > 0 ==>
      && s.LoadBlock(b.header.height - 1).Success?
      && var previous := s.LoadBlock(b.header.height - 1).value.header;
      && b.header.height == previous.height + 1
      && b.header.previousHash == HeaderHash(w.hasher, previous)
      && b.header.timestamp > previous.timestamp
  }

  /** The creator is known and has the minimum score. */
  predicate CreatedByEligible(w: World, b: Block) {
    && b.header.creator in w.consensus.reputations
    && w.consensus.reputations[b.header.creator].Score() >= w.consensus.minReputation
  }

  /** Nobody is known, or the signatures are two thirds of the known nodes at least. */
  predicate SignedByTwoThirds(w: World, b: Block) {
    w.consensus.reputations == map[] || 3 * |b.validatorSignatures| >= 2 * |w.consensus.reputations|
  }

  predicate Acceptable(w: World, s: Store, b: Block) {
    ExtendsStored(w, s, b) && CreatedByEligible(w, b) && SignedByTwoThirds(w, b)
  }

  lemma StructureIff(w: World, b: Block)
    ensures ValidateStructure(w.hasher, b).Pass? <==> WellFormed(w, b)
  {
  }

  lemma PreviousIff(w: World, s: Store, b: Block)
    ensures CheckPrevious(w, s, b).Pass? <==> ExtendsStored(w, s, b)
  {
  }

  /** The verdict on a block, exactly: whether it is new, already there, or refused depends on these
      conditions alone, and a block at an occupied height is never refused for its link or signatures. */
  lemma {:induction false} VerdictIff(w: World, s: Store, b: Block)
    ensures Judge(w, s, b).NewBlock? <==> WellFormed(w, b) && b.header.height !in s.index && Acceptable(w, s, b)
    ensures Judge(w, s, b).AlreadyStored? <==> WellFormed(w, b) && b.header.height in s.index
    ensures Judge(w, s, b).Rejected?
       <==> !WellFormed(w, b) || (b.header.height !in s.index && !Acceptable(w, s, b))
  {
    StructureIff(w, b);
    PreviousIff(w, s, b);
    w.consensus.ConsensusIff(b);
    w.consensus.CreatorIff(b.header.creator);
  }

  /** The error of a refused block names the first condition it fails. */
  lemma {:induction false} RejectionNamesFirstFailure(w: World, s: Store, b: Block)
    requires Judge(w, s, b).Rejected?
    ensures
      match Judge(w, s, b).error
      case UnsupportedVersion(v) => v == b.header.version != 1
      case MerkleRootMismatch(expected, actual) =>
        b.header.version == 1 && expected == b.header.merkleRoot != actual == MerkleRoot(w.hasher.digest, b.entries)
      case MissingPreviousBlock(h) => WellFormed(w, b) && h + 1 == b.header.height && h !in s.index
      case InsufficientReputation(node, score, minimum) =>
        && WellFormed(w, b) && ExtendsStored(w, s, b) && !CreatedByEligible(w, b)
        && node == b.header.creator && minimum == w.consensus.minReputation
        && score == (if node in w.consensus.reputations then w.consensus.reputations[node].Score() else 0.0)
      case InsufficientSignatures(needed, actual) =>
        && WellFormed(w, b) && ExtendsStored(w, s, b) && CreatedByEligible(w, b)
        && actual == |b.validatorSignatures| < needed
        && 2 * |w.consensus.reputations| <= 3 * needed < 2 * |w.consensus.reputations| + 3
      case _ => WellFormed(w, b) && b.header.height - 1 in s.index && !ExtendsStored(w, s, b)
  {
    StructureIff(w, b);
    PreviousIff(w, s, b);
    w.consensus.CreatorIff(b.header.creator);
  }

  // ----- A queue -----

  /** The store once it is the next block's turn. */
  function AfterTurn(w: World, s: Store, b: Block): Store
    requires w.config.Usable()
  {
    if WellFormed(w, b) && b.header.height !in s.index && Acceptable(w, s, b) then s.StoreBlock(w.hasher, w.config, b)
    else s
  }

  /** How many of these blocks are refused, each judged against the store at its turn. */
  function RefusedIn(w: World, s: Store, blocks: seq<Block>): (n: nat)
    requires w.config.Usable()
    ensures n <= |blocks|
    decreases |blocks|
  {
    if blocks == [] then 0
    else
      var b := blocks[0];
      (if !WellFormed(w, b) || (b.header.height !in s.index && !Acceptable(w, s, b)) then 1 else 0)
      + RefusedIn(w, AfterTurn(w, s, b), blocks[1..])
  }

  function AfterTurns(w: World, s: Store, blocks: seq<Block>): Store
    requires w.config.Usable()
    decreases |blocks|
  {
    if blocks == [] then s else AfterTurns(w, AfterTurn(w, s, blocks[0]), blocks[1..])
  }

  lemma {:induction false} ProcessAllOutcome(w: World, c: Chain, blocks: seq<Block>)
    requires w.config.Usable()
    ensures
      var d := ProcessAll(w, c, blocks);
      && d.store == AfterTurns(w, c.store, blocks)
      && d.stats.validationErrors == c.stats.validationErrors + RefusedIn(w, c.store, blocks)
      && d.stats.blocksValidated == c.stats.blocksValidated + |blocks| - RefusedIn(w, c.store, blocks)
    decreases |blocks|
  {
    if blocks != [] {
      VerdictIff(w, c.store, blocks[0]);
      ProcessAllOutcome(w, ProcessOne(w, c, blocks[0]), blocks[1..]);
    }
  }

  /** What one call reports on a queue that is not empty: the blocks refused at their turn, in height
      order, are the errors; all the others, duplicates among them, are validated; and the state is
      Synced exactly if there are any of those. */
  lemma {:induction false} QueueOutcome(w: World, c: Chain)
    requires w.config.Usable() && c.pending != []
    ensures
      var sorted := SortBy(HeightAtMost, c.pending);
      var refused := RefusedIn(w, c.store, sorted);
      var d := ProcessPending(w, c);
      && |sorted| == |c.pending|
      && d.stats.validationErrors - c.stats.validationErrors == refused
      && d.stats.blocksValidated - c.stats.blocksValidated == |c.pending| - refused
      && d.state == (if refused < |c.pending| then Synced else SyncFailed)
      && d.store == AfterTurns(w, c.store, sorted)
      && d.pending == [] && d.queried == c.queried && d.stats.blocksDiscovered == c.stats.blocksDiscovered
  {
    var sorted := SortBy(HeightAtMost, c.pending);
    var started := c.(state := Validating, pending := []);
    SortedLength(c.pending);
    ProcessAllOutcome(w, started, sorted);
    ProcessAllCounts(w, started, sorted);
  }

  // ----- The other operations -----

  /** What the operations that do not process blocks leave, outright. */
  lemma {:induction false} OtherOpsOutcome(w: World, c: Chain, op: Op)
    requires w.config.Usable() && !op.ProcessOp?
    ensures
      var d := Apply(w, c, op);
      && d.store == c.store
      && (!op.DetectForksOp? && !op.ResetOp? ==>
            d.pending == c.pending + if op.AddPendingOp? then [op.block] else [])
      && (op.ResetOp? ==> d.pending == [])
      && d.queried == (if op.ResetOp? then {} else c.queried + if op.MarkQueriedOp? then {op.node} else {})
      && d.state == (if op.ResetOp? then Idle
                     else if op.RequestOp? && op.startHeight <= op.endHeight then Downloading
                     else c.state)
  {
    if op.DetectForksOp? {
      DetectForksStore(w, c, op.alternative);
      var f := ForkHeight(w.hasher, c.store, op.alternative);
      if f.Success? {
        AddAllPendingEffect(c, FromHeight(op.alternative, f.value));
      }
    } else {
      assert c.pending + [] == c.pending && c.queried + {} == c.queried;
    }
  }

  /** No reset among the operations from i on. */
  predicate NoReset(ops: seq<Op>, i: nat) {
    forall j | i <= j < |ops| :: !ops[j].ResetOp?
  }

  /** After any run exactly those nodes count as queried that were marked since the last reset, or
      counted before the run if there was none. */
  lemma {:induction false} QueriedSinceReset(w: World, c: Chain, ops: seq<Op>, node: NodeId)
    requires w.config.Usable()
    ensures
      node in Execute(w, c, ops).queried
      <==> (node in c.queried && NoReset(ops, 0))
           || exists i: nat | i < |ops| :: ops[i] == MarkQueriedOp(node) && NoReset(ops, i)
    decreases |ops|
  {
    if ops != [] {
      var d, rest := Apply(w, c, ops[0]), ops[1..];
      QueriedSinceReset(w, d, rest, node);
      FirstOpQueried(w, c, ops[0], node);
      forall i: nat | i < |rest| ensures NoReset(rest, i) <==> NoReset(ops, i + 1) {
        ShiftNoReset(ops, i);
      }
      ShiftNoReset(ops, 0);
      ShiftMarks(ops, node);
    }
  }

  lemma FirstOpQueried(w: World, c: Chain, op: Op, node: NodeId)
    requires w.config.Usable()
    ensures
      node in Apply(w, c, op).queried
      <==> !op.ResetOp? && (node in c.queried || op == MarkQueriedOp(node))
  {
    if op.ProcessOp? {
      ProcessAllCounts(w, c.(state := Validating, pending := []), SortBy(HeightAtMost, c.pending));
    } else {
      OtherOpsOutcome(w, c, op);
    }
  }

  lemma ShiftNoReset(ops: seq<Op>, i: nat)
    requires ops != []
    ensures NoReset(ops[1..], i) <==> NoReset(ops, i + 1)
    ensures NoReset(ops, 0) <==> !ops[0].ResetOp? && NoReset(ops[1..], 0)
  {
    assert forall j | 1 <= j < |ops| :: ops[j] == ops[1..][j - 1];
    assert forall j | 0 <= j < |ops[1..]| :: ops[1..][j] == ops[j + 1];
  }

  lemma ShiftMarks(ops: seq<Op>, node: NodeId)
    requires ops != []
    ensures
      (exists i: nat | i < |ops| :: ops[i] == MarkQueriedOp(node) && NoReset(ops, i))
      <==> (ops[0] == MarkQueriedOp(node) && NoReset(ops, 0))
           || exists i: nat | i < |ops[1..]| :: ops[1..][i] == MarkQueriedOp(node) && NoReset(ops[1..], i)
  {
    if i: nat :| i < |ops| && ops[i] == MarkQueriedOp(node) && NoReset(ops, i) {
      if i > 0 {
        ShiftNoReset(ops, i - 1);
        assert ops[1..][i - 1] == MarkQueriedOp(node) && NoReset(ops[1..], i - 1);
      }
    }
    if i: nat :| i < |ops[1..]| && ops[1..][i] == MarkQueriedOp(node) && NoReset(ops[1..], i) {
      ShiftNoReset(ops, i);
      assert ops[i + 1] == MarkQueriedOp(node) && NoReset(ops, i + 1);
    }
  }
}
