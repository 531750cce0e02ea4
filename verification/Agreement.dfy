/** Two ledgers that know the same nodes never store different blocks at one height, as long as
    fewer than a third of the nodes misbehave. */
module Agreement {
  import opened Merkle
  import opened Blocks
  import opened Storage
  import opened Sync
  import opened Runs
  import opened ArrivalOrder
  import opened History

  /** The nodes that signed some entry of a list. */
  function SignersOf(signatures: seq<ValidatorSignature>): set<NodeId> {
    set i | 0 <= i < |signatures| :: signatures[i].validator
  }

  ghost predicate NoRepeats(signatures: seq<ValidatorSignature>) {
    forall i, j | 0 <= i < j < |signatures| :: signatures[i].validator != signatures[j].validator
  }

  function Signers(b: Block): set<NodeId> {
    SignersOf(b.validatorSignatures)
  }

  /** Each signer is listed once and is a known node: what the quorum rule needs and does not check. */
  ghost predicate ProperlySigned(b: Block, known: set<NodeId>) {
    NoRepeats(b.validatorSignatures) && Signers(b) <= known
  }

  /** How many nodes may misbehave among n. */
  function MaxFaulty(n: nat): nat
    requires n >= 1
  {
    (n - 1) / 3
  }

  /** A list has at most as many signers as entries, and as many exactly when nobody is listed twice. */
  lemma {:induction false} DistinctCount(signatures: seq<ValidatorSignature>)
    ensures |SignersOf(signatures)| <= |signatures|
    ensures |SignersOf(signatures)| == |signatures| <==> NoRepeats(signatures)
  {
    var all := SignersOf(signatures);
    if signatures == [] {
      assert all == {};
    } else {
      var last := |signatures| - 1;
      var front := signatures[..last];
      DistinctCount(front);
      assert forall i | 0 <= i < last :: front[i] == signatures[i];
      assert all == SignersOf(front) + {signatures[last].validator};
      assert NoRepeats(signatures) <==> NoRepeats(front) && signatures[last].validator !in SignersOf(front);
    }
  }

  /** The number the rule compares is the number of different known nodes that signed exactly when the
      list is proper: each signer once, and all of them known. */
  lemma {:induction false} RuleCountsNodesIff(b: Block, known: set<NodeId>)
    ensures |b.validatorSignatures| == |Signers(b) * known| <==> ProperlySigned(b, known)
  {
    DistinctCount(b.validatorSignatures);
    SubsetSize(Signers(b) * known, Signers(b));
    if |Signers(b) * known| == |Signers(b)| {
      assert Signers(b) == Signers(b) * known + (Signers(b) - known);
    } else {
      assert Signers(b) <= known ==> Signers(b) * known == Signers(b);
    }
  }

  /** On proper lists the quorum rule says what it is meant to: enough different known nodes signed. */
  lemma {:induction false} QuorumCountsNodes(b: Block, known: set<NodeId>)
    requires ProperlySigned(b, known)
    ensures HasConsensus(b, |known|) <==> 3 * |Signers(b) * known| >= 2 * |known|
    ensures HasConsensus(b, |known|) <==> |Signers(b) * known| >= RequiredSignatures(|known|)
  {
    RuleCountsNodesIff(b, known);
  }

  /** An empty genesis block that its creator signed as often as the rule asks for signatures. */
  function SelfSigned(w: World, creator: NodeId, signature: Signature, timestamp: int, previousHash: ShortHash): Block {
    Block(
      BlockHeader(BLOCK_VERSION, 0, timestamp, previousHash, MerkleRoot(w.hasher.digest, []), creator, signature),
      [],
      seq(RequiredSignatures(|w.consensus.reputations|), _ => ValidatorSignature(creator, signature)))
  }

  /** So one node that may create blocks can fill a quorum alone: among any two or more known nodes its
      repeatedly self-signed genesis block passes every check of an empty ledger and is stored. */
  lemma {:induction false} RepeatedSignatureFillsQuorum(
      w: World, creator: NodeId, signature: Signature, timestamp: int, previousHash: ShortHash)
    requires w.config.Usable()
    requires w.consensus.CanCreateBlocks(creator) && |w.consensus.reputations| >= 2
    ensures
      var b := SelfSigned(w, creator, signature, timestamp, previousHash);
      && HasConsensus(b, |w.consensus.reputations|)
      && Signers(b) == {creator}
      && |Signers(b)| < RequiredSignatures(|w.consensus.reputations|)
      && Judge(w, EMPTY_STORE, b) == NewBlock
      && ProcessPending(w, AddPending(NewChain(EMPTY_STORE), b)).store.LoadBlock(0) == Success(b)
  {
    var b := SelfSigned(w, creator, signature, timestamp, previousHash);
    assert b.validatorSignatures[0].validator == creator;
    assert Signers(b) == {creator};
    EmptyStoreInv(w);
    var c := AddPending(NewChain(EMPTY_STORE), b);
    assert c.pending == [b];
    assert ValidExtension(w, EMPTY_STORE, [b]);
    ArrivalOrderDoesNotMatter(w, c, [b]);
  }

  lemma UnionBound<T>(a: set<T>, b: set<T>, all: set<T>)
    requires a <= all && b <= all
    ensures |a| + |b| <= |all| + |a * b|
  {
    assert |a + b| == |a| + |b| - |a * b|;
    SubsetSize(a + b, all);
  }

  lemma {:induction false} SubsetSize<T>(a: set<T>, b: set<T>)
    requires a <= b
    ensures |a| <= |b|
  {
    assert b == a + (b - a);
  }

  /** Two quorums among the same n nodes share more than MaxFaulty(n) of them. */
  lemma {:induction false} QuorumsIntersect(a: set<NodeId>, b: set<NodeId>, known: set<NodeId>)
    requires a <= known && b <= known && |known| >= 1
    requires |a| >= RequiredSignatures(|known|) && |b| >= RequiredSignatures(|known|)
    ensures |a * b| >= MaxFaulty(|known|) + 1
  {
    UnionBound(a, b, known);
  }

  lemma {:induction false} SubsetOfSize(s: set<NodeId>, k: nat) returns (r: set<NodeId>)
    requires k <= |s|
    ensures r <= s && |r| == k
  {
    if k == 0 {
      r := {};
    } else {
      var x :| x in s;
      r := SubsetOfSize(s - {x}, k - 1);
      r := r + {x};
    }
  }

  ghost predicate IsQuorum(a: set<NodeId>, known: set<NodeId>) {
    a <= known && |a| >= RequiredSignatures(|known|)
  }

  ghost predicate ShareHonest(a: set<NodeId>, b: set<NodeId>, faulty: set<NodeId>) {
    exists node :: node in a * b && node !in faulty
  }

  /** How much misbehaviour the rule stands, exactly: any two quorums share an honest node if and
      only if fewer than 2 * ceil(2n/3) - n nodes are faulty, which MaxFaulty(n) always is. */
  lemma {:induction false} QuorumsShareHonestIff(known: set<NodeId>, faulty: set<NodeId>)
    requires faulty <= known && |known| >= 1
    ensures (forall a, b | IsQuorum(a, known) && IsQuorum(b, known) :: ShareHonest(a, b, faulty))
       <==> |faulty| < 2 * RequiredSignatures(|known|) - |known|
    ensures MaxFaulty(|known|) < 2 * RequiredSignatures(|known|) - |known|
  {
    if |faulty| < 2 * RequiredSignatures(|known|) - |known| {
      forall a, b | IsQuorum(a, known) && IsQuorum(b, known) ensures ShareHonest(a, b, faulty) {
        UnionBound(a, b, known);
        LargerReachesOutside(a * b, faulty);
      }
    } else {
      var a, b := QuorumsWithin(known, faulty);
      assert IsQuorum(a, known) && IsQuorum(b, known) && !ShareHonest(a, b, faulty);
    }
  }

  lemma LargerReachesOutside(s: set<NodeId>, faulty: set<NodeId>)
    requires |s| > |faulty|
    ensures exists node :: node in s && node !in faulty
  {
    if s <= faulty {
      SubsetSize(s, faulty);
    }
  }

  /** Two quorums that meet only in faulty nodes. */
  lemma QuorumsWithin(known: set<NodeId>, faulty: set<NodeId>) returns (a: set<NodeId>, b: set<NodeId>)
    requires faulty <= known && |known| >= 1
    requires |faulty| >= 2 * RequiredSignatures(|known|) - |known|
    ensures IsQuorum(a, known) && IsQuorum(b, known) && a * b <= faulty
  {
    var n, r := |known|, RequiredSignatures(|known|);
    var overlap := SubsetOfSize(faulty, 2 * r - n);
    var rest := known - overlap;
    assert |rest| == n - |overlap|;
    var left := SubsetOfSize(rest, n - r);
    a, b := overlap + left, overlap + (rest - left);
    assert |a| == |overlap| + |left| && |b| == |overlap| + |rest - left|;
    assert |rest - left| == |rest| - |left|;
  }

  /** Honest signers put their name to one header per height. */
  ghost predicate HonestVotes(b: Block, faulty: set<NodeId>, vote: (NodeId, nat) -> BlockHeader) {
    forall node | node in Signers(b) && node !in faulty :: vote(node, b.header.height) == b.header
  }

  /** Two blocks of one height that passed the checks of two nodes with the same known set have one header. */
  lemma {:induction false} QuorumsAgree(
      w: World, v: World, x: Block, y: Block, faulty: set<NodeId>, vote: (NodeId, nat) -> BlockHeader)
    requires Vetted(w, x) && Vetted(v, y) && x.header.height == y.header.height
    requires w.consensus.reputations.Keys == v.consensus.reputations.Keys
    requires ProperlySigned(x, w.consensus.reputations.Keys) && ProperlySigned(y, w.consensus.reputations.Keys)
    requires |w.consensus.reputations| >= 1 ==> |faulty| <= MaxFaulty(|w.consensus.reputations|)
    requires HonestVotes(x, faulty, vote) && HonestVotes(y, faulty, vote)
    ensures x.header == y.header
  {
    var known := w.consensus.reputations.Keys;
    assert x.header.creator in known;
    assert |known| == |w.consensus.reputations| == |v.consensus.reputations|;
    QuorumCountsNodes(x, known);
    QuorumCountsNodes(y, known);
    assert Signers(x) * known == Signers(x) && Signers(y) * known == Signers(y);
    QuorumsIntersect(Signers(x), Signers(y), known);
    var both := Signers(x) * Signers(y);
    if both <= faulty {
      SubsetSize(both, faulty);
      assert false;
    }
    var node :| node in both && node !in faulty;
    assert vote(node, x.header.height) == x.header && vote(node, y.header.height) == y.header;
  }

  /** Every block of the store carries a proper signature list with honest votes. */
  ghost predicate HonestStore(w: World, s: Store, faulty: set<NodeId>, vote: (NodeId, nat) -> BlockHeader) {
    forall h | s.LoadBlock(h).Success? ::
      && ProperlySigned(BlockAt(s, h), w.consensus.reputations.Keys)
      && HonestVotes(BlockAt(s, h), faulty, vote)
  }

  /** Agreement: two nodes that know the same n nodes, at most (n - 1) / 3 of which misbehave, hold
      the same header, and so the same hash, at every height both have stored, whatever their
      operations, configurations and reputation scores. */
  lemma {:induction false} LedgersAgree(
      w: World, ops: seq<Op>, v: World, ops': seq<Op>, faulty: set<NodeId>, vote: (NodeId, nat) -> BlockHeader, h: nat)
    requires w.config.Usable() && v.config.Usable()
    requires w.consensus.reputations.Keys == v.consensus.reputations.Keys
    requires |w.consensus.reputations| >= 1 ==> |faulty| <= MaxFaulty(|w.consensus.reputations|)
    requires HonestStore(w, Execute(w, NewChain(EMPTY_STORE), ops).store, faulty, vote)
    requires HonestStore(v, Execute(v, NewChain(EMPTY_STORE), ops').store, faulty, vote)
    requires Shared(Execute(w, NewChain(EMPTY_STORE), ops).store, Execute(v, NewChain(EMPTY_STORE), ops').store, h)
    ensures
      BlockAt(Execute(w, NewChain(EMPTY_STORE), ops).store, h).header
      == BlockAt(Execute(v, NewChain(EMPTY_STORE), ops').store, h).header
  {
    EmptyStoreInv(w);
    EmptyStoreInv(v);
    ExecuteKeeps(w, NewChain(EMPTY_STORE), ops);
    ExecuteKeeps(v, NewChain(EMPTY_STORE), ops');
    var s := Execute(w, NewChain(EMPTY_STORE), ops).store;
    var t := Execute(v, NewChain(EMPTY_STORE), ops').store;
    StoredAt(w, s, h);
    StoredAt(v, t, h);
    QuorumsAgree(w, v, BlockAt(s, h), BlockAt(t, h), faulty, vote);
  }
}
