/** Blocks and the checks on them (crates/myriadmesh-ledger/src/block.rs). */
module Blocks {
  import opened Merkle

  const BLOCK_VERSION: nat := 1

  type Signature = seq<byte>

  /** A node identifier, as the number its fixed-length byte array spells. */
  type NodeId = nat

  /** An entry, as the bytes it serializes to. */
  type LedgerEntry = seq<byte>

  datatype BlockHeader = BlockHeader(
    version: nat,
    height: nat,
    timestamp: int,
    previousHash: ShortHash,
    merkleRoot: ShortHash,
    creator: NodeId,
    creatorSignature: Signature)

  datatype ValidatorSignature = ValidatorSignature(validator: NodeId, signature: Signature)

  datatype Block = Block(
    header: BlockHeader,
    entries: seq<LedgerEntry>,
    validatorSignatures: seq<ValidatorSignature>)

  datatype LedgerError =
    | UnsupportedVersion(version: nat)
    | MissingPreviousBlock(height: nat)
    | TimestampNotAfter
    | HashMismatch(expectedHash: ShortHash, actualHash: ShortHash)
    | MerkleRootMismatch(expectedRoot: ShortHash, actualRoot: ShortHash)
    | InsufficientSignatures(needed: nat, actual: nat)
    | BlockNotFound(height: nat)
    | InvalidHeight(expectedHeight: nat, actualHeight: nat)
    | InsufficientReputation(node: NodeId, reputation: real, minimum: real)
    | IoError
    | DeserializationError
    | StorageError
    | InvalidRange

  datatype Outcome = Pass | Fail(error: LedgerError)

  datatype Result<+T> = Success(value: T) | Failure(error: LedgerError)

  /** The hash function and the header encoding, of which nothing is assumed. */
  datatype Hasher = Hasher(digest: HashFn, headerBytes: BlockHeader -> seq<byte>)

  /** `calculate_hash`: only the header is hashed, and the digest is cut to 32 bytes. */
  function HeaderHash(hs: Hasher, header: BlockHeader): ShortHash {
    Truncate(hs.digest(hs.headerBytes(header)))
  }

  /** The hash of a header is the first half of the digest of its encoding. */
  lemma HeaderHashBytes(hs: Hasher, header: BlockHeader, i: nat)
    requires i < 32
    ensures HeaderHash(hs, header)[i] == hs.digest(hs.headerBytes(header))[i]
  {
  }

  function ValidateStructure(hs: Hasher, b: Block): Outcome {
    if b.header.version != BLOCK_VERSION then Fail(UnsupportedVersion(b.header.version))
    else
      var root := MerkleRoot(hs.digest, b.entries);
      if root != b.header.merkleRoot then Fail(MerkleRootMismatch(b.header.merkleRoot, root)) else Pass
  }

  function ValidateChainLink(hs: Hasher, b: Block, previous: Block): Outcome {
    if b.header.height != previous.header.height + 1 then
      Fail(InvalidHeight(previous.header.height + 1, b.header.height))
    else if b.header.previousHash != HeaderHash(hs, previous.header) then
      Fail(HashMismatch(HeaderHash(hs, previous.header), b.header.previousHash))
    else if b.header.timestamp <= previous.header.timestamp then Fail(TimestampNotAfter)
    else Pass
  }

  /** Block i of a list follows the block before it. */
  predicate LinksBack(hs: Hasher, blocks: seq<Block>, i: nat)
    requires 0 < i < |blocks|
  {
    ValidateChainLink(hs, blocks[i], blocks[i - 1]).Pass?
  }

  /** Ceiling of two thirds of n. */
  function RequiredSignatures(n: nat): nat {
    (2 * n + 2) / 3
  }

  /** The quorum rule in plain numbers: at least two thirds. */
  lemma TwoThirdsIff(b: Block, totalKnownNodes: nat)
    ensures HasConsensus(b, totalKnownNodes) <==> 3 * |b.validatorSignatures| >= 2 * totalKnownNodes
  {
  }

  predicate HasConsensus(b: Block, totalKnownNodes: nat) {
    |b.validatorSignatures| >= RequiredSignatures(totalKnownNodes)
  }

  /** What a binding proof hands over when two things that should be equal are not. */
  datatype Collision =
    | HeaderCollision(x: BlockHeader, y: BlockHeader)
    | DigestCollision(a: seq<byte>, b: seq<byte>)

  /** The collision is one between these two blocks: of their different headers, or, under one header,
      of byte strings hashed while computing the roots of their entries. */
  ghost predicate Exhibits(hs: Hasher, x: Block, y: Block, c: Collision) {
    match c
    case HeaderCollision(p, q) =>
      p == x.header && q == y.header && p != q && HeaderHash(hs, p) == HeaderHash(hs, q)
    case DigestCollision(a, b) => x.header == y.header && RootsCollide(hs.digest, x.entries, y.entries, a, b)
  }

  /** Blocks that pass the structure check and share a header hold the same entries, as long as
      they hold equally many, or computing their roots runs into a collision. */
  lemma {:induction false} HeaderBindsEntries(hs: Hasher, x: Block, y: Block) returns (c: Collision)
    requires ValidateStructure(hs, x).Pass? && ValidateStructure(hs, y).Pass?
    requires x.header == y.header && |x.entries| == |y.entries|
    ensures x.entries == y.entries || (c.DigestCollision? && Exhibits(hs, x, y, c))
  {
    var a, b := RootBindsEntries(hs.digest, x.entries, y.entries);
    c := DigestCollision(a, b);
  }
}
