/** Merkle root of a block's entries (crates/myriadmesh-ledger/src/merkle.rs).
    The 64-byte hash is a parameter, so every result holds for every hash function. */
module Merkle {

  newtype byte = x: int | 0 <= x < 256

  /** A full 64-byte digest. */
  type Digest = d: seq<byte> | |d| == 64 witness seq(64, _ => 0)

  /** A digest cut to its first 32 bytes: a Merkle root or a block hash. */
  type ShortHash = d: seq<byte> | |d| == 32 witness seq(32, _ => 0)

  type HashFn = seq<byte> -> Digest

  function Truncate(d: Digest): ShortHash {
    d[..32]
  }

  /** The 128 bytes a parent node hashes. */
  function Join(left: Digest, right: Digest): seq<byte> {
    var bytes: seq<byte> := left;
    bytes + right
  }

  /** Number of nodes on level d above n leaves. */
  function Width(n: nat, d: nat): nat {
    if d == 0 then n else (Width(n, d - 1) + 1) / 2
  }

  /** Number of levels between n leaves and the root. */
  function Height(n: nat): nat
    requires n >= 1
  {
    if n == 1 then 0 else 1 + Height((n + 1) / 2)
  }

  /** Index of the second child of node i of level d: the first one again when there is no other. */
  function Second(n: nat, d: nat, i: nat): (r: nat)
    requires d > 0 && i < Width(n, d)
    ensures r < Width(n, d - 1)
  {
    if 2 * i + 1 < Width(n, d - 1) then 2 * i + 1 else 2 * i
  }

  /** Node i of level d, read from the top: the pair of its children. */
  function Node(h: HashFn, entries: seq<seq<byte>>, d: nat, i: nat): Digest
    requires i < Width(|entries|, d)
    decreases d
  {
    if d == 0 then h(entries[i])
    else h(Join(Node(h, entries, d - 1, 2 * i), Node(h, entries, d - 1, Second(|entries|, d, i))))
  }

  lemma {:induction false} WidthShift(n: nat, d: nat)
    ensures Width(n, d + 1) == Width((n + 1) / 2, d)
  {
    if d > 0 {
      WidthShift(n, d - 1);
    }
  }

  lemma {:induction false} TopLevelIsOneNode(n: nat)
    requires n >= 1
    ensures Width(n, Height(n)) == 1
  {
    if n > 1 {
      TopLevelIsOneNode((n + 1) / 2);
      WidthShift(n, Height((n + 1) / 2));
    }
  }

  /** The root, defined from the top of the tree. */
  function MerkleRoot(h: HashFn, entries: seq<seq<byte>>): ShortHash {
    if entries == [] then Truncate(h([]))
    else
      TopLevelIsOneNode(|entries|);
      Truncate(Node(h, entries, Height(|entries|), 0))
  }

  /** Hash of the pair that starts at position 2 * i, a missing second half being the first. */
  function Pair(h: HashFn, hashes: seq<Digest>, i: nat): Digest
    requires 2 * i < |hashes|
  {
    h(Join(hashes[2 * i], hashes[if 2 * i + 1 < |hashes| then 2 * i + 1 else 2 * i]))
  }

  /** One round of the source's loop: the next level, pair by pair. */
  method NextLevel(h: HashFn, hashes: seq<Digest>) returns (nextLevel: seq<Digest>)
    ensures |nextLevel| == (|hashes| + 1) / 2
    ensures forall i | 0 <= i < |nextLevel| :: nextLevel[i] == Pair(h, hashes, i)
  {
    nextLevel := [];
    var k := 0;
    while k < |hashes|
      invariant k == 2 * |nextLevel| <= |hashes| + 1
      invariant forall i | 0 <= i < |nextLevel| :: nextLevel[i] == Pair(h, hashes, i)
    {
      var second := if k + 1 < |hashes| then hashes[k + 1] else hashes[k];
      nextLevel := nextLevel + [h(Join(hashes[k], second))];
      k := k + 2;
    }
  }

  /** The level-halving loop of the source: it stops, and computes the root of the tree. */
  method CalculateMerkleRoot(h: HashFn, entries: seq<seq<byte>>) returns (root: ShortHash)
    ensures root == MerkleRoot(h, entries)
  {
    if |entries| == 0 {
      return Truncate(h([]));
    }
    var hashes: seq<Digest> := seq(|entries|, i requires 0 <= i < |entries| => h(entries[i]));
    ghost var d := 0;
    while |hashes| > 1
      invariant IsLevel(h, entries, hashes, d)
      invariant |hashes| >= 1 && d + Height(|hashes|) == Height(|entries|)
      decreases |hashes|
    {
      var nextLevel := NextLevel(h, hashes);
      NextLevelIsLevel(h, entries, hashes, nextLevel, d);
      hashes, d := nextLevel, d + 1;
    }
    root := Truncate(hashes[0]);
  }

  /** hashes lists the nodes of level d. */
  ghost predicate IsLevel(h: HashFn, entries: seq<seq<byte>>, hashes: seq<Digest>, d: nat) {
    && |hashes| == Width(|entries|, d)
    && forall i | 0 <= i < |hashes| :: hashes[i] == Node(h, entries, d, i)
  }

  lemma NextLevelIsLevel(h: HashFn, entries: seq<seq<byte>>, hashes: seq<Digest>, next: seq<Digest>, d: nat)
    requires IsLevel(h, entries, hashes, d)
    requires |next| == (|hashes| + 1) / 2
    requires forall i | 0 <= i < |next| :: next[i] == Pair(h, hashes, i)
    ensures IsLevel(h, entries, next, d + 1)
  {
    forall i | 0 <= i < |next| ensures next[i] == Node(h, entries, d + 1, i) {
      assert hashes[2 * i] == Node(h, entries, d, 2 * i);
      assert hashes[Second(|entries|, d + 1, i)] == Node(h, entries, d, Second(|entries|, d + 1, i));
    }
  }

  /** Entries whose inclusion is claimed, checked by recomputing the root. */
  predicate VerifyEntryInclusion(h: HashFn, entries: seq<seq<byte>>, entry: seq<byte>, expectedRoot: ShortHash) {
    entry in entries && MerkleRoot(h, entries) == expectedRoot
  }

  function Bytes(d: Digest): seq<byte> {
    d
  }

  /** The roots of the shortest lists, byte for byte: hashes of pairs in order, a lone one doubled, and
      the first half of the last digest. */
  lemma {:induction false} SmallRoots(h: HashFn, x: seq<byte>, y: seq<byte>, z: seq<byte>)
    ensures Bytes(h([]))[..32] == MerkleRoot(h, [])
    ensures Bytes(h(x))[..32] == MerkleRoot(h, [x])
    ensures Bytes(h(Bytes(h(x)) + Bytes(h(y))))[..32] == MerkleRoot(h, [x, y])
    ensures
      var left, right := h(Bytes(h(x)) + Bytes(h(y))), h(Bytes(h(z)) + Bytes(h(z)));
      Bytes(h(Bytes(left) + Bytes(right)))[..32] == MerkleRoot(h, [x, y, z])
  {
    assert Height(1) == 0 && Height(2) == 1 && Height(3) == 2;
    assert Width(3, 1) == 2 && Width(3, 2) == 1 && Width(2, 1) == 1;
    assert Node(h, [x, y, z], 1, 0) == h(Join(h(x), h(y)));
    assert Node(h, [x, y, z], 1, 1) == h(Join(h(z), h(z)));
    assert Node(h, [x, y, z], 2, 0) == h(Join(h(Join(h(x), h(y))), h(Join(h(z), h(z)))));
    assert Node(h, [x, y], 1, 0) == h(Join(h(x), h(y)));
  }

  // ----- What a root commits to -----

  /** The entries below node i of level d, those under a missing second child being doubled. */
  function Expand(entries: seq<seq<byte>>, d: nat, i: nat): seq<seq<byte>>
    requires i < Width(|entries|, d)
    decreases d
  {
    if d == 0 then [entries[i]]
    else Expand(entries, d - 1, 2 * i) + Expand(entries, d - 1, Second(|entries|, d, i))
  }

  /** What a node hashes: an entry, or its two children. */
  function Preimage(h: HashFn, entries: seq<seq<byte>>, d: nat, i: nat): (r: seq<byte>)
    requires i < Width(|entries|, d)
    ensures h(r) == Node(h, entries, d, i)
  {
    if d == 0 then entries[i]
    else Join(Node(h, entries, d - 1, 2 * i), Node(h, entries, d - 1, Second(|entries|, d, i)))
  }

  lemma SameJoin(a: Digest, b: Digest, a': Digest, b': Digest)
    requires Join(a, b) == Join(a', b')
    ensures a == a' && b == b'
  {
    assert a == Join(a, b)[..64] && b == Join(a, b)[64..];
    assert a' == Join(a', b')[..64] && b' == Join(a', b')[64..];
  }

  /** These bytes are hashed while building the tree of the entries up to level top. */
  ghost predicate HashedIn(h: HashFn, entries: seq<seq<byte>>, top: nat, bytes: seq<byte>) {
    exists d: nat, i: nat :: d <= top && i < Width(|entries|, d) && bytes == Preimage(h, entries, d, i)
  }

  lemma HashedHigher(h: HashFn, entries: seq<seq<byte>>, low: nat, top: nat, bytes: seq<byte>)
    requires HashedIn(h, entries, low, bytes) && low <= top
    ensures HashedIn(h, entries, top, bytes)
  {
    var d: nat, i: nat :| d <= low && i < Width(|entries|, d) && bytes == Preimage(h, entries, d, i);
    assert d <= top;
  }

  /** Two different byte strings, hashed in these two trees up to these levels, have one digest. */
  ghost predicate TreesCollide(
      h: HashFn, xs: seq<seq<byte>>, top: nat, ys: seq<seq<byte>>, top': nat, a: seq<byte>, b: seq<byte>)
  {
    a != b && h(a) == h(b) && HashedIn(h, xs, top, a) && HashedIn(h, ys, top', b)
  }

  /** The collision that computing the roots of these two lists runs into: between two byte strings
      hashed on the way, or between the two that the roots are cut from. */
  ghost predicate RootsCollide(h: HashFn, xs: seq<seq<byte>>, ys: seq<seq<byte>>, a: seq<byte>, b: seq<byte>) {
    && xs != [] && ys != []
    && (|| TreesCollide(h, xs, Height(|xs|), ys, Height(|ys|), a, b)
        || (a != b && a == RootPreimage(h, xs) && b == RootPreimage(h, ys) && Truncate(h(a)) == Truncate(h(b))))
  }

  function RootPreimage(h: HashFn, entries: seq<seq<byte>>): seq<byte>
    requires entries != []
  {
    TopLevelIsOneNode(|entries|);
    Preimage(h, entries, Height(|entries|), 0)
  }

  // Two trees are compared from the top: level base + d of the first with level d of the second.

  /** What is hashed on level base below node i of level base + d, repeated subtrees being repeated. */
  function ExpandTo(h: HashFn, entries: seq<seq<byte>>, base: nat, d: nat, i: nat): seq<seq<byte>>
    requires i < Width(|entries|, base + d)
    decreases d
  {
    if d == 0 then [Preimage(h, entries, base, i)]
    else
      ExpandTo(h, entries, base, d - 1, 2 * i)
      + ExpandTo(h, entries, base, d - 1, Second(|entries|, base + d, i))
  }

  /** On the lowest level that is the entries themselves, whatever the hash function. */
  lemma {:induction false} ExpandToEntries(h: HashFn, entries: seq<seq<byte>>, d: nat, i: nat)
    requires i < Width(|entries|, d)
    ensures ExpandTo(h, entries, 0, d, i) == Expand(entries, d, i)
    decreases d
  {
    if d > 0 {
      ExpandToEntries(h, entries, d - 1, 2 * i);
      ExpandToEntries(h, entries, d - 1, Second(|entries|, d, i));
    }
  }

  lemma {:induction false} ExpandLength(
      h: HashFn, xs: seq<seq<byte>>, base: nat, ys: seq<seq<byte>>, d: nat, i: nat, k: nat)
    requires i < Width(|xs|, base + d) && k < Width(|ys|, d)
    ensures |ExpandTo(h, xs, base, d, i)| == |ExpandTo(h, ys, 0, d, k)|
    decreases d
  {
    if d > 0 {
      ExpandLength(h, xs, base, ys, d - 1, 2 * i, 2 * k);
      ExpandLength(h, xs, base, ys, d - 1, Second(|xs|, base + d, i), Second(|ys|, d, k));
    }
  }

  /** Two expansions are equal exactly when both halves are. */
  lemma ExpandHalves(h: HashFn, xs: seq<seq<byte>>, base: nat, ys: seq<seq<byte>>, d: nat, i: nat, k: nat)
    requires d > 0 && i < Width(|xs|, base + d) && k < Width(|ys|, d)
    ensures
      ExpandTo(h, xs, base, d, i) == ExpandTo(h, ys, 0, d, k)
      <==> && ExpandTo(h, xs, base, d - 1, 2 * i) == ExpandTo(h, ys, 0, d - 1, 2 * k)
           && ExpandTo(h, xs, base, d - 1, Second(|xs|, base + d, i)) == ExpandTo(h, ys, 0, d - 1, Second(|ys|, d, k))
  {
    ExpandLength(h, xs, base, ys, d - 1, 2 * i, 2 * k);
    SameConcat(
      ExpandTo(h, xs, base, d - 1, 2 * i), ExpandTo(h, xs, base, d - 1, Second(|xs|, base + d, i)),
      ExpandTo(h, ys, 0, d - 1, 2 * k), ExpandTo(h, ys, 0, d - 1, Second(|ys|, d, k)));
  }

  lemma SameConcat<T>(a: seq<T>, b: seq<T>, a': seq<T>, b': seq<T>)
    requires |a| == |a'|
    ensures a + b == a' + b' <==> a == a' && b == b'
  {
    if a + b == a' + b' {
      assert a == (a + b)[..|a|] && b == (a + b)[|a|..];
      assert a' == (a' + b')[..|a|] && b' == (a' + b')[|a|..];
    }
  }

  /** A node is determined by the expansion below it. */
  lemma {:induction false} SameExpansionSameNode(
      h: HashFn, xs: seq<seq<byte>>, base: nat, ys: seq<seq<byte>>, d: nat, i: nat, k: nat)
    requires i < Width(|xs|, base + d) && k < Width(|ys|, d)
    requires ExpandTo(h, xs, base, d, i) == ExpandTo(h, ys, 0, d, k)
    ensures Node(h, xs, base + d, i) == Node(h, ys, d, k)
    decreases d
  {
    if d > 0 {
      ExpandHalves(h, xs, base, ys, d, i, k);
      SameExpansionSameNode(h, xs, base, ys, d - 1, 2 * i, 2 * k);
      SameExpansionSameNode(h, xs, base, ys, d - 1, Second(|xs|, base + d, i), Second(|ys|, d, k));
    } else {
      assert ExpandTo(h, xs, base, 0, i)[0] == ExpandTo(h, ys, 0, 0, k)[0];
      assert Preimage(h, xs, base, i) == Preimage(h, ys, 0, k);
    }
  }

  /** Nodes that hash the same bytes have the same expansion, or two byte strings hashed at or below
      them, one in each tree, collide. */
  lemma {:induction false} NodeBinds(
      h: HashFn, xs: seq<seq<byte>>, base: nat, ys: seq<seq<byte>>, d: nat, i: nat, k: nat)
      returns (a: seq<byte>, b: seq<byte>)
    requires i < Width(|xs|, base + d) && k < Width(|ys|, d)
    requires Preimage(h, xs, base + d, i) == Preimage(h, ys, d, k)
    ensures TreesCollide(h, xs, base + d, ys, d, a, b) || ExpandTo(h, xs, base, d, i) == ExpandTo(h, ys, 0, d, k)
    decreases d, 0
  {
    a, b := [], [];
    if d > 0 {
      SameJoin(Node(h, xs, base + d - 1, 2 * i), Node(h, xs, base + d - 1, Second(|xs|, base + d, i)),
               Node(h, ys, d - 1, 2 * k), Node(h, ys, d - 1, Second(|ys|, d, k)));
      a, b := ChildBinds(h, xs, base, ys, d - 1, 2 * i, 2 * k);
      if !TreesCollide(h, xs, base + d - 1, ys, d - 1, a, b) {
        a, b := ChildBinds(h, xs, base, ys, d - 1, Second(|xs|, base + d, i), Second(|ys|, d, k));
        ExpandHalves(h, xs, base, ys, d, i, k);
      }
      if TreesCollide(h, xs, base + d - 1, ys, d - 1, a, b) {
        HashedHigher(h, xs, base + d - 1, base + d, a);
        HashedHigher(h, ys, d - 1, d, b);
      }
    }
  }

  lemma {:induction false} ChildBinds(
      h: HashFn, xs: seq<seq<byte>>, base: nat, ys: seq<seq<byte>>, d: nat, i: nat, k: nat)
      returns (a: seq<byte>, b: seq<byte>)
    requires i < Width(|xs|, base + d) && k < Width(|ys|, d)
    requires Node(h, xs, base + d, i) == Node(h, ys, d, k)
    ensures TreesCollide(h, xs, base + d, ys, d, a, b) || ExpandTo(h, xs, base, d, i) == ExpandTo(h, ys, 0, d, k)
    decreases d, 1
  {
    a, b := Preimage(h, xs, base + d, i), Preimage(h, ys, d, k);
    if a == b {
      a, b := NodeBinds(h, xs, base, ys, d, i, k);
    } else {
      assert HashedIn(h, xs, base + d, a) && HashedIn(h, ys, d, b);
    }
  }

  /** The list as its root sees it when the tree is cut off at the given level. */
  function ExpandAllTo(h: HashFn, entries: seq<seq<byte>>, base: nat): seq<seq<byte>>
    requires entries != [] && base <= Height(|entries|)
  {
    TopLevelIsOneNode(|entries|);
    ExpandTo(h, entries, base, Height(|entries|) - base, 0)
  }

  /** Which lists share a root, exactly, for trees of any heights: cut the taller tree off where as many
      levels remain as the other has; the roots are equal if and only if what is hashed there is the
      other's entries, both written out in full, unless computing the two roots runs into a collision. */
  lemma {:induction false} SameRootIff(h: HashFn, xs: seq<seq<byte>>, ys: seq<seq<byte>>)
      returns (a: seq<byte>, b: seq<byte>)
    requires xs != [] && ys != [] && Height(|xs|) >= Height(|ys|)
    ensures
      var base := Height(|xs|) - Height(|ys|);
      && (ExpandAllTo(h, xs, base) == ExpandAllTo(h, ys, 0) ==> MerkleRoot(h, xs) == MerkleRoot(h, ys))
      && (|| RootsCollide(h, xs, ys, a, b)
          || (MerkleRoot(h, xs) == MerkleRoot(h, ys) <==> ExpandAllTo(h, xs, base) == ExpandAllTo(h, ys, 0)))
  {
    var d := Height(|ys|);
    var base := Height(|xs|) - d;
    TopLevelIsOneNode(|xs|);
    TopLevelIsOneNode(|ys|);
    a, b := RootPreimage(h, xs), RootPreimage(h, ys);
    if ExpandAllTo(h, xs, base) == ExpandAllTo(h, ys, 0) {
      SameExpansionSameNode(h, xs, base, ys, d, 0, 0);
    } else if a == b {
      a, b := NodeBinds(h, xs, base, ys, d, 0, 0);
    }
  }

  /** The whole list written out in full. */
  function ExpandAll(entries: seq<seq<byte>>): seq<seq<byte>>
    requires entries != []
  {
    TopLevelIsOneNode(|entries|);
    Expand(entries, Height(|entries|), 0)
  }

  /** For trees of one height the condition speaks of the entries alone. */
  lemma {:induction false} SameHeightSameRootIff(h: HashFn, xs: seq<seq<byte>>, ys: seq<seq<byte>>)
      returns (a: seq<byte>, b: seq<byte>)
    requires xs != [] && ys != [] && Height(|xs|) == Height(|ys|)
    ensures ExpandAll(xs) == ExpandAll(ys) ==> MerkleRoot(h, xs) == MerkleRoot(h, ys)
    ensures
      RootsCollide(h, xs, ys, a, b) || (MerkleRoot(h, xs) == MerkleRoot(h, ys) <==> ExpandAll(xs) == ExpandAll(ys))
  {
    TopLevelIsOneNode(|xs|);
    TopLevelIsOneNode(|ys|);
    ExpandToEntries(h, xs, Height(|xs|), 0);
    ExpandToEntries(h, ys, Height(|ys|), 0);
    a, b := SameRootIff(h, xs, ys);
  }

  /** Index of the ancestor of leaf j on level d. */
  function Ancestor(j: nat, d: nat): nat {
    if d == 0 then j else Ancestor(j, d - 1) / 2
  }

  lemma {:induction false} AncestorInLevel(n: nat, j: nat, d: nat)
    requires j < n
    ensures Ancestor(j, d) < Width(n, d)
  {
    if d > 0 {
      AncestorInLevel(n, j, d - 1);
    }
  }

  /** Of lists of equal length, equal expansions come from equal entries. */
  lemma {:induction false} ExpandBinds(h: HashFn, xs: seq<seq<byte>>, ys: seq<seq<byte>>, d: nat, i: nat, j: nat)
    requires |xs| == |ys| && i < Width(|xs|, d) && j < |xs| && Ancestor(j, d) == i
    requires ExpandTo(h, xs, 0, d, i) == ExpandTo(h, ys, 0, d, i)
    ensures xs[j] == ys[j]
    decreases d
  {
    if d > 0 {
      ExpandHalves(h, xs, 0, ys, d, i, i);
      AncestorInLevel(|xs|, j, d - 1);
      ExpandBinds(h, xs, ys, d - 1, Ancestor(j, d - 1), j);
    } else {
      assert ExpandTo(h, xs, 0, 0, i)[0] == ExpandTo(h, ys, 0, 0, i)[0];
    }
  }

  /** Equal roots over lists of equal length: the lists are equal, or computing the two roots runs into
      a collision, cut to 32 bytes at the top or in full below. */
  lemma {:induction false} RootBindsEntries(h: HashFn, xs: seq<seq<byte>>, ys: seq<seq<byte>>)
      returns (a: seq<byte>, b: seq<byte>)
    requires |xs| == |ys|
    requires MerkleRoot(h, xs) == MerkleRoot(h, ys)
    ensures xs == ys || RootsCollide(h, xs, ys, a, b)
  {
    a, b := [], [];
    if xs != [] {
      var d := Height(|xs|);
      TopLevelIsOneNode(|xs|);
      a, b := SameRootIff(h, xs, ys);
      if ExpandAllTo(h, xs, 0) == ExpandAllTo(h, ys, 0) {
        forall j | 0 <= j < |xs| ensures xs[j] == ys[j] {
          AncestorInLevel(|xs|, j, d);
          ExpandBinds(h, xs, ys, d, 0, j);
        }
      }
    }
  }

  /** An entry of a list is found by the check against the root of that very list, and none is found
      against another root. */
  lemma {:induction false} InclusionIsComplete(h: HashFn, entries: seq<seq<byte>>, entry: seq<byte>, root: ShortHash)
    requires entry in entries
    ensures VerifyEntryInclusion(h, entries, entry, root) <==> root == MerkleRoot(h, entries)
  {
  }

  /** A successful inclusion check against the root of a list of the same length means the
      entry is in that list, unless computing the root of the claimed list and of that list collides. */
  lemma {:induction false} InclusionIsSound(
      h: HashFn, original: seq<seq<byte>>, claimed: seq<seq<byte>>, entry: seq<byte>)
      returns (a: seq<byte>, b: seq<byte>)
    requires |claimed| == |original|
    requires VerifyEntryInclusion(h, claimed, entry, MerkleRoot(h, original))
    ensures entry in original || RootsCollide(h, claimed, original, a, b)
  {
    a, b := RootBindsEntries(h, claimed, original);
  }

  // ----- Lists of other lengths -----

  lemma {:induction false} RepeatedLastEntryWidth(n: nat, d: nat)
    requires n % 2 == 1 && d >= 1
    ensures Width(n + 1, d) == Width(n, d)
  {
    if d > 1 {
      RepeatedLastEntryWidth(n, d - 1);
    }
  }

  lemma {:induction false} RepeatedLastEntryExpands(xs: seq<seq<byte>>, ys: seq<seq<byte>>, d: nat, i: nat)
    requires |xs| % 2 == 1 && ys == xs + [xs[|xs| - 1]]
    requires d >= 1 && i < Width(|xs|, d) && i < Width(|ys|, d)
    ensures Expand(ys, d, i) == Expand(xs, d, i)
    decreases d
  {
    if d > 1 {
      RepeatedLastEntryWidth(|xs|, d - 1);
      RepeatedLastEntryExpands(xs, ys, d - 1, 2 * i);
      RepeatedLastEntryExpands(xs, ys, d - 1, Second(|xs|, d, i));
    } else {
      RepeatedLastEntryFirstLevel(xs, ys, i);
    }
  }

  lemma RepeatedLastEntryFirstLevel(xs: seq<seq<byte>>, ys: seq<seq<byte>>, i: nat)
    requires |xs| % 2 == 1 && ys == xs + [xs[|xs| - 1]]
    requires i < Width(|xs|, 1) && i < Width(|ys|, 1)
    ensures Expand(ys, 1, i) == Expand(xs, 1, i)
  {
    assert Expand(ys, 0, 2 * i) == Expand(xs, 0, 2 * i);
    assert Expand(ys, 0, Second(|ys|, 1, i)) == Expand(xs, 0, Second(|xs|, 1, i));
  }

  /** One family of such lists: repeating the last entry of an odd list of three or more keeps the root. */
  lemma {:induction false} RepeatedLastEntryKeepsRoot(h: HashFn, xs: seq<seq<byte>>)
    requires |xs| % 2 == 1 && |xs| >= 3
    ensures MerkleRoot(h, xs + [xs[|xs| - 1]]) == MerkleRoot(h, xs)
    ensures xs + [xs[|xs| - 1]] != xs
  {
    var ys := xs + [xs[|xs| - 1]];
    TopLevelIsOneNode(|xs|);
    TopLevelIsOneNode(|ys|);
    assert Height(|xs| + 1) == Height(|xs|) by {
      assert (|xs| + 2) / 2 == (|xs| + 1) / 2;
    }
    RepeatedLastEntryExpands(xs, ys, Height(|xs|), 0);
    var a, b := SameHeightSameRootIff(h, ys, xs);
    assert |ys| != |xs|;
  }

  /** Among trees of different height: the one-entry list of the bytes that a root hashes has that
      root, since leaves and inner nodes are hashed alike. */
  lemma {:induction false} RootPreimageHasRoot(h: HashFn, xs: seq<seq<byte>>)
    requires xs != []
    ensures MerkleRoot(h, [RootPreimage(h, xs)]) == MerkleRoot(h, xs)
  {
    TopLevelIsOneNode(|xs|);
    var a, b := SameRootIff(h, xs, [RootPreimage(h, xs)]);
  }
}
