/** The tip commits to the whole stored history. */
module History {
  import opened Blocks
  import opened Storage
  import opened Sync
  import opened Runs

  /** The block stored at a height. */
  function BlockAt(s: Store, h: nat): Block
    requires s.LoadBlock(h).Success?
  {
    s.LoadBlock(h).value
  }

  /** Both stores hold a block at this height. */
  ghost predicate Shared(s: Store, t: Store, h: nat) {
    s.LoadBlock(h).Success? && t.LoadBlock(h).Success?
  }

  /** Both stores hold the same header at this height, and the same entries if equally many. */
  ghost predicate SameBlock(s: Store, t: Store, h: nat)
    requires Shared(s, t, h)
  {
    var x, y := BlockAt(s, h), BlockAt(t, h);
    x.header == y.header && (|x.entries| == |y.entries| ==> x.entries == y.entries)
  }

  lemma StoredAt(w: World, s: Store, h: nat)
    requires w.config.Usable() && StoreInv(w, s)
    ensures s.LoadBlock(h).Success? <==> h in s.index
    ensures s.LoadBlock(h).Success? ==> BlockAt(s, h).header.height == h && Vetted(w, BlockAt(s, h))
    ensures LinkedAt(w, s, h)
  {
    if h in s.index {
      assert EntryOk(w.hasher, s, h);
      assert LinkedAt(w, s, h);
    }
  }

  /** No gap: a store that holds g and h holds everything between. */
  lemma NoGap(w: World, s: Store, g: nat, h: nat)
    requires w.config.Usable() && StoreInv(w, s)
    requires g < h && g in s.index && h in s.index
    ensures h - 1 in s.index
  {
  }

  /** The collision is one between the two blocks stored at some shared height up to h. */
  ghost predicate CollisionUpTo(hs: Hasher, s: Store, t: Store, h: nat, c: Collision) {
    exists g: nat :: g <= h && Shared(s, t, g) && Exhibits(hs, BlockAt(s, g), BlockAt(t, g), c)
  }

  ghost predicate SameUpTo(s: Store, t: Store, h: nat) {
    forall g: nat | g <= h && Shared(s, t, g) :: SameBlock(s, t, g)
  }

  /** Two stores, of whatever configuration, that agree on the header hash at height h: at every
      shared height up to h they hold the same header, and the same entries when equally many, or the
      two blocks they hold at one of those heights collide. */
  lemma {:induction false} HashCommitsToHistory(w: World, s: Store, v: World, t: Store, h: nat) returns (c: Collision)
    requires w.config.Usable() && StoreInv(w, s)
    requires v.config.Usable() && StoreInv(v, t) && w.hasher == v.hasher
    requires Shared(s, t, h)
    requires HeaderHash(w.hasher, BlockAt(s, h).header) == HeaderHash(w.hasher, BlockAt(t, h).header)
    ensures CollisionUpTo(w.hasher, s, t, h, c) || SameUpTo(s, t, h)
    decreases h
  {
    c := OneHeightAgrees(w, s, v, t, h);
    if !Exhibits(w.hasher, BlockAt(s, h), BlockAt(t, h), c) {
      if h > 0 && Shared(s, t, h - 1) {
        OneHeightDown(w, s, v, t, h);
        c := HashCommitsToHistory(w, s, v, t, h - 1);
        CollisionHigher(w.hasher, s, t, h, c);
      }
      if !CollisionUpTo(w.hasher, s, t, h, c) {
        AllLowerHeights(w, s, v, t, h);
      }
    }
  }

  lemma CollisionHigher(hs: Hasher, s: Store, t: Store, h: nat, c: Collision)
    requires h > 0
    ensures CollisionUpTo(hs, s, t, h - 1, c) ==> CollisionUpTo(hs, s, t, h, c)
  {
    if g: nat :| g <= h - 1 && Shared(s, t, g) && Exhibits(hs, BlockAt(s, g), BlockAt(t, g), c) {
      assert g <= h;
    }
  }

  lemma OneHeightAgrees(w: World, s: Store, v: World, t: Store, h: nat) returns (c: Collision)
    requires w.config.Usable() && StoreInv(w, s)
    requires v.config.Usable() && StoreInv(v, t) && w.hasher == v.hasher
    requires Shared(s, t, h)
    requires HeaderHash(w.hasher, BlockAt(s, h).header) == HeaderHash(w.hasher, BlockAt(t, h).header)
    ensures Exhibits(w.hasher, BlockAt(s, h), BlockAt(t, h), c) || SameBlock(s, t, h)
  {
    StoredAt(w, s, h);
    StoredAt(v, t, h);
    c := BlocksAgree(w.hasher, BlockAt(s, h), BlockAt(t, h));
  }

  lemma BlocksAgree(hs: Hasher, x: Block, y: Block) returns (c: Collision)
    requires ValidateStructure(hs, x).Pass? && ValidateStructure(hs, y).Pass?
    requires HeaderHash(hs, x.header) == HeaderHash(hs, y.header)
    ensures
      || Exhibits(hs, x, y, c)
      || (x.header == y.header && (|x.entries| == |y.entries| ==> x.entries == y.entries))
  {
    c := HeaderCollision(x.header, y.header);
    if x.header == y.header && |x.entries| == |y.entries| {
      c := HeaderBindsEntries(hs, x, y);
    }
  }

  lemma AllLowerHeights(w: World, s: Store, v: World, t: Store, h: nat)
    requires w.config.Usable() && StoreInv(w, s)
    requires v.config.Usable() && StoreInv(v, t)
    requires Shared(s, t, h) && SameBlock(s, t, h)
    requires h > 0 && Shared(s, t, h - 1) ==> SameUpTo(s, t, h - 1)
    ensures SameUpTo(s, t, h)
  {
    forall g: nat | g <= h && Shared(s, t, g) ensures SameBlock(s, t, g) {
      if g < h {
        SharedBelow(w, s, v, t, g, h);
      }
    }
  }

  /** Equal headers name equal previous hashes. */
  lemma OneHeightDown(w: World, s: Store, v: World, t: Store, h: nat)
    requires w.config.Usable() && StoreInv(w, s)
    requires v.config.Usable() && StoreInv(v, t) && w.hasher == v.hasher
    requires h > 0 && Shared(s, t, h) && Shared(s, t, h - 1)
    requires BlockAt(s, h).header == BlockAt(t, h).header
    ensures HeaderHash(w.hasher, BlockAt(s, h - 1).header) == HeaderHash(w.hasher, BlockAt(t, h - 1).header)
  {
    StoredAt(w, s, h);
    StoredAt(v, t, h);
  }

  lemma SharedBelow(w: World, s: Store, v: World, t: Store, g: nat, h: nat)
    requires w.config.Usable() && StoreInv(w, s)
    requires v.config.Usable() && StoreInv(v, t)
    requires g < h && Shared(s, t, g) && Shared(s, t, h)
    ensures Shared(s, t, h - 1)
  {
    StoredBelow(w, s, g, h);
    StoredBelow(v, t, g, h);
  }

  lemma StoredBelow(w: World, s: Store, g: nat, h: nat)
    requires w.config.Usable() && StoreInv(w, s)
    requires g < h && s.LoadBlock(g).Success? && s.LoadBlock(h).Success?
    ensures s.LoadBlock(h - 1).Success?
  {
    StoredAt(w, s, g);
    StoredAt(w, s, h);
    NoGap(w, s, g, h);
    StoredAt(w, s, h - 1);
  }

  /** Two nodes with one hash function, each with its own operations and configuration, whose tips have
      one height and one hash: they share all the history both hold, or two blocks they hold at one
      height collide. */
  lemma {:induction false} TipCommitsToHistory(w: World, ops: seq<Op>, v: World, ops': seq<Op>) returns (c: Collision)
    requires w.config.Usable() && v.config.Usable() && w.hasher == v.hasher
    requires
      var s := Execute(w, NewChain(EMPTY_STORE), ops).store;
      var t := Execute(v, NewChain(EMPTY_STORE), ops').store;
      && s.chainHeight == t.chainHeight && Shared(s, t, s.chainHeight)
      && HeaderHash(w.hasher, BlockAt(s, s.chainHeight).header)
         == HeaderHash(w.hasher, BlockAt(t, s.chainHeight).header)
    ensures
      var s := Execute(w, NewChain(EMPTY_STORE), ops).store;
      var t := Execute(v, NewChain(EMPTY_STORE), ops').store;
      CollisionUpTo(w.hasher, s, t, s.chainHeight, c) || forall g: nat | Shared(s, t, g) :: SameBlock(s, t, g)
  {
    EmptyStoreInv(w);
    EmptyStoreInv(v);
    ExecuteKeeps(w, NewChain(EMPTY_STORE), ops);
    ExecuteKeeps(v, NewChain(EMPTY_STORE), ops');
    var s := Execute(w, NewChain(EMPTY_STORE), ops).store;
    var t := Execute(v, NewChain(EMPTY_STORE), ops').store;
    c := HashCommitsToHistory(w, s, v, t, s.chainHeight);
    forall g: nat | Shared(s, t, g) ensures g <= s.chainHeight {
      StoredAt(w, s, g);
    }
  }
}
