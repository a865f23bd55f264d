/** Two nodes with one genesis that are handed the same blocks agree, whatever the delivery order. */
module Convergence {
  import opened Text
  import opened Sums
  import opened Ledgers
  import opened LedgerLaws
  import opened Genesis
  import opened Lottery
  import opened Chain
  import opened Validation

  /** Within the set, equal hashes mean equal blocks, metadata included. */
  ghost predicate Distinct(o: Oracle, u: set<Block>) {
    forall a, b :: a in u && b in u && HashOf(o, a) == HashOf(o, b) ==> a == b
  }

  ghost predicate Within(c: seq<Block>, u: set<Block>) {
    forall i :: 0 <= i < |c| ==> c[i] in u
  }

  /** Every delivered parent, other than the genesis, comes before its children. */
  ghost predicate ParentFirst(o: Oracle, g: Block, ds: seq<Block>) {
    forall i, p :: 0 <= i < |ds| && p in ds && p != g && HashOf(o, p) == ds[i].parent ==> p in ds[..i]
  }

  function Universe(g: Block, ds: seq<Block>): set<Block> {
    {g} + set b | b in ds
  }

  ghost predicate GoodChain(o: Oracle, g: Block, u: set<Block>, c: seq<Block>, b: Block) {
    ChainOk(o, c) && c[0] == g && Within(c, u) && c[|c| - 1] == b
  }

  /** Reachable from the genesis by validated blocks of the set: this mentions no order. */
  ghost predicate Good(o: Oracle, g: Block, u: set<Block>, b: Block) {
    exists c :: GoodChain(o, g, u, c, b)
  }

  /** Within such a set a block has one chain. */
  lemma {:induction false} ChainUnique(o: Oracle, u: set<Block>, c: seq<Block>, d: seq<Block>)
    requires Lawful(o) && Distinct(o, u) && Within(c, u) && Within(d, u)
    requires Linked(o, c) && Linked(o, d) && c[|c| - 1] == d[|d| - 1]
    ensures c == d
    decreases |c|
  {
    hide HashOf;
    assert forall b: Block :: HashOf(o, b) != NO_PARENT by { NeverEmpty(o); }
    assert |c| > 1 ==> c[|c| - 1].parent == HashOf(o, c[|c| - 2]);
    assert |d| > 1 ==> d[|d| - 1].parent == HashOf(o, d[|d| - 2]);
    if |c| > 1 {
      ChainUnique(o, u, c[..|c| - 1], d[..|d| - 1]);
      assert c == c[..|c| - 1] + [c[|c| - 1]];
      assert d == d[..|d| - 1] + [d[|d| - 1]];
    }
  }

  lemma NeverEmpty(o: Oracle)
    requires Lawful(o)
    ensures forall b: Block :: HashOf(o, b) != NO_PARENT
  {
  }

  lemma ChainOkPrefix(o: Oracle, c: seq<Block>, n: nat)
    requires ChainOk(o, c) && 0 < n <= |c|
    ensures ChainOk(o, c[..n])
  {
    hide Check;
    forall i | 0 < i < n ensures Check(o, c[..n][..i], c[..n][i]) {
      assert c[..n][..i] == c[..i];
    }
  }

  lemma ChainOkExtend(o: Oracle, c: seq<Block>, b: Block)
    requires ChainOk(o, c) && b.parent == HashOf(o, c[|c| - 1]) && Check(o, c, b)
    ensures ChainOk(o, c + [b])
  {
    hide Check;
    var d := c + [b];
    forall i | 0 < i < |d| ensures Check(o, d[..i], d[i]) {
      if i < |c| { assert d[..i] == c[..i]; } else { assert d[..i] == c; }
    }
  }

  // ----- the store only holds good blocks ---------------------------------------------------------------

  /** The nodes of the tree are exactly the blocks of the store, and every branch was validated. */
  ghost predicate StoreInv(o: Oracle, u: set<Block>, store: seq<Block>) {
    && Store(o, store) && Within(store, u)
    && (forall b :: b in store ==> HashOf(o, b) in TreeOf(o, store).nodes && TreeOf(o, store).nodes[HashOf(o, b)] == b)
    && (forall h :: h in TreeOf(o, store).nodes ==> TreeOf(o, store).nodes[h] in store)
    && (forall h :: h in TreeOf(o, store).nodes ==> ChainOk(o, Branch(o, TreeOf(o, store), store[0], h)))
  }

  lemma StartInv(o: Oracle, g: Block, u: set<Block>)
    requires Lawful(o) && g.parent == NO_PARENT && g in u
    ensures StoreInv(o, u, [g])
  {
  }

  /** A branch of such a store: the one validated chain of the set to its node. */
  lemma BranchFacts(o: Oracle, u: set<Block>, store: seq<Block>, h: string)
    requires StoreInv(o, u, store) && h in TreeOf(o, store).nodes
    ensures var c := Branch(o, TreeOf(o, store), store[0], h);
            ChainOk(o, c) && Within(c, u) && c[0] == store[0] && c[|c| - 1] == TreeOf(o, store).nodes[h]
  {
    hide WellFormed, BuildTree, ChainOk, HashOf;
    var t := TreeOf(o, store);
    BranchShape(o, t, store[0], h);
    var c := Branch(o, t, store[0], h);
    forall i | 0 <= i < |c| ensures c[i] in u {
      assert t.nodes[HashOf(o, c[i])] == c[i];
    }
  }

  lemma BranchIs(o: Oracle, u: set<Block>, store: seq<Block>, h: string, c: seq<Block>)
    requires Store(o, store) && Distinct(o, u) && Within(store, u)
    requires forall k :: k in TreeOf(o, store).nodes ==> TreeOf(o, store).nodes[k] in store
    requires h in TreeOf(o, store).nodes
    requires Linked(o, c) && Within(c, u) && c[|c| - 1] == TreeOf(o, store).nodes[h]
    ensures Branch(o, TreeOf(o, store), store[0], h) == c
  {
    hide Linked, Distinct, WellFormed, BuildTree, HashOf;
    var t := TreeOf(o, store);
    BranchShape(o, t, store[0], h);
    var d := Branch(o, t, store[0], h);
    forall i | 0 <= i < |d| ensures d[i] in u {
      assert t.nodes[HashOf(o, d[i])] == d[i];
    }
    ChainUnique(o, u, c, d);
  }

  /** What accepting a block does to the tree. */
  lemma AcceptGrows(o: Oracle, u: set<Block>, store: seq<Block>, b: Block)
    requires StoreInv(o, u, store) && Distinct(o, u) && b in u && Accepts(o, store, b)
    ensures TreeOf(o, store + [b]).nodes == TreeOf(o, store).nodes[HashOf(o, b) := b]
    ensures HashOf(o, b) in TreeOf(o, store).nodes ==> TreeOf(o, store).nodes[HashOf(o, b)] == b
  {
    hide ChainOk, BuildTree, Branch, Accepts, HashOf;
    AcceptedTree(o, store, b);
    var h := HashOf(o, b);
    if h in TreeOf(o, store).nodes {
      FiledUnderHash(o, store, h);
      assert TreeOf(o, store).nodes[h] in store;
    }
  }

  lemma AcceptedTree(o: Oracle, store: seq<Block>, b: Block)
    requires Store(o, store) && Accepts(o, store, b)
    ensures TreeOf(o, store + [b]).nodes == TreeOf(o, store).nodes[HashOf(o, b) := b]
  {
    hide WinsOn, BodyApplies, DrawChecks, Branch, HashOf;
    assert (store + [b])[..|store|] == store;
    KeysAgree(o, TreeOf(o, store), store[0]);
  }

  lemma NodesInStore(o: Oracle, u: set<Block>, store: seq<Block>, b: Block)
    requires StoreInv(o, u, store) && b in u
    requires TreeOf(o, store + [b]).nodes == TreeOf(o, store).nodes[HashOf(o, b) := b]
    requires HashOf(o, b) in TreeOf(o, store).nodes ==> TreeOf(o, store).nodes[HashOf(o, b)] == b
    ensures Within(store + [b], u)
    ensures forall x :: x in store + [b] ==>
              HashOf(o, x) in TreeOf(o, store + [b]).nodes && TreeOf(o, store + [b]).nodes[HashOf(o, x)] == x
    ensures forall h :: h in TreeOf(o, store + [b]).nodes ==> TreeOf(o, store + [b]).nodes[h] in store + [b]
  {
    hide WellFormed, BuildTree, ChainOk, HashOf;
  }

  lemma AddedInv(o: Oracle, u: set<Block>, store: seq<Block>, b: Block)
    requires StoreInv(o, u, store) && Distinct(o, u) && b in u
    ensures StoreInv(o, u, Added(o, store, b))
  {
    hide Check, WellFormed, BuildTree, HashOf, ChainOk, Linked, Accepts, Distinct;
    if Accepts(o, store, b) {
      AcceptGrows(o, u, store, b);
      NodesInStore(o, u, store, b);
      var store' := store + [b];
      forall h | h in TreeOf(o, store').nodes ensures ChainOk(o, Branch(o, TreeOf(o, store'), store'[0], h)) {
        AddedBranch(o, u, store, b, h);
      }
    }
  }

  lemma AddedBranch(o: Oracle, u: set<Block>, store: seq<Block>, b: Block, h: string)
    requires Store(o, store) && StoreInv(o, u, store) && Distinct(o, u) && b in u && Accepts(o, store, b)
    requires h in TreeOf(o, store + [b]).nodes
    ensures ChainOk(o, Branch(o, TreeOf(o, store + [b]), store[0], h))
  {
    hide StoreInv, Check, WellFormed, BuildTree, HashOf, Distinct;
    AcceptGrows(o, u, store, b);
    NodesInStore(o, u, store, b);
    var t, store' := TreeOf(o, store), store + [b];
    if h == HashOf(o, b) {
      var path := ParentPath(o, store, b);
      BranchFacts(o, u, store, b.parent);
      FiledUnderHash(o, store, b.parent);
      ChainOkExtend(o, path, b);
      BranchIs(o, u, store', h, path + [b]);
    } else {
      BranchFacts(o, u, store, h);
      BranchIs(o, u, store', h, Branch(o, t, store[0], h));
    }
  }

  lemma FiledUnderHash(o: Oracle, store: seq<Block>, h: string)
    requires Store(o, store) && h in TreeOf(o, store).nodes
    ensures HashOf(o, TreeOf(o, store).nodes[h]) == h
  {
  }

  // ----- which blocks end up in the store ------------------------------------------------------------------

  lemma {:induction false} FeedInv(o: Oracle, g: Block, u: set<Block>, ds: seq<Block>)
    requires Lawful(o) && g.parent == NO_PARENT && g in u && Distinct(o, u) && Within(ds, u)
    ensures Store(o, [g]) && StoreInv(o, u, Feed(o, [g], ds))
    decreases |ds|
  {
    hide Distinct, Added;
    StartInv(o, g, u);
    if ds != [] {
      FeedInv(o, g, u, ds[..|ds| - 1]);
      hide StoreInv;
      AddedInv(o, u, Feed(o, [g], ds[..|ds| - 1]), ds[|ds| - 1]);
    }
  }

  /** Whatever the store holds is the genesis or was delivered. */
  lemma {:induction false} FeedOrigin(o: Oracle, g: Block, ds: seq<Block>, b: Block)
    requires Store(o, [g]) && b in Feed(o, [g], ds)
    ensures b == g || b in ds
    decreases |ds|
  {
    hide Accepts;
    if ds != [] {
      var last := |ds| - 1;
      if b in Feed(o, [g], ds[..last]) {
        FeedOrigin(o, g, ds[..last], b);
      }
    }
  }

  /** A good block is accepted once its parent is in the store: the check looks only at the path. */
  lemma GoodAccepted(o: Oracle, g: Block, u: set<Block>, store: seq<Block>, c: seq<Block>, b: Block)
    requires StoreInv(o, u, store) && store[0] == g && Distinct(o, u) && GoodChain(o, g, u, c, b) && |c| > 1
    requires c[|c| - 2] in store
    ensures Accepts(o, store, b)
  {
    hide Check, WellFormed, BuildTree, Distinct;
    var path, p := c[..|c| - 1], c[|c| - 2];
    assert b.parent == HashOf(o, p);
    BranchIs(o, u, store, b.parent, path);
    assert Check(o, c[..|c| - 1], c[|c| - 1]);
  }

  /** Delivered parent-first, every good block is in the store. */
  lemma {:induction false} GoodStored(o: Oracle, g: Block, u: set<Block>, ds: seq<Block>, k: nat, b: Block)
    requires Lawful(o) && g.parent == NO_PARENT && u == Universe(g, ds) && Distinct(o, u)
    requires ParentFirst(o, g, ds) && k <= |ds| && (b == g || b in ds[..k]) && Good(o, g, u, b)
    ensures Store(o, [g]) && b in Feed(o, [g], ds[..k])
    decreases k
  {
    hide ChainOk, Distinct, StoreInv, GoodChain, ParentFirst, Accepts, HashOf;
    if k == 0 {
      assert ds[..0] == [];
    } else {
      assert ds[..k][..k - 1] == ds[..k - 1];
      FeedInv(o, g, u, ds[..k - 1]);
      var store := Feed(o, [g], ds[..k - 1]);
      if b == g || b in ds[..k - 1] {
        GoodStored(o, g, u, ds, k - 1, b);
      } else {
        assert b == ds[k - 1];
        var c :| GoodChain(o, g, u, c, b);
        GoodParent(o, g, u, ds, k - 1, c, b);
        GoodStored(o, g, u, ds, k - 1, c[|c| - 2]);
        GoodAccepted(o, g, u, store, c, b);
      }
    }
  }

  lemma GoodParent(o: Oracle, g: Block, u: set<Block>, ds: seq<Block>, k: nat, c: seq<Block>, b: Block)
    requires u == Universe(g, ds) && ParentFirst(o, g, ds) && k < |ds|
    requires b == ds[k] && b != g && GoodChain(o, g, u, c, b)
    ensures |c| > 1 && (c[|c| - 2] == g || c[|c| - 2] in ds[..k]) && Good(o, g, u, c[|c| - 2])
  {
    hide Check;
    var p := c[|c| - 2];
    ChainOkPrefix(o, c, |c| - 1);
    assert GoodChain(o, g, u, c[..|c| - 1], p);
    assert b.parent == HashOf(o, p);
    assert p in u;
  }

  /** The blocks in the store are the genesis and the good blocks: no order is mentioned. */
  lemma StoreIsGood(o: Oracle, g: Block, ds: seq<Block>, b: Block)
    requires Lawful(o) && g.parent == NO_PARENT && Distinct(o, Universe(g, ds)) && ParentFirst(o, g, ds)
    ensures Store(o, [g])
    ensures b in Feed(o, [g], ds) <==> (b == g || b in ds) && Good(o, g, Universe(g, ds), b)
  {
    hide ChainOk, Distinct;
    var u := Universe(g, ds);
    FeedInv(o, g, u, ds);
    assert ds[..|ds|] == ds;
    var store := Feed(o, [g], ds);
    if b in store {
      FeedOrigin(o, g, ds, b);
      BranchFacts(o, u, store, HashOf(o, b));
      assert GoodChain(o, g, u, Branch(o, TreeOf(o, store), g, HashOf(o, b)), b);
    } else if (b == g || b in ds) && Good(o, g, u, b) {
      GoodStored(o, g, u, ds, |ds|, b);
    }
  }

  // ----- convergence -----------------------------------------------------------------------------------------

  /** Trees whose nodes have the same headers have the same depths. */
  lemma SameDepths(o: Oracle, t: Tree, t': Tree, g: Block)
    requires WellFormed(o, t, g) && WellFormed(o, t', g) && t.nodes.Keys == t'.nodes.Keys
    requires forall h :: h in t.nodes ==> Header(t.nodes[h]) == Header(t'.nodes[h])
    ensures t.depths == t'.depths
  {
    forall h | h in t.nodes ensures t.depths[h] == t'.depths[h] {
      SameDepth(o, t, t', g, h);
    }
  }

  lemma {:induction false} SameDepth(o: Oracle, t: Tree, t': Tree, g: Block, h: string)
    requires WellFormed(o, t, g) && WellFormed(o, t', g) && t.nodes.Keys == t'.nodes.Keys && h in t.nodes
    requires forall k :: k in t.nodes ==> Header(t.nodes[k]) == Header(t'.nodes[k])
    ensures t.depths[h] == t'.depths[h]
    decreases t.depths[h]
  {
    if h != HashOf(o, g) {
      assert t.nodes[h].parent == Header(t.nodes[h]).parent == t'.nodes[h].parent;
      SameDepth(o, t, t', g, t.nodes[h].parent);
    }
  }

  lemma SameBlocksSameTree(o: Oracle, u: set<Block>, store: seq<Block>, store': seq<Block>)
    requires StoreInv(o, u, store) && StoreInv(o, u, store') && store[0] == store'[0]
    requires forall b :: b in store <==> b in store'
    ensures TreeOf(o, store) == TreeOf(o, store')
  {
    hide BuildTree, ChainOk, Branch, WellFormed, HashOf, Within, Lawful;
    var t, t' := TreeOf(o, store), TreeOf(o, store');
    KeysAgree(o, t, store[0]);
    KeysAgree(o, t', store[0]);
    forall h | h in t.nodes ensures h in t'.nodes && t'.nodes[h] == t.nodes[h] {
      FiledUnderHash(o, store, h);
      assert t.nodes[h] in store';
    }
    forall h | h in t'.nodes ensures h in t.nodes {
      FiledUnderHash(o, store', h);
      assert t'.nodes[h] in store;
    }
    assert t.nodes == t'.nodes;
    SameDepths(o, t, t', store[0]);
  }

  /** Convergence: the same blocks in any two parent-first orders are accepted alike, and end in the
      same depths, best leaf, canonical chain and replayed ledger at every finality depth. */
  lemma Converges(o: Oracle, g: Block, ds: seq<Block>, ds': seq<Block>)
    requires Lawful(o) && g.parent == NO_PARENT && Distinct(o, Universe(g, ds))
    requires Universe(g, ds) == Universe(g, ds')
    requires ParentFirst(o, g, ds) && ParentFirst(o, g, ds')
    ensures Store(o, [g])
    ensures forall b :: b in Feed(o, [g], ds) <==> b in Feed(o, [g], ds')
    ensures TreeOf(o, Feed(o, [g], ds)) == TreeOf(o, Feed(o, [g], ds'))
    ensures Canonical(o, Feed(o, [g], ds)) == Canonical(o, Feed(o, [g], ds'))
    ensures forall d: int :: Replay(o, Rollback(Canonical(o, Feed(o, [g], ds)), d))
                          == Replay(o, Rollback(Canonical(o, Feed(o, [g], ds')), d))
  {
    hide Distinct, Good, StoreInv, BuildTree, WellFormed, ParentFirst;
    var u := Universe(g, ds);
    assert forall b :: b == g || b in ds <==> b in u;
    assert forall b :: b == g || b in ds' <==> b in Universe(g, ds');
    FeedInv(o, g, u, ds);
    FeedInv(o, g, u, ds');
    forall b ensures b in Feed(o, [g], ds) <==> b in Feed(o, [g], ds') {
      StoreIsGood(o, g, ds, b);
      StoreIsGood(o, g, ds', b);
    }
    SameBlocksSameTree(o, u, Feed(o, [g], ds), Feed(o, [g], ds'));
  }

  /** On every store built this way, each branch replays without a rejected transaction to the
      ledgers computed when its blocks were validated. */
  lemma StoredBranchReplays(o: Oracle, g: Block, ds: seq<Block>, h: string, i: nat)
    requires Lawful(o) && g.parent == NO_PARENT && Distinct(o, Universe(g, ds))
    requires Store(o, [g]) && h in TreeOf(o, Feed(o, [g], ds)).nodes
    requires 0 < i < |Branch(o, TreeOf(o, Feed(o, [g], ds)), g, h)|
    ensures var c := Branch(o, TreeOf(o, Feed(o, [g], ds)), g, h);
            && BodyApplies(o, Replay(o, c[..i]), c[i])
            && BodyApplies(o, WithValidator(Replay(o, c[..i]), c[i].key), c[i])
            && Replay(o, c[..i + 1]) == Validated(o, Replay(o, c[..i]), c[i])
  {
    hide Distinct, StoreInv, ChainOk, BuildTree, WellFormed, Replay;
    FeedInv(o, g, Universe(g, ds), ds);
    BranchFacts(o, Universe(g, ds), Feed(o, [g], ds), h);
    ChainReplays(o, Branch(o, TreeOf(o, Feed(o, [g], ds)), g, h), i);
  }

  // ----- same header, other metadata ---------------------------------------------------------------------------

  /** Deeper nodes are not on a branch. */
  lemma {:induction false} NotOnBranch(o: Oracle, t: Tree, g: Block, leaf: string, h: string)
    requires WellFormed(o, t, g) && leaf in t.nodes && h in t.nodes && t.depths[leaf] < t.depths[h]
    ensures t.nodes[h] !in Branch(o, t, g, leaf)
    decreases t.depths[leaf]
  {
    if leaf != HashOf(o, g) {
      NotOnBranch(o, t, g, t.nodes[leaf].parent, h);
    }
  }

  /** Replacing a node leaves the branches that avoid it. */
  lemma {:induction false} BranchAvoids(o: Oracle, t: Tree, t': Tree, g: Block, leaf: string, h: string)
    requires WellFormed(o, t, g) && WellFormed(o, t', g) && leaf in t.nodes
    requires forall k :: k in t.nodes && k != h ==> k in t'.nodes && t'.nodes[k] == t.nodes[k]
    requires h in t.nodes ==> t.nodes[h] !in Branch(o, t, g, leaf)
    ensures Branch(o, t', g, leaf) == Branch(o, t, g, leaf)
    decreases t.depths[leaf]
  {
    if leaf != HashOf(o, g) {
      BranchAvoids(o, t, t', g, t.nodes[leaf].parent, h);
    }
  }

  /** A block that differs only in metadata is held to the same branch before and after the other
      is stored. */
  lemma SameParentPath(o: Oracle, store: seq<Block>, b: Block, b': Block)
    requires Store(o, store) && Accepts(o, store, b) && b'.parent == b.parent
    ensures ParentPath(o, store + [b], b') == ParentPath(o, store, b')
    ensures b.parent in TreeOf(o, store + [b]).nodes
  {
    hide Check, BuildTree, HashOf;
    var t, g, h := TreeOf(o, store), store[0], HashOf(o, b);
    AcceptedTree(o, store, b);
    RootHasNoParentNode(o, t, g);
    SameHeaderSameDepth(o, t, g, b);
    if h in t.nodes {
      NotOnBranch(o, t, g, b.parent, h);
    }
    BranchAvoids(o, t, TreeOf(o, store + [b]), g, b.parent, h);
  }

  /** Each order of delivery ends with the block delivered last. */
  lemma LastOneStays(o: Oracle, store: seq<Block>, b: Block, b': Block)
    requires Store(o, store) && Header(b) == Header(b') && Accepts(o, store, b) && Accepts(o, store, b')
    ensures Feed(o, store, [b, b']) == store + [b] + [b'] && HashOf(o, b) == HashOf(o, b')
    ensures TreeOf(o, store + [b] + [b']).nodes == TreeOf(o, store).nodes[HashOf(o, b) := b']
  {
    hide Check, BuildTree, WellFormed, Branch;
    assert [b, b'][..1] == [b] && [b][..0] == [];
    assert Feed(o, store, []) == store && Feed(o, store, [b]) == store + [b];
    SameParentPath(o, store, b, b');
    assert Accepts(o, store + [b], b');
    AcceptedTree(o, store, b);
    AcceptedTree(o, store + [b], b');
  }

  /** The block hash leaves the metadata out.  Two acceptable blocks with one header, delivered in
      both orders to any store, leave the same tree exactly when they are the same block. */
  lemma SameHeaderDiverges(o: Oracle, store: seq<Block>, b: Block, b': Block)
    requires Store(o, store) && Header(b) == Header(b') && Accepts(o, store, b) && Accepts(o, store, b')
    ensures TreeOf(o, Feed(o, store, [b, b'])) == TreeOf(o, Feed(o, store, [b', b])) <==> b == b'
  {
    hide Accepts, BuildTree, WellFormed;
    var h := HashOf(o, b);
    LastOneStays(o, store, b, b');
    LastOneStays(o, store, b', b);
    assert TreeOf(o, store + [b] + [b']).nodes[h] == b';
    assert TreeOf(o, store + [b'] + [b]).nodes[h] == b;
  }

  /** Their canonical chains are the same exactly when the blocks are, or when neither order puts
      its block on the canonical chain. */
  lemma SameHeaderForks(o: Oracle, store: seq<Block>, b: Block, b': Block)
    requires Store(o, store) && Header(b) == Header(b') && Accepts(o, store, b) && Accepts(o, store, b')
    ensures Canonical(o, Feed(o, store, [b, b'])) == Canonical(o, Feed(o, store, [b', b]))
            <==> b == b' || b' !in Canonical(o, Feed(o, store, [b, b']))
  {
    hide Accepts, BuildTree, WellFormed, Branch, HashOf;
    var h, one, two := HashOf(o, b), store + [b] + [b'], store + [b'] + [b];
    LastOneStays(o, store, b, b');
    LastOneStays(o, store, b', b);
    var t, t' := TreeOf(o, one), TreeOf(o, two);
    SameDepths(o, t, t', store[0]);
    CanonicalShape(o, one);
    CanonicalShape(o, two);
    var leaf := BestLeaf(t.depths);
    KeysAgree(o, t, store[0]);
    if b != b' && b' !in Canonical(o, one) {
      BranchAvoids(o, t, t', store[0], leaf, h);
    } else if b != b' {
      assert t'.nodes[h] == b;
    }
  }

  /** A new node below the best leaf is the best leaf of the grown tree. */
  lemma TipIsBest(o: Oracle, t: Tree, t': Tree, g: Block, h: string, b: Block)
    requires Lawful(o) && WellFormed(o, t, g) && WellFormed(o, t', g) && t.depths != map[] && t'.depths != map[]
    requires b.parent == BestLeaf(t.depths) && h !in t.nodes && t'.nodes == t.nodes[h := b]
    ensures BestLeaf(t'.depths) == h
    ensures Branch(o, t', g, h) == Branch(o, t, g, b.parent) + [b]
  {
    hide HashOf, Before;
    forall k | k in t.nodes ensures k != h && t'.depths[k] == t.depths[k] {
      BranchAvoids(o, t, t', g, k, h);
      BranchShape(o, t, g, k);
      BranchShape(o, t', g, k);
    }
    BranchAvoids(o, t, t', g, b.parent, h);
    assert IsBest(t'.depths, h);
    BestUnique(t'.depths, h, BestLeaf(t'.depths));
  }

  /** On top of the best leaf the block delivered last ends the canonical chain, so that twins there
      always make nodes disagree. */
  lemma TipTwinsFork(o: Oracle, store: seq<Block>, b: Block, b': Block)
    requires Store(o, store) && Header(b) == Header(b') && Accepts(o, store, b) && Accepts(o, store, b')
    requires b.parent == BestLeaf(TreeOf(o, store).depths)
    ensures Canonical(o, Feed(o, store, [b, b'])) == Canonical(o, store) + [b']
  {
    hide Accepts, BuildTree, Branch;
    var t, g, h, end := TreeOf(o, store), store[0], HashOf(o, b), store + [b] + [b'];
    LastOneStays(o, store, b, b');
    RootHasNoParentNode(o, t, g);
    SameHeaderSameDepth(o, t, g, b);
    hide Lawful, HashOf;
    assert h !in t.nodes;
    TipIsBest(o, t, TreeOf(o, end), g, h, b');
  }

  /** Validation reads of the metadata only what it decodes to: every acceptable block has a twin for
      every other spelling of its transactions. */
  lemma TwinAccepted(o: Oracle, store: seq<Block>, b: Block, meta: string)
    requires Store(o, store) && o.txs(meta) == o.txs(b.meta)
    ensures Accepts(o, store, b.(meta := meta)) <==> Accepts(o, store, b)
  {
    hide Replay, EffectiveHardness, Tickets, ApplyAll, WinsLottery, Branch, BuildTree, WellFormed;
  }

  // Instances: a store that holds only a genesis, and an oracle that is given except for its hash.

  const EXAMPLE_GENESIS := Block("block", "", 0, 0, "genesis", NO_PARENT, "", "")

  /** The genesis carries s, "" and "[]" spell no transactions, signatures and proofs verify, and every
      draw is the given one. */
  function ExampleOracle(hash: Block -> string, checks: Checks, s: Settings, draw: int): Oracle {
    Oracle(hash, _ => true, meta => if meta == "" || meta == "[]" then Some([]) else None,
           meta => if meta == "genesis" then Some(s) else None,
           _ => "content", (_, _, _, _) => true, _ => Some(draw), (_, _, _) => draw, checks)
  }

  // One holder, and two children of the genesis that spell "no transactions" differently.

  const ANN := "ann"
  const TWIN_SETTINGS := Settings(10, 42, 2000, 100, 10_000_000, 32, 2, 20, map[ANN := 1])

  function TwinOracle(hash: Block -> string, checks: Checks): Oracle {
    ExampleOracle(hash, checks, TWIN_SETTINGS, 7)
  }

  function Twin(o: Oracle, meta: string): Block {
    Block("block", ANN, 1, 7, meta, HashOf(o, EXAMPLE_GENESIS), "signature", "")
  }

  lemma TwinTickets(checks: Checks)
    requires checks.native(ANN)
    ensures Tickets(checks, FromGenesis(TWIN_SETTINGS), ANN) == 970_000
  {
    var s := FromGenesis(TWIN_SETTINGS);
    assert s.validators == {ANN};
    var m := PositiveBalances(s, s.validators);
    assert m == map[ANN := 1];
    SumRemove(m, ANN);
    assert m - {ANN} == map[];
  }

  lemma TwinAccepts(hash: Block -> string, checks: Checks)
    requires Lawful(TwinOracle(hash, checks)) && checks.native(ANN)
    ensures var o := TwinOracle(hash, checks);
            Store(o, [EXAMPLE_GENESIS]) && Accepts(o, [EXAMPLE_GENESIS], Twin(o, ""))
  {
    hide Tickets, Replay, Branch, EffectiveHardness;
    var o := TwinOracle(hash, checks);
    assert ParentPath(o, [EXAMPLE_GENESIS], Twin(o, "")) == [EXAMPLE_GENESIS] by {
      AloneBranch(o, EXAMPLE_GENESIS);
    }
    TwinTickets(checks);
    TwinChain(o);
  }

  lemma AloneBranch(o: Oracle, g: Block)
    requires Store(o, [g])
    ensures Branch(o, TreeOf(o, [g]), g, HashOf(o, g)) == [g]
  {
  }

  lemma TwinChain(o: Oracle)
    requires o.genesis(EXAMPLE_GENESIS.meta) == Some(TWIN_SETTINGS)
    ensures Replay(o, [EXAMPLE_GENESIS]) == FromGenesis(TWIN_SETTINGS)
    ensures EffectiveHardness(Slots([EXAMPLE_GENESIS]), TWIN_SETTINGS, 0) == 100
  {
  }

  /** Whatever the injective hash: two nodes given the twins in the two orders keep different
      canonical chains. */
  lemma TwinsDiverge(hash: Block -> string, checks: Checks)
    requires Lawful(TwinOracle(hash, checks)) && checks.native(ANN)
    ensures var o := TwinOracle(hash, checks);
            var b, b' := Twin(o, ""), Twin(o, "[]");
            && Store(o, [EXAMPLE_GENESIS])
            && Canonical(o, Feed(o, [EXAMPLE_GENESIS], [b, b'])) == [EXAMPLE_GENESIS, b']
            && Canonical(o, Feed(o, [EXAMPLE_GENESIS], [b', b])) == [EXAMPLE_GENESIS, b]
  {
    hide Accepts, Canonical, BestLeaf, Feed, TreeOf, Lawful;
    var o := TwinOracle(hash, checks);
    var b, b', g := Twin(o, ""), Twin(o, "[]"), EXAMPLE_GENESIS;
    TwinAccepts(hash, checks);
    TwinAccepted(o, [g], b, "[]");
    assert b' == b.(meta := "[]");
    GenesisAlone(o, g);
    TipTwinsFork(o, [g], b, b');
    TipTwinsFork(o, [g], b', b);
  }

  lemma GenesisAlone(o: Oracle, g: Block)
    requires Store(o, [g])
    ensures BestLeaf(TreeOf(o, [g]).depths) == HashOf(o, g) && Canonical(o, [g]) == [g]
  {
  }
}
