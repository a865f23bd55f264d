/** The block tree: depths, the best leaf with its hash tie-break, branch walks and rollback.
    Hashing, signatures and decoding are the fields of an oracle. */
module Chain {
  import opened Text
  import opened Ledgers
  import opened Genesis

  const NO_PARENT := ""

  datatype Block = Block(
    kind: string, key: string, slot: int, draw: int, meta: string,
    parent: string, signature: string, proof: string)

  datatype Oracle = Oracle(
    hash: Block -> string,
    signed: Block -> bool,
    txs: string -> Option<seq<Tx>>,
    genesis: string -> Option<Settings>,
    contentHash: string -> string,
    proofValid: (int, int, string, string) -> bool,
    proofDraw: string -> Option<int>,
    publicDraw: (int, int, string) -> int,
    checks: Checks)

  /** Everything the hash and the signature cover: the metadata is not part of it. */
  function Header(b: Block): Block {
    b.(meta := "")
  }

  function HashOf(o: Oracle, b: Block): string {
    o.hash(Header(b))
  }

  predicate IsSigned(o: Oracle, b: Block) {
    o.signed(Header(b))
  }

  /** The hash is never empty and determines the header. */
  ghost predicate Lawful(o: Oracle) {
    && (forall b: Block :: o.hash(b) != NO_PARENT)
    && (forall a: Block, b: Block :: o.hash(a) == o.hash(b) ==> a == b)
  }

  // ----- the tree of a store -------------------------------------------------------------------------

  datatype Tree = Tree(depths: map<string, nat>, nodes: map<string, Block>)

  function Root(o: Oracle, g: Block): Tree {
    Tree(map[HashOf(o, g) := 0], map[HashOf(o, g) := g])
  }

  function Grow(o: Oracle, t: Tree, b: Block): Tree {
    if !IsSigned(o, b) || b.parent !in t.depths then t
    else Tree(t.depths[HashOf(o, b) := t.depths[b.parent] + 1], t.nodes[HashOf(o, b) := b])
  }

  function BuildTree(o: Oracle, blocks: seq<Block>): Tree
    requires blocks != []
    decreases |blocks|
  {
    if |blocks| == 1 then Root(o, blocks[0])
    else Grow(o, BuildTree(o, blocks[..|blocks| - 1]), blocks[|blocks| - 1])
  }

  method CalculateDepths(o: Oracle, blocks: seq<Block>) returns (depths: map<string, nat>, nodes: map<string, Block>)
    requires blocks != []
    ensures Tree(depths, nodes) == BuildTree(o, blocks)
  {
    var genesisHash := HashOf(o, blocks[0]);
    depths, nodes := map[genesisHash := 0], map[genesisHash := blocks[0]];
    assert blocks[..1] == [blocks[0]];
    for i := 1 to |blocks|
      invariant Tree(depths, nodes) == BuildTree(o, blocks[..i])
    {
      var block := blocks[i];
      assert blocks[..i + 1][..i] == blocks[..i] && blocks[..i + 1][i] == block;
      if !IsSigned(o, block) {
        continue;
      }
      if block.parent !in depths {
        continue;
      }
      var hash := HashOf(o, block);
      depths, nodes := depths[hash := depths[block.parent] + 1], nodes[hash := block];
    }
    assert blocks[..|blocks|] == blocks;
  }

  /** Every node is filed under its hash; all but the root are signed and one deeper than their parent. */
  ghost predicate WellFormed(o: Oracle, t: Tree, g: Block) {
    && t.depths.Keys == t.nodes.Keys
    && g.parent == NO_PARENT
    && HashOf(o, g) in t.nodes && t.nodes[HashOf(o, g)] == g && t.depths[HashOf(o, g)] == 0
    && (forall h :: h in t.nodes ==> HashOf(o, t.nodes[h]) == h)
    && (forall h :: h in t.nodes && h != HashOf(o, g) ==> NodeFits(o, t, h))
  }

  ghost predicate NodeFits(o: Oracle, t: Tree, h: string)
    requires t.depths.Keys == t.nodes.Keys && h in t.nodes
  {
    && IsSigned(o, t.nodes[h])
    && t.nodes[h].parent in t.depths
    && t.depths[h] == t.depths[t.nodes[h].parent] + 1
  }

  lemma GrowWellFormed(o: Oracle, t: Tree, g: Block, b: Block)
    requires Lawful(o) && WellFormed(o, t, g)
    ensures WellFormed(o, Grow(o, t, b), g)
  {
    hide Lawful, HashOf, IsSigned;
    if IsSigned(o, b) && b.parent in t.depths {
      var t' := Grow(o, t, b);
      RootHasNoParentNode(o, t, g);
      SameHeaderSameDepth(o, t, g, b);
      forall h | h in t'.nodes ensures HashOf(o, t'.nodes[h]) == h && (h != HashOf(o, g) ==> NodeFits(o, t', h)) {
        GrownNodeFits(o, t, g, b, h);
      }
    }
  }

  lemma GrownNodeFits(o: Oracle, t: Tree, g: Block, b: Block, h: string)
    requires WellFormed(o, t, g) && IsSigned(o, b) && b.parent in t.depths
    requires HashOf(o, b) != HashOf(o, g) && HashOf(o, b) != b.parent
    requires HashOf(o, b) in t.nodes ==> t.depths[HashOf(o, b)] == t.depths[b.parent] + 1
    requires h in Grow(o, t, b).nodes
    ensures HashOf(o, Grow(o, t, b).nodes[h]) == h
    ensures h != HashOf(o, g) ==> NodeFits(o, Grow(o, t, b), h)
  {
    hide HashOf, IsSigned;
    assert h != HashOf(o, b) && h != HashOf(o, g) ==> NodeFits(o, t, h);
  }

  lemma SameHeaderSameDepth(o: Oracle, t: Tree, g: Block, b: Block)
    requires Lawful(o) && WellFormed(o, t, g) && b.parent in t.depths && b.parent != NO_PARENT
    ensures HashOf(o, b) != HashOf(o, g) && HashOf(o, b) != b.parent
    ensures HashOf(o, b) in t.nodes ==> t.depths[HashOf(o, b)] == t.depths[b.parent] + 1
  {
    var h := HashOf(o, b);
    if h in t.nodes {
      assert Header(t.nodes[h]) == Header(b);
    }
  }

  /** Every store with a parentless first block has a well-formed tree, whatever else it holds. */
  lemma {:induction false} TreeWellFormed(o: Oracle, blocks: seq<Block>)
    requires Lawful(o) && blocks != [] && blocks[0].parent == NO_PARENT
    ensures WellFormed(o, BuildTree(o, blocks), blocks[0])
    decreases |blocks|
  {
    if |blocks| > 1 {
      TreeWellFormed(o, blocks[..|blocks| - 1]);
      GrowWellFormed(o, BuildTree(o, blocks[..|blocks| - 1]), blocks[0], blocks[|blocks| - 1]);
    }
  }

  // ----- branches ---------------------------------------------------------------------------------------

  /** A chain from a parentless block, each block naming the hash of the one before. */
  ghost predicate Linked(o: Oracle, c: seq<Block>) {
    && c != [] && c[0].parent == NO_PARENT
    && forall i :: 0 < i < |c| ==> c[i].parent == HashOf(o, c[i - 1])
  }

  /** The branch from the root to a node; depth is the measure that ends the walk. */
  ghost function Branch(o: Oracle, t: Tree, g: Block, leaf: string): seq<Block>
    requires WellFormed(o, t, g)
    decreases if leaf in t.depths then t.depths[leaf] else 0
  {
    if leaf !in t.nodes then []
    else if leaf == HashOf(o, g) then [g]
    else Branch(o, t, g, t.nodes[leaf].parent) + [t.nodes[leaf]]
  }

  /** The walk yields a linked chain from the root of length depth + 1, made of nodes of the tree. */
  lemma {:induction false} BranchShape(o: Oracle, t: Tree, g: Block, leaf: string)
    requires WellFormed(o, t, g) && leaf in t.nodes
    ensures var c := Branch(o, t, g, leaf);
            && Linked(o, c) && c[0] == g && |c| == t.depths[leaf] + 1 && c[|c| - 1] == t.nodes[leaf]
            && (forall i :: 0 <= i < |c| ==> HashOf(o, c[i]) in t.nodes && t.nodes[HashOf(o, c[i])] == c[i])
            && (forall i :: 0 < i < |c| ==> IsSigned(o, c[i]))
    decreases t.depths[leaf]
  {
    if leaf != HashOf(o, g) {
      BranchShape(o, t, g, t.nodes[leaf].parent);
      var p := Branch(o, t, g, t.nodes[leaf].parent);
      assert HashOf(o, p[|p| - 1]) == t.nodes[leaf].parent;
    }
  }

  function Reversed(s: seq<Block>): seq<Block> {
    if s == [] then [] else Reversed(s[1..]) + [s[0]]
  }

  lemma {:induction false} ReversedAppend(s: seq<Block>, b: Block)
    ensures Reversed(s + [b]) == [b] + Reversed(s)
    decreases |s|
  {
    if s == [] {
      assert s + [b] == [b] && [b][1..] == [];
    } else {
      assert (s + [b])[1..] == s[1..] + [b];
      ReversedAppend(s[1..], b);
    }
  }

  lemma {:induction false} ReversedAt(s: seq<Block>, k: nat)
    requires k < |s|
    ensures |Reversed(s)| == |s| && Reversed(s)[k] == s[|s| - 1 - k]
    decreases |s|
  {
    if |s| > 1 {
      ReversedAt(s[1..], if k < |s| - 1 then k else 0);
    } else {
      assert Reversed(s[1..]) == [];
    }
  }

  /** Swaps the two ends inward, as the walk does with its list. */
  method ReverseInPlace(a: array<Block>)
    modifies a
    ensures a[..] == Reversed(old(a[..]))
  {
    ghost var was := a[..];
    var left, right := 0, a.Length - 1;
    while left < right
      invariant 0 <= left && left + right == |was| - 1 && left <= right + 1
      invariant forall k :: 0 <= k < left ==> a[k] == was[|was| - 1 - k]
      invariant forall k :: right < k < |was| ==> a[k] == was[|was| - 1 - k]
      invariant forall k :: left <= k <= right ==> a[k] == was[k]
    {
      a[left], a[right] := a[right], a[left];
      left, right := left + 1, right - 1;
    }
    MirrorIsReversed(was, a[..]);
  }

  lemma MirrorIsReversed(was: seq<Block>, now: seq<Block>)
    requires |was| == |now| && forall k :: 0 <= k < |was| ==> now[k] == was[|was| - 1 - k]
    ensures now == Reversed(was)
  {
    hide Reversed;
    if was == [] {
      ReversedEmpty();
    } else {
      ReversedAt(was, 0);
      forall k | 0 <= k < |was| ensures now[k] == Reversed(was)[k] {
        ReversedAt(was, k);
      }
    }
  }

  method ReverseBlocks(walked: seq<Block>) returns (blocks: seq<Block>)
    ensures blocks == Reversed(walked)
  {
    var a := new Block[|walked|](i requires 0 <= i < |walked| => walked[i]);
    assert a[..] == walked;
    ReverseInPlace(a);
    blocks := a[..];
  }

  /** One step of the walk; the step from the root leads to no node. */
  lemma WalkStep(o: Oracle, t: Tree, g: Block, next: string)
    requires Lawful(o) && WellFormed(o, t, g) && next in t.nodes
    ensures Branch(o, t, g, next) == Branch(o, t, g, t.nodes[next].parent) + [t.nodes[next]]
    ensures t.nodes[next].parent in t.depths ==> t.depths[t.nodes[next].parent] < t.depths[next]
  {
    RootHasNoParentNode(o, t, g);
  }

  /** The loop of the walk: it collects nodes from the leaf towards the root, then reverses them. */
  method GetBlocksFromLongestBranch(o: Oracle, nodes: map<string, Block>, leaf: string, ghost t: Tree, ghost g: Block)
    returns (blocks: seq<Block>)
    requires Lawful(o) && WellFormed(o, t, g) && t.nodes == nodes
    ensures blocks == Branch(o, t, g, leaf)
  {
    hide Lawful, WellFormed, Reversed;
    var walked: seq<Block> := [];
    ReversedEmpty();
    var next := leaf;
    RootHasNoParentNode(o, t, g);
    KeysAgree(o, t, g);
    while next != NO_PARENT && next in nodes
      invariant Branch(o, t, g, next) + Reversed(walked) == Branch(o, t, g, leaf)
      decreases if next in t.depths then 1 + t.depths[next] else 0
    {
      var node := nodes[next];
      ReversedAppend(walked, node);
      WalkStep(o, t, g, next);
      walked := walked + [node];
      next := node.parent;
    }
    assert Branch(o, t, g, next) == [];
    blocks := ReverseBlocks(walked);
  }

  lemma ReversedEmpty()
    ensures Reversed([]) == []
  {
  }

  lemma KeysAgree(o: Oracle, t: Tree, g: Block)
    requires WellFormed(o, t, g)
    ensures t.depths.Keys == t.nodes.Keys
  {
  }

  lemma RootHasNoParentNode(o: Oracle, t: Tree, g: Block)
    requires Lawful(o) && WellFormed(o, t, g)
    ensures NO_PARENT !in t.nodes
  {
  }

  // ----- the best leaf --------------------------------------------------------------------------------

  /** Deeper, or as deep with the smaller hash. */
  predicate Better(depths: map<string, nat>, h: string, k: string)
    requires h in depths && k in depths
  {
    depths[h] > depths[k] || (depths[h] == depths[k] && Before(h, k))
  }

  ghost predicate IsBest(depths: map<string, nat>, h: string) {
    h in depths && forall k :: k in depths && k != h ==> Better(depths, h, k)
  }

  /** The choice does not depend on the order in which the map is visited. */
  lemma BestUnique(depths: map<string, nat>, h: string, k: string)
    requires IsBest(depths, h) && IsBest(depths, k)
    ensures h == k
  {
    BeforeAsymmetric(h, k);
  }

  method GetLeafHash(depths: map<string, nat>) returns (leaf: string)
    requires depths != map[]
    ensures IsBest(depths, leaf)
  {
    var maxDepth: int := -1;
    leaf := "";
    var left := depths.Keys;
    while left != {}
      invariant left <= depths.Keys
      invariant maxDepth == -1 <==> left == depths.Keys
      invariant maxDepth >= 0 ==> leaf in depths && leaf !in left && depths[leaf] == maxDepth
      invariant maxDepth >= 0 ==> forall k :: k in depths && k !in left && k != leaf ==> Better(depths, leaf, k)
      decreases left
    {
      var hash :| hash in left;
      var depth := depths[hash];
      left := left - {hash};
      ghost var was := leaf;
      if depth > maxDepth {
        maxDepth, leaf := depth, hash;
      } else {
        BeforeTotal(hash, leaf);
        if depth == maxDepth && Before(hash, leaf) {
          leaf := hash;
          KeepBest(depths, was, hash, left + {hash});
        }
      }
    }
  }

  lemma KeepBest(depths: map<string, nat>, was: string, hash: string, left: set<string>)
    requires was in depths && hash in depths && depths[was] == depths[hash] && Before(hash, was)
    requires forall k :: k in depths && k !in left && k != was ==> Better(depths, was, k)
    ensures forall k :: k in depths && k !in left ==> Better(depths, hash, k)
  {
    forall k | k in depths && k !in left ensures Better(depths, hash, k) {
      if k != was && depths[was] == depths[k] {
        BeforeTransitive(hash, was, k);
      }
    }
  }

  lemma {:induction false} BestExists(depths: map<string, nat>) returns (h: string)
    requires depths != map[]
    ensures IsBest(depths, h)
    decreases |depths|
  {
    hide Before;
    var k :| k in depths;
    var rest := depths - {k};
    if rest == map[] {
      h := k;
      assert forall j :: j in depths ==> j == k || j in rest;
    } else {
      var b := BestExists(rest);
      assert forall j :: j in depths ==> j == k || j in rest;
      assert forall j :: j in rest && j != b ==> Better(rest, b, j) && rest[j] == depths[j];
      BeforeTotal(b, k);
      h := if Better(depths, b, k) then b else k;
      forall j | j in depths && j != h ensures Better(depths, h, j) {
        if h == k && j != b {
          assert Better(rest, b, j);
          if depths[k] == depths[b] == depths[j] { BeforeTransitive(k, b, j); }
        }
      }
    }
  }

  ghost function BestLeaf(depths: map<string, nat>): (h: string)
    requires depths != map[]
    ensures IsBest(depths, h)
  {
    var e := BestExistsHere(depths);
    var h :| IsBest(depths, h);
    h
  }

  /** The best leaf is deepest, and of the deepest the one whose hash comes first. */
  lemma BestLeafIs(depths: map<string, nat>, k: string)
    requires k in depths
    ensures BestLeaf(depths) in depths && depths[k] <= depths[BestLeaf(depths)]
    ensures depths[k] == depths[BestLeaf(depths)] && k != BestLeaf(depths) ==> Before(BestLeaf(depths), k)
  {
    var leaf := BestLeaf(depths);
    assert k != leaf ==> Better(depths, leaf, k);
  }

  ghost function BestExistsHere(depths: map<string, nat>): (ok: bool)
    requires depths != map[]
    ensures exists h :: IsBest(depths, h)
  {
    assert exists h :: IsBest(depths, h) by { var h := BestExists(depths); }
    true
  }

  // ----- the canonical chain --------------------------------------------------------------------------

  ghost predicate Store(o: Oracle, blocks: seq<Block>) {
    Lawful(o) && blocks != [] && blocks[0].parent == NO_PARENT
  }

  ghost function TreeOf(o: Oracle, blocks: seq<Block>): (t: Tree)
    requires Store(o, blocks)
    ensures WellFormed(o, t, blocks[0]) && t.depths != map[]
  {
    TreeWellFormed(o, blocks);
    BuildTree(o, blocks)
  }

  ghost function Canonical(o: Oracle, blocks: seq<Block>): seq<Block>
    requires Store(o, blocks)
  {
    var t := TreeOf(o, blocks);
    Branch(o, t, blocks[0], BestLeaf(t.depths))
  }

  function Rollback(c: seq<Block>, depth: int): seq<Block> {
    if 0 < depth < |c| then c[..|c| - depth]
    else if depth >= |c| && |c| > 0 then c[..1]
    else c
  }

  /** The rollback takes as many blocks off the end as it says, and never the first. */
  lemma RollbackIs(c: seq<Block>, depth: int)
    requires c != []
    ensures Rollback(c, depth) <= c
    ensures |Rollback(c, depth)| == if depth <= 0 then |c| else if depth < |c| then |c| - depth else 1
  {
  }

  /** A chain all of whose blocks after the first are signed. */
  ghost predicate SignedChain(o: Oracle, c: seq<Block>) {
    Linked(o, c) && forall i :: 0 < i < |c| ==> IsSigned(o, c[i])
  }

  /** The canonical chain is linked and signed, starts at the store's first block, and is one longer
      than the greatest depth. */
  lemma CanonicalShape(o: Oracle, blocks: seq<Block>)
    requires Store(o, blocks)
    ensures var c, t := Canonical(o, blocks), TreeOf(o, blocks);
            && SignedChain(o, c) && c[0] == blocks[0]
            && (forall h :: h in t.depths ==> t.depths[h] < |c|)
            && (exists h :: h in t.depths && t.depths[h] == |c| - 1)
            && (forall i :: 0 <= i < |c| ==> HashOf(o, c[i]) in t.nodes && t.nodes[HashOf(o, c[i])] == c[i])
  {
    hide WellFormed, BuildTree;
    var t := TreeOf(o, blocks);
    KeysAgree(o, t, blocks[0]);
    BranchShape(o, t, blocks[0], BestLeaf(t.depths));
  }

  method CanonicalBlocks(o: Oracle, blocks: seq<Block>, rollback: int) returns (c: seq<Block>)
    requires Store(o, blocks)
    ensures c == Rollback(Canonical(o, blocks), rollback)
  {
    hide BuildTree, WellFormed, IsBest;
    var depths, nodes := CalculateDepths(o, blocks);
    ghost var t := TreeOf(o, blocks);
    var leaf := GetLeafHash(depths);
    BestUnique(depths, leaf, BestLeaf(depths));
    c := GetBlocksFromLongestBranch(o, nodes, leaf, t, blocks[0]);
    if 0 < rollback < |c| {
      c := c[..|c| - rollback];
    } else if rollback >= |c| {
      if |c| > 0 {
        c := c[..1];
      }
    }
  }

  /** The greatest depth is the length of the canonical chain minus one. */
  method BestHeight(o: Oracle, blocks: seq<Block>) returns (height: int)
    requires Store(o, blocks)
    ensures height == |Canonical(o, blocks)| - 1
  {
    hide BuildTree, WellFormed, Branch;
    var depths, _ := CalculateDepths(o, blocks);
    CanonicalShape(o, blocks);
    height := 0;
    var left := depths.Keys;
    while left != {}
      invariant left <= depths.Keys && height >= 0
      invariant forall h :: h in depths && h !in left ==> depths[h] <= height
      invariant height == 0 || exists h :: h in depths && depths[h] == height
      decreases left
    {
      var h :| h in left;
      if depths[h] > height {
        height := depths[h];
      }
      left := left - {h};
    }
  }

  function CommittedHeight(height: int, finalityDepth: nat): int {
    if height <= finalityDepth then 0 else height - finalityDepth
  }

  /** The committed height is the height of the chain that is left after the rollback. */
  lemma CommittedHeightIsRollback(o: Oracle, blocks: seq<Block>, finalityDepth: nat)
    requires Store(o, blocks)
    ensures CommittedHeight(|Canonical(o, blocks)| - 1, finalityDepth)
         == |Rollback(Canonical(o, blocks), finalityDepth)| - 1
  {
    CanonicalShape(o, blocks);
  }

  /** Finality: when the best chain changes without getting shorter, the committed chain stays a
      prefix exactly when the change drops at most finalityDepth blocks.  kept is the number of
      leading blocks the two chains share. */
  lemma CommittedChainStays(c: seq<Block>, c': seq<Block>, finalityDepth: nat, kept: nat)
    requires 1 <= kept <= |c| <= |c'| && c[..kept] == c'[..kept]
    requires kept < |c| ==> c[kept] != c'[kept]
    ensures Rollback(c, finalityDepth) <= Rollback(c', finalityDepth) <==> |c| - kept <= finalityDepth
  {
    var r, r' := Rollback(c, finalityDepth), Rollback(c', finalityDepth);
    assert |r| <= |r'|;
    if |c| - kept <= finalityDepth {
      assert r == c[..kept][..|r|] == c'[..kept][..|r|] == r'[..|r|];
    } else {
      assert r[kept] == c[kept] && r'[kept] == c'[kept];
    }
  }
}
