/** Chain synchronisation: serving a suffix of the canonical chain, and the three ways a response is
    installed, as functions of the receiver's store. */
module Sync {
  import opened Ledgers
  import opened Chain
  import opened Convergence

  datatype Response = Response(genesisHash: string, height: int, blocks: seq<Block>)

  function GenesisHash(o: Oracle, c: seq<Block>): string
    requires c != []
  {
    o.contentHash(c[0].meta)
  }

  /** Answers a request with the canonical chain from a height on. */
  function Serve(o: Oracle, c: seq<Block>, fromHeight: int): Response
    requires c != []
  {
    var k := if fromHeight < 0 then 0 else if fromHeight > |c| then |c| else fromHeight;
    Response(GenesisHash(o, c), |c| - 1, c[k..])
  }

  ghost predicate Contiguous(o: Oracle, blocks: seq<Block>) {
    forall i :: 0 < i < |blocks| ==> blocks[i].parent == HashOf(o, blocks[i - 1])
  }

  // ----- what is installed -------------------------------------------------------------------------------

  function LastIndex(o: Oracle, local: seq<Block>, hash: string): (k: int)
    ensures -1 <= k < |local| && (k >= 0 ==> HashOf(o, local[k]) == hash)
    ensures forall i :: k < i < |local| ==> HashOf(o, local[i]) != hash
    decreases |local|
  {
    if local == [] then -1
    else if HashOf(o, local[|local| - 1]) == hash then |local| - 1
    else LastIndex(o, local[..|local| - 1], hash)
  }

  /** The local and remote positions of the last remote block that is also local, or -1 twice. */
  function LastCommon(o: Oracle, local: seq<Block>, blocks: seq<Block>): (p: (int, int))
    ensures -1 <= p.0 < |local| && -1 <= p.1 < |blocks| && (p.0 >= 0 <==> p.1 >= 0)
    ensures p.1 >= 0 ==> HashOf(o, local[p.0]) == HashOf(o, blocks[p.1])
    ensures forall j :: p.1 < j < |blocks| ==> LastIndex(o, local, HashOf(o, blocks[j])) < 0
    decreases |blocks|
  {
    if blocks == [] then (-1, -1) else
    var k := LastIndex(o, local, HashOf(o, blocks[|blocks| - 1]));
    if k >= 0 then (k, |blocks| - 1) else LastCommon(o, local, blocks[..|blocks| - 1])
  }

  function Spliced(local: seq<Block>, blocks: seq<Block>, p: (int, int)): seq<Block>
    requires -1 <= p.0 < |local| && -1 <= p.1 < |blocks|
  {
    local[..p.0 + 1] + blocks[p.1 + 1..]
  }

  ghost function InstallSuffix(o: Oracle, local: seq<Block>, blocks: seq<Block>): Option<seq<Block>>
    requires local != [] && blocks != []
  {
    if blocks[0].parent != HashOf(o, local[|local| - 1]) || !Contiguous(o, blocks) then None
    else Some(local + blocks)
  }

  ghost function InstallOverlap(o: Oracle, local: seq<Block>, blocks: seq<Block>): Option<seq<Block>>
    requires local != [] && blocks != []
  {
    var p := LastCommon(o, local, blocks);
    if !Contiguous(o, blocks) || p.1 < 0 || p.1 + 1 >= |blocks| then None
    else if |Spliced(local, blocks, p)| <= |local| then None
    else Some(Spliced(local, blocks, p))
  }

  ghost function InstallFull(o: Oracle, local: seq<Block>, blocks: seq<Block>): Option<seq<Block>>
    requires local != [] && blocks != []
  {
    var p := LastCommon(o, local, blocks);
    if |blocks| <= |local| || GenesisHash(o, blocks) != GenesisHash(o, local) then None
    else if p.1 <= 0 || p.0 <= 0 || !Contiguous(o, blocks) then None
    else Some(Spliced(local, blocks, p))
  }

  ghost function Adopt(o: Oracle, blocks: seq<Block>): Option<seq<Block>>
    requires blocks != []
  {
    if blocks[0].parent != NO_PARENT || !Contiguous(o, blocks) || o.genesis(blocks[0].meta).None? then None
    else Some(blocks)
  }

  /** The store a response is answered with, if any.  A node that has nothing yet may adopt another
      genesis. */
  ghost function Install(o: Oracle, local: seq<Block>, adoptable: bool, r: Response): Option<seq<Block>>
    requires local != []
  {
    if r.genesisHash == "" then None
    else if r.genesisHash != GenesisHash(o, local) && !adoptable then None
    else if r.height <= |local| - 1 || r.blocks == [] then None
    else if r.genesisHash != GenesisHash(o, local) then
      if |r.blocks| != r.height + 1 then None else Adopt(o, r.blocks)
    else if |r.blocks| == r.height + 1 then InstallFull(o, local, r.blocks)
    else if r.height != |local| - 1 + |r.blocks| then InstallOverlap(o, local, r.blocks)
    else InstallSuffix(o, local, r.blocks)
  }

  /** A suffix that does not fit makes the receiver ask the sender for its whole chain. */
  predicate AsksForAll(o: Oracle, local: seq<Block>, r: Response)
    requires local != []
  {
    && r.genesisHash != "" && r.genesisHash == GenesisHash(o, local) && r.height > |local| - 1 && r.blocks != []
    && |r.blocks| != r.height + 1 && r.height == |local| - 1 + |r.blocks|
    && r.blocks[0].parent != HashOf(o, local[|local| - 1])
  }

  // ----- chains as stores ----------------------------------------------------------------------------------

  /** Two linked chains that share a hash share it at the same position, and share all hashes before. */
  lemma {:induction false} SharedHash(o: Oracle, c: seq<Block>, d: seq<Block>, i: nat, j: nat)
    requires Lawful(o) && Linked(o, c) && Linked(o, d) && i < |c| && j < |d| && HashOf(o, c[i]) == HashOf(o, d[j])
    ensures i == j && forall k :: 0 <= k <= i ==> HashOf(o, c[k]) == HashOf(o, d[k])
    decreases i
  {
    assert Header(c[i]) == Header(d[j]);
    assert i > 0 ==> c[i].parent == HashOf(o, c[i - 1]);
    assert j > 0 ==> d[j].parent == HashOf(o, d[j - 1]);
    if i > 0 {
      SharedHash(o, c, d, i - 1, j - 1);
    }
  }

  /** The blocks of a linked chain that stand before the first unsigned one. */
  ghost function SignedLength(o: Oracle, c: seq<Block>): (m: nat)
    requires c != []
    ensures 1 <= m <= |c| && (forall i :: 0 < i < m ==> IsSigned(o, c[i])) && (m < |c| ==> !IsSigned(o, c[m]))
    decreases |c|
  {
    if |c| == 1 then 1 else
    var m := SignedLength(o, c[..|c| - 1]);
    if m == |c| - 1 && IsSigned(o, c[|c| - 1]) then |c| else m
  }

  /** The tree whose nodes are the first m blocks of c, each at its own position as depth. */
  ghost predicate PathTree(o: Oracle, t: Tree, c: seq<Block>, m: nat)
    requires m <= |c|
  {
    && t.depths.Keys == t.nodes.Keys
    && (forall i :: 0 <= i < m ==> HashOf(o, c[i]) in t.nodes && t.nodes[HashOf(o, c[i])] == c[i])
    && (forall i :: 0 <= i < m ==> HashOf(o, c[i]) in t.depths && t.depths[HashOf(o, c[i])] == i)
    && (forall h :: h in t.nodes ==> t.depths[h] < m && HashOf(o, c[t.depths[h]]) == h)
  }

  function Min(a: nat, b: nat): nat {
    if a < b then a else b
  }

  lemma GrowPath(o: Oracle, t: Tree, c: seq<Block>, n: nat, m: nat)
    requires HashesDiffer(o, c) && 0 < n < |c| && 0 < m <= |c| && PathTree(o, t, c, Min(n, m))
    requires c[n].parent == HashOf(o, c[n - 1])
    requires (n < m ==> IsSigned(o, c[n])) && (n == m ==> !IsSigned(o, c[n]))
    ensures PathTree(o, Grow(o, t, c[n]), c, Min(n + 1, m))
  {
    hide HashOf, IsSigned;
    if n < m {
      assert HashOf(o, c[n]) !in t.nodes;
      ExtendPath(o, t, c, n);
    } else if n > m {
      assert HashOf(o, c[n - 1]) !in t.nodes;
    }
  }

  lemma ExtendPath(o: Oracle, t: Tree, c: seq<Block>, n: nat)
    requires 0 < n < |c| && PathTree(o, t, c, n) && HashOf(o, c[n]) !in t.nodes
    requires c[n].parent == HashOf(o, c[n - 1]) && IsSigned(o, c[n])
    ensures PathTree(o, Grow(o, t, c[n]), c, n + 1)
  {
    hide HashOf, IsSigned;
    var t', k := Grow(o, t, c[n]), HashOf(o, c[n]);
    assert t' == Tree(t.depths[k := n], t.nodes[k := c[n]]);
  }

  lemma RootPath(o: Oracle, c: seq<Block>)
    requires c != []
    ensures PathTree(o, Root(o, c[0]), c, 1)
  {
  }

  lemma {:induction false} LinearPrefix(o: Oracle, c: seq<Block>, n: nat)
    requires Lawful(o) && Linked(o, c) && HashesDiffer(o, c) && 1 <= n <= |c|
    ensures PathTree(o, BuildTree(o, c[..n]), c, Min(n, SignedLength(o, c)))
    decreases n
  {
    hide HashOf, IsSigned, HashesDiffer, Lawful, PathTree;
    if n == 1 {
      assert c[..1] == [c[0]];
      RootPath(o, c);
    } else {
      LinearPrefix(o, c, n - 1);
      assert c[..n][..n - 1] == c[..n - 1];
      GrowPath(o, BuildTree(o, c[..n - 1]), c, n - 1, SignedLength(o, c));
    }
  }

  lemma LinearTree(o: Oracle, c: seq<Block>)
    requires Lawful(o) && Linked(o, c)
    ensures HashesDiffer(o, c) && Store(o, c) && PathTree(o, TreeOf(o, c), c, SignedLength(o, c))
  {
    hide HashOf, IsSigned, PathTree;
    LinkedHashesDiffer(o, c);
    LinearPrefix(o, c, |c|);
    assert c[..|c|] == c;
  }

  /** A linked chain used as a store: its canonical chain is the part before the first unsigned block. */
  lemma LinearCanonical(o: Oracle, c: seq<Block>)
    requires Lawful(o) && Linked(o, c)
    ensures Store(o, c) && Canonical(o, c) == c[..SignedLength(o, c)]
  {
    hide HashOf, IsSigned, BuildTree, WellFormed;
    LinearTree(o, c);
    var t, m := TreeOf(o, c), SignedLength(o, c);
    var leaf := HashOf(o, c[m - 1]);
    assert IsBest(t.depths, leaf);
    BestUnique(t.depths, leaf, BestLeaf(t.depths));
    BranchShape(o, t, c[0], leaf);
    var d := Branch(o, t, c[0], leaf);
    assert |d| == m;
    forall k | 0 <= k < m ensures d[k] == c[k] {
      SharedHash(o, d, c, m - 1, m - 1);
    }
  }

  /** Where every block is signed that is all of it. */
  lemma SignedCanonical(o: Oracle, c: seq<Block>)
    requires Lawful(o) && SignedChain(o, c)
    ensures Store(o, c) && Canonical(o, c) == c
  {
    hide Lawful, HashOf, IsSigned, Canonical;
    LinearCanonical(o, c);
    assert c[..|c|] == c;
  }

  ghost predicate HashesDiffer(o: Oracle, c: seq<Block>) {
    forall i, j :: 0 <= i < |c| && 0 <= j < |c| && HashOf(o, c[i]) == HashOf(o, c[j]) ==> i == j
  }

  lemma LinkedHashesDiffer(o: Oracle, c: seq<Block>)
    requires Lawful(o) && Linked(o, c)
    ensures HashesDiffer(o, c)
  {
    forall i, j | 0 <= i < |c| && 0 <= j < |c| && HashOf(o, c[i]) == HashOf(o, c[j]) ensures i == j {
      SharedHash(o, c, c, i, j);
    }
  }

  // ----- honest responses -------------------------------------------------------------------------------------

  /** The response is a suffix of the signed chain c, which has the receiver's genesis. */
  ghost predicate Honest(o: Oracle, local: seq<Block>, c: seq<Block>, k: nat, r: Response) {
    && SignedChain(o, c) && local != [] && c[0] == local[0] && k <= |c|
    && r == Response(GenesisHash(o, c), |c| - 1, c[k..])
  }

  /** A shared hash means a shared prefix of blocks. */
  lemma SharedPrefix(o: Oracle, u: set<Block>, c: seq<Block>, d: seq<Block>, i: nat, j: nat)
    requires Lawful(o) && Distinct(o, u) && Within(c, u) && Within(d, u)
    requires Linked(o, c) && Linked(o, d) && i < |c| && j < |d| && HashOf(o, c[i]) == HashOf(o, d[j])
    ensures i == j && c[..i + 1] == d[..i + 1]
  {
    hide HashOf, Lawful, Linked;
    SharedHash(o, c, d, i, j);
    forall k | 0 <= k <= i ensures c[k] == d[k] {
      assert HashOf(o, c[k]) == HashOf(o, d[k]);
    }
  }

  lemma SuffixIsChain(o: Oracle, u: set<Block>, local: seq<Block>, c: seq<Block>, k: nat)
    requires Lawful(o) && Distinct(o, u) && Within(local, u) && Within(c, u)
    requires SignedChain(o, local) && SignedChain(o, c)
    requires k == |local| < |c| && InstallSuffix(o, local, c[k..]).Some?
    ensures local == c[..k] && local + c[k..] == c
  {
    hide Lawful, Distinct;
    assert c[k].parent == HashOf(o, c[k - 1]);
    SharedPrefix(o, u, local, c, k - 1, k - 1);
    assert local[..k] == local;
  }

  lemma SplicedIsChain(o: Oracle, u: set<Block>, local: seq<Block>, c: seq<Block>, k: nat)
    requires Lawful(o) && Distinct(o, u) && Within(local, u) && Within(c, u)
    requires SignedChain(o, local) && SignedChain(o, c)
    requires k <= |c| && LastCommon(o, local, c[k..]).1 >= 0
    ensures var p := LastCommon(o, local, c[k..]);
            p.0 == k + p.1 && local[..p.0 + 1] == c[..p.0 + 1] && Spliced(local, c[k..], p) == c
  {
    hide Lawful, Distinct, LastCommon, HashOf;
    var p := LastCommon(o, local, c[k..]);
    assert c[k..][p.1] == c[k + p.1];
    SharedPrefix(o, u, local, c, p.0, k + p.1);
  }

  /** Whichever way an honest response is installed, the new store is exactly the sender's chain,
      and it is strictly longer. */
  lemma HonestInstallsChain(o: Oracle, u: set<Block>, local: seq<Block>, adoptable: bool,
                            c: seq<Block>, k: nat, r: Response)
    requires Lawful(o) && Distinct(o, u) && Within(local, u) && Within(c, u) && SignedChain(o, local)
    requires Honest(o, local, c, k, r) && Install(o, local, adoptable, r).Some?
    ensures Install(o, local, adoptable, r).value == c && |c| > |local|
    ensures Store(o, c) && Canonical(o, c) == c
  {
    hide Lawful, Distinct, HashOf, Linked, Contiguous, LastCommon, Canonical, Store, IsSigned, Within;
    SignedCanonical(o, c);
    if |r.blocks| == r.height + 1 || r.height != |local| - 1 + |r.blocks| {
      SplicedIsChain(o, u, local, c, k);
    } else {
      SuffixIsChain(o, u, local, c, k);
    }
  }

  /** The number of leading blocks two chains share. */
  function Shared(c: seq<Block>, d: seq<Block>): (k: nat)
    ensures k <= |c| && k <= |d| && c[..k] == d[..k]
    ensures k < |c| && k < |d| ==> c[k] != d[k]
  {
    if c == [] || d == [] || c[0] != d[0] then 0
    else
      var k := Shared(c[1..], d[1..]);
      assert c[..k + 1] == [c[0]] + c[1..][..k] && d[..k + 1] == [d[0]] + d[1..][..k];
      k + 1
  }

  /** An honest response with a longer chain is installed exactly when it shares enough: a full chain the
      first block after the genesis, a suffix from the next height the whole local chain, and any other
      suffix its own first block. */
  lemma HonestInstallsIff(o: Oracle, u: set<Block>, local: seq<Block>, adoptable: bool,
                          c: seq<Block>, k: nat, r: Response)
    requires Lawful(o) && Distinct(o, u) && Within(local, u) && Within(c, u) && SignedChain(o, local)
    requires Honest(o, local, c, k, r) && GenesisHash(o, c) != ""
    ensures var m := Shared(local, c);
            var installs := && |c| > |local| && k < |c|
                            && if k == 0 then m >= 2 else if k == |local| then m == |local| else k < m;
            Install(o, local, adoptable, r) == if installs then Some(c) else None
  {
    hide Lawful, Distinct, HashOf, LastCommon, IsSigned, Within, Contiguous;
    var m := Shared(local, c);
    if |c| > |local| && k < |c| {
      ChainContiguous(o, c, k);
      if k == 0 {
        assert c[0..] == c;
        FullInstalls(o, u, local, c);
      } else if k == |local| {
        SuffixInstalls(o, u, local, c);
      } else {
        OverlapInstalls(o, u, local, c, k);
      }
    }
  }

  lemma SuffixInstalls(o: Oracle, u: set<Block>, local: seq<Block>, c: seq<Block>)
    requires Lawful(o) && Distinct(o, u) && Within(local, u) && Within(c, u)
    requires SignedChain(o, local) && SignedChain(o, c) && |local| < |c| && Contiguous(o, c[|local|..])
    ensures InstallSuffix(o, local, c[|local|..]) == if Shared(local, c) == |local| then Some(c) else None
  {
    hide Lawful, Distinct, HashOf, IsSigned;
    var n := |local|;
    assert c[n].parent == HashOf(o, c[n - 1]);
    assert Shared(local, c) == n ==> local[n - 1] == local[..n][n - 1] == c[..n][n - 1];
    if InstallSuffix(o, local, c[n..]).Some? {
      SuffixIsChain(o, u, local, c, n);
      SharedAtLeast(local, c, n);
    }
  }

  lemma OverlapInstalls(o: Oracle, u: set<Block>, local: seq<Block>, c: seq<Block>, k: nat)
    requires Lawful(o) && Distinct(o, u) && Within(local, u) && Within(c, u)
    requires SignedChain(o, local) && SignedChain(o, c) && |local| < |c| && k < |c| && Contiguous(o, c[k..])
    ensures InstallOverlap(o, local, c[k..]) == if k < Shared(local, c) then Some(c) else None
  {
    hide Lawful, Distinct, HashOf, LastCommon, IsSigned, Within, Contiguous, Linked;
    var p, m := LastCommon(o, local, c[k..]), Shared(local, c);
    assert k < m ==> local[k] == local[..m][k] == c[..m][k] == c[k..][0];
    assert k < m ==> LastIndex(o, local, HashOf(o, c[k..][0])) >= 0;
    if p.1 >= 0 {
      SplicedIsChain(o, u, local, c, k);
      SharedAtLeast(local, c, p.0 + 1);
    }
  }

  lemma SharedAtLeast(c: seq<Block>, d: seq<Block>, k: nat)
    requires k <= |c| && k <= |d| && c[..k] == d[..k]
    ensures Shared(c, d) >= k
  {
    assert forall i :: 0 <= i < k ==> c[..k][i] == c[i] && d[..k][i] == d[i];
  }

  /** A response from a chain with another genesis is installed exactly by a node that may adopt, when it
      is the whole chain and its genesis decodes. */
  lemma AdoptedIff(o: Oracle, local: seq<Block>, adoptable: bool, c: seq<Block>, fromHeight: int)
    requires local != [] && Linked(o, c) && |c| > |local|
    requires GenesisHash(o, c) != "" && GenesisHash(o, c) != GenesisHash(o, local)
    ensures Install(o, local, adoptable, Serve(o, c, fromHeight))
         == if adoptable && fromHeight <= 0 && o.genesis(c[0].meta).Some? then Some(c) else None
  {
    ChainContiguous(o, c, 0);
    assert c[0..] == c;
    hide Contiguous, HashOf;
  }

  // ----- a whole exchange -------------------------------------------------------------------------------------

  /** The exchange after a handshake: ask from the next height; when the first block does not fit,
      ask for the whole chain. */
  ghost function Exchange(o: Oracle, local: seq<Block>, adoptable: bool, c: seq<Block>): Option<seq<Block>>
    requires local != [] && c != []
  {
    var first := Serve(o, c, |local|);
    Install(o, local, adoptable, if AsksForAll(o, local, first) then Serve(o, c, 0) else first)
  }

  lemma ServeIsHonest(o: Oracle, local: seq<Block>, c: seq<Block>, k: nat)
    requires SignedChain(o, c) && local != [] && c[0] == local[0] && k <= |c|
    ensures Honest(o, local, c, k, Serve(o, c, k))
  {
  }

  lemma ChainContiguous(o: Oracle, c: seq<Block>, k: nat)
    requires Linked(o, c) && k <= |c|
    ensures Contiguous(o, c[k..])
  {
  }

  /** Against a longer chain with the same genesis block, the exchange ends with that chain exactly
      when the receiver has only the genesis or shares the first block after it. */
  lemma ExchangeCatchesUp(o: Oracle, u: set<Block>, local: seq<Block>, adoptable: bool, c: seq<Block>)
    requires Lawful(o) && Distinct(o, u) && Within(local, u) && Within(c, u)
    requires SignedChain(o, local) && SignedChain(o, c) && c[0] == local[0] && |c| > |local|
    requires GenesisHash(o, c) != ""
    ensures Exchange(o, local, adoptable, c) == Some(c) <==> |local| == 1 || local[1] == c[1]
    ensures !(|local| == 1 || local[1] == c[1]) ==> Exchange(o, local, adoptable, c) == None
  {
    hide Lawful, Distinct, HashOf, LastCommon;
    var n := |local|;
    ServeIsHonest(o, local, c, n);
    ServeIsHonest(o, local, c, 0);
    ChainContiguous(o, c, n);
    ChainContiguous(o, c, 0);
    assert c[0..] == c;
    assert Install(o, local, adoptable, Serve(o, c, n)) == InstallSuffix(o, local, c[n..]);
    assert Install(o, local, adoptable, Serve(o, c, 0)) == InstallFull(o, local, c);
    assert AsksForAll(o, local, Serve(o, c, n)) <==> InstallSuffix(o, local, c[n..]).None?;
    if InstallSuffix(o, local, c[n..]).Some? {
      SuffixIsChain(o, u, local, c, n);
    } else {
      FirstFits(o, local, c);
      FullInstalls(o, u, local, c);
    }
  }

  lemma FirstFits(o: Oracle, local: seq<Block>, c: seq<Block>)
    requires Linked(o, c) && local != [] && |c| > |local| && c[0] == local[0]
    ensures c[1].parent == HashOf(o, local[0])
  {
  }

  /** The full replacement is made exactly when the first block after the genesis is shared. */
  lemma FullInstalls(o: Oracle, u: set<Block>, local: seq<Block>, c: seq<Block>)
    requires Lawful(o) && Distinct(o, u) && Within(local, u) && Within(c, u)
    requires SignedChain(o, local) && SignedChain(o, c) && c[0] == local[0] && |c| > |local|
    ensures InstallFull(o, local, c) == if |local| > 1 && local[1] == c[1] then Some(c) else None
  {
    hide Lawful, HashOf, LastCommon, Distinct;
    var p := LastCommon(o, local, c);
    ChainContiguous(o, c, 0);
    assert c[0..] == c;
    if p.1 >= 0 {
      SplicedIsChain(o, u, local, c, 0);
    }
    assert p.1 < 1 ==> LastIndex(o, local, HashOf(o, c[1])) < 0;
    if p.1 >= 1 {
      assert local[..p.0 + 1][1] == c[..p.0 + 1][1];
    }
  }

  // ----- any response -----------------------------------------------------------------------------------------

  lemma {:induction false} CommonOffset(o: Oracle, local: seq<Block>, blocks: seq<Block>, i: nat, j: nat)
    requires Lawful(o) && Linked(o, local) && Contiguous(o, blocks)
    requires i < |local| && j < |blocks| && HashOf(o, local[i]) == HashOf(o, blocks[j])
    ensures j <= i
    decreases i
  {
    assert Header(local[i]) == Header(blocks[j]);
    assert j > 0 ==> blocks[j].parent == HashOf(o, blocks[j - 1]);
    if i > 0 && j > 0 {
      assert local[i].parent == HashOf(o, local[i - 1]);
      CommonOffset(o, local, blocks, i - 1, j - 1);
    }
  }

  lemma SplicedLinked(o: Oracle, local: seq<Block>, blocks: seq<Block>, p: (int, int))
    requires Linked(o, local) && Contiguous(o, blocks) && 0 <= p.0 < |local| && 0 <= p.1 < |blocks|
    requires HashOf(o, local[p.0]) == HashOf(o, blocks[p.1])
    ensures Linked(o, Spliced(local, blocks, p)) && Spliced(local, blocks, p)[0] == local[0]
  {
    hide HashOf;
    var s := Spliced(local, blocks, p);
    forall i | 0 < i < |s| ensures s[i].parent == HashOf(o, s[i - 1]) {
      if i > p.0 {
        var j := i - p.0 + p.1;
        assert s[i] == blocks[j] && blocks[j].parent == HashOf(o, blocks[j - 1]);
        assert i > p.0 + 1 ==> s[i - 1] == blocks[j - 1];
      }
    }
  }

  lemma AppendedLinked(o: Oracle, local: seq<Block>, blocks: seq<Block>)
    requires Linked(o, local) && InstallSuffixFits(o, local, blocks)
    ensures Linked(o, local + blocks)
  {
    hide HashOf;
    var s, n := local + blocks, |local|;
    forall i | 0 < i < |s| ensures s[i].parent == HashOf(o, s[i - 1]) {
      if i > n {
        assert s[i] == blocks[i - n] && s[i - 1] == blocks[i - n - 1];
      } else if i == n {
        assert s[i] == blocks[0] && s[i - 1] == local[n - 1];
      }
    }
  }

  ghost predicate InstallSuffixFits(o: Oracle, local: seq<Block>, blocks: seq<Block>) {
    local != [] && blocks != [] && Contiguous(o, blocks) && blocks[0].parent == HashOf(o, local[|local| - 1])
  }

  /** Whatever the response: an installed store is a linked chain; it keeps the receiver's genesis
      block and is longer, unless another genesis is adopted.  Its canonical chain is the part before
      its first unsigned block. */
  lemma InstalledStore(o: Oracle, local: seq<Block>, adoptable: bool, r: Response)
    requires Lawful(o) && SignedChain(o, local) && Install(o, local, adoptable, r).Some?
    ensures var s := Install(o, local, adoptable, r).value;
            && Linked(o, s) && Store(o, s) && Canonical(o, s) == s[..SignedLength(o, s)]
            && (r.genesisHash == GenesisHash(o, local) ==> s[0] == local[0] && |s| > |local|)
            && (r.genesisHash != GenesisHash(o, local) ==> adoptable)
  {
    hide HashOf, LastCommon, SignedLength, Store, Canonical;
    var s := Install(o, local, adoptable, r).value;
    if r.genesisHash == GenesisHash(o, local) {
      if |r.blocks| == r.height + 1 || r.height != |local| - 1 + |r.blocks| {
        var p := LastCommon(o, local, r.blocks);
        SplicedLinked(o, local, r.blocks, p);
        CommonOffset(o, local, r.blocks, p.0, p.1);
      } else {
        AppendedLinked(o, local, r.blocks);
      }
    }
    LinearCanonical(o, s);
  }

  /** Blocks of a response pass the signature check, except that a genesis carries none. */
  ghost predicate CarriesSigned(o: Oracle, r: Response) {
    forall i :: 0 <= i < |r.blocks| ==> IsSigned(o, r.blocks[i]) || r.blocks[i].parent == NO_PARENT
  }

  lemma SignedResponse(o: Oracle, local: seq<Block>, adoptable: bool, r: Response)
    requires Lawful(o) && SignedChain(o, local) && CarriesSigned(o, r) && Install(o, local, adoptable, r).Some?
    ensures var s := Install(o, local, adoptable, r).value; s != [] && SignedLength(o, s) == |s|
  {
    hide IsSigned, LastCommon;
    InstalledStore(o, local, adoptable, r);
    var s := Install(o, local, adoptable, r).value;
    forall i | 0 < i < |s| ensures IsSigned(o, s[i]) {
      assert s[i].parent == HashOf(o, s[i - 1]) != NO_PARENT;
      if i >= |local| || s[i] != local[i] {
        assert s[i] in r.blocks;
      }
    }
  }

  /** The signature check is not part of installing: this response shortens the chain from height 2
      to height 1, whatever two unsigned blocks it carries. */
  lemma UnsignedOverlapShortens(o: Oracle, g: Block, x: Block, y: Block, v: Block, w: Block)
    requires Lawful(o) && SignedChain(o, [g, x, y]) && !IsSigned(o, v) && GenesisHash(o, [g]) != ""
    requires v.parent == HashOf(o, x) && w.parent == HashOf(o, v)
    ensures var r := Response(GenesisHash(o, [g]), 3, [x, v, w]);
            && Install(o, [g, x, y], false, r) == Some([g, x, v, w])
            && Store(o, [g, x, v, w]) && Canonical(o, [g, x, v, w]) == [g, x]
  {
    hide Lawful, HashOf, LastIndex, Canonical;
    var local, s := [g, x, y], [g, x, v, w];
    UnsignedFork(o, g, x, y, v, w);
    assert LastCommon(o, local, [x, v, w]) == (1, 0) by {
      assert [x, v, w][..2] == [x, v] && [x, v][..1] == [x];
      assert LastCommon(o, local, [x]) == (1, 0);
      assert LastCommon(o, local, [x, v]) == (1, 0);
    }
    assert Spliced(local, [x, v, w], (1, 0)) == s;
    LinearCanonical(o, s);
    assert SignedLength(o, s) == 2 by { assert s[1] == x && s[2] == v; }
    assert s[..2] == [g, x];
  }

  lemma UnsignedFork(o: Oracle, g: Block, x: Block, y: Block, v: Block, w: Block)
    requires Lawful(o) && SignedChain(o, [g, x, y]) && !IsSigned(o, v)
    requires v.parent == HashOf(o, x) && w.parent == HashOf(o, v)
    ensures Linked(o, [g, x, v, w]) && IsSigned(o, x) && Contiguous(o, [x, v, w])
    ensures LastIndex(o, [g, x, y], HashOf(o, x)) == 1
    ensures LastIndex(o, [g, x, y], HashOf(o, v)) < 0 && LastIndex(o, [g, x, y], HashOf(o, w)) < 0
  {
    hide LastIndex;
    var local, s := [g, x, y], [g, x, v, w];
    assert local[1] == x && local[2] == y;
    assert x.parent == HashOf(o, g) by { assert local[1].parent == HashOf(o, local[0]); }
    assert Linked(o, s);
    assert Header(y) != Header(v);
    forall i, j | 0 <= i < 3 && 0 <= j < 4 && HashOf(o, local[i]) == HashOf(o, s[j]) ensures i == j {
      SharedHash(o, local, s, i, j);
    }
    assert s[1] == x && s[2] == v && s[3] == w;
    assert HashOf(o, local[1]) == HashOf(o, s[1]);
  }
}
