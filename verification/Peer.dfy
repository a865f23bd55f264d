/** The node: handlers for blocks and chain synchronisation over one store, ledger and mempool. */
module Peers {
  import opened Text
  import opened Sums
  import opened Ledgers
  import opened LedgerLaws
  import opened Authority
  import opened LedgerObject
  import opened Lottery
  import opened Genesis
  import opened Chain
  import opened Validation
  import opened Blockchains
  import opened Convergence
  import opened Sync
  import opened Mempool

  // ----- the node as a value ---------------------------------------------------------------------------------

  datatype Node = Node(store: seq<Block>, accepted: nat, finalityDepth: nat, settings: Settings)

  /** Mined is a slot in which the node got past its precheck, with the block it built if any. */
  datatype Event =
    | BlockMessage(block: Block)
    | SyncResponse(response: Response)
    | Mined(candidate: Option<Block>)
    | FinalityDepth(depth: int)

  ghost function CommittedLedger(o: Oracle, store: seq<Block>, finalityDepth: nat): State
    requires Store(o, store)
  {
    Replay(o, Rollback(Canonical(o, store), finalityDepth))
  }

  /** Height zero, no recorded transaction and no block ever accepted. */
  ghost predicate CanAdopt(o: Oracle, n: Node)
    requires Store(o, n.store)
  {
    && |Canonical(o, n.store)| == 1
    && CommittedLedger(o, n.store, n.finalityDepth).recorded == {}
    && n.accepted == 0
  }

  ghost function Height(o: Oracle, n: Node): int
    requires Store(o, n.store)
  {
    |Canonical(o, n.store)| - 1
  }

  ghost function Synced(o: Oracle, n: Node, r: Response): Option<seq<Block>>
    requires Store(o, n.store)
  {
    CanonicalShape(o, n.store);
    Install(o, Canonical(o, n.store), CanAdopt(o, n), r)
  }

  ghost function Delivered(o: Oracle, n: Node, b: Block): (n': Node)
    requires Store(o, n.store)
    ensures Store(o, n'.store)
  {
    if Accepts(o, n.store, b) then n.(store := Added(o, n.store, b), accepted := n.accepted + 1) else n
  }

  /** The settings after an installed response: adopting another genesis takes over its settings. */
  ghost function SyncedSettings(o: Oracle, n: Node, r: Response, s: seq<Block>): Settings
    requires Store(o, n.store) && s != []
  {
    CanonicalShape(o, n.store);
    var genesis := o.genesis(s[0].meta);
    if r.genesisHash != GenesisHash(o, Canonical(o, n.store)) && genesis.Some? then genesis.value else n.settings
  }

  ghost function Handle(o: Oracle, n: Node, e: Event): (n': Node)
    requires Store(o, n.store)
    ensures Store(o, n'.store)
  {
    match e
    case BlockMessage(b) => Delivered(o, n, b)
    case SyncResponse(r) => (
      match Synced(o, n, r)
      case None => n
      case Some(s) =>
        SyncedIsStore(o, n, r);
        n.(store := s, settings := SyncedSettings(o, n, r, s)))
    case Mined(candidate) => (
      var m := n.(settings := WithDefaults(n.settings));
      if candidate.None? then m else Delivered(o, m, candidate.value))
    case FinalityDepth(depth) => n.(finalityDepth := if depth < 0 then 0 else depth)
  }

  lemma SyncedIsStore(o: Oracle, n: Node, r: Response)
    requires Store(o, n.store) && Synced(o, n, r).Some?
    ensures var s := Synced(o, n, r).value;
            && Store(o, s) && Canonical(o, s) == s[..SignedLength(o, s)]
            && (r.genesisHash == GenesisHash(o, Canonical(o, n.store)) ==> s[0] == n.store[0])
            && (r.genesisHash != GenesisHash(o, Canonical(o, n.store)) ==> CanAdopt(o, n) && o.genesis(s[0].meta).Some?)
  {
    hide Canonical, CanAdopt, InstallSuffix, InstallOverlap, InstallFull, SignedLength;
    CanonicalShape(o, n.store);
    InstalledStore(o, Canonical(o, n.store), CanAdopt(o, n), r);
  }

  ghost function HandleAll(o: Oracle, n: Node, events: seq<Event>): (n': Node)
    requires Store(o, n.store)
    ensures Store(o, n'.store)
    decreases |events|
  {
    if events == [] then n else HandleAll(o, Handle(o, n, events[0]), events[1..])
  }

  // ----- safety over whole runs ----------------------------------------------------------------------------------

  lemma GenesisStep(o: Oracle, n: Node, e: Event)
    requires Store(o, n.store) && n.accepted > 0
    ensures Handle(o, n, e).store[0] == n.store[0] && Handle(o, n, e).accepted > 0
  {
    hide Accepts, Synced, Canonical;
    if e.SyncResponse? && Synced(o, n, e.response).Some? {
      SyncedIsStore(o, n, e.response);
    }
  }

  /** Once a block was accepted, no sequence of messages, slots and settings changes the genesis block. */
  lemma {:induction false} GenesisFixed(o: Oracle, n: Node, events: seq<Event>)
    requires Store(o, n.store) && n.accepted > 0
    ensures HandleAll(o, n, events).store[0] == n.store[0]
    decreases |events|
  {
    hide Handle;
    if events != [] {
      GenesisStep(o, n, events[0]);
      GenesisFixed(o, Handle(o, n, events[0]), events[1..]);
    }
  }

  /** Accepting one block is enough. */
  lemma GenesisFixedByBlock(o: Oracle, n: Node, b: Block, events: seq<Event>)
    requires Store(o, n.store) && Accepts(o, n.store, b)
    ensures HandleAll(o, n, [BlockMessage(b)] + events).store[0] == n.store[0]
  {
    hide Accepts, Added;
    assert ([BlockMessage(b)] + events)[0] == BlockMessage(b) && ([BlockMessage(b)] + events)[1..] == events;
    GenesisFixed(o, Handle(o, n, BlockMessage(b)), events);
  }

  /** A node without a block, an accepted block or a recorded transaction takes over the first whole chain
      with another genesis it is handed, settings included. */
  lemma FreshNodeAdopts(o: Oracle, n: Node, c: seq<Block>)
    requires Store(o, n.store) && |Canonical(o, n.store)| == 1 && n.accepted == 0
    requires Linked(o, c) && |c| > 1 && o.genesis(c[0].meta).Some?
    requires GenesisHash(o, c) != "" && GenesisHash(o, c) != GenesisHash(o, Canonical(o, n.store))
    ensures var n' := Handle(o, n, SyncResponse(Serve(o, c, 0)));
            n'.store == c && n'.settings == o.genesis(c[0].meta).value
  {
    hide Canonical, Install, Linked;
    AdoptedIff(o, Canonical(o, n.store), CanAdopt(o, n), c, 0);
    var best := Canonical(o, n.store);
    assert Rollback(best, n.finalityDepth) == best;
  }

  /** The node's own settings are those of its chain's genesis, up to defaults. */
  ghost predicate SettingsAgree(o: Oracle, n: Node)
    requires n.store != []
  {
    var genesis := o.genesis(n.store[0].meta);
    genesis.Some? && WithDefaults(n.settings) == WithDefaults(genesis.value)
  }

  lemma SettingsStep(o: Oracle, n: Node, e: Event)
    requires Store(o, n.store) && SettingsAgree(o, n)
    ensures SettingsAgree(o, Handle(o, n, e))
  {
    hide Accepts, Synced, Canonical, WithDefaults;
    DefaultsIdempotent(n.settings);
    if e.SyncResponse? && Synced(o, n, e.response).Some? {
      SyncedIsStore(o, n, e.response);
    }
  }

  /** Over any run, adoptions included, a node mines under the settings its blocks are validated with. */
  lemma {:induction false} SettingsFollowGenesis(o: Oracle, n: Node, events: seq<Event>)
    requires Store(o, n.store) && SettingsAgree(o, n)
    ensures SettingsAgree(o, HandleAll(o, n, events))
    decreases |events|
  {
    hide Handle, SettingsAgree;
    if events != [] {
      SettingsStep(o, n, events[0]);
      SettingsFollowGenesis(o, Handle(o, n, events[0]), events[1..]);
    }
  }

  /** Adding a block never lowers a depth, so the best chain does not get shorter. */
  lemma AddedHeight(o: Oracle, store: seq<Block>, b: Block)
    requires Store(o, store)
    ensures |Canonical(o, Added(o, store, b))| >= |Canonical(o, store)|
  {
    hide Check, WellFormed;
    CanonicalShape(o, store);
    CanonicalShape(o, Added(o, store, b));
    if Accepts(o, store, b) {
      GrowKeepsDepths(o, store, b);
      var t := TreeOf(o, store);
      var h :| h in t.depths && t.depths[h] == |Canonical(o, store)| - 1;
      assert h in TreeOf(o, store + [b]).depths;
    }
  }

  lemma GrowKeepsDepths(o: Oracle, store: seq<Block>, b: Block)
    requires Store(o, store)
    ensures var t, t' := TreeOf(o, store), TreeOf(o, store + [b]);
            forall h :: h in t.depths ==> h in t'.depths && t'.depths[h] == t.depths[h]
  {
    hide Lawful, HashOf, IsSigned, WellFormed;
    assert (store + [b])[..|store|] == store;
    var t := TreeOf(o, store);
    RootHasNoParentNode(o, t, store[0]);
    KeysAgree(o, t, store[0]);
    if b.parent in t.depths {
      SameHeaderSameDepth(o, t, store[0], b);
    }
  }

  lemma DeliveredHeight(o: Oracle, n: Node, b: Block)
    requires Store(o, n.store)
    ensures Height(o, Delivered(o, n, b)) >= Height(o, n)
  {
    hide Accepts, Canonical, Added;
    if Accepts(o, n.store, b) {
      AddedHeight(o, n.store, b);
    }
  }

  /** A sync response lowers the height exactly when it is installed with too few blocks before its
      first unsigned one. */
  lemma SyncHeight(o: Oracle, n: Node, r: Response)
    requires Store(o, n.store)
    ensures Synced(o, n, r).Some? ==> Store(o, Synced(o, n, r).value)
    ensures Height(o, Handle(o, n, SyncResponse(r))) >= Height(o, n)
            <==> Synced(o, n, r).None? || SignedLength(o, Synced(o, n, r).value) >= |Canonical(o, n.store)|
  {
    hide Synced, Canonical, SignedLength;
    if Synced(o, n, r).Some? {
      SyncedIsStore(o, n, r);
    }
  }

  lemma HeightStep(o: Oracle, n: Node, e: Event)
    requires Store(o, n.store) && (e.SyncResponse? ==> CarriesSigned(o, e.response))
    ensures Height(o, Handle(o, n, e)) >= Height(o, n)
  {
    hide Accepts, Install, Canonical, CarriesSigned, Added, SignedLength;
    match e {
      case BlockMessage(b) => DeliveredHeight(o, n, b);
      case Mined(b) =>
        if b.Some? { DeliveredHeight(o, n.(settings := WithDefaults(n.settings)), b.value); }
      case SyncResponse(r) =>
        SyncHeight(o, n, r);
        if Synced(o, n, r).Some? {
          CanonicalShape(o, n.store);
          SignedResponse(o, Canonical(o, n.store), CanAdopt(o, n), r);
          InstalledLonger(o, Canonical(o, n.store), CanAdopt(o, n), r);
        }
      case FinalityDepth(_) =>
    }
  }

  /** Whatever is installed has more blocks than the chain it replaces: only a chain of one block can
      be given up for another genesis. */
  lemma InstalledLonger(o: Oracle, local: seq<Block>, adoptable: bool, r: Response)
    requires Lawful(o) && SignedChain(o, local) && (adoptable ==> |local| == 1)
    requires Install(o, local, adoptable, r).Some?
    ensures |Install(o, local, adoptable, r).value| >= |local|
  {
    hide SignedLength, Canonical;
    InstalledStore(o, local, adoptable, r);
  }

  /** When sync responses carry only signed blocks, the height never decreases over any run. */
  lemma {:induction false} HeightMonotone(o: Oracle, n: Node, events: seq<Event>)
    requires Store(o, n.store)
    requires forall i :: 0 <= i < |events| && events[i].SyncResponse? ==> CarriesSigned(o, events[i].response)
    ensures Height(o, HandleAll(o, n, events)) >= Height(o, n)
    decreases |events|
  {
    hide Handle, Height, CarriesSigned;
    if events != [] {
      HeightStep(o, n, events[0]);
      HeightMonotone(o, Handle(o, n, events[0]), events[1..]);
    }
  }

  /** An honest response leaves the node with the sender's chain, strictly longer than its own, or
      leaves its store as it was. */
  lemma HonestResponse(o: Oracle, u: set<Block>, n: Node, c: seq<Block>, k: nat, r: Response)
    requires Store(o, n.store) && Distinct(o, u) && Within(Canonical(o, n.store), u) && Within(c, u)
    requires Canonical(o, n.store) != [] && Honest(o, Canonical(o, n.store), c, k, r)
    ensures var n' := Handle(o, n, SyncResponse(r));
            || (Synced(o, n, r).None? && n' == n)
            || (Synced(o, n, r).Some? && Canonical(o, n'.store) == c && Height(o, n') > Height(o, n))
  {
    hide Install, Distinct, Canonical, Honest, SyncedSettings;
    CanonicalShape(o, n.store);
    if Synced(o, n, r).Some? {
      HonestInstallsChain(o, u, Canonical(o, n.store), CanAdopt(o, n), c, k, r);
    }
  }

  // ----- the loops of the install paths --------------------------------------------------------------------------

  /** Positions of the local hashes; a later block with the same hash replaces an earlier one. */
  method IndexHashes(o: Oracle, local: seq<Block>) returns (at: map<string, int>)
    ensures forall h :: h in at <==> LastIndex(o, local, h) >= 0
    ensures forall h :: h in at ==> at[h] == LastIndex(o, local, h)
  {
    hide HashOf;
    at := map[];
    for i := 0 to |local|
      invariant forall h :: h in at <==> LastIndex(o, local[..i], h) >= 0
      invariant forall h :: h in at ==> at[h] == LastIndex(o, local[..i], h)
    {
      assert local[..i + 1][..i] == local[..i] && local[..i + 1][i] == local[i];
      at := at[HashOf(o, local[i]) := i];
    }
    assert local[..|local|] == local;
  }

  /** Scans the remote blocks for the last one that is also local. */
  method FindCommon(o: Oracle, local: seq<Block>, blocks: seq<Block>) returns (commonLocal: int, commonRemote: int)
    ensures (commonLocal, commonRemote) == LastCommon(o, local, blocks)
  {
    hide HashOf, LastIndex;
    var at := IndexHashes(o, local);
    commonLocal, commonRemote := -1, -1;
    for i := 0 to |blocks|
      invariant (commonLocal, commonRemote) == LastCommon(o, local, blocks[..i])
    {
      assert blocks[..i + 1][..i] == blocks[..i] && blocks[..i + 1][i] == blocks[i];
      var hash := HashOf(o, blocks[i]);
      if hash in at {
        commonLocal, commonRemote := at[hash], i;
      }
    }
    assert blocks[..|blocks|] == blocks;
  }

  method CheckContiguous(o: Oracle, blocks: seq<Block>) returns (ok: bool)
    ensures ok == Contiguous(o, blocks)
  {
    var i := 1;
    while i < |blocks|
      invariant 0 < i && forall j :: 0 < j < i && j < |blocks| ==> blocks[j].parent == HashOf(o, blocks[j - 1])
    {
      if blocks[i].parent != HashOf(o, blocks[i - 1]) {
        return false;
      }
      i := i + 1;
    }
    return true;
  }

  // ----- mempool entries -------------------------------------------------------------------------------------------

  /** Both EVM-signed, same sender up to letter case, same nonce. */
  predicate Rival(a: Tx, b: Tx) {
    IsEvm(a) && IsEvm(b) && ToLower(a.from) == ToLower(b.from) && a.nonce == b.nonce
  }

  predicate OnePerNonce(pool: map<string, Tx>) {
    forall i, j :: i in pool && j in pool && i != j ==> !Rival(pool[i], pool[j])
  }

  /** Every entry carries a signature that verifies. */
  predicate AllSigned(c: Checks, pool: map<string, Tx>) {
    forall id :: id in pool ==> c.verify(Signed(pool[id]))
  }

  function Rivals(pool: map<string, Tx>, n: Tx): set<string> {
    set id | id in pool && Rival(pool[id], n)
  }

  function Replaced(pool: map<string, Tx>, n: Tx): map<string, Tx> {
    (pool - Rivals(pool, n))[n.id := n]
  }

  /** A transaction that passes the checks, in the form it enters the mempool. */
  function Checked(o: Oracle, best: State, tx: Tx): Option<Tx> {
    if tx.amount < 0 || (!IsEvm(tx) && !IsNft(tx) && !IsAmm(tx) && tx.amount < 1) then None
    else if !o.checks.verify(Signed(tx)) then None
    else if !IsAmm(tx) then Some(tx)
    else if Apply(o.checks, best, tx).Rejected? then None
    else Some(Apply(o.checks, best, tx).tx)
  }

  /** What enters the mempool was signed and names an amount its kind allows; a pool transaction was also
      accepted by the best ledger.  Everything like that enters. */
  lemma TakenIffChecked(o: Oracle, best: State, tx: Tx)
    ensures Checked(o, best, tx).Some? <==>
              && o.checks.verify(Signed(tx)) && tx.amount >= 0
              && (tx.amount == 0 ==> IsEvm(tx) || IsNft(tx) || IsAmm(tx))
              && (IsAmm(tx) ==> Apply(o.checks, best, tx).Applied?)
    ensures Checked(o, best, tx).Some? ==> o.checks.verify(Signed(Checked(o, best, tx).value))
    ensures Checked(o, best, tx).Some? && !IsAmm(tx) ==> Checked(o, best, tx).value == tx
  {
    hide Apply, Signed;
    if Apply(o.checks, best, tx).Applied? {
      AppliedIsSigned(o.checks, best, tx);
    }
  }

  /** Only a pending EVM transaction of the same sender, up to letter case, and the same nonce gives way. */
  lemma OthersStay(pool: map<string, Tx>, n: Tx, id: string)
    requires id in pool && id != n.id
    ensures id in Replaced(pool, n) ==> Replaced(pool, n)[id] == pool[id]
    ensures id !in Replaced(pool, n) <==>
              && IsEvm(pool[id]) && IsEvm(n)
              && ToLower(pool[id].from) == ToLower(n.from) && pool[id].nonce == n.nonce
    ensures n.id in Replaced(pool, n) && Replaced(pool, n)[n.id] == n
  {
    hide IsEvm, ToLower;
  }

  lemma AppliedKeepsId(c: Checks, s: State, t: Tx)
    requires IsAmm(t) && Apply(c, s, t).Applied?
    ensures Apply(c, s, t).tx.id == t.id
  {
    if t.amm.Some? {
      hide Apply, ApplyAmm, NormalPayload;
      AmmKeepsFields(c, s, t);
      assert Apply(c, s, t) == ApplyAmm(c, s, t) by { AmmPath(c, s, t); }
    } else {
      AmmNeedsPayload(c, s, t);
    }
  }

  lemma AmmPath(c: Checks, s: State, t: Tx)
    requires IsAmm(t)
    ensures Apply(c, s, t) == ApplyAmm(c, s, t)
  {
    hide ApplyAmm;
  }

  /** The newest transaction of a sender and nonce displaces the pending one. */
  lemma ReplacedKeepsOne(pool: map<string, Tx>, n: Tx)
    requires OnePerNonce(pool)
    ensures OnePerNonce(Replaced(pool, n))
  {
    hide IsEvm, ToLower;
  }

  lemma ReplacedStaysSigned(c: Checks, pool: map<string, Tx>, n: Tx)
    requires AllSigned(c, pool) && c.verify(Signed(n))
    ensures AllSigned(c, Replaced(pool, n))
  {
    hide Signed, Rivals;
  }

  lemma SubsetKeepsOne(c: Checks, pool: map<string, Tx>, part: map<string, Tx>)
    requires OnePerNonce(pool) && forall id :: id in part ==> id in pool && part[id] == pool[id]
    ensures OnePerNonce(part) && (AllSigned(c, pool) ==> AllSigned(c, part))
  {
    hide Signed;
  }

  // ----- the node on the heap --------------------------------------------------------------------------------------

  class Peer {
    const chain: Blockchain
    var genesis: Config
    var ledger: Ledger
    var mempool: map<string, Tx>
    var seen: set<string>
    var sent: set<string>
    var flooded: seq<Block>
    var acceptedBlocks: nat
    var finalityDepth: nat

    /** The ledger is the committed ledger of the store; the mempool is keyed by identifier and holds
        at most one EVM transaction for each sender and nonce, and only signed ones. */
    ghost predicate Valid(o: Oracle)
      reads this, chain, ledger
    {
      && Store(o, chain.blocks)
      && ledger.Value() == CommittedLedger(o, chain.blocks, finalityDepth)
      && (forall id :: id in mempool ==> mempool[id].id == id)
      && OnePerNonce(mempool) && AllSigned(o.checks, mempool)
    }

    ghost function Contents(): Node
      reads this, chain, genesis
    {
      Node(chain.blocks, acceptedBlocks, finalityDepth, genesis.Value())
    }

    /** A new node on a genesis record: encoding the record writes the defaults into it. */
    constructor (o: Oracle, settings: Config, encode: Settings -> string)
      requires Lawful(o)
      modifies settings
      ensures Valid(o) && mempool == map[] && fresh(chain) && fresh(ledger) && genesis == settings
      ensures settings.Value() == WithDefaults(old(settings.Value()))
      ensures Contents() == Node([GenesisBlock(encode(settings.Value()))], 0, 0, settings.Value())
      ensures o.genesis(encode(settings.Value())) == Some(settings.Value()) ==> SettingsAgree(o, Contents())
    {
      settings.ApplyDefaults();
      chain := new Blockchain(GenesisBlock(encode(settings.Value())));
      ledger := new Ledger();
      genesis, mempool := settings, map[];
      seen, sent, flooded, acceptedBlocks, finalityDepth := {}, {}, [], 0, 0;
      new;
      ledger := LedgerFromBlockchain(o, chain, finalityDepth);
    }

    /** Rebuilds the committed ledger from the store. */
    method Rebuild(o: Oracle)
      requires Store(o, chain.blocks)
      modifies this`ledger
      ensures fresh(ledger) && ledger.Value() == CommittedLedger(o, chain.blocks, finalityDepth)
    {
      hide Canonical, Rollback, Replay;
      ledger := LedgerFromBlockchain(o, chain, finalityDepth);
    }

    /** Sets how many blocks the committed ledger stays behind, and rebuilds it. */
    method SetFinalityDepth(o: Oracle, depth: int)
      requires Valid(o)
      modifies this`finalityDepth, this`ledger
      ensures Valid(o) && Contents() == Handle(o, old(Contents()), FinalityDepth(depth))
    {
      hide Canonical, CommittedLedger, OnePerNonce, AllSigned;
      finalityDepth := if depth < 0 then 0 else depth;
      Rebuild(o);
    }

    /** Replaces the store and rebuilds the ledger from it. */
    method Replace(o: Oracle, blocks: seq<Block>)
      requires Valid(o) && Store(o, blocks)
      modifies this`ledger, chain
      ensures Valid(o) && Contents() == old(Contents()).(store := blocks) && fresh(ledger)
    {
      hide Canonical, CommittedLedger, OnePerNonce, AllSigned;
      chain.ReplaceBlocks(blocks);
      Rebuild(o);
    }

    /** Appends a suffix; one that does not name the local tip makes the node ask for the whole chain. */
    method InstallSyncedSuffix(o: Oracle, local: seq<Block>, blocks: seq<Block>)
      returns (r: Option<seq<Block>>, askAll: bool)
      requires local != [] && blocks != []
      ensures r == InstallSuffix(o, local, blocks)
      ensures askAll == (blocks[0].parent != HashOf(o, local[|local| - 1]))
    {
      if blocks[0].parent != HashOf(o, local[|local| - 1]) {
        return None, true;
      }
      askAll := false;
      var ok := CheckContiguous(o, blocks);
      r := if ok then Some(local + blocks) else None;
    }

    method InstallSyncedOverlap(o: Oracle, local: seq<Block>, blocks: seq<Block>) returns (r: Option<seq<Block>>)
      requires local != [] && blocks != []
      ensures r == InstallOverlap(o, local, blocks)
    {
      var ok := CheckContiguous(o, blocks);
      if !ok {
        return None;
      }
      var i, j := FindCommon(o, local, blocks);
      if j < 0 || j + 1 >= |blocks| {
        return None;
      }
      if |local[..i + 1]| + |blocks[j + 1..]| <= |local| {
        return None;
      }
      r := Some(local[..i + 1] + blocks[j + 1..]);
    }

    method InstallFullChain(o: Oracle, local: seq<Block>, blocks: seq<Block>) returns (r: Option<seq<Block>>)
      requires local != [] && blocks != []
      ensures r == InstallFull(o, local, blocks)
    {
      if |blocks| <= |local| || GenesisHash(o, blocks) != GenesisHash(o, local) {
        return None;
      }
      var i, j := FindCommon(o, local, blocks);
      if j <= 0 || i <= 0 {
        return None;
      }
      var ok := CheckContiguous(o, blocks);
      if !ok {
        return None;
      }
      r := Some(local[..i + 1] + blocks[j + 1..]);
    }

    /** Takes over a chain with another genesis, and the settings its genesis carries. */
    method AdoptRemoteChain(o: Oracle, blocks: seq<Block>) returns (ok: bool)
      requires Valid(o) && blocks != []
      modifies this`ledger, this`genesis, chain
      ensures Valid(o) && ok == Adopt(o, blocks).Some? && (ok ==> fresh(genesis))
      ensures !ok ==> Contents() == old(Contents()) && genesis == old(genesis)
      ensures ok ==> o.genesis(blocks[0].meta).Some?
                     && Contents() == old(Contents()).(store := blocks, settings := o.genesis(blocks[0].meta).value)
    {
      hide Canonical, Rollback, Replay, OnePerNonce, AllSigned, Contiguous;
      if blocks[0].parent != NO_PARENT {
        return false;
      }
      ok := CheckContiguous(o, blocks);
      if !ok {
        return;
      }
      var decoded := o.genesis(blocks[0].meta);
      if decoded.None? {
        return false;
      }
      genesis := new Config(decoded.value);
      Replace(o, blocks);
    }

    method CanAdoptRemoteGenesis(o: Oracle) returns (ok: bool)
      requires Valid(o)
      ensures ok == CanAdopt(o, Contents())
    {
      var height := BestHeight(o, chain.blocks);
      ok := height == 0 && ledger.recorded == {} && acceptedBlocks == 0;
    }

    /** The install path a response with the same genesis calls for. */
    method InstallSynced(o: Oracle, local: seq<Block>, resp: Response, ghost adoptable: bool)
      returns (r: Option<seq<Block>>, askAll: bool)
      requires local != [] && resp.blocks != [] && resp.height > |local| - 1
      requires resp.genesisHash != "" && resp.genesisHash == GenesisHash(o, local)
      ensures r == Install(o, local, adoptable, resp) && askAll == AsksForAll(o, local, resp)
    {
      hide InstallSuffix, InstallOverlap, InstallFull;
      askAll := false;
      if |resp.blocks| == resp.height + 1 {
        r := InstallFullChain(o, local, resp.blocks);
      } else if resp.height != |local| - 1 + |resp.blocks| {
        r := InstallSyncedOverlap(o, local, resp.blocks);
      } else {
        r, askAll := InstallSyncedSuffix(o, local, resp.blocks);
      }
    }

    method HandleChainSyncResponse(o: Oracle, resp: Response) returns (ok: bool, askAll: bool)
      requires Valid(o)
      modifies this`ledger, this`genesis, chain
      ensures Valid(o) && Contents() == Handle(o, old(Contents()), SyncResponse(resp))
      ensures ok == Synced(o, old(Contents()), resp).Some?
      ensures genesis == old(genesis) || fresh(genesis)
      ensures Canonical(o, old(chain.blocks)) != []
      ensures askAll == AsksForAll(o, Canonical(o, old(chain.blocks)), resp)
    {
      hide Canonical, CanAdopt, InstallSuffix, InstallOverlap, InstallFull, OnePerNonce, AllSigned, CommittedLedger;
      var local := CanonicalBlocks(o, chain.blocks, 0);
      CanonicalShape(o, chain.blocks);
      var adoptable := CanAdoptRemoteGenesis(o);
      if resp.genesisHash == "" || (resp.genesisHash != GenesisHash(o, local) && !adoptable) {
        return false, false;
      }
      if resp.height <= |local| - 1 || |resp.blocks| == 0 {
        return false, false;
      }
      if resp.genesisHash != GenesisHash(o, local) {
        if |resp.blocks| != resp.height + 1 {
          return false, false;
        }
        ok := AdoptRemoteChain(o, resp.blocks);
        askAll := false;
        return;
      }
      var r;
      r, askAll := InstallSynced(o, local, resp, adoptable);
      if r.None? {
        return false, askAll;
      }
      SyncedIsStore(o, Contents(), resp);
      Replace(o, r.value);
      ok := true;
    }

    /** The mempool as a list, in the order the map happens to be visited. */
    method Pending() returns (pending: seq<Tx>)
      requires forall id :: id in mempool ==> mempool[id].id == id
      ensures Ids(pending) == mempool.Keys && |pending| == |mempool|
      ensures forall t :: t in pending <==> t.id in mempool && mempool[t.id] == t
    {
      hide Ids;
      pending := [];
      NoIds();
      var left := mempool.Keys;
      while left != {}
        invariant left <= mempool.Keys && Ids(pending) == mempool.Keys - left && |pending| == |mempool.Keys| - |left|
        invariant forall t :: t in pending <==> t.id in mempool && t.id !in left && mempool[t.id] == t
        decreases left
      {
        var id :| id in left;
        IdsAppend(pending, mempool[id]);
        pending := pending + [mempool[id]];
        left := left - {id};
      }
    }

    /** Evicts what cannot apply: the kept transactions apply one after another to the best ledger,
        in the order listed, and no evicted one applies to the ledger they produce. */
    method PruneInvalidMempool(o: Oracle) returns (kept: seq<Tx>, passes: nat, ghost end: State)
      requires Valid(o)
      modifies this`mempool
      ensures Valid(o) && Pruned(o.checks, Replay(o, Canonical(o, chain.blocks)), old(mempool), mempool, kept, end)
      ensures passes <= |old(mempool)| + 1
    {
      hide Canonical, Pruned, NoneApplies, Kept, Ids;
      var best := LedgerFromBlockchain(o, chain, 0);
      var pending := Pending();
      var keep;
      keep, kept, passes := KeepApplicable(o.checks, best, pending);
      end := best.Value();
      PruneResult(o.checks, Replay(o, Canonical(o, chain.blocks)), end, mempool, pending, keep, kept);
      SubsetKeepsOne(o.checks, mempool, map id | id in mempool && id in keep :: mempool[id]);
      mempool := map id | id in mempool && id in keep :: mempool[id];
    }

    /** Takes a transaction from the network into the mempool: static checks, a trial on the best
        ledger for pool transactions, deduplication by message, and replacement of a pending EVM
        transaction with the same sender and nonce. */
    method HandlePoSTransaction(o: Oracle, msgID: string, tx: Tx) returns (taken: bool)
      requires Valid(o)
      modifies this`mempool, this`seen
      ensures Valid(o)
      ensures var n := Checked(o, Replay(o, Canonical(o, chain.blocks)), tx);
              && taken == (n.Some? && msgID !in old(seen) && tx.id !in old(mempool))
              && mempool == (if taken then Replaced(old(mempool), n.value) else old(mempool))
              && seen == (if n.Some? then old(seen) + {msgID} else old(seen))
    {
      hide Canonical, Apply, Signed, AllSigned, OnePerNonce, Rivals, IsEvm, IsNft, IsAmm, BuildTree, WellFormed;
      if tx.amount < 0 || (!IsEvm(tx) && !IsNft(tx) && !IsAmm(tx) && tx.amount < 1) {
        return false;
      }
      if !o.checks.verify(Signed(tx)) {
        return false;
      }
      var n := tx;
      if IsAmm(tx) {
        var best := LedgerFromBlockchain(o, chain, 0);
        var ok;
        ok, n := best.Transaction(o.checks, tx);
        if !ok {
          return false;
        }
        AppliedKeepsId(o.checks, Replay(o, Canonical(o, chain.blocks)), tx);
        AppliedIsSigned(o.checks, Replay(o, Canonical(o, chain.blocks)), tx);
      }
      if msgID in seen {
        return false;
      }
      taken := n.id !in mempool;
      if taken {
        ReplacedKeepsOne(mempool, n);
        ReplacedStaysSigned(o.checks, mempool, n);
        RemoveRivals(n);
        mempool := mempool[n.id := n];
      }
      seen := seen + {msgID};
    }

    method RemoveRivals(n: Tx)
      modifies this`mempool
      ensures mempool == old(mempool) - Rivals(old(mempool), n)
    {
      if IsEvm(n) {
        var left := mempool.Keys;
        while left != {}
          invariant left <= old(mempool).Keys
          invariant mempool == old(mempool) - (Rivals(old(mempool), n) - left)
          decreases left
        {
          var id :| id in left;
          if Rival(mempool[id], n) {
            mempool := mempool - {id};
          }
          left := left - {id};
        }
      }
    }

    /** Serves the canonical chain from a height to a peer that names the same genesis. */
    method HandleChainSyncRequest(o: Oracle, genesisHash: string, fromHeight: int) returns (r: Option<Response>)
      requires Valid(o)
      ensures Canonical(o, chain.blocks) != []
      ensures r == if genesisHash != "" && genesisHash == GenesisHash(o, Canonical(o, chain.blocks))
                   then Some(Serve(o, Canonical(o, chain.blocks), fromHeight)) else None
    {
      hide Canonical, Branch, BuildTree, WellFormed, OnePerNonce, AllSigned, IsSigned, HashOf;
      var blocks := CanonicalBlocks(o, chain.blocks, 0);
      CanonicalShape(o, chain.blocks);
      if genesisHash == "" || genesisHash != GenesisHash(o, blocks) {
        return None;
      }
      var k := fromHeight;
      if k < 0 { k := 0; }
      if k > |blocks| { k := |blocks|; }
      r := Some(Response(GenesisHash(o, blocks), |blocks| - 1, blocks[k..]));
    }

    /** Adds a block; on success rebuilds the ledger, drops the included transactions from the
        mempool and prunes the rest against the new best ledger. */
    method ApplyBlock(o: Oracle, block: Block) returns (ok: bool, ghost kept: seq<Tx>, ghost end: State)
      requires Valid(o)
      modifies this`ledger, this`acceptedBlocks, this`mempool, chain
      ensures Valid(o)
      ensures ok == Accepts(o, old(chain.blocks), block)
      ensures Contents() == Handle(o, old(Contents()), BlockMessage(block))
      ensures !ok ==> mempool == old(mempool)
      ensures ok ==> o.txs(block.meta).Some?
      ensures ok ==> Pruned(o.checks, Replay(o, Canonical(o, chain.blocks)),
                            old(mempool) - Ids(o.txs(block.meta).value), mempool, kept, end)
    {
      hide Canonical, Pruned, Accepts, Ids, Replay, CommittedLedger, OnePerNonce, AllSigned, BuildTree, WellFormed;
      kept, end := [], EMPTY;
      ok := chain.AddBlock(o, block);
      if !ok {
        return;
      }
      AcceptedDecodes(o, old(chain.blocks), block);
      Rebuild(o);
      acceptedBlocks := acceptedBlocks + 1;
      var txs := o.txs(block.meta).value;
      SubsetKeepsOne(o.checks, mempool, mempool - Ids(txs));
      DropIncluded(txs);
      var passes;
      kept, passes, end := PruneInvalidMempool(o);
    }

    /** A block from the network: each message counts once; a refused block with an unknown parent
        makes the node ask for the sender's whole chain. */
    method HandleBlock(o: Oracle, msgID: string, block: Block)
      returns (ok: bool, askAll: bool, ghost kept: seq<Tx>, ghost end: State)
      requires Valid(o)
      modifies this`ledger, this`acceptedBlocks, this`mempool, this`seen, chain
      ensures Valid(o)
      ensures ok == (msgID !in old(seen) && Accepts(o, old(chain.blocks), block))
      ensures Contents() == if ok then Handle(o, old(Contents()), BlockMessage(block)) else old(Contents())
      ensures seen == if ok then old(seen) + {msgID} else old(seen)
      ensures !ok ==> mempool == old(mempool)
      ensures ok ==> o.txs(block.meta).Some?
      ensures ok ==> Pruned(o.checks, Replay(o, Canonical(o, chain.blocks)),
                            old(mempool) - Ids(o.txs(block.meta).value), mempool, kept, end)
      ensures Canonical(o, old(chain.blocks)) != []
      ensures askAll == (!ok && msgID !in old(seen) && !HasHash(o, old(chain.blocks), block.parent)
                         && GenesisHash(o, Canonical(o, old(chain.blocks))) != "")
    {
      hide Canonical, Accepts, Pruned, Replay, OnePerNonce, AllSigned, HasHash, CommittedLedger;
      hide Branch, IsSigned, HashOf, Ids;
      CanonicalShape(o, chain.blocks);
      kept, end := [], EMPTY;
      if msgID in seen {
        return false, false, kept, end;
      }
      ok, kept, end := ApplyBlock(o, block);
      if !ok {
        var known := HasBlockHash(o, block.parent);
        var local := CanonicalBlocks(o, chain.blocks, 0);
        return false, !known && GenesisHash(o, local) != "", kept, end;
      }
      seen := seen + {msgID};
      askAll := false;
    }

    method HasBlockHash(o: Oracle, hash: string) returns (found: bool)
      ensures found == HasHash(o, chain.blocks, hash)
    {
      if hash == "" {
        return false;
      }
      for i := 0 to |chain.blocks|
        invariant forall j :: 0 <= j < i ==> HashOf(o, chain.blocks[j]) != hash
      {
        if HashOf(o, chain.blocks[i]) == hash {
          return true;
        }
      }
      return false;
    }

    method DropIncluded(txs: seq<Tx>)
      modifies this`mempool
      ensures mempool == old(mempool) - Ids(txs)
    {
      for i := 0 to |txs|
        invariant mempool == old(mempool) - Ids(txs[..i])
      {
        assert txs[..i + 1] == txs[..i] + [txs[i]];
        IdsAppend(txs[..i], txs[i]);
        if txs[i].id in mempool {
          mempool := mempool - {txs[i].id};
        }
      }
      assert txs[..|txs|] == txs;
    }

    /** Prunes the mempool, then selects from it in whatever order it is visited. */
    method SelectFromMempool(o: Oracle)
      returns (selected: seq<Tx>, ghost pool: seq<Tx>)
      requires Valid(o)
      modifies this`mempool
      ensures Valid(o)
      ensures PrunedTo(o.checks, Replay(o, Canonical(o, chain.blocks)), old(mempool), mempool)
      ensures forall t :: t in pool <==> t.id in mempool && mempool[t.id] == t
      ensures forall t :: t in pool ==> t.id in old(mempool) && old(mempool)[t.id] == t
      ensures selected == Chosen(o.checks, Replay(o, Canonical(o, chain.blocks)), pool, BLOCK_SIZE)
    {
      hide Canonical, Replay, OnePerNonce, AllSigned, Chosen, Ids;
      var tempLedger := LedgerFromBlockchain(o, chain, 0);
      ghost var all := mempool;
      var kept, _, end := PruneInvalidMempool(o);
      assert PrunedTo(o.checks, Replay(o, Canonical(o, chain.blocks)), all, mempool);
      var pending := Pending();
      pool := pending;
      FromPruned(all, mempool, pending);
      selected := SelectTransactions(o.checks, tempLedger, pending);
    }

    /** Hands a block to the connections, once per message. */
    method FloodBlock(msgID: string, block: Block)
      modifies this`seen, this`sent, this`flooded
      ensures sent == old(sent) + {msgID} && seen == if msgID in old(sent) then old(seen) else old(seen) + {msgID}
      ensures flooded == if msgID in old(sent) then old(flooded) else old(flooded) + [block]
    {
      if msgID in sent {
        return;
      }
      seen, sent := seen + {msgID}, sent + {msgID};
      flooded := flooded + [block];
    }

    /** Tries to produce a block for one slot.  The draw is weighed by the committed balance; the
        precheck reads the settings as they are, the exact check writes the defaults into them. */
    method MineOneSlot(o: Oracle, miner: Miner, slot: int)
      returns (mined: Option<Block>, ghost pool: seq<Tx>, ghost pruned: map<string, Tx>)
      requires Valid(o)
      modifies this, chain, genesis
      ensures Valid(o) && genesis == old(genesis)
      ensures !Prechecked(o, old(Contents()), miner, slot) ==>
                mined.None? && Contents() == old(Contents()) && mempool == old(mempool)
      ensures Prechecked(o, old(Contents()), miner, slot) ==>
                var b := MinedBlock(o, old(Contents()), miner, slot, pool);
                && (mined == if WinsExactly(o, old(Contents()), miner, slot, pool) && Accepts(o, old(chain.blocks), b)
                             then Some(b) else None)
                && Contents() == Handle(o, old(Contents()), Mined(mined))
      ensures forall t :: t in pool ==> t.id in old(mempool) && old(mempool)[t.id] == t
      ensures Prechecked(o, old(Contents()), miner, slot) ==>
                PrunedTo(o.checks, Replay(o, Canonical(o, old(chain.blocks))), old(mempool), pruned)
      ensures forall t :: t in pool ==> t.id in pruned && pruned[t.id] == t
      ensures mined.None? ==> mempool == pruned && flooded == old(flooded) && seen == old(seen) && sent == old(sent)
      ensures mined.Some? ==> MempoolAfter(o, chain.blocks, mined.value, pruned, mempool)
      ensures mined.Some? ==>
                var id := HashOf(o, mined.value);
                && seen == (if id in old(sent) then old(seen) else old(seen) + {id}) && sent == old(sent) + {id}
                && flooded == if id in old(sent) then old(flooded) else old(flooded) + [mined.value]
    {
      hide Canonical, Accepts, BuildTree, MinedBlock, WinsExactly, OptimisticHardness, WinsLottery;
      hide OnePerNonce, AllSigned;
      hide PrunedTo, MempoolAfter;
      mined, pool, pruned := None, [], mempool;
      var draw := o.proofDraw(miner.prove(genesis.seed, slot));
      var stake := Get(ledger.accounts, miner.key);
      if draw.None? || stake <= 0 {
        return;
      }
      if !WinsLottery(stake, OptimisticHardness(genesis.Value()), draw.value) {
        return;
      }
      mined, pool, pruned := MineCandidate(o, miner, slot, stake, draw.value);
      if mined.Some? {
        FloodBlock(HashOf(o, mined.value), mined.value);
      }
    }

    /** The part after the precheck: select on the best ledger, check the draw against the candidate,
        build it and apply it. */
    method MineCandidate(o: Oracle, miner: Miner, slot: int, stake: int, draw: int)
      returns (mined: Option<Block>, ghost pool: seq<Tx>, ghost pruned: map<string, Tx>)
      requires Valid(o) && o.proofDraw(miner.prove(genesis.seed, slot)) == Some(draw)
      requires stake == Stake(o, Contents(), miner)
      modifies this`ledger, this`acceptedBlocks, this`mempool, chain, genesis
      ensures Valid(o)
      ensures var b := MinedBlock(o, old(Contents()), miner, slot, pool);
              mined == if WinsExactly(o, old(Contents()), miner, slot, pool) && Accepts(o, old(chain.blocks), b)
                       then Some(b) else None
      ensures Contents() == Handle(o, old(Contents()), Mined(mined))
      ensures forall t :: t in pool ==> t.id in old(mempool) && old(mempool)[t.id] == t
      ensures PrunedTo(o.checks, Replay(o, Canonical(o, old(chain.blocks))), old(mempool), pruned)
      ensures forall t :: t in pool <==> t.id in pruned && pruned[t.id] == t
      ensures mined.None? ==> mempool == pruned
      ensures mined.Some? ==> MempoolAfter(o, chain.blocks, mined.value, pruned, mempool)
    {
      hide Canonical, Accepts, BuildTree, WellFormed, IsBest, Chosen, EffectiveHardness, CommittedLedger;
      hide Replay, OnePerNonce, AllSigned, Branch, Slots, Ids, WinsLottery, NewCandidateBlock, WithDefaults, Pruned;
      DefaultsKeepSeed(genesis.Value());
      var parentBlocks := CanonicalBlocks(o, chain.blocks, 0);
      var parentHash := BestLeafHash(o);
      var selected;
      selected, pool := SelectFromMempool(o);
      pruned := mempool;
      var hardness := EffectiveHardness(Slots(parentBlocks), genesis.Value(), |selected|);
      genesis.ApplyDefaults();
      mined := None;
      if !WinsLottery(stake, hardness, draw) {
        return;
      }
      var block := NewCandidateBlock(o, miner, slot, parentHash, selected, genesis.seed);
      var ok, kept, end := ApplyBlock(o, block);
      if ok {
        assert MempoolAfter(o, chain.blocks, block, pruned, mempool);
        mined := Some(block);
      }
    }

    method BestLeafHash(o: Oracle) returns (leaf: string)
      requires Valid(o)
      ensures leaf == BestLeaf(TreeOf(o, chain.blocks).depths)
    {
      hide BuildTree, WellFormed, IsBest, OnePerNonce, AllSigned, CommittedLedger;
      var depths, _ := CalculateDepths(o, chain.blocks);
      ghost var t := TreeOf(o, chain.blocks);
      leaf := GetLeafHash(depths);
      BestUnique(depths, leaf, BestLeaf(depths));
    }
  }

  function GenesisBlock(meta: string): Block {
    Block("block", "", 0, 0, meta, NO_PARENT, "", "")
  }

  predicate HasHash(o: Oracle, blocks: seq<Block>, hash: string) {
    hash != "" && exists i :: 0 <= i < |blocks| && HashOf(o, blocks[i]) == hash
  }

  // ----- what a slot of mining comes to --------------------------------------------------------------------------

  ghost function Stake(o: Oracle, n: Node, m: Miner): int
    requires Store(o, n.store)
  {
    Get(CommittedLedger(o, n.store, n.finalityDepth).accounts, m.key)
  }

  /** The draw exists, the miner has a committed balance, and the draw wins at the optimistic hardness. */
  ghost predicate Prechecked(o: Oracle, n: Node, m: Miner, slot: int)
    requires Store(o, n.store)
  {
    var draw := o.proofDraw(m.prove(n.settings.seed, slot));
    draw.Some? && Stake(o, n, m) > 0 && WinsLottery(Stake(o, n, m), OptimisticHardness(n.settings), draw.value)
  }

  ghost function Selected(o: Oracle, n: Node, pool: seq<Tx>): seq<Tx>
    requires Store(o, n.store)
  {
    Chosen(o.checks, Replay(o, Canonical(o, n.store)), pool, BLOCK_SIZE)
  }

  ghost predicate WinsExactly(o: Oracle, n: Node, m: Miner, slot: int, pool: seq<Tx>)
    requires Store(o, n.store)
  {
    var draw := o.proofDraw(m.prove(n.settings.seed, slot));
    var hardness := EffectiveHardness(Slots(Canonical(o, n.store)), n.settings, |Selected(o, n, pool)|);
    draw.Some? && WinsLottery(Stake(o, n, m), hardness, draw.value)
  }

  ghost function MinedBlock(o: Oracle, n: Node, m: Miner, slot: int, pool: seq<Tx>): Block
    requires Store(o, n.store)
  {
    NewCandidateBlock(o, m, slot, BestLeaf(TreeOf(o, n.store).depths), Selected(o, n, pool), n.settings.seed)
  }

  /** The pool after pruning holds exactly the transactions of kept, unchanged; they apply in order
      from start to end, and nothing that was dropped applies to end. */
  ghost predicate Pruned(c: Checks, start: State, before: map<string, Tx>, after: map<string, Tx>,
                         kept: seq<Tx>, end: State)
  {
    && ApplyAll(c, start, kept) == Some(end)
    && after.Keys == Ids(kept) && |after| == |kept|
    && (forall id :: id in after ==> id in before && after[id] == before[id])
    && (forall t :: t in kept ==> t.id in after && after[t.id] == t)
    && (forall id :: id in before && id !in after ==> Apply(c, end, before[id]) == Rejected)
  }

  ghost predicate PrunedTo(c: Checks, start: State, before: map<string, Tx>, after: map<string, Tx>) {
    exists kept, end :: Pruned(c, start, before, after, kept, end)
  }

  /** An accepted block's transactions are dropped, and the rest is pruned against the best ledger. */
  ghost predicate MempoolAfter(o: Oracle, store: seq<Block>, b: Block, before: map<string, Tx>, after: map<string, Tx>)
    requires Store(o, store)
  {
    && o.txs(b.meta).Some?
    && PrunedTo(o.checks, Replay(o, Canonical(o, store)), before - Ids(o.txs(b.meta).value), after)
  }

  lemma PruneResult(c: Checks, start: State, end: State, pool: map<string, Tx>, pending: seq<Tx>,
                    keep: set<string>, kept: seq<Tx>)
    requires forall id :: id in pool ==> pool[id].id == id
    requires Ids(pending) == pool.Keys && forall t :: t in pending <==> t.id in pool && pool[t.id] == t
    requires Kept(c, start, end, pending, keep, kept) && NoneApplies(c, end, pending, keep)
    ensures Pruned(c, start, pool, map id | id in pool && id in keep :: pool[id], kept, end)
  {
    hide Apply, ApplyAll;
    var after := map id | id in pool && id in keep :: pool[id];
    assert after.Keys == keep;
    forall t | t in kept ensures t.id in after && after[t.id] == t {
      var i :| 0 <= i < |kept| && kept[i] == t;
      assert t.id in Ids(kept);
    }
    forall id | id in pool && id !in after ensures Apply(c, end, pool[id]) == Rejected {
      assert pool[id] in pending;
    }
  }

  lemma FromPruned(before: map<string, Tx>, after: map<string, Tx>, pending: seq<Tx>)
    requires forall id :: id in after ==> id in before && after[id] == before[id]
    requires forall t :: t in pending <==> t.id in after && after[t.id] == t
    ensures forall t :: t in pending ==> t.id in before && before[t.id] == t
  {
  }

  lemma AcceptedDecodes(o: Oracle, store: seq<Block>, b: Block)
    requires Store(o, store) && Accepts(o, store, b)
    ensures o.txs(b.meta).Some?
  {
    hide Replay, WinsOn, DrawChecks, ApplyAll, Branch;
  }

  lemma NoIds()
    ensures Ids([]) == {}
  {
  }
}
