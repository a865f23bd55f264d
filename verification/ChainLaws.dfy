/** What holds of the ledger along every replayed chain: conservation, non-negative balances and
    reserves, and consecutive nonces. */
module ChainLaws {
  import opened Text
  import opened Sums
  import opened Ledgers
  import opened LedgerLaws
  import opened Conservation
  import opened Genesis
  import opened Chain
  import opened Validation

  /** The transactions a block replays; none when its metadata does not decode. */
  function BodyOf(o: Oracle, b: Block): seq<Tx> {
    match o.txs(b.meta)
    case None => []
    case Some(txs) => txs
  }

  /** Replay starts only from a genesis that decodes. */
  predicate Rooted(o: Oracle, path: seq<Block>) {
    path != [] && o.genesis(path[0].meta).Some?
  }

  function GenesisOf(o: Oracle, path: seq<Block>): Settings
    requires Rooted(o, path)
  {
    o.genesis(path[0].meta).value
  }

  function Parent(path: seq<Block>): seq<Block>
    requires path != []
  {
    path[..|path| - 1]
  }

  function Last(path: seq<Block>): Block
    requires path != []
  {
    path[|path| - 1]
  }

  /** The ledger the transactions of the last block run on. */
  function Entering(o: Oracle, path: seq<Block>): State
    requires path != []
  {
    WithValidator(Replay(o, Parent(path)), Last(path).key)
  }

  /** What the accepted transactions of the chain issue of an asset. */
  function IssuedOn(o: Oracle, path: seq<Block>, asset: string): int
    requires path != []
    decreases |path|
  {
    if |path| == 1 then 0
    else IssuedOn(o, Parent(path), asset) + IssuedBy(o.checks, Entering(o, path), BodyOf(o, Last(path)), asset)
  }

  /** Blocks that earned a reward: those whose metadata decodes. */
  function RewardedBlocks(o: Oracle, path: seq<Block>): nat
    requires path != []
    decreases |path|
  {
    if |path| == 1 then 0
    else RewardedBlocks(o, Parent(path)) + (if o.txs(Last(path).meta).Some? then 1 else 0)
  }

  lemma MarkedAccounts(s: State, v: string, asset: string)
    ensures Sane(WithValidator(s, v)) == Sane(s) && NonNegative(WithValidator(s, v)) == NonNegative(s)
    ensures Supply(WithValidator(s, v), asset) == Supply(s, asset)
  {
    assert Holdings(WithValidator(s, v), asset) == Holdings(s, asset);
  }

  lemma RewardAccounts(s: State, key: string, asset: string)
    requires Sane(s)
    ensures Sane(Rewarded(s, key))
    ensures Supply(Rewarded(s, key), asset) == Supply(s, asset) + Only(asset, PKN, MINER_BLOCK_REWARD)
    ensures NonNegative(s) ==> NonNegative(Rewarded(s, key))
  {
    hide NormalizeAsset;
    SumSet(s.accounts, key, Get(s.accounts, key) + MINER_BLOCK_REWARD);
    if asset != PKN { assert Holdings(Rewarded(s, key), asset) == Holdings(s, asset); }
  }

  /** Over every replayed chain: all PKN in balances and reserves is the genesis total plus 10 per
      rewarded block plus what the accepted transactions issued; every other asset is exactly what
      they issued. */
  lemma {:induction false} ChainConserves(o: Oracle, path: seq<Block>, asset: string)
    requires Rooted(o, path)
    ensures Sane(Replay(o, path))
    ensures Supply(Replay(o, path), asset)
            == Only(asset, PKN, Sum(GenesisOf(o, path).initialBalances) + MINER_BLOCK_REWARD * RewardedBlocks(o, path))
               + IssuedOn(o, path, asset)
    decreases |path|
  {
    hide Sane, Supply, Rewarded, ApplySome, IssuedBy, FromGenesis;
    if |path| == 1 {
      GenesisSupply(GenesisOf(o, path), asset);
    } else {
      var s, b := Replay(o, Parent(path)), Last(path);
      ChainConserves(o, Parent(path), asset);
      MarkedAccounts(s, b.key, asset);
      if o.txs(b.meta).Some? {
        var txs := o.txs(b.meta).value;
        ListAccounts(o.checks, Entering(o, path), txs, asset);
        RewardAccounts(ApplySome(o.checks, Entering(o, path), txs), b.key, asset);
      } else {
        NothingIssued(o.checks, Entering(o, path), asset);
      }
    }
  }

  lemma NothingIssued(c: Checks, s: State, asset: string)
    ensures IssuedBy(c, s, [], asset) == 0
  {
  }

  lemma GenesisSupply(g: Settings, asset: string)
    ensures Sane(FromGenesis(g))
    ensures Supply(FromGenesis(g), asset) == Only(asset, PKN, Sum(g.initialBalances))
  {
    assert Reserves(FromGenesis(g).pools, asset) == map[];
  }

  /** From a non-negative genesis no balance and no reserve is ever negative. */
  lemma {:induction false} ChainNonNegative(o: Oracle, path: seq<Block>)
    requires Rooted(o, path) && AllNonNegative(GenesisOf(o, path).initialBalances)
    ensures NonNegative(Replay(o, path))
    decreases |path|
  {
    if |path| > 1 {
      hide NonNegative, Rewarded, ApplySome;
      var s, b := Replay(o, Parent(path)), Last(path);
      ChainNonNegative(o, Parent(path));
      MarkedAccounts(s, b.key, PKN);
      if o.txs(b.meta).Some? {
        var txs := o.txs(b.meta).value;
        ListNonNegative(o.checks, Entering(o, path), txs);
        ChainConserves(o, Parent(path), PKN);
        MarkedAccounts(s, b.key, PKN);
        ListAccounts(o.checks, Entering(o, path), txs, PKN);
        RewardAccounts(ApplySome(o.checks, Entering(o, path), txs), b.key, PKN);
      }
    }
  }

  /** The nonces of one sender's accepted nonce-carrying transactions along the chain. */
  function NoncesOn(o: Oracle, path: seq<Block>, who: string): seq<int>
    requires path != []
    decreases |path|
  {
    if |path| == 1 then []
    else NoncesOn(o, Parent(path), who) + NoncesOf(o.checks, Entering(o, path), BodyOf(o, Last(path)), who)
  }

  /** Along every replayed chain the accepted nonces of a sender are 0, 1, 2, ... without gap or
      repeat, and the ledger's nonce is their number. */
  lemma {:induction false} ChainNonces(o: Oracle, path: seq<Block>, who: string)
    requires Rooted(o, path)
    ensures var ns := NoncesOn(o, path, who);
            && (forall i :: 0 <= i < |ns| ==> ns[i] == i)
            && Get(Replay(o, path).nonces, who) == |ns|
    decreases |path|
  {
    hide Apply, ApplySome, NoncesOf;
    if |path| > 1 {
      ChainNonces(o, Parent(path), who);
      NoncesInOrder(o.checks, Entering(o, path), BodyOf(o, Last(path)), who);
      if o.txs(Last(path).meta).None? {
        NoTransactions(o.checks, Entering(o, path));
      }
    }
  }

  lemma NoTransactions(c: Checks, s: State)
    ensures ApplySome(c, s, []) == s
  {
  }
}
