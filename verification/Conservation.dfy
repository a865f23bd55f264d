/** Conservation: what each accepted transaction creates or destroys of each asset, over balances
    and pool reserves together, and that nothing ever goes negative. */
module Conservation {
  import opened Text
  import opened Amm
  import opened Sums
  import opened Ledgers
  import opened LedgerLaws

  predicate PoolSane(p: Pool, id: string) {
    && p.id == id && p.assetA != "" && p.assetB != "" && p.assetA != p.assetB
    && NormalizeAsset(p.assetA) == p.assetA && NormalizeAsset(p.assetB) == p.assetB
    && p.feeBps == AMM_FEE_BPS
  }

  /** Pools are filed under their own identifier with two distinct normalised assets, and PKN is
      held only as account balance. */
  predicate Sane(s: State) {
    PKN !in s.assets && forall id :: id in s.pools ==> PoolSane(s.pools[id], id)
  }

  predicate AllNonNegative(m: map<string, int>) {
    forall k :: k in m ==> m[k] >= 0
  }

  predicate NonNegative(s: State) {
    && AllNonNegative(s.accounts)
    && (forall a :: a in s.assets ==> AllNonNegative(s.assets[a]))
    && (forall id :: id in s.pools ==> s.pools[id].reserveA >= 0 && s.pools[id].reserveB >= 0)
  }

  function ReserveOf(p: Pool, asset: string): int {
    (if p.assetA == asset then p.reserveA else 0) + (if p.assetB == asset then p.reserveB else 0)
  }

  function Reserves(pools: map<string, Pool>, asset: string): map<string, int> {
    map id | id in pools :: ReserveOf(pools[id], asset)
  }

  /** All of one asset: in balances and in pool reserves. */
  ghost function Supply(s: State, asset: string): int {
    Sum(Holdings(s, asset)) + Sum(Reserves(s.pools, asset))
  }

  function OtherAsset(p: Pool, assetIn: string): string {
    if NormalizeAsset(assetIn) == p.assetA then p.assetB else p.assetA
  }

  /** The pool a swap trades against and the amount it is quoted. */
  function SwapTerms(s: State, n: Tx): Option<(Pool, int)> {
    if n.amm.None? then None else
    var id := NormalizePoolID(n.amm.value.poolID);
    if id !in s.pools then None else
    var q := QuoteSwap(s.pools[id], n.amm.value.assetIn, n.amm.value.amountIn);
    if q.NoQuote? then None else Some((s.pools[id], q.out))
  }

  function Only(asset: string, named: string, amount: int): int {
    if asset == named then amount else 0
  }

  /** How much of an asset an accepted transaction brings into being. */
  function Issued(s: State, t: Tx, asset: string): int {
    if t.amm.Some? then
      var n := NormalAmm(t);
      var a := n.amm.value;
      if a.action == "asset_credit" then Only(asset, a.asset, a.amount)
      else if a.action == "asset_debit" then -Only(asset, a.asset, a.amount)
      else if a.action == "amm_swap" && SwapTerms(s, n).Some? then
        var (pool, out) := SwapTerms(s, n).value;
        Only(asset, a.assetOut, out) - Only(asset, OtherAsset(pool, a.assetIn), out)
      else 0
    else if t.kind == "mint" then Only(asset, PKN, t.amount)
    else 0
  }

  // ----- building blocks -------------------------------------------------------------------------

  lemma DebitAccounts(s: State, a: string, who: string, amount: int, asset: string)
    requires CanDebit(s, a, who, amount)
    ensures var s' := Debit(s, a, who, amount);
            && s'.pools == s.pools
            && Sum(Holdings(s', asset)) == Sum(Holdings(s, asset)) - Only(asset, NormalizeAsset(a), amount)
            && (asset != NormalizeAsset(a) ==> Holdings(s', asset) == Holdings(s, asset))
  {
    hide NormalizeAsset, NormalizeAccount, Sum;
    var h, k := Holdings(s, NormalizeAsset(a)), NormalizeAccount(who);
    SumSet(h, k, Get(h, k) - amount);
  }

  lemma CreditAccounts(s: State, a: string, who: string, amount: int, asset: string)
    requires amount > 0 && NormalizeAccount(who) != ""
    ensures var s' := Credit(s, a, who, amount);
            && s'.pools == s.pools
            && Sum(Holdings(s', asset)) == Sum(Holdings(s, asset)) + Only(asset, NormalizeAsset(a), amount)
  {
    hide NormalizeAsset, NormalizeAccount, Sum;
    var h, k := Holdings(s, NormalizeAsset(a)), NormalizeAccount(who);
    SumSet(h, k, Get(h, k) + amount);
  }

  lemma PoolAccounts(pools: map<string, Pool>, id: string, p: Pool, asset: string)
    ensures Sum(Reserves(pools[id := p], asset))
            == Sum(Reserves(pools, asset)) + ReserveOf(p, asset)
               - (if id in pools then ReserveOf(pools[id], asset) else 0)
  {
    assert Reserves(pools[id := p], asset) == Reserves(pools, asset)[id := ReserveOf(p, asset)];
    SumSet(Reserves(pools, asset), id, ReserveOf(p, asset));
  }

  lemma AdvancedAccounts(s: State, n: Tx, asset: string)
    ensures Supply(Advanced(s, n), asset) == Supply(s, asset)
    ensures Sane(Advanced(s, n)) == Sane(s) && NonNegative(Advanced(s, n)) == NonNegative(s)
  {
    assert Holdings(Advanced(s, n), asset) == Holdings(s, asset);
  }

  // ----- one transaction ---------------------------------------------------------------------------

  lemma TransferAccounts(c: Checks, s: State, t: Tx, asset: string)
    requires ApplyTransfer(c, s, t).Applied?
    ensures Sane(s) ==> Sane(ApplyTransfer(c, s, t).state)
    ensures Supply(ApplyTransfer(c, s, t).state, asset) == Supply(s, asset)
  {
    hide Signed, IsEvm, Sum, NormalizeAsset;
    var debited := s.accounts[t.from := Get(s.accounts, t.from) - t.amount];
    SumSet(s.accounts, t.from, Get(s.accounts, t.from) - t.amount);
    SumSet(debited, t.to, Get(debited, t.to) + t.amount);
    AdvancedAccounts(s.(accounts := Moved(s.accounts, t.from, t.to, t.amount)), t, asset);
  }

  lemma MintAccounts(c: Checks, s: State, t: Tx, asset: string)
    requires ApplyMint(c, s, t).Applied?
    ensures Sane(s) ==> Sane(ApplyMint(c, s, t).state)
    ensures Supply(ApplyMint(c, s, t).state, asset) == Supply(s, asset) + Only(asset, PKN, t.amount)
  {
    hide Signed, Sum, NormalizeAsset;
    SumSet(s.accounts, t.to, Get(s.accounts, t.to) + t.amount);
    if asset != PKN { assert Holdings(ApplyMint(c, s, t).state, asset) == Holdings(s, asset); }
  }

  lemma CreatePoolAccounts(c: Checks, s: State, n: Tx, asset: string)
    requires Sane(s) && n.amm.Some? && ApplyCreatePool(c, s, n).Applied?
    ensures Sane(ApplyCreatePool(c, s, n).state)
    ensures Supply(ApplyCreatePool(c, s, n).state, asset) == Supply(s, asset)
  {
    hide NormalizeAsset, NormalizeAccount;
    var a := n.amm.value;
    AssetNormal(a.assetA);
    AssetNormal(a.assetB);
    var id := PoolID(a.assetA, a.assetB);
    var pool := Pool(id, NormalizeAsset(a.assetA), NormalizeAsset(a.assetB), 0, 0, AMM_FEE_BPS, n.id, n.id);
    PoolAccounts(s.pools, id, pool, asset);
    AdvancedAccounts(s.(pools := s.pools[id := pool]), n, asset);
  }

  lemma AddLiquidityAccounts(c: Checks, s: State, n: Tx, asset: string)
    requires Sane(s) && n.amm.Some? && ApplyAddLiquidity(c, s, n).Applied?
    ensures Sane(ApplyAddLiquidity(c, s, n).state)
    ensures Supply(ApplyAddLiquidity(c, s, n).state, asset) == Supply(s, asset)
  {
    var a := n.amm.value;
    var pool := s.pools[NormalizePoolID(a.poolID)];
    DepositAccounts(s, pool, n.from, a.amountA, a.amountB, n.id, asset);
    AdvancedAccounts(Deposited(s, pool, n.from, a.amountA, a.amountB, n.id), n, asset);
  }

  lemma DepositAccounts(s: State, pool: Pool, from: string, amountA: int, amountB: int, tx: string, asset: string)
    requires Sane(s) && pool.id in s.pools && s.pools[pool.id] == pool
    requires CanDebit(s, pool.assetA, from, amountA) && CanDebit(s, pool.assetB, from, amountB)
    ensures Sane(Deposited(s, pool, from, amountA, amountB, tx))
    ensures Supply(Deposited(s, pool, from, amountA, amountB, tx), asset) == Supply(s, asset)
  {
    hide NormalizeAsset, NormalizeAccount, DebitBoth;
    var s2 := DebitBoth(s, pool, from, amountA, amountB);
    DebitBothAccounts(s, pool, from, amountA, amountB, asset);
    var pool' := pool.(reserveA := pool.reserveA + amountA, reserveB := pool.reserveB + amountB, lastTx := tx);
    SetPoolAccounts(s2, pool', asset);
  }

  lemma SetPoolAccounts(s: State, p: Pool, asset: string)
    requires Sane(s) && p.id in s.pools && PoolSane(p, p.id)
    ensures Sane(s.(pools := s.pools[p.id := p]))
    ensures Supply(s.(pools := s.pools[p.id := p]), asset)
            == Supply(s, asset) - ReserveOf(s.pools[p.id], asset) + ReserveOf(p, asset)
  {
    hide NormalizeAsset;
    PoolAccounts(s.pools, p.id, p, asset);
    assert Holdings(s.(pools := s.pools[p.id := p]), asset) == Holdings(s, asset);
  }

  lemma DebitBothAccounts(s: State, pool: Pool, from: string, amountA: int, amountB: int, asset: string)
    requires PKN !in s.assets && PoolSane(pool, pool.id)
    requires CanDebit(s, pool.assetA, from, amountA) && CanDebit(s, pool.assetB, from, amountB)
    ensures var s' := DebitBoth(s, pool, from, amountA, amountB);
            && s'.pools == s.pools && PKN !in s'.assets
            && Sum(Holdings(s', asset)) == Sum(Holdings(s, asset))
               - Only(asset, pool.assetA, amountA) - Only(asset, pool.assetB, amountB)
  {
    hide NormalizeAsset, NormalizeAccount;
    var s1 := Debit(s, pool.assetA, from, amountA);
    DebitAccounts(s, pool.assetA, from, amountA, asset);
    DebitAccounts(s, pool.assetA, from, amountA, pool.assetB);
    DebitAccounts(s1, pool.assetB, from, amountB, asset);
  }

  lemma SwapAccounts(s: State, n: Tx, asset: string)
    requires Sane(s) && n.amm.Some? && ApplySwapTx(s, n).Applied?
    ensures Sane(ApplySwapTx(s, n).state) && SwapTerms(s, n).Some?
    ensures var (pool, out) := SwapTerms(s, n).value;
            Supply(ApplySwapTx(s, n).state, asset)
            == Supply(s, asset) + Only(asset, NormalizeAsset(n.amm.value.assetOut), out)
               - Only(asset, OtherAsset(pool, n.amm.value.assetIn), out)
  {
    hide NormalizeAsset, NormalizeAccount, NormalizePoolID, QuoteSwap;
    hide Debit, Credit, CanDebit, Supply, ApplySwap, Sane;
    var a := n.amm.value;
    SwapPoolSane(s, n);
    var (pool, out) := SwapTerms(s, n).value;
    TradeAccounts(s, a.assetIn, a.amountIn, a.assetOut, out, n.from, asset);
    var s2 := Credit(Debit(s, a.assetIn, n.from, a.amountIn), a.assetOut, n.from, out);
    var pool' := ApplySwap(pool, a.assetIn, a.amountIn, out).pool.(lastTx := n.id);
    SwapReserves(pool, a.assetIn, a.amountIn, out, n.id, asset);
    SetPoolAccounts(s2, pool', asset);
    AdvancedAccounts(s2.(pools := s2.pools[pool.id := pool']), n.(amm := Some(a.(amountOut := out))), asset);
  }

  lemma SwapPoolSane(s: State, n: Tx)
    requires Sane(s) && n.amm.Some? && ApplySwapTx(s, n).Applied?
    ensures SwapTerms(s, n).Some?
    ensures var (pool, out) := SwapTerms(s, n).value;
            && out > 0 && PoolSane(pool, pool.id) && pool.id in s.pools && s.pools[pool.id] == pool
            && CanDebit(s, n.amm.value.assetIn, n.from, n.amm.value.amountIn)
            && ApplySwap(pool, n.amm.value.assetIn, n.amm.value.amountIn, out).Swapped?
  {
    hide NormalizeAsset, NormalizeAccount, NormalizePoolID, QuoteSwap, Debit, Credit;
  }

  /** The trader's side of a swap. */
  lemma TradeAccounts(s: State, assetIn: string, amountIn: int, assetOut: string, out: int, who: string, asset: string)
    requires Sane(s) && out > 0 && CanDebit(s, assetIn, who, amountIn)
    ensures var s' := Credit(Debit(s, assetIn, who, amountIn), assetOut, who, out);
            && Sane(s') && s'.pools == s.pools
            && Supply(s', asset) == Supply(s, asset)
               - Only(asset, NormalizeAsset(assetIn), amountIn) + Only(asset, NormalizeAsset(assetOut), out)
  {
    hide NormalizeAsset, NormalizeAccount;
    DebitAccounts(s, assetIn, who, amountIn, asset);
    CreditAccounts(Debit(s, assetIn, who, amountIn), assetOut, who, out, asset);
  }

  /** The pool's side of a swap. */
  lemma SwapReserves(pool: Pool, assetIn: string, amountIn: int, out: int, tx: string, asset: string)
    requires PoolSane(pool, pool.id) && ApplySwap(pool, assetIn, amountIn, out).Swapped?
    ensures var pool' := ApplySwap(pool, assetIn, amountIn, out).pool.(lastTx := tx);
            && PoolSane(pool', pool.id)
            && ReserveOf(pool', asset) == ReserveOf(pool, asset) + Only(asset, NormalizeAsset(assetIn), amountIn)
                                          - Only(asset, OtherAsset(pool, assetIn), out)
  {
    hide NormalizeAsset;
  }

  /** The books balance: over balances and reserves together, an accepted transaction changes the
      supply of every asset by exactly what it issues. */
  lemma ApplyAccounts(c: Checks, s: State, t: Tx, asset: string)
    requires Sane(s) && Apply(c, s, t).Applied?
    ensures Sane(Apply(c, s, t).state)
    ensures Supply(Apply(c, s, t).state, asset) == Supply(s, asset) + Issued(s, t, asset)
  {
    hide Signed, NormalizeAccount, NormalAmm, ApplyAmm, ApplyMint, ApplyTransfer, NormalNft, NftKey;
    hide ValidNftMint, ValidNftTransfer, SameAccount, NormalizeAsset, NormalizePoolID;
    if t.amm.Some? {
      AmmAccounts(c, s, t, asset);
    } else if IsAmm(t) {
      AmmNeedsPayload(c, s, t);
    } else if t.kind == "nft_mint" || t.kind == "nft_transfer" {
      assert Holdings(Apply(c, s, t).state, asset) == Holdings(s, asset);
    } else if t.kind == "mint" {
      MintAccounts(c, s, t, asset);
    } else {
      TransferAccounts(c, s, t, asset);
    }
  }

  lemma AmmAccounts(c: Checks, s: State, t: Tx, asset: string)
    requires Sane(s) && t.amm.Some? && ApplyAmm(c, s, t).Applied?
    ensures Sane(ApplyAmm(c, s, t).state)
    ensures Supply(ApplyAmm(c, s, t).state, asset) == Supply(s, asset) + Issued(s, t, asset)
  {
    hide Signed, NormalizeAsset, NormalizeAccount, NormalizePoolID, PoolID, NormalAmm;
    hide ApplyCreatePool, ApplyAddLiquidity;
    var n := NormalAmm(t);
    NormalAmmFields(t);
    var a := n.amm.value;
    if a.action == "asset_credit" {
      CreditAccounts(s, a.asset, n.to, a.amount, asset);
      AdvancedAccounts(Credit(s, a.asset, n.to, a.amount), n, asset);
    } else if a.action == "asset_debit" {
      DebitAccounts(s, a.asset, n.to, a.amount, asset);
      AdvancedAccounts(Debit(s, a.asset, n.to, a.amount), n, asset);
    } else if a.action == "amm_create_pool" {
      CreatePoolAccounts(c, s, n, asset);
    } else if a.action == "amm_add_liquidity" {
      AddLiquidityAccounts(c, s, n, asset);
    } else {
      SwapAccounts(s, n, asset);
    }
  }

  lemma NormalAmmFields(t: Tx)
    requires t.amm.Some?
    ensures var n := NormalAmm(t);
            && n.amm.Some? && NormalizeAccount(n.to) == n.to
            && NormalizeAsset(n.amm.value.asset) == n.amm.value.asset
            && NormalizeAsset(n.amm.value.assetIn) == n.amm.value.assetIn
            && NormalizeAsset(n.amm.value.assetOut) == n.amm.value.assetOut
  {
    AccountNormal(t.to);
    AssetNormal(t.amm.value.asset);
    AssetNormal(t.amm.value.assetIn);
    AssetNormal(t.amm.value.assetOut);
  }

  // ----- swaps and the asset they name -----------------------------------------------------------

  predicate IsSwap(t: Tx) {
    t.amm.Some? && NormalAmm(t).amm.value.action == "amm_swap"
  }

  lemma SwapHasTerms(c: Checks, s: State, t: Tx)
    requires IsSwap(t) && Apply(c, s, t).Applied?
    ensures SwapTerms(s, NormalAmm(t)).Some? && SwapTerms(s, NormalAmm(t)).value.1 > 0
  {
    hide Signed, NormalizeAsset, NormalizeAccount, NormalizePoolID, PoolID;
  }

  /** A swap credits the asset its transaction names, without comparing it with the pool.  It
      conserves every asset exactly when that name is the pool's other asset. */
  lemma SwapConservesIffNamed(c: Checks, s: State, t: Tx)
    requires Sane(s) && IsSwap(t) && Apply(c, s, t).Applied?
    ensures SwapTerms(s, NormalAmm(t)).Some?
    ensures (forall asset :: Supply(Apply(c, s, t).state, asset) == Supply(s, asset))
            <==> NormalAmm(t).amm.value.assetOut == OtherAsset(SwapTerms(s, NormalAmm(t)).value.0, t.amm.value.assetIn)
  {
    hide Signed, NormalizeAsset, NormalizeAccount, NormalizePoolID, PoolID, Apply, Sane, Supply;
    SwapHasTerms(c, s, t);
    AssetNormal(t.amm.value.assetIn);
    var n := NormalAmm(t);
    var (pool, out) := SwapTerms(s, n).value;
    assert OtherAsset(pool, t.amm.value.assetIn) == OtherAsset(pool, n.amm.value.assetIn);
    forall asset ensures Supply(Apply(c, s, t).state, asset) == Supply(s, asset) + Issued(s, t, asset) {
      ApplyAccounts(c, s, t, asset);
    }
    var named := n.amm.value.assetOut;
    assert named != OtherAsset(pool, n.amm.value.assetIn) ==> Issued(s, t, named) == out;
  }

  const EXAMPLE_POOL := Pool("PKN-WPKN", "PKN", "WPKN", 1000, 1000, AMM_FEE_BPS, "t0", "t0")
  const EXAMPLE_LEDGER := EMPTY.(accounts := map["ada" := 500], pools := map["PKN-WPKN" := EXAMPLE_POOL])
  const EXAMPLE_SWAP := Tx("t1", "ada", "", 0, "", "amm_swap", 0, None,
                           Some(AmmPayload("amm_swap", "PKN-WPKN", "", "", "", "PKN", "GOLD",
                                            0, 0, 0, 100, 0, 0, AMM_FEE_BPS)))

  lemma ExampleNames()
    ensures NormalizeAsset("PKN") == "PKN" && NormalizeAsset("WPKN") == "WPKN" && NormalizeAsset("GOLD") == "GOLD"
    ensures NormalizeAsset("") == "" && NormalizeAccount("ada") == "ada" && NormalizeAccount("") == ""
    ensures NormalizePoolID("PKN-WPKN") == "PKN-WPKN" && ToLower(TrimSpace("amm_swap")) == "amm_swap"
  {
    hide NormalizeAsset, NormalizeAccount, NormalizePoolID, ToLower, TrimSpace;
    ExampleAssets();
    ExampleOthers();
    ExamplePool();
  }

  lemma ExampleAssets()
    ensures NormalizeAsset("PKN") == "PKN" && NormalizeAsset("WPKN") == "WPKN" && NormalizeAsset("GOLD") == "GOLD"
    ensures NormalizeAsset("") == ""
  {
    TrimIdentity("PKN");
    TrimIdentity("WPKN");
    TrimIdentity("GOLD");
    TrimIdentity("");
    hide TrimSpace;
    assert ToUpper("PKN") == "PKN" && ToUpper("WPKN") == "WPKN" && ToUpper("GOLD") == "GOLD" && ToUpper("") == "";
  }

  lemma ExampleOthers()
    ensures NormalizeAccount("ada") == "ada" && NormalizeAccount("") == ""
    ensures ToLower(TrimSpace("amm_swap")) == "amm_swap"
  {
    TrimIdentity("ada");
    TrimIdentity("");
    TrimIdentity("amm_swap");
    hide TrimSpace;
    assert ToLower("amm_swap") == "amm_swap";
  }

  lemma ExamplePool()
    ensures NormalizePoolID("PKN-WPKN") == "PKN-WPKN"
  {
    hide NormalizePoolID, NormalizeAsset, TrimSpace;
    ExampleAssets();
    assert "PKN" + "-" + "WPKN" == "PKN-WPKN";
    assert ToUpper("PKN-WPKN") == "PKN-WPKN";
    NormalPoolID("PKN", "WPKN");
  }

  /** A swap of PKN that names GOLD on the PKN-WPKN pool is accepted and makes 90 GOLD. */
  lemma MisnamedSwapMakesGold(c: Checks)
    requires c.verify(Signed(EXAMPLE_SWAP))
    ensures Apply(c, EXAMPLE_LEDGER, EXAMPLE_SWAP).Applied?
    ensures Supply(Apply(c, EXAMPLE_LEDGER, EXAMPLE_SWAP).state, "GOLD") == Supply(EXAMPLE_LEDGER, "GOLD") + 90
  {
    hide NormalizeAsset, NormalizeAccount, NormalizePoolID, PoolID, ToLower, TrimSpace, ApplySwapTx;
    hide Supply, Signed, QuoteSwap;
    ExampleNames();
    ExampleSwapApplies();
    assert NormalAmm(EXAMPLE_SWAP) == EXAMPLE_SWAP;
    SwapAccounts(EXAMPLE_LEDGER, EXAMPLE_SWAP, "GOLD");
  }

  lemma ExampleSwapApplies()
    ensures Sane(EXAMPLE_LEDGER) && ApplySwapTx(EXAMPLE_LEDGER, EXAMPLE_SWAP).Applied?
    ensures QuoteSwap(EXAMPLE_POOL, "PKN", 100) == Quote(90)
  {
    hide NormalizeAsset, NormalizeAccount, NormalizePoolID, QuoteSwap;
    ExampleNames();
    ExampleQuote();
  }

  lemma ExampleQuote()
    requires NormalizeAsset("PKN") == "PKN"
    ensures QuoteSwap(EXAMPLE_POOL, "PKN", 100) == Quote(90)
  {
    hide NormalizeAsset;
    assert AfterFee(EXAMPLE_POOL, 100) == 99;
  }

  // ----- nothing goes negative -------------------------------------------------------------------

  lemma DebitNonNegative(s: State, a: string, who: string, amount: int)
    requires NonNegative(s) && CanDebit(s, a, who, amount)
    ensures NonNegative(Debit(s, a, who, amount))
  {
    hide NormalizeAsset, NormalizeAccount;
  }

  lemma CreditNonNegative(s: State, a: string, who: string, amount: int)
    requires NonNegative(s)
    ensures NonNegative(Credit(s, a, who, amount))
  {
    hide NormalizeAsset, NormalizeAccount;
  }

  lemma AmmNonNegative(c: Checks, s: State, t: Tx)
    requires NonNegative(s) && t.amm.Some? && ApplyAmm(c, s, t).Applied?
    ensures NonNegative(ApplyAmm(c, s, t).state)
  {
    hide Signed, NormalizeAsset, NormalizeAccount, NormalizePoolID, PoolID, NormalPayload, QuoteSwap;
    hide Debit, Credit, CanDebit;
    var n := NormalAmm(t);
    var a := n.amm.value;
    if a.action == "asset_credit" {
      CreditNonNegative(s, a.asset, n.to, a.amount);
    } else if a.action == "asset_debit" {
      DebitNonNegative(s, a.asset, n.to, a.amount);
    } else if a.action == "amm_add_liquidity" {
      var pool := s.pools[NormalizePoolID(a.poolID)];
      DebitNonNegative(s, pool.assetA, n.from, a.amountA);
      var s1 := Debit(s, pool.assetA, n.from, a.amountA);
      if CanDebit(s1, pool.assetB, n.from, a.amountB) {
        DebitNonNegative(s1, pool.assetB, n.from, a.amountB);
      }
      assert NonNegative(DebitBoth(s, pool, n.from, a.amountA, a.amountB));
    } else if a.action == "amm_swap" {
      SwapNonNegative(s, n);
    }
  }

  lemma SwapNonNegative(s: State, n: Tx)
    requires NonNegative(s) && n.amm.Some? && ApplySwapTx(s, n).Applied?
    ensures NonNegative(ApplySwapTx(s, n).state)
  {
    hide Signed, NormalizeAsset, NormalizeAccount, NormalizePoolID, PoolID, NormalPayload;
    hide QuoteSwap, Debit, Credit, CanDebit, ApplySwap;
    var a := n.amm.value;
    var pool := s.pools[NormalizePoolID(a.poolID)];
    SwapGrowsProduct(pool, a.assetIn, a.amountIn);
    DebitNonNegative(s, a.assetIn, n.from, a.amountIn);
    var s1 := Debit(s, a.assetIn, n.from, a.amountIn);
    CreditNonNegative(s1, a.assetOut, n.from, QuoteSwap(pool, a.assetIn, a.amountIn).out);
  }

  /** No accepted transaction leaves a negative balance or reserve. */
  lemma ApplyNonNegative(c: Checks, s: State, t: Tx)
    requires NonNegative(s) && Apply(c, s, t).Applied?
    ensures NonNegative(Apply(c, s, t).state)
  {
    hide Signed, ApplyAmm, ApplyTransfer, NormalNft, NftKey, ValidNftMint, ValidNftTransfer, SameAccount;
    if t.amm.Some? {
      AmmNonNegative(c, s, t);
    } else if IsAmm(t) {
      AmmNeedsPayload(c, s, t);
    } else if !IsNft(t) && t.kind != "mint" {
      TransferNonNegative(c, s, t);
    }
  }

  lemma TransferNonNegative(c: Checks, s: State, t: Tx)
    requires NonNegative(s) && ApplyTransfer(c, s, t).Applied?
    ensures NonNegative(ApplyTransfer(c, s, t).state)
  {
    hide Signed, IsEvm;
  }

  // ----- lists of transactions ---------------------------------------------------------------------

  /** What the accepted ones among the transactions issue, in order. */
  function IssuedBy(c: Checks, s: State, txs: seq<Tx>, asset: string): int
    decreases |txs|
  {
    if txs == [] then 0 else
    var r := Apply(c, s, txs[0]);
    if r.Rejected? then IssuedBy(c, s, txs[1..], asset)
    else Issued(s, txs[0], asset) + IssuedBy(c, r.state, txs[1..], asset)
  }

  lemma {:induction false} ListAccounts(c: Checks, s: State, txs: seq<Tx>, asset: string)
    requires Sane(s)
    ensures Sane(ApplySome(c, s, txs))
    ensures Supply(ApplySome(c, s, txs), asset) == Supply(s, asset) + IssuedBy(c, s, txs, asset)
    decreases |txs|
  {
    hide Apply, Sane, Supply, Issued;
    if txs != [] {
      var r := Apply(c, s, txs[0]);
      if r.Applied? {
        ApplyAccounts(c, s, txs[0], asset);
        ListAccounts(c, r.state, txs[1..], asset);
      } else {
        ListAccounts(c, s, txs[1..], asset);
      }
    }
  }

  lemma {:induction false} ListNonNegative(c: Checks, s: State, txs: seq<Tx>)
    requires NonNegative(s)
    ensures NonNegative(ApplySome(c, s, txs))
    decreases |txs|
  {
    hide Apply, NonNegative;
    if txs != [] {
      var r := Apply(c, s, txs[0]);
      if r.Applied? {
        ApplyNonNegative(c, s, txs[0]);
        ListNonNegative(c, r.state, txs[1..]);
      } else {
        ListNonNegative(c, s, txs[1..]);
      }
    }
  }
}
