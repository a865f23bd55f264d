/** The effect of a transaction as a double-entry posting: which balance of which asset moves by how
    much, every other balance staying put; and who may change a token. */
module Postings {
  import opened Text
  import opened Amm
  import opened Sums
  import opened Ledgers
  import opened LedgerLaws
  import opened Conservation

  function BalanceOf(s: State, asset: string, who: string): int {
    Get(Holdings(s, asset), who)
  }

  /** An amount posted to one account in one asset, seen from another. */
  function At(asset: string, who: string, onAsset: string, onAccount: string, amount: int): int {
    if asset == onAsset && who == onAccount then amount else 0
  }

  /** What an accepted transaction posts to each account. */
  function Posted(s: State, t: Tx, asset: string, who: string): int {
    if t.amm.Some? then PoolPosted(s, NormalAmm(t), asset, who)
    else if t.kind == "mint" then At(asset, who, PKN, t.to, t.amount)
    else if IsNft(t) then 0
    else At(asset, who, PKN, t.to, t.amount) - At(asset, who, PKN, t.from, t.amount)
  }

  function PoolPosted(s: State, n: Tx, asset: string, who: string): int
    requires n.amm.Some?
  {
    var a, payer := n.amm.value, NormalizeAccount(n.from);
    if a.action == "asset_credit" then At(asset, who, a.asset, n.to, a.amount)
    else if a.action == "asset_debit" then -At(asset, who, a.asset, n.to, a.amount)
    else if a.action == "amm_add_liquidity" && NormalizePoolID(a.poolID) in s.pools then
      var pool := s.pools[NormalizePoolID(a.poolID)];
      -At(asset, who, pool.assetA, payer, a.amountA) - At(asset, who, pool.assetB, payer, a.amountB)
    else if a.action == "amm_swap" && SwapTerms(s, n).Some? then
      At(asset, who, a.assetOut, payer, SwapTerms(s, n).value.1) - At(asset, who, a.assetIn, payer, a.amountIn)
    else 0
  }

  lemma DebitPosts(s: State, a: string, account: string, amount: int, asset: string, who: string)
    requires CanDebit(s, a, account, amount)
    ensures var s' := Debit(s, a, account, amount);
            && BalanceOf(s', asset, who)
               == BalanceOf(s, asset, who) - At(asset, who, NormalizeAsset(a), NormalizeAccount(account), amount)
            && s'.pools == s.pools
  {
    hide NormalizeAsset, NormalizeAccount;
  }

  lemma CreditPosts(s: State, a: string, account: string, amount: int, asset: string, who: string)
    requires amount > 0 && NormalizeAccount(account) != ""
    ensures var s' := Credit(s, a, account, amount);
            && BalanceOf(s', asset, who)
               == BalanceOf(s, asset, who) + At(asset, who, NormalizeAsset(a), NormalizeAccount(account), amount)
  {
    hide NormalizeAsset, NormalizeAccount;
  }

  lemma SwapPosts(s: State, n: Tx, asset: string, who: string)
    requires Sane(s) && n.amm.Some? && ApplySwapTx(s, n).Applied?
    ensures SwapTerms(s, n).Some?
    ensures var a := n.amm.value;
            BalanceOf(ApplySwapTx(s, n).state, asset, who)
            == BalanceOf(s, asset, who)
               + At(asset, who, NormalizeAsset(a.assetOut), NormalizeAccount(n.from), SwapTerms(s, n).value.1)
               - At(asset, who, NormalizeAsset(a.assetIn), NormalizeAccount(n.from), a.amountIn)
  {
    hide NormalizeAsset, NormalizePoolID, QuoteSwap, Debit, Credit, ApplySwap, Sane;
    SwapPoolSane(s, n);
    var a, out := n.amm.value, SwapTerms(s, n).value.1;
    DebitPosts(s, a.assetIn, n.from, a.amountIn, asset, who);
    CreditPosts(Debit(s, a.assetIn, n.from, a.amountIn), a.assetOut, n.from, out, asset, who);
  }

  lemma LiquidityPosts(c: Checks, s: State, n: Tx, asset: string, who: string)
    requires Sane(s) && n.amm.Some? && ApplyAddLiquidity(c, s, n).Applied?
    ensures NormalizePoolID(n.amm.value.poolID) in s.pools
    ensures var a, pool := n.amm.value, s.pools[NormalizePoolID(n.amm.value.poolID)];
            BalanceOf(ApplyAddLiquidity(c, s, n).state, asset, who)
            == BalanceOf(s, asset, who) - At(asset, who, pool.assetA, NormalizeAccount(n.from), a.amountA)
               - At(asset, who, pool.assetB, NormalizeAccount(n.from), a.amountB)
  {
    hide NormalizeAsset, NormalizeAccount, NormalizePoolID, Debit, Sum;
    var a := n.amm.value;
    var pool := s.pools[NormalizePoolID(a.poolID)];
    var s1 := Debit(s, pool.assetA, n.from, a.amountA);
    DebitPosts(s, pool.assetA, n.from, a.amountA, asset, who);
    DebitPosts(s, pool.assetA, n.from, a.amountA, pool.assetB, NormalizeAccount(n.from));
    DebitPosts(s1, pool.assetB, n.from, a.amountB, asset, who);
  }

  lemma PoolPosts(c: Checks, s: State, t: Tx, asset: string, who: string)
    requires Sane(s) && t.amm.Some? && ApplyAmm(c, s, t).Applied?
    ensures NormalAmm(t).amm.Some?
    ensures BalanceOf(ApplyAmm(c, s, t).state, asset, who)
         == BalanceOf(s, asset, who) + PoolPosted(s, NormalAmm(t), asset, who)
  {
    hide Signed, NormalAmm, NormalizePoolID, PoolID, Sane, Debit, Credit, CanDebit, ApplySwapTx;
    hide ApplyAddLiquidity, SwapTerms, IsOperator;
    NormalAmmFields(t);
    var n := NormalAmm(t);
    var a := n.amm.value;
    if a.action == "asset_credit" {
      CreditPosts(s, a.asset, n.to, a.amount, asset, who);
    } else if a.action == "asset_debit" {
      DebitPosts(s, a.asset, n.to, a.amount, asset, who);
    } else if a.action == "amm_add_liquidity" {
      LiquidityPosts(c, s, n, asset, who);
    } else if a.action == "amm_swap" {
      SwapPosts(s, n, asset, who);
    }
  }

  /** Every balance of every asset moves by exactly what the transaction posts to it. */
  lemma ApplyPosts(c: Checks, s: State, t: Tx, asset: string, who: string)
    requires Sane(s) && Apply(c, s, t).Applied?
    ensures BalanceOf(Apply(c, s, t).state, asset, who) == BalanceOf(s, asset, who) + Posted(s, t, asset, who)
  {
    hide Signed, ApplyAmm, NormalAmm, NormalNft, NftKey, ValidNftMint, ValidNftTransfer;
    hide SameAccount, Sane, PoolPosted, ApplyMint, ApplyTransfer;
    if t.amm.Some? {
      PoolPosts(c, s, t, asset, who);
    } else if IsAmm(t) {
      AmmNeedsPayload(c, s, t);
    } else if IsNft(t) {
      assert Holdings(Apply(c, s, t).state, asset) == Holdings(s, asset);
    } else {
      PaymentPosts(c, s, t, asset, who);
    }
  }

  lemma PaymentPosts(c: Checks, s: State, t: Tx, asset: string, who: string)
    ensures ApplyMint(c, s, t).Applied? ==>
              BalanceOf(ApplyMint(c, s, t).state, asset, who)
              == BalanceOf(s, asset, who) + At(asset, who, PKN, t.to, t.amount)
    ensures ApplyTransfer(c, s, t).Applied? ==>
              BalanceOf(ApplyTransfer(c, s, t).state, asset, who)
              == BalanceOf(s, asset, who) + At(asset, who, PKN, t.to, t.amount) - At(asset, who, PKN, t.from, t.amount)
  {
    hide Signed, IsEvm;
  }

  // ----- tokens ------------------------------------------------------------------------------------------

  /** What never changes about a token once minted. */
  predicate SameToken(a: NftToken, b: NftToken) {
    b == a.(owner := b.owner, lastTx := b.lastTx)
  }

  /** The token key a transaction is about. */
  function KeyOf(t: Tx): string {
    if t.nft.None? then "" else NftKey(t.nft.value.collection, t.nft.value.token)
  }

  /** Tokens appear only by a mint of that key, with the signer as minter; they never disappear, and
      only a transfer signed by the current owner changes one, moving it to the named account. */
  lemma TokenStep(c: Checks, s: State, t: Tx, key: string)
    requires Apply(c, s, t).Applied?
    ensures var s' := Apply(c, s, t).state;
            && (key in s.nfts ==> key in s'.nfts && SameToken(s.nfts[key], s'.nfts[key]))
            && (key in s.nfts && s'.nfts[key] != s.nfts[key] ==>
                  && t.amm.None? && t.kind == "nft_transfer" && KeyOf(t) == key && c.verify(Signed(NormalNft(t)))
                  && SameAccount(s.nfts[key].owner, t.from) && s'.nfts[key].owner == NormalizeAccount(t.to))
            && (key !in s.nfts && key in s'.nfts ==>
                  t.amm.None? && t.kind == "nft_mint" && KeyOf(t) == key && s'.nfts[key].minter == t.from)
  {
    hide Signed, ApplyAmm, ApplyTransfer, ApplyMint, NftKey, SameAccount;
    if IsAmm(t) {
      PoolKeepsTokens(c, s, t);
    } else if IsNft(t) {
      NftKeyNormal(t);
      AccountNormal(t.to);
      hide NormalizeAccount, NormalizeNftId;
    } else {
      PaymentKeepsTokens(c, s, t);
    }
  }

  lemma PaymentKeepsTokens(c: Checks, s: State, t: Tx)
    ensures ApplyTransfer(c, s, t).Applied? ==> ApplyTransfer(c, s, t).state.nfts == s.nfts
    ensures ApplyMint(c, s, t).Applied? ==> ApplyMint(c, s, t).state.nfts == s.nfts
  {
    hide Signed;
  }

  lemma NftKeyNormal(t: Tx)
    requires t.nft.Some?
    ensures KeyOf(NormalNft(t)) == KeyOf(t)
  {
    NftIdNormal(t.nft.value.collection);
    NftIdNormal(t.nft.value.token);
    hide NormalizeNftId, NormalizeAccount;
  }

  lemma AssetKeepsTokens(s: State, a: string, account: string, amount: int)
    ensures Credit(s, a, account, amount).nfts == s.nfts
    ensures CanDebit(s, a, account, amount) ==> Debit(s, a, account, amount).nfts == s.nfts
  {
    hide NormalizeAsset, NormalizeAccount;
  }

  lemma PoolKeepsTokens(c: Checks, s: State, t: Tx)
    requires ApplyAmm(c, s, t).Applied?
    ensures ApplyAmm(c, s, t).state.nfts == s.nfts && t.amm.Some?
  {
    hide Signed, NormalPayload, ValidAmm, Debit, Credit, CanDebit, PoolID, NormalizeAsset;
    hide NormalizeAccount, NormalizePoolID, QuoteSwap, ApplySwap, IsOperator;
    var n := NormalAmm(t);
    var a := n.amm.value;
    AssetKeepsTokens(s, a.asset, n.to, a.amount);
    AssetKeepsTokens(s, a.assetIn, n.from, a.amountIn);
    if a.action == "amm_add_liquidity" {
      var pool := s.pools[NormalizePoolID(a.poolID)];
      AssetKeepsTokens(s, pool.assetA, n.from, a.amountA);
      AssetKeepsTokens(Debit(s, pool.assetA, n.from, a.amountA), pool.assetB, n.from, a.amountB);
    } else if a.action == "amm_swap" {
      var q := QuoteSwap(s.pools[NormalizePoolID(a.poolID)], a.assetIn, a.amountIn);
      AssetKeepsTokens(Debit(s, a.assetIn, n.from, a.amountIn), a.assetOut, n.from, q.out);
    }
  }

  /** Over any list of transactions a minted token stays, with its minter and its metadata. */
  lemma {:induction false} TokensPersist(c: Checks, s: State, txs: seq<Tx>, key: string)
    requires key in s.nfts
    ensures key in ApplySome(c, s, txs).nfts && SameToken(s.nfts[key], ApplySome(c, s, txs).nfts[key])
    decreases |txs|
  {
    hide Apply;
    if txs != [] {
      var r := Apply(c, s, txs[0]);
      if r.Applied? {
        TokenStep(c, s, txs[0], key);
        TokensPersist(c, r.state, txs[1..], key);
      } else {
        TokensPersist(c, s, txs[1..], key);
      }
    }
  }
}
