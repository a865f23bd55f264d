/** When a transaction is accepted, and what it leaves behind besides balances and nonces: the record of
    its identifier, validators, tokens and pools. */
module Effects {
  import opened Text
  import opened Amm
  import opened Sums
  import opened Ledgers
  import opened Conservation
  import opened Postings
  import opened Replays
  import opened Authority

  // ----- acceptance ------------------------------------------------------------------------------------

  /** A transfer needs a signature and a covered amount of at least 1, or 0 when it is EVM-signed, and
      then the ledger's nonce.  A mint needs a signature, an amount of at least 1 and a sender with a
      positive balance.  Nothing else. */
  lemma PaymentAccepted(c: Checks, s: State, t: Tx)
    ensures IsTransfer(t) ==>
              (Apply(c, s, t).Applied? <==>
                && c.verify(Signed(t)) && Get(s.accounts, t.from) >= t.amount
                && (t.amount >= 1 || (t.amount == 0 && IsEvm(t)))
                && (IsEvm(t) ==> Get(s.nonces, t.from) == t.nonce))
    ensures IsMint(t) ==>
              (Apply(c, s, t).Applied? <==> c.verify(Signed(t)) && t.amount >= 1 && Get(s.accounts, t.from) > 0)
  {
    hide Signed;
  }

  /** A pool transaction in normal form that is well-formed, signed and has its nonce. */
  predicate Presentable(c: Checks, s: State, n: Tx)
    requires n.amm.Some?
  {
    ValidAmm(n) && c.verify(Signed(n)) && (IsEvm(n) ==> Get(s.nonces, n.from) == n.nonce)
  }

  /** An account that holds an amount of an asset. */
  predicate Holds(s: State, asset: string, account: string, amount: int) {
    account != "" && BalanceOf(s, asset, account) >= amount
  }

  lemma CanDebitIsHolds(s: State, asset: string, account: string, amount: int)
    ensures amount > 0 ==>
              (CanDebit(s, asset, account, amount)
               <==> Holds(s, NormalizeAsset(asset), NormalizeAccount(account), amount))
  {
    hide NormalizeAsset, NormalizeAccount;
  }

  /** What each pool action needs besides: an operator for all but the swap, balances that cover what is
      taken, a pool that exists or does not, and for a swap a quote of at least the stated minimum. */
  lemma PoolTxAccepted(c: Checks, s: State, t: Tx)
    requires Sane(s) && t.amm.Some?
    ensures NormalAmm(t).amm.Some?
    ensures var n := NormalAmm(t); var a := n.amm.value;
            var payer, pool := NormalizeAccount(n.from), NormalizePoolID(a.poolID);
            Apply(c, s, t).Applied? <==>
              && Presentable(c, s, n)
              && (a.action != "amm_swap" ==> Operator(c, s, n.from))
              && (a.action == "asset_debit" ==> Holds(s, a.asset, n.to, a.amount))
              && (a.action == "amm_create_pool" ==>
                    var id := PoolID(a.assetA, a.assetB); id != "" && id !in s.pools)
              && (a.action == "amm_add_liquidity" ==>
                    && pool in s.pools
                    && Holds(s, s.pools[pool].assetA, payer, a.amountA)
                    && Holds(s, s.pools[pool].assetB, payer, a.amountB))
              && (a.action == "amm_swap" ==>
                    && pool in s.pools && Holds(s, a.assetIn, payer, a.amountIn)
                    && QuoteSwap(s.pools[pool], a.assetIn, a.amountIn).Quote?
                    && QuoteSwap(s.pools[pool], a.assetIn, a.amountIn).out >= a.minAmountOut)
  {
    hide Signed, NormalAmm, Sane, PoolID, QuoteSwap, CanDebit, Debit, Credit, NormalizeAccount, NormalizePoolID;
    hide NormalizeAsset, Holds, ApplySwapTx, ApplyAddLiquidity;
    NormalAmmFields(t);
    var n := NormalAmm(t);
    var a := n.amm.value;
    assert Apply(c, s, t) == ApplyAmm(c, s, t);
    CanDebitIsHolds(s, a.asset, n.to, a.amount);
    if ValidAmm(n) && a.action == "amm_add_liquidity" {
      LiquidityAccepted(c, s, n);
    } else if ValidAmm(n) && a.action == "amm_swap" {
      SwapAccepted(s, n);
    }
  }

  lemma LiquidityAccepted(c: Checks, s: State, n: Tx)
    requires Sane(s) && n.amm.Some? && n.amm.value.amountA > 0 && n.amm.value.amountB > 0
    ensures var a, payer, pool := n.amm.value, NormalizeAccount(n.from), NormalizePoolID(n.amm.value.poolID);
            ApplyAddLiquidity(c, s, n).Applied? <==>
              && Operator(c, s, n.from) && pool in s.pools
              && Holds(s, s.pools[pool].assetA, payer, a.amountA)
              && Holds(s, s.pools[pool].assetB, payer, a.amountB)
  {
    hide CanDebit, Deposited, NormalizeAccount, NormalizePoolID, NormalizeAsset, Holds;
    var a, id := n.amm.value, NormalizePoolID(n.amm.value.poolID);
    if id in s.pools {
      var pool := s.pools[id];
      assert PoolSane(pool, id);
      CanDebitIsHolds(s, pool.assetA, n.from, a.amountA);
      CanDebitIsHolds(s, pool.assetB, n.from, a.amountB);
    }
  }

  lemma SwapAccepted(s: State, n: Tx)
    requires n.amm.Some? && n.amm.value.amountIn > 0 && n.amm.value.minAmountOut >= 0
    requires NormalizeAsset(n.amm.value.assetIn) == n.amm.value.assetIn
    ensures var a, payer, pool := n.amm.value, NormalizeAccount(n.from), NormalizePoolID(n.amm.value.poolID);
            ApplySwapTx(s, n).Applied? <==>
              && pool in s.pools && Holds(s, a.assetIn, payer, a.amountIn)
              && QuoteSwap(s.pools[pool], a.assetIn, a.amountIn).Quote?
              && QuoteSwap(s.pools[pool], a.assetIn, a.amountIn).out >= a.minAmountOut
  {
    hide CanDebit, Debit, Credit, NormalizeAccount, NormalizePoolID, NormalizeAsset, Holds, QuoteSwap, ApplySwap;
    var a, id := n.amm.value, NormalizePoolID(n.amm.value.poolID);
    CanDebitIsHolds(s, a.assetIn, n.from, a.amountIn);
    if id in s.pools && QuoteSwap(s.pools[id], a.assetIn, a.amountIn).Quote? {
      SwapGrowsProduct(s.pools[id], a.assetIn, a.amountIn);
      QuoteFacts(s.pools[id], a.assetIn, a.amountIn);
    }
  }

  // ----- records and validators --------------------------------------------------------------------------

  /** Who is registered by a mint: a receiver under a native key. */
  function RegisteredBy(c: Checks, t: Tx): set<string> {
    if IsMint(t) && t.to != "" && c.native(t.to) then {t.to} else {}
  }

  /** An accepted transaction records its identifier, and registers validators only by a mint. */
  lemma RecordsAndRegisters(c: Checks, s: State, t: Tx)
    requires Apply(c, s, t).Applied?
    ensures Apply(c, s, t).tx.id == t.id
    ensures Apply(c, s, t).state.recorded == s.recorded + {t.id}
    ensures Apply(c, s, t).state.validators == s.validators + RegisteredBy(c, t)
  {
    hide Signed, ApplyAmm, ValidNftMint, ValidNftTransfer, NftKey, SameAccount, NormalizeAccount, NormalizeNftId;
    if IsAmm(t) {
      PoolTxRecords(c, s, t);
    }
  }

  lemma AssetKeepsRecords(s: State, a: string, who: string, amount: int)
    ensures Credit(s, a, who, amount).recorded == s.recorded && Credit(s, a, who, amount).validators == s.validators
    ensures CanDebit(s, a, who, amount) ==>
              && Debit(s, a, who, amount).recorded == s.recorded
              && Debit(s, a, who, amount).validators == s.validators
  {
    hide NormalizeAsset, NormalizeAccount;
  }

  lemma PoolTxRecords(c: Checks, s: State, t: Tx)
    requires ApplyAmm(c, s, t).Applied?
    ensures ApplyAmm(c, s, t).tx.id == t.id
    ensures ApplyAmm(c, s, t).state.recorded == s.recorded + {t.id}
    ensures ApplyAmm(c, s, t).state.validators == s.validators
  {
    hide Signed, NormalPayload, ValidAmm, Debit, Credit, CanDebit, PoolID, NormalizeAsset;
    hide NormalizeAccount, NormalizePoolID, QuoteSwap, ApplySwap, IsOperator;
    var n := NormalAmm(t);
    var a := n.amm.value;
    AssetKeepsRecords(s, a.asset, n.to, a.amount);
    AssetKeepsRecords(s, a.assetIn, n.from, a.amountIn);
    if a.action == "amm_add_liquidity" {
      var pool := s.pools[NormalizePoolID(a.poolID)];
      AssetKeepsRecords(s, pool.assetA, n.from, a.amountA);
      AssetKeepsRecords(Debit(s, pool.assetA, n.from, a.amountA), pool.assetB, n.from, a.amountB);
    } else if a.action == "amm_swap" {
      var q := QuoteSwap(s.pools[NormalizePoolID(a.poolID)], a.assetIn, a.amountIn);
      AssetKeepsRecords(Debit(s, a.assetIn, n.from, a.amountIn), a.assetOut, n.from, q.out);
    }
  }

  // ----- tokens --------------------------------------------------------------------------------------------

  /** A token is minted by whoever signs for a complete record under a free key, and moved by whoever
      signs as its owner, unless it was burned. */
  lemma TokenTxAccepted(c: Checks, s: State, t: Tx)
    requires t.amm.None? && IsNft(t) && t.nft.Some?
    ensures var n, key := NormalNft(t), KeyOf(t);
            var signed := t.id != "" && t.from != "" && key != "" && c.verify(Signed(n));
            && (t.kind == "nft_mint" ==>
                  (Apply(c, s, t).Applied? <==>
                     signed && key !in s.nfts
                     && (NormalizeAccount(t.nft.value.owner) != "" || NormalizeAccount(t.to) != "")))
            && (t.kind == "nft_transfer" ==>
                  (Apply(c, s, t).Applied? <==>
                     signed && NormalizeAccount(t.to) != "" && key in s.nfts
                     && !s.nfts[key].burned && NormalizeAccount(s.nfts[key].owner) == NormalizeAccount(t.from)))
  {
    hide Signed, NftKey, NormalizeAccount, NormalizeNftId, SameAccount;
    NftIsNotAmm(t);
    if t.kind == "nft_mint" {
      MintTokenAccepted(c, s, t);
    } else {
      MoveTokenAccepted(c, s, t);
    }
  }

  lemma NftIsNotAmm(t: Tx)
    requires t.amm.None? && IsNft(t)
    ensures !IsAmm(t)
  {
    assert t.kind[0] == 'n';
  }

  lemma MintTokenAccepted(c: Checks, s: State, t: Tx)
    requires t.kind == "nft_mint" && t.nft.Some?
    ensures ApplyNftMint(c, s, t).Applied? <==>
              && t.id != "" && t.from != "" && KeyOf(t) != "" && KeyOf(t) !in s.nfts && c.verify(Signed(NormalNft(t)))
              && (NormalizeAccount(t.nft.value.owner) != "" || NormalizeAccount(t.to) != "")
  {
    hide Signed, NftKey, NormalizeAccount, NormalizeNftId;
    NftKeyNormal(t);
    KeyIsEmpty(t);
    AccountNormal(t.to);
    AccountNormal(t.nft.value.owner);
  }

  lemma MoveTokenAccepted(c: Checks, s: State, t: Tx)
    requires t.kind == "nft_transfer" && t.nft.Some?
    ensures ApplyNftTransfer(c, s, t).Applied? <==>
              && t.id != "" && t.from != "" && KeyOf(t) != "" && KeyOf(t) in s.nfts && c.verify(Signed(NormalNft(t)))
              && NormalizeAccount(t.to) != "" && !s.nfts[KeyOf(t)].burned
              && NormalizeAccount(s.nfts[KeyOf(t)].owner) == NormalizeAccount(t.from)
  {
    hide Signed, NftKey, NormalizeAccount, NormalizeNftId, SameAccount;
    NftKeyNormal(t);
    KeyIsEmpty(t);
    AccountNormal(t.to);
    if KeyOf(t) in s.nfts {
      SameAccountIsSame(s.nfts[KeyOf(t)].owner, t.from);
    }
  }

  lemma KeyIsEmpty(t: Tx)
    requires t.nft.Some?
    ensures KeyOf(t) == "" <==> NormalNft(t).nft.value.collection == "" || NormalNft(t).nft.value.token == ""
  {
    hide NormalizeNftId, NormalizeAccount;
  }

  lemma SameAccountIsSame(a: string, b: string)
    ensures SameAccount(a, b) <==> NormalizeAccount(a) == NormalizeAccount(b)
  {
    AccountLower(a);
    AccountLower(b);
    hide NormalizeAccount, ToLower;
  }

  /** A normalised 0x address is in lower case. */
  lemma AccountLower(a: string)
    ensures "0x" <= NormalizeAccount(a) ==> ToLower(NormalizeAccount(a)) == NormalizeAccount(a)
    ensures "0x" <= ToLower(NormalizeAccount(a)) ==> "0x" <= NormalizeAccount(a)
  {
    hide TrimSpace;
    var n := NormalizeAccount(a);
    if "0x" <= ToLower(n) {
      assert ToLower(n)[0] == '0' && ToLower(n)[1] == 'x';
      var c := n[1];
      assert !("0X" <= n);
      assert n[0] == '0' && c == 'x';
    }
  }

  /** A minted token was not there before; it belongs to the named owner, or else to the receiver, and
      says who minted it and what was written. */
  lemma TokenMinted(c: Checks, s: State, t: Tx)
    requires t.kind == "nft_mint" && t.amm.None? && Apply(c, s, t).Applied?
    ensures t.nft.Some? && KeyOf(t) != "" && KeyOf(t) !in s.nfts && KeyOf(t) in Apply(c, s, t).state.nfts
    ensures var token, p := Apply(c, s, t).state.nfts[KeyOf(t)], t.nft.value;
            && token.owner != "" && token.minter == t.from && !token.burned
            && token.owner == (if NormalizeAccount(p.owner) != "" then NormalizeAccount(p.owner)
                               else NormalizeAccount(t.to))
            && token.metadataUri == p.metadataUri && token.metadataHash == p.metadataHash
            && token.imageUri == p.imageUri
  {
    NftKeyNormal(t);
    AccountNormal(t.to);
    AccountNormal(t.nft.value.owner);
    hide Signed, NftKey, NormalizeAccount, NormalizeNftId;
  }

  // ----- pools -----------------------------------------------------------------------------------------------

  /** A new pool is empty, charges 30 basis points and holds the two named assets under their common
      identifier; no pool ever disappears or changes its assets or its fee. */
  lemma PoolsAppear(c: Checks, s: State, t: Tx, id: string)
    requires Sane(s) && Apply(c, s, t).Applied?
    ensures id in s.pools ==>
              && id in Apply(c, s, t).state.pools
              && var p, p' := s.pools[id], Apply(c, s, t).state.pools[id];
                 p'.assetA == p.assetA && p'.assetB == p.assetB && p'.feeBps == p.feeBps == 30
    ensures id !in s.pools && id in Apply(c, s, t).state.pools ==>
              && t.amm.Some? && NormalAmm(t).amm.Some?
              && var a, p := NormalAmm(t).amm.value, Apply(c, s, t).state.pools[id];
                 && a.action == "amm_create_pool" && id == PoolID(a.assetA, a.assetB)
                 && p.reserveA == 0 && p.reserveB == 0 && p.feeBps == 30
                 && p.assetA == NormalizeAsset(a.assetA) && p.assetB == NormalizeAsset(a.assetB)
  {
    hide Signed, ApplyAmm, ValidNftMint, ValidNftTransfer, NftKey, SameAccount, NormalizeAccount, NormalizeNftId;
    hide NormalAmm, NormalizeAsset, PoolID;
    if IsAmm(t) {
      PoolTxPools(c, s, t, id);
    } else {
      assert Apply(c, s, t).state.pools == s.pools;
      assert id in s.pools ==> PoolSane(s.pools[id], id);
    }
  }

  lemma AssetKeepsPools(s: State, a: string, who: string, amount: int)
    ensures Credit(s, a, who, amount).pools == s.pools
    ensures CanDebit(s, a, who, amount) ==> Debit(s, a, who, amount).pools == s.pools
  {
    hide NormalizeAsset, NormalizeAccount;
  }

  lemma PoolTxPools(c: Checks, s: State, t: Tx, id: string)
    requires Sane(s) && ApplyAmm(c, s, t).Applied?
    ensures t.amm.Some? && NormalAmm(t).amm.Some?
    ensures id in s.pools ==>
              && id in ApplyAmm(c, s, t).state.pools
              && var p, p' := s.pools[id], ApplyAmm(c, s, t).state.pools[id];
                 p'.assetA == p.assetA && p'.assetB == p.assetB && p'.feeBps == p.feeBps == 30
    ensures id !in s.pools && id in ApplyAmm(c, s, t).state.pools ==>
              var a, p := NormalAmm(t).amm.value, ApplyAmm(c, s, t).state.pools[id];
              && a.action == "amm_create_pool" && id == PoolID(a.assetA, a.assetB)
              && p.reserveA == 0 && p.reserveB == 0 && p.feeBps == 30
              && p.assetA == NormalizeAsset(a.assetA) && p.assetB == NormalizeAsset(a.assetB)
  {
    hide Signed, NormalAmm, ValidAmm, Debit, Credit, CanDebit, PoolID, NormalizeAsset;
    hide NormalizeAccount, NormalizePoolID, IsOperator, ApplySwapTx, ApplyAddLiquidity;
    NormalAmmFields(t);
    var n := NormalAmm(t);
    var a := n.amm.value;
    assert id in s.pools ==> PoolSane(s.pools[id], id);
    AssetKeepsPools(s, a.asset, n.to, a.amount);
    if a.action == "amm_add_liquidity" {
      DepositKeepsPools(c, s, n, id);
    } else if a.action == "amm_swap" {
      SwapKeepsPools(s, n, id);
    }
  }

  predicate SamePool(p: Pool, p': Pool) {
    p'.assetA == p.assetA && p'.assetB == p.assetB && p'.feeBps == p.feeBps
  }

  lemma DepositKeepsPools(c: Checks, s: State, n: Tx, id: string)
    requires Sane(s) && n.amm.Some? && ApplyAddLiquidity(c, s, n).Applied?
    ensures id in ApplyAddLiquidity(c, s, n).state.pools <==> id in s.pools
    ensures id in s.pools ==> SamePool(s.pools[id], ApplyAddLiquidity(c, s, n).state.pools[id])
  {
    hide Debit, CanDebit, NormalizeAsset, NormalizeAccount, NormalizePoolID, IsOperator;
    var a := n.amm.value;
    var pool := s.pools[NormalizePoolID(a.poolID)];
    assert PoolSane(pool, NormalizePoolID(a.poolID));
    AssetKeepsPools(s, pool.assetA, n.from, a.amountA);
    AssetKeepsPools(Debit(s, pool.assetA, n.from, a.amountA), pool.assetB, n.from, a.amountB);
  }

  lemma SwapKeepsPools(s: State, n: Tx, id: string)
    requires Sane(s) && n.amm.Some? && ApplySwapTx(s, n).Applied?
    ensures id in ApplySwapTx(s, n).state.pools <==> id in s.pools
    ensures id in s.pools ==> SamePool(s.pools[id], ApplySwapTx(s, n).state.pools[id])
  {
    hide Debit, Credit, CanDebit, NormalizeAsset, NormalizeAccount, NormalizePoolID, QuoteSwap;
    var a := n.amm.value;
    var pool := s.pools[NormalizePoolID(a.poolID)];
    assert PoolSane(pool, NormalizePoolID(a.poolID));
    var q := QuoteSwap(pool, a.assetIn, a.amountIn);
    AssetKeepsPools(s, a.assetIn, n.from, a.amountIn);
    AssetKeepsPools(Debit(s, a.assetIn, n.from, a.amountIn), a.assetOut, n.from, q.out);
  }

  /** Reserves move only in the pool a deposit or a swap names: by the deposited amounts, or by what is
      sold on the one side and the quote on the other. */
  lemma ReservesMove(c: Checks, s: State, t: Tx, id: string)
    requires Sane(s) && id in s.pools && Apply(c, s, t).Applied?
    ensures id in Apply(c, s, t).state.pools && (t.amm.Some? ==> NormalAmm(t).amm.Some?)
    ensures var p, p' := s.pools[id], Apply(c, s, t).state.pools[id];
            if t.amm.Some? && NamesPool(t, "amm_add_liquidity", id) then
              var a := NormalAmm(t).amm.value;
              p'.reserveA == p.reserveA + a.amountA && p'.reserveB == p.reserveB + a.amountB
            else if t.amm.Some? && NamesPool(t, "amm_swap", id) then
              var a := NormalAmm(t).amm.value;
              var q := QuoteSwap(p, a.assetIn, a.amountIn);
              && q.Quote?
              && (forall i, j :: Sides(p, a.assetIn, i, j) ==> Sides(p', a.assetIn, i + a.amountIn, j - q.out))
            else p'.reserveA == p.reserveA && p'.reserveB == p.reserveB
  {
    hide Signed, ApplyAmm, ValidNftMint, ValidNftTransfer, NftKey, SameAccount, NormalizeAccount, NormalizeNftId;
    hide NormalAmm, NormalizeAsset, NormalizePoolID, Sides, QuoteSwap;
    if IsAmm(t) {
      PoolTxReserves(c, s, t, id);
    } else {
      assert Apply(c, s, t).state.pools == s.pools;
    }
  }

  predicate NamesPool(t: Tx, action: string, id: string)
    requires t.amm.Some?
  {
    var n := NormalAmm(t);
    n.amm.Some? && n.amm.value.action == action && NormalizePoolID(n.amm.value.poolID) == id
  }

  lemma PoolTxReserves(c: Checks, s: State, t: Tx, id: string)
    requires Sane(s) && id in s.pools && ApplyAmm(c, s, t).Applied?
    ensures t.amm.Some? && NormalAmm(t).amm.Some? && id in ApplyAmm(c, s, t).state.pools
    ensures var p, p', a := s.pools[id], ApplyAmm(c, s, t).state.pools[id], NormalAmm(t).amm.value;
            if NamesPool(t, "amm_add_liquidity", id) then
              p'.reserveA == p.reserveA + a.amountA && p'.reserveB == p.reserveB + a.amountB
            else if NamesPool(t, "amm_swap", id) then
              var q := QuoteSwap(p, a.assetIn, a.amountIn);
              && q.Quote?
              && (forall i, j :: Sides(p, a.assetIn, i, j) ==> Sides(p', a.assetIn, i + a.amountIn, j - q.out))
            else p'.reserveA == p.reserveA && p'.reserveB == p.reserveB
  {
    hide Signed, NormalAmm, ValidAmm, Debit, Credit, CanDebit, PoolID, NormalizeAsset;
    hide NormalizeAccount, NormalizePoolID, QuoteSwap, IsOperator;
    NormalAmmFields(t);
    var n := NormalAmm(t);
    var a := n.amm.value;
    assert PoolSane(s.pools[id], id);
    AssetKeepsPools(s, a.asset, n.to, a.amount);
    AssetKeepsPools(s, a.assetIn, n.from, a.amountIn);
    if a.action == "amm_add_liquidity" {
      var pool := s.pools[NormalizePoolID(a.poolID)];
      assert PoolSane(pool, NormalizePoolID(a.poolID));
      AssetKeepsPools(s, pool.assetA, n.from, a.amountA);
      AssetKeepsPools(Debit(s, pool.assetA, n.from, a.amountA), pool.assetB, n.from, a.amountB);
    } else if a.action == "amm_swap" {
      var pool := s.pools[NormalizePoolID(a.poolID)];
      assert PoolSane(pool, NormalizePoolID(a.poolID));
      var q := QuoteSwap(pool, a.assetIn, a.amountIn);
      AssetKeepsPools(Debit(s, a.assetIn, n.from, a.amountIn), a.assetOut, n.from, q.out);
    }
  }
}
