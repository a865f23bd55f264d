/** Laws of the transition function that the chain and the mempool rely on: nonce order, growth of
    the validator set, and replay of a transaction in the form the ledger handed back. */
module LedgerLaws {
  import opened Text
  import opened Amm
  import opened Sums
  import opened Ledgers

  // ----- nonces ------------------------------------------------------------------------------------

  /** The kinds that carry a nonce: EVM-signed transfers and EVM-signed pool transactions. */
  predicate UsesNonce(n: Tx) {
    IsEvm(n) && (n.amm.Some? || (!IsNft(n) && n.kind != "mint"))
  }

  predicate NoncePassed(before: State, r: Outcome)
    requires r.Applied?
  {
    if UsesNonce(r.tx)
    then Get(before.nonces, r.tx.from) == r.tx.nonce && r.state.nonces == before.nonces[r.tx.from := r.tx.nonce + 1]
    else r.state.nonces == before.nonces
  }

  lemma NonceStep(c: Checks, s: State, t: Tx)
    requires Apply(c, s, t).Applied?
    ensures NoncePassed(s, Apply(c, s, t))
  {
    hide Signed, ApplyAmm, NftKey, ValidNftMint, ValidNftTransfer, NormalizeNftId, NormalizeAccount;
    if IsAmm(t) {
      AmmNonceStep(c, s, t);
    } else {
      assert t.amm.None?;
    }
  }

  lemma AmmNonceStep(c: Checks, s: State, t: Tx)
    requires ApplyAmm(c, s, t).Applied?
    ensures NoncePassed(s, ApplyAmm(c, s, t))
  {
    hide Signed, NormalPayload, ValidAmm, NormalizeAccount, PoolID, ApplySwapTx, ApplyAddLiquidity;
    hide ApplyCreatePool, Debit, Credit, CanDebit, IsOperator;
    var n := NormalAmm(t);
    var a := n.amm.value;
    if a.action == "asset_credit" || a.action == "asset_debit" {
      AssetKeepsNonces(s, a.asset, n.to, a.amount);
    } else if a.action == "amm_create_pool" {
      CreateNonceStep(c, s, n);
    } else if n.amm.value.action == "amm_swap" {
      SwapNonceStep(s, n);
    } else if n.amm.value.action == "amm_add_liquidity" {
      LiquidityNonceStep(c, s, n);
    }
  }

  lemma AssetKeepsNonces(s: State, a: string, who: string, amount: int)
    ensures Credit(s, a, who, amount).nonces == s.nonces
    ensures CanDebit(s, a, who, amount) ==> Debit(s, a, who, amount).nonces == s.nonces
  {
    hide NormalizeAsset, NormalizeAccount;
  }

  lemma CreateNonceStep(c: Checks, s: State, n: Tx)
    requires n.amm.Some? && ApplyCreatePool(c, s, n).Applied?
    requires IsEvm(n) ==> Get(s.nonces, n.from) == n.nonce
    ensures NoncePassed(s, ApplyCreatePool(c, s, n))
  {
    hide PoolID, NormalizeAsset;
  }

  lemma SwapNonceStep(s: State, n: Tx)
    requires n.amm.Some? && ApplySwapTx(s, n).Applied?
    requires IsEvm(n) ==> Get(s.nonces, n.from) == n.nonce
    ensures NoncePassed(s, ApplySwapTx(s, n))
  {
    hide QuoteSwap, NormalizeAsset, NormalizeAccount, NormalizePoolID, ApplySwap;
  }

  lemma LiquidityNonceStep(c: Checks, s: State, n: Tx)
    requires n.amm.Some? && ApplyAddLiquidity(c, s, n).Applied?
    requires IsEvm(n) ==> Get(s.nonces, n.from) == n.nonce
    ensures NoncePassed(s, ApplyAddLiquidity(c, s, n))
  {
    hide NormalizeAsset, NormalizeAccount, NormalizePoolID;
  }

  /** The nonces of the accepted nonce-carrying transactions of one sender, in order. */
  function NoncesOf(c: Checks, s: State, txs: seq<Tx>, who: string): seq<int>
    decreases |txs|
  {
    if txs == [] then [] else
    var r := Apply(c, s, txs[0]);
    if r.Rejected? then NoncesOf(c, s, txs[1..], who)
    else (if UsesNonce(r.tx) && r.tx.from == who then [r.tx.nonce] else []) + NoncesOf(c, r.state, txs[1..], who)
  }

  /** Accepted nonces of a sender count up by one from the ledger's nonce, without gap or repeat,
      and the ledger's nonce ends at their number past the start. */
  lemma {:induction false} NoncesInOrder(c: Checks, s: State, txs: seq<Tx>, who: string)
    ensures var ns := NoncesOf(c, s, txs, who);
            && (forall i :: 0 <= i < |ns| ==> ns[i] == Get(s.nonces, who) + i)
            && Get(ApplySome(c, s, txs).nonces, who) == Get(s.nonces, who) + |ns|
    decreases |txs|
  {
    hide Apply;
    if txs != [] {
      var r := Apply(c, s, txs[0]);
      if r.Applied? {
        NonceStep(c, s, txs[0]);
        NoncesInOrder(c, r.state, txs[1..], who);
      } else {
        NoncesInOrder(c, s, txs[1..], who);
      }
    }
  }

  // ----- more validators ---------------------------------------------------------------------------

  function WithValidator(s: State, v: string): State {
    s.(validators := s.validators + {v})
  }

  lemma DebitWithValidator(s: State, v: string, a: string, who: string, amount: int)
    ensures CanDebit(WithValidator(s, v), a, who, amount) == CanDebit(s, a, who, amount)
    ensures CanDebit(s, a, who, amount) ==>
              Debit(WithValidator(s, v), a, who, amount) == WithValidator(Debit(s, a, who, amount), v)
    ensures Credit(WithValidator(s, v), a, who, amount) == WithValidator(Credit(s, a, who, amount), v)
  {
    hide NormalizeAsset, NormalizeAccount;
  }

  lemma SwapWithValidator(s: State, v: string, n: Tx)
    requires n.amm.Some? && ApplySwapTx(s, n).Applied?
    ensures ApplySwapTx(WithValidator(s, v), n)
            == Applied(WithValidator(ApplySwapTx(s, n).state, v), ApplySwapTx(s, n).tx)
  {
    hide NormalizePoolID, QuoteSwap, ApplySwap, Debit, Credit, CanDebit;
    var a := n.amm.value;
    DebitWithValidator(s, v, a.assetIn, n.from, a.amountIn);
    var s1 := Debit(s, a.assetIn, n.from, a.amountIn);
    var q := QuoteSwap(s.pools[NormalizePoolID(a.poolID)], a.assetIn, a.amountIn);
    DebitWithValidator(s1, v, a.assetOut, n.from, q.out);
  }

  lemma LiquidityWithValidator(c: Checks, s: State, v: string, n: Tx)
    requires n.amm.Some? && ApplyAddLiquidity(c, s, n).Applied?
    ensures ApplyAddLiquidity(c, WithValidator(s, v), n)
            == Applied(WithValidator(ApplyAddLiquidity(c, s, n).state, v), ApplyAddLiquidity(c, s, n).tx)
  {
    hide NormalizePoolID, Debit, CanDebit;
    var a := n.amm.value;
    var pool := s.pools[NormalizePoolID(a.poolID)];
    DebitWithValidator(s, v, pool.assetA, n.from, a.amountA);
    DebitWithValidator(s, v, pool.assetB, n.from, a.amountB);
    DebitWithValidator(Debit(s, pool.assetA, n.from, a.amountA), v, pool.assetB, n.from, a.amountB);
  }

  lemma AmmWithValidator(c: Checks, s: State, v: string, t: Tx)
    requires t.amm.Some? && ApplyAmm(c, s, t).Applied?
    ensures ApplyAmm(c, WithValidator(s, v), t)
            == Applied(WithValidator(ApplyAmm(c, s, t).state, v), ApplyAmm(c, s, t).tx)
  {
    hide Signed, NormalPayload, ValidAmm, Debit, Credit, CanDebit, ApplySwapTx, ApplyAddLiquidity;
    hide PoolID, NormalizeAsset, NormalizeAccount;
    var n := NormalAmm(t);
    var a := n.amm.value;
    if a.action == "asset_credit" || a.action == "asset_debit" {
      DebitWithValidator(s, v, a.asset, n.to, a.amount);
    } else if a.action == "amm_create_pool" {
    } else if a.action == "amm_add_liquidity" {
      LiquidityWithValidator(c, s, v, n);
    } else {
      SwapWithValidator(s, v, n);
    }
  }

  /** Registering one more validator beforehand never turns an accepted transaction away and
      changes nothing else about its effect. */
  lemma ApplyWithValidator(c: Checks, s: State, v: string, t: Tx)
    requires Apply(c, s, t).Applied?
    ensures Apply(c, WithValidator(s, v), t)
            == Applied(WithValidator(Apply(c, s, t).state, v), Apply(c, s, t).tx)
  {
    hide Signed, NormalNft, ApplyAmm, NftKey, ApplyTransfer, ApplyMint, ValidNftMint;
    hide ValidNftTransfer, SameAccount, NormalizeAccount;
    if t.amm.Some? {
      AmmWithValidator(c, s, v, t);
    } else if "amm_" <= t.kind || "asset_" <= t.kind {
      AmmNeedsPayload(c, s, t);
    } else if !IsNft(t) {
      PaymentWithValidator(c, s, v, t);
    }
  }

  lemma PaymentWithValidator(c: Checks, s: State, v: string, t: Tx)
    ensures ApplyMint(c, s, t).Applied? ==>
              ApplyMint(c, WithValidator(s, v), t)
              == Applied(WithValidator(ApplyMint(c, s, t).state, v), ApplyMint(c, s, t).tx)
    ensures ApplyTransfer(c, s, t).Applied? ==>
              ApplyTransfer(c, WithValidator(s, v), t)
              == Applied(WithValidator(ApplyTransfer(c, s, t).state, v), ApplyTransfer(c, s, t).tx)
  {
    hide Signed, IsEvm;
    if ApplyMint(c, s, t).Applied? {
      assert ApplyMint(c, WithValidator(s, v), t).state.validators
          == WithValidator(ApplyMint(c, s, t).state, v).validators;
    }
  }

  lemma AmmNeedsPayload(c: Checks, s: State, t: Tx)
    requires t.amm.None?
    ensures ApplyAmm(c, s, t) == Rejected
  {
  }

  lemma {:induction false} ApplyAllWithValidator(c: Checks, s: State, v: string, txs: seq<Tx>)
    requires ApplyAll(c, s, txs).Some?
    ensures ApplyAll(c, WithValidator(s, v), txs) == Some(WithValidator(ApplyAll(c, s, txs).value, v))
    decreases |txs|
  {
    hide Apply;
    if txs != [] {
      ApplyWithValidator(c, s, v, txs[0]);
      ApplyAllWithValidator(c, Apply(c, s, txs[0]).state, v, txs[1..]);
    }
  }

  // ----- replaying a normalised transaction ----------------------------------------------------------

  lemma PayloadNormal(a: AmmPayload)
    ensures NormalPayload(NormalPayload(a)) == NormalPayload(a)
  {
    AssetNormal(a.asset);
    AssetNormal(a.assetA);
    AssetNormal(a.assetB);
    AssetNormal(a.assetIn);
    AssetNormal(a.assetOut);
    NormalizePoolIDIdempotent(a.poolID);
    ActionNormal(a.action);
  }

  lemma ActionNormal(s: string)
    ensures ToLower(TrimSpace(ToLower(TrimSpace(s)))) == ToLower(TrimSpace(s))
  {
    TrimSpaceTrims(s);
    var a := ToLower(TrimSpace(s));
    assert Trimmed(a);
    TrimIdentity(a);
    assert ToLower(a) == a;
  }

  /** Normalising twice can only respell the pool identifier, and both spellings name the same pool
      and the same signed content. */
  lemma AmmNormalTwice(t: Tx, out: int)
    requires t.amm.Some? && NormalAmm(t).amm.Some?
    ensures var n := NormalAmm(t);
            var m := NormalAmm(n.(amm := Some(n.amm.value.(amountOut := out))));
            && m == n.(amm := Some(n.amm.value.(amountOut := out, poolID := m.amm.value.poolID)))
            && NormalizePoolID(m.amm.value.poolID) == NormalizePoolID(n.amm.value.poolID)
            && (n.amm.value.poolID != "" ==> m.amm.value.poolID != "")
            && Signed(m) == Signed(n)
  {
    hide NormalizeAsset, NormalizeAccount, NormalizePoolID, ToLower, TrimSpace, PoolID;
    PayloadNormal(t.amm.value);
    AccountNormal(t.to);
    var n := NormalAmm(t);
    NormalizePoolIDIdempotent(t.amm.value.poolID);
    NormalizePoolIDIdempotent(n.amm.value.poolID);
  }

  /** Two spellings of one pool transaction: same fields except the paid-out amount and the
      spelling of the pool identifier. */
  predicate SamePoolTx(n: Tx, m: Tx) {
    && n.amm.Some? && m.amm.Some?
    && m == n.(amm := Some(n.amm.value.(amountOut := m.amm.value.amountOut, poolID := m.amm.value.poolID)))
    && NormalizePoolID(m.amm.value.poolID) == NormalizePoolID(n.amm.value.poolID)
  }

  lemma SamePoolTxSameState(c: Checks, s: State, n: Tx, m: Tx)
    requires SamePoolTx(n, m)
    ensures ApplySwapTx(s, n).Applied? ==>
              ApplySwapTx(s, m).Applied? && ApplySwapTx(s, m).state == ApplySwapTx(s, n).state
    ensures ApplyAddLiquidity(c, s, n).Applied? ==>
              ApplyAddLiquidity(c, s, m).Applied?
              && ApplyAddLiquidity(c, s, m).state == ApplyAddLiquidity(c, s, n).state
    ensures ApplyCreatePool(c, s, n).Applied? ==>
              ApplyCreatePool(c, s, m).Applied? && ApplyCreatePool(c, s, m).state == ApplyCreatePool(c, s, n).state
  {
    hide NormalizePoolID, QuoteSwap, ApplySwap, Debit, Credit, CanDebit, PoolID, NormalizeAsset;
    hide IsOperator, Deposited;
  }

  lemma AmmReapplies(c: Checks, s: State, t: Tx)
    requires t.amm.Some? && ApplyAmm(c, s, t).Applied?
    ensures ApplyAmm(c, s, t).tx.amm.Some?
    ensures var r := ApplyAmm(c, s, t); var again := ApplyAmm(c, s, r.tx);
            again.Applied? && again.state == r.state
  {
    hide NormalAmm, Signed, NormalizePoolID, ApplySwapTx, ApplyAddLiquidity, ApplyCreatePool, Debit;
    hide Credit, CanDebit, IsOperator;
    var n := NormalAmm(t);
    var r := ApplyAmm(c, s, t);
    AmmKeepsFields(c, s, t);
    AmmNormalTwice(t, r.tx.amm.value.amountOut);
    var m := NormalAmm(r.tx);
    SamePoolTxSameState(c, s, n, m);
    StillValid(n, m);
    assert Advanced(s, m) == Advanced(s, n);
  }

  lemma StillValid(n: Tx, m: Tx)
    requires SamePoolTx(n, m) && ValidAmm(n) && (n.amm.value.poolID != "" ==> m.amm.value.poolID != "")
    ensures ValidAmm(m) && IsEvm(m) == IsEvm(n)
  {
    hide NormalizePoolID;
  }

  lemma AmmKeepsFields(c: Checks, s: State, t: Tx)
    requires t.amm.Some? && ApplyAmm(c, s, t).Applied?
    ensures NormalAmm(t).amm.Some?
    ensures var n, x := NormalAmm(t), ApplyAmm(c, s, t).tx;
            x.amm.Some? && x == n.(amm := Some(n.amm.value.(amountOut := x.amm.value.amountOut)))
  {
    hide Signed, ValidAmm, NormalPayload, NormalizeAccount, NormalizePoolID, NormalizeAsset, PoolID;
    hide QuoteSwap, ApplySwap, Debit, Credit, CanDebit, IsOperator, Deposited;
  }

  lemma NftReapplies(c: Checks, s: State, t: Tx)
    requires IsNft(t) && t.amm.None? && Apply(c, s, t).Applied?
    ensures var r := Apply(c, s, t); Apply(c, s, r.tx).Applied? && Apply(c, s, r.tx).state == r.state
  {
    var p := t.nft.value;
    NftIdNormal(p.collection);
    NftIdNormal(p.token);
    AccountNormal(p.owner);
    AccountNormal(t.to);
    hide NormalizeNftId, NormalizeAccount, NftKey, SameAccount;
    var n := NormalNft(t);
    assert NormalNft(n) == n && Signed(n) == Signed(NormalNft(n));
  }

  /** The ledger hands a transaction back normalised, with the paid-out amount filled in.  On the
      ledger it was applied to, that form is accepted too and has the same effect. */
  lemma Reapplies(c: Checks, s: State, t: Tx)
    requires Apply(c, s, t).Applied?
    ensures Apply(c, s, Apply(c, s, t).tx).Applied?
    ensures Apply(c, s, Apply(c, s, t).tx).state == Apply(c, s, t).state
  {
    hide ApplyAmm, ApplyNftMint, ApplyNftTransfer, Signed;
    if t.amm.Some? {
      AmmReapplies(c, s, t);
    } else if IsAmm(t) {
      AmmNeedsPayload(c, s, t);
    } else if IsNft(t) {
      NftReapplies(c, s, t);
    }
  }
}
