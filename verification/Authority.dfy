/** Who may do what: every accepted transaction was signed, and a balance falls only at the hand of its
    owner or of a registered operator. */
module Authority {
  import opened Text
  import opened Amm
  import opened Sums
  import opened Ledgers
  import opened LedgerLaws
  import opened Conservation
  import opened Postings

  // ----- signatures ----------------------------------------------------------------------------------

  /** Whatever its kind, an accepted transaction carries a signature that verifies. */
  lemma AppliedIsSigned(c: Checks, s: State, t: Tx)
    requires Apply(c, s, t).Applied?
    ensures c.verify(Signed(Apply(c, s, t).tx))
  {
    hide Signed, ApplyAmm, ValidNftMint, ValidNftTransfer, NftKey, SameAccount, NormalizeAccount, NormalizeNftId;
    if IsAmm(t) {
      PoolTxIsSigned(c, s, t);
    }
  }

  lemma PoolTxIsSigned(c: Checks, s: State, t: Tx)
    requires ApplyAmm(c, s, t).Applied?
    ensures c.verify(Signed(ApplyAmm(c, s, t).tx))
  {
    hide NormalAmm, Signed, ValidAmm, ApplySwapTx, ApplyAddLiquidity, ApplyCreatePool, Debit, Credit, CanDebit;
    hide IsOperator;
    AmmKeepsFields(c, s, t);
    PaidOutIsUnsigned(NormalAmm(t), ApplyAmm(c, s, t).tx.amm.value.amountOut);
  }

  /** The amount a swap paid out is not part of what is signed. */
  lemma PaidOutIsUnsigned(n: Tx, out: int)
    requires n.amm.Some?
    ensures Signed(n.(amm := Some(n.amm.value.(amountOut := out)))) == Signed(n)
  {
    hide NormalizeAsset, NormalizeAccount, NormalizePoolID, ToLower, TrimSpace;
  }

  /** The signature covers everything that matters: two transactions with the same signed content are
      accepted by the same ledgers and have the same effect. */
  lemma SignedDecidesEffect(c: Checks, s: State, a: Tx, b: Tx)
    requires Signed(a) == Signed(b) && Apply(c, s, a).Applied?
    ensures Apply(c, s, b).Applied? && Apply(c, s, b).state == Apply(c, s, a).state
  {
    hide ApplyAmm, ApplyNftMint, ApplyNftTransfer, Signed;
    SignedKeepsKind(a);
    SignedKeepsKind(b);
    if a.amm.Some? {
      SignedPoolTx(c, s, a, b);
    } else if IsAmm(a) {
      AmmNeedsPayload(c, s, a);
    } else if IsNft(a) {
      SignedNft(c, s, a, b);
    }
  }

  lemma SignedKeepsKind(t: Tx)
    ensures Signed(t).kind == t.kind && Signed(t).amm.Some? == t.amm.Some? && Signed(t).nft.Some? == t.nft.Some?
    ensures t.amm.None? && !IsNft(t) ==> Signed(t) == t
  {
    hide NormalPayload, NormalizeAccount, NormalizeNftId;
  }

  lemma SignedPoolTx(c: Checks, s: State, a: Tx, b: Tx)
    requires a.amm.Some? && b.amm.Some? && Signed(a) == Signed(b) && ApplyAmm(c, s, a).Applied?
    ensures ApplyAmm(c, s, b).Applied? && ApplyAmm(c, s, b).state == ApplyAmm(c, s, a).state
  {
    hide NormalAmm, Signed, NormalizePoolID, ApplySwapTx, ApplyAddLiquidity, ApplyCreatePool, Debit;
    hide Credit, CanDebit, IsOperator;
    var n, m := NormalAmm(a), NormalAmm(b);
    SameNormalForm(a, b);
    SamePoolTxSameState(c, s, n, m);
    StillValid(n, m);
    PaidOutIsUnsigned(n, m.amm.value.amountOut);
    assert Advanced(s, m) == Advanced(s, n);
  }

  lemma SameNormalForm(a: Tx, b: Tx)
    requires a.amm.Some? && b.amm.Some? && Signed(a) == Signed(b)
    ensures NormalAmm(a).amm.Some? && NormalAmm(b).amm.Some?
    ensures var n, m := NormalAmm(a), NormalAmm(b);
            && m == n.(amm := Some(n.amm.value.(amountOut := m.amm.value.amountOut)))
            && SamePoolTx(n, m)
  {
    hide NormalizeAccount, NormalizePoolID, PoolID;
    var p, q := NormalPayload(a.amm.value), NormalPayload(b.amm.value);
    hide NormalPayload;
    assert p.(amountOut := 0) == q.(amountOut := 0);
    assert q == p.(amountOut := q.amountOut);
  }

  lemma SignedNft(c: Checks, s: State, a: Tx, b: Tx)
    requires IsNft(a) && IsNft(b) && a.amm.None? && b.amm.None? && Signed(a) == Signed(b) && a.kind == b.kind
    requires Apply(c, s, a).Applied?
    ensures Apply(c, s, b).Applied? && Apply(c, s, b).state == Apply(c, s, a).state
  {
    var p, q := a.nft, b.nft;
    if p.Some? {
      AccountNormal(p.value.owner);
      AccountNormal(a.to);
      NftIdNormal(p.value.collection);
      NftIdNormal(p.value.token);
    }
    if q.Some? {
      AccountNormal(q.value.owner);
      AccountNormal(b.to);
      NftIdNormal(q.value.collection);
      NftIdNormal(q.value.token);
    }
    hide NormalizeNftId, NormalizeAccount, NftKey, SameAccount;
  }

  /** Where no signature verifies nothing happens. */
  lemma {:induction false} UnsignedChangesNothing(c: Checks, s: State, txs: seq<Tx>)
    requires forall t :: !c.verify(t)
    ensures ApplySome(c, s, txs) == s
    decreases |txs|
  {
    hide Apply;
    if txs != [] {
      if Apply(c, s, txs[0]).Applied? {
        AppliedIsSigned(c, s, txs[0]);
      }
      UnsignedChangesNothing(c, s, txs[1..]);
    }
  }

  // ----- operators -------------------------------------------------------------------------------------

  /** A registered validator under a native key. */
  predicate Operator(c: Checks, s: State, account: string) {
    account != "" && c.native(account) && account in s.validators
  }

  /** Credits, debits, new pools and deposits are for operators; swaps are for everyone. */
  lemma OperatorsOnly(c: Checks, s: State, t: Tx)
    requires t.amm.Some? && Apply(c, s, t).Applied?
    ensures Apply(c, s, t).tx.amm.Some?
    ensures var x := Apply(c, s, t).tx;
            x.amm.value.action in {"asset_credit", "asset_debit", "amm_create_pool", "amm_add_liquidity", "amm_swap"}
            && (x.amm.value.action != "amm_swap" ==> Operator(c, s, x.from))
  {
    hide NormalAmm, Signed, ValidAmm, ApplySwapTx, Debit, Credit, CanDebit, PoolID, NormalizePoolID;
    hide NormalizeAsset, Deposited;
    AmmKeepsFields(c, s, t);
  }

  // ----- falling balances --------------------------------------------------------------------------------

  /** The signer owns the account, or is an operator who debits it by name. */
  predicate Authorises(c: Checks, s: State, x: Tx, who: string) {
    && c.verify(Signed(x))
    && (|| x.from == who
        || (x.amm.Some? && NormalizeAccount(x.from) == who)
        || (x.amm.Some? && x.amm.value.action == "asset_debit" && x.to == who && Operator(c, s, x.from)))
  }

  lemma FallIsAuthorised(c: Checks, s: State, t: Tx, asset: string, who: string)
    requires Sane(s) && Apply(c, s, t).Applied?
    requires BalanceOf(Apply(c, s, t).state, asset, who) < BalanceOf(s, asset, who)
    ensures Authorises(c, s, Apply(c, s, t).tx, who)
  {
    hide Sane, Signed, BalanceOf, PoolPosted, NormalizeAccount;
    AppliedIsSigned(c, s, t);
    ApplyPosts(c, s, t, asset, who);
    if t.amm.Some? {
      hide Apply;
      OperatorsOnly(c, s, t);
      PoolFall(c, s, t, asset, who);
    } else {
      hide ApplyAmm, ApplyNftMint, ApplyNftTransfer;
      if IsAmm(t) {
        AmmNeedsPayload(c, s, t);
      } else if t.kind == "mint" {
        MintPaysIn(c, s, t);
      }
    }
  }

  lemma MintPaysIn(c: Checks, s: State, t: Tx)
    requires ApplyMint(c, s, t).Applied?
    ensures t.amount >= 1 && Get(s.accounts, t.from) > 0
  {
    hide Signed;
  }

  lemma PoolFall(c: Checks, s: State, t: Tx, asset: string, who: string)
    requires t.amm.Some? && Apply(c, s, t).Applied? && PoolPosted(s, NormalAmm(t), asset, who) < 0
    ensures var x := Apply(c, s, t).tx;
            && x.amm.Some?
            && (NormalizeAccount(x.from) == who || (x.amm.value.action == "asset_debit" && x.to == who))
  {
    hide Signed, NormalAmm, ApplyAmm, NormalizeAccount, NormalizePoolID;
    assert Apply(c, s, t) == ApplyAmm(c, s, t);
    AmmKeepsFields(c, s, t);
    PostedAmounts(c, s, t);
  }

  /** The amounts an accepted pool transaction names and is quoted are not negative. */
  lemma PostedAmounts(c: Checks, s: State, t: Tx)
    requires t.amm.Some? && ApplyAmm(c, s, t).Applied?
    ensures NormalAmm(t).amm.Some?
    ensures var n := NormalAmm(t);
            && (n.amm.value.action == "asset_credit" ==> n.amm.value.amount > 0)
            && (n.amm.value.action == "amm_swap" && SwapTerms(s, n).Some? ==> SwapTerms(s, n).value.1 > 0)
  {
    hide Signed, NormalAmm, NormalizeAccount, NormalizePoolID, ApplySwapTx, ApplyAddLiquidity, ApplyCreatePool;
    hide Debit, Credit, CanDebit, ReservesFor, AfterFee;
    NormalAmmFields(t);
  }

  /** Some accepted transaction of the list authorises a fall of the account's balance. */
  predicate Spends(c: Checks, s: State, txs: seq<Tx>, who: string)
    decreases |txs|
  {
    txs != [] &&
    var r := Apply(c, s, txs[0]);
    if r.Rejected? then Spends(c, s, txs[1..], who)
    else Authorises(c, s, r.tx, who) || Spends(c, r.state, txs[1..], who)
  }

  /** Over any list a balance falls only if an accepted transaction was authorised by its owner, or by
      an operator who debits it. */
  lemma {:induction false} ListFallIsAuthorised(c: Checks, s: State, txs: seq<Tx>, asset: string, who: string)
    requires Sane(s) && BalanceOf(ApplySome(c, s, txs), asset, who) < BalanceOf(s, asset, who)
    ensures Spends(c, s, txs, who)
    decreases |txs|
  {
    hide Apply, Sane, BalanceOf, Authorises;
    if txs != [] {
      var r := Apply(c, s, txs[0]);
      if r.Rejected? {
        ListFallIsAuthorised(c, s, txs[1..], asset, who);
      } else {
        ApplyAccounts(c, s, txs[0], asset);
        if BalanceOf(r.state, asset, who) < BalanceOf(s, asset, who) {
          FallIsAuthorised(c, s, txs[0], asset, who);
        } else {
          ListFallIsAuthorised(c, r.state, txs[1..], asset, who);
        }
      }
    }
  }
}
