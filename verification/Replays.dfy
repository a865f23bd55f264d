/** How often a signed transaction can take effect.  The ledger records the identifiers of what it
    applied and never looks them up, so only nonces, balances and token keys stand in the way. */
module Replays {
  import opened Text
  import opened Sums
  import opened Ledgers
  import opened LedgerLaws
  import opened Postings

  predicate IsTransfer(t: Tx) {
    !IsAmm(t) && !IsNft(t) && t.kind != "mint"
  }

  predicate IsMint(t: Tx) {
    !IsAmm(t) && t.kind == "mint"
  }

  // ----- once only -----------------------------------------------------------------------------------

  /** What a transaction says about nonces does not depend on the ledger it is applied to. */
  lemma SameNonceFields(c: Checks, s: State, s': State, t: Tx)
    requires Apply(c, s, t).Applied? && Apply(c, s', t).Applied?
    ensures var n, n' := Apply(c, s, t).tx, Apply(c, s', t).tx;
            UsesNonce(n) == UsesNonce(n') && n.from == n'.from && n.nonce == n'.nonce
  {
    hide ApplyAmm, Signed, NormalAmm;
    if t.amm.Some? {
      AmmKeepsFields(c, s, t);
      AmmKeepsFields(c, s', t);
    } else if IsAmm(t) {
      AmmNeedsPayload(c, s, t);
    }
  }

  /** A transaction that carries a nonce takes effect once: whatever is applied after it, it is never
      accepted again. */
  lemma NonceTakesEffectOnce(c: Checks, s: State, t: Tx, later: seq<Tx>)
    requires Apply(c, s, t).Applied? && UsesNonce(Apply(c, s, t).tx)
    ensures Apply(c, ApplySome(c, Apply(c, s, t).state, later), t).Rejected?
  {
    hide Apply, ApplySome;
    var r := Apply(c, s, t);
    var s' := ApplySome(c, r.state, later);
    NonceStep(c, s, t);
    NoncesInOrder(c, r.state, later, r.tx.from);
    if Apply(c, s', t).Applied? {
      SameNonceFields(c, s, s', t);
      NonceStep(c, s', t);
    }
  }

  /** So does the mint of a token. */
  lemma TokenMintedOnce(c: Checks, s: State, t: Tx, later: seq<Tx>)
    requires t.kind == "nft_mint" && t.amm.None? && Apply(c, s, t).Applied?
    ensures Apply(c, ApplySome(c, Apply(c, s, t).state, later), t).Rejected?
  {
    hide Signed, NftKey, ApplySome, ValidNftMint;
    var p := NormalNft(t).nft.value;
    TokensPersist(c, Apply(c, s, t).state, later, NftKey(p.collection, p.token));
  }

  // ----- again and again -------------------------------------------------------------------------------

  /** An applied transfer applies to the resulting ledger again exactly when it is not EVM-signed and
      the balance still covers it. */
  lemma TransferAgain(c: Checks, s: State, t: Tx)
    requires IsTransfer(t) && Apply(c, s, t).Applied?
    ensures var s' := Apply(c, s, t).state;
            Apply(c, s', t).Applied? <==> !IsEvm(t) && Get(s'.accounts, t.from) >= t.amount
  {
    hide Signed;
  }

  function Copies(t: Tx, k: nat): seq<Tx> {
    seq(k, i => t)
  }

  /** A natively signed transfer to another account takes effect as often as the balance covers it. */
  lemma {:induction false} TransferRepeats(c: Checks, s: State, t: Tx, k: nat)
    requires IsTransfer(t) && !IsEvm(t) && t.from != t.to && t.amount >= 1 && c.verify(Signed(t))
    ensures ApplyAll(c, s, Copies(t, k)).Some? <==> k == 0 || Get(s.accounts, t.from) >= k * t.amount
    decreases k
  {
    hide Signed, Apply;
    if k > 0 {
      var r := Apply(c, s, t);
      OneTransfer(c, s, t);
      assert Copies(t, k)[1..] == Copies(t, k - 1);
      CopiesCost(k, t.amount);
      if r.Applied? {
        TransferRepeats(c, r.state, t, k - 1);
      }
    }
  }

  lemma OneTransfer(c: Checks, s: State, t: Tx)
    requires IsTransfer(t) && !IsEvm(t) && t.from != t.to && t.amount >= 1 && c.verify(Signed(t))
    ensures Apply(c, s, t).Applied? <==> Get(s.accounts, t.from) >= t.amount
    ensures Apply(c, s, t).Applied? ==>
              Get(Apply(c, s, t).state.accounts, t.from) == Get(s.accounts, t.from) - t.amount
  {
    hide Signed;
  }

  lemma CopiesCost(k: nat, amount: int)
    requires k > 0 && amount >= 1
    ensures k * amount == amount + (k - 1) * amount >= amount
  {
  }

  /** A mint takes effect any number of times, and pays out each time. */
  lemma {:induction false} MintRepeats(c: Checks, s: State, t: Tx, k: nat)
    requires IsMint(t) && Apply(c, s, t).Applied?
    ensures ApplyAll(c, s, Copies(t, k)).Some?
    ensures Get(ApplyAll(c, s, Copies(t, k)).value.accounts, t.to) == Get(s.accounts, t.to) + k * t.amount
    decreases k
  {
    hide Signed, Apply;
    if k > 0 {
      var r := Apply(c, s, t);
      OneMint(c, s, t);
      assert Copies(t, k)[1..] == Copies(t, k - 1);
      CopiesCost(k, t.amount);
      MintRepeats(c, r.state, t, k - 1);
    }
  }

  lemma OneMint(c: Checks, s: State, t: Tx)
    requires IsMint(t) && Apply(c, s, t).Applied?
    ensures t.amount >= 1 && Apply(c, Apply(c, s, t).state, t).Applied?
    ensures Get(Apply(c, s, t).state.accounts, t.to) == Get(s.accounts, t.to) + t.amount
  {
    hide Signed;
  }
}
