/** The ledger transition function: transfers, mints, tokens, accounting assets and pools.
    Signature verification and the shape of native account names are parameters. */
module Ledgers {
  import opened Text
  import opened Amm
  import opened Sums

  datatype Option<+T> = None | Some(value: T)

  datatype NftPayload = NftPayload(
    collection: string, token: string, owner: string,
    metadataUri: string, metadataHash: string, imageUri: string)

  datatype NftToken = NftToken(
    collection: string, token: string, owner: string, minter: string,
    metadataUri: string, metadataHash: string, imageUri: string,
    mintTx: string, lastTx: string, burned: bool)

  datatype AmmPayload = AmmPayload(
    action: string, poolID: string, asset: string, assetA: string, assetB: string,
    assetIn: string, assetOut: string, amount: int, amountA: int, amountB: int,
    amountIn: int, minAmountOut: int, amountOut: int, feeBps: int)

  datatype Tx = Tx(
    id: string, from: string, to: string, amount: int, signature: string, kind: string,
    nonce: nat, nft: Option<NftPayload>, amm: Option<AmmPayload>)

  /** What the ledger asks of the outside: is the signed content authentic, and is the name a
      base64-encoded public key. */
  datatype Checks = Checks(verify: Tx -> bool, native: string -> bool)

  /** The ledger as a value.  recorded holds the identifiers of the transaction history. */
  datatype State = State(
    accounts: map<string, int>,
    nonces: map<string, int>,
    validators: set<string>,
    nfts: map<string, NftToken>,
    assets: map<string, map<string, int>>,
    pools: map<string, Pool>,
    recorded: set<string>)

  const EMPTY := State(map[], map[], {}, map[], map[], map[], {})

  /** The ledger and the transaction after an accepted transaction; the transaction comes back
      normalised, with the amount a swap paid out. */
  datatype Outcome = Rejected | Applied(state: State, tx: Tx)

  // ----- kinds and normal forms ----------------------------------------------------------------

  predicate IsEvm(t: Tx) {
    t.kind == "evm" || "evm:" <= t.signature
  }

  predicate IsAmm(t: Tx) {
    t.amm.Some? || "amm_" <= t.kind || "asset_" <= t.kind
  }

  predicate IsNft(t: Tx) {
    t.kind == "nft_mint" || t.kind == "nft_transfer"
  }

  function NormalPayload(a: AmmPayload): AmmPayload {
    a.(action := ToLower(TrimSpace(a.action)),
       asset := NormalizeAsset(a.asset),
       assetA := NormalizeAsset(a.assetA),
       assetB := NormalizeAsset(a.assetB),
       assetIn := NormalizeAsset(a.assetIn),
       assetOut := NormalizeAsset(a.assetOut),
       poolID := NormalizePoolID(a.poolID))
  }

  /** normalizeAMM: an empty pool identifier is filled from the two assets, a zero fee from the
      default, and the kind from the action. */
  function NormalAmm(t: Tx): Tx
    requires t.amm.Some?
  {
    var p := NormalPayload(t.amm.value);
    var q := if p.poolID == "" && p.assetA != "" && p.assetB != "" then p.(poolID := PoolID(p.assetA, p.assetB)) else p;
    var r := if q.feeBps == 0 then q.(feeBps := AMM_FEE_BPS) else q;
    t.(amm := Some(r), kind := r.action, to := NormalizeAccount(t.to))
  }

  function NormalNft(t: Tx): Tx
    requires t.nft.Some?
  {
    var p := t.nft.value;
    t.(nft := Some(p.(collection := NormalizeNftId(p.collection), token := NormalizeNftId(p.token),
                      owner := if t.kind == "nft_mint" then NormalizeAccount(p.owner) else p.owner)),
       to := NormalizeAccount(t.to))
  }

  /** The content a signature covers: normalised, and without the amount a swap paid out. */
  function Signed(t: Tx): Tx {
    if t.amm.Some? then
      t.(amm := Some(NormalPayload(t.amm.value).(amountOut := 0)), to := NormalizeAccount(t.to))
    else if IsNft(t) && t.nft.Some? then
      var n := NormalNft(t);
      n.(nft := Some(n.nft.value.(owner := NormalizeAccount(n.nft.value.owner))))
    else t
  }

  predicate ValidAmm(n: Tx)
    requires n.amm.Some?
  {
    var a := n.amm.value;
    && n.id != "" && n.from != "" && a.action != ""
    && if a.action == "asset_credit" || a.action == "asset_debit" then
         n.to != "" && a.asset != "" && a.asset != PKN && a.amount > 0
       else if a.action == "amm_create_pool" then
         a.poolID != "" && a.assetA != "" && a.assetB != "" && a.assetA != a.assetB
       else if a.action == "amm_add_liquidity" then
         a.poolID != "" && a.amountA > 0 && a.amountB > 0
       else if a.action == "amm_swap" then
         a.poolID != "" && a.assetIn != "" && a.assetOut != "" && a.assetIn != a.assetOut
         && a.amountIn > 0 && a.minAmountOut >= 0
       else false
  }

  predicate ValidNftMint(n: Tx)
    requires n.nft.Some?
  {
    && n.id != "" && n.from != ""
    && n.nft.value.collection != "" && n.nft.value.token != ""
    && (n.nft.value.owner != "" || n.to != "")
  }

  predicate ValidNftTransfer(n: Tx)
    requires n.nft.Some?
  {
    && n.id != "" && n.from != "" && n.to != ""
    && n.nft.value.collection != "" && n.nft.value.token != ""
  }

  predicate SameAccount(left: string, right: string) {
    var l, r := NormalizeAccount(left), NormalizeAccount(right);
    if "0x" <= l || "0x" <= r then ToLower(l) == ToLower(r) else l == r
  }

  // ----- balances --------------------------------------------------------------------------------

  function Holdings(s: State, asset: string): map<string, int> {
    if asset == PKN then s.accounts
    else if asset in s.assets then s.assets[asset]
    else map[]
  }

  function WithHoldings(s: State, asset: string, h: map<string, int>): State {
    if asset == PKN then s.(accounts := h) else s.(assets := s.assets[asset := h])
  }

  function CanDebit(s: State, asset: string, account: string, amount: int): bool {
    var who := NormalizeAccount(account);
    amount > 0 && who != "" && Get(Holdings(s, NormalizeAsset(asset)), who) >= amount
  }

  function Debit(s: State, asset: string, account: string, amount: int): State
    requires CanDebit(s, asset, account, amount)
  {
    var a, who := NormalizeAsset(asset), NormalizeAccount(account);
    var h := Holdings(s, a);
    WithHoldings(s, a, h[who := Get(h, who) - amount])
  }

  function Credit(s: State, asset: string, account: string, amount: int): State {
    var a, who := NormalizeAsset(asset), NormalizeAccount(account);
    if amount <= 0 || who == "" then s else
    var h := Holdings(s, a);
    WithHoldings(s, a, h[who := Get(h, who) + amount])
  }

  predicate IsOperator(c: Checks, s: State, account: string) {
    account != "" && c.native(account) && account in s.validators
  }

  // ----- the transition function -------------------------------------------------------------------

  function Apply(c: Checks, s: State, t: Tx): Outcome {
    if IsAmm(t) then ApplyAmm(c, s, t)
    else if t.kind == "nft_mint" then ApplyNftMint(c, s, t)
    else if t.kind == "nft_transfer" then ApplyNftTransfer(c, s, t)
    else if t.kind == "mint" then ApplyMint(c, s, t)
    else ApplyTransfer(c, s, t)
  }

  function ApplyNftMint(c: Checks, s: State, t: Tx): Outcome {
    if t.nft.None? then Rejected else
    var n := NormalNft(t);
    var p := n.nft.value;
    if !ValidNftMint(n) || !c.verify(Signed(n)) then Rejected else
    var key := NftKey(p.collection, p.token);
    if key == "" || key in s.nfts then Rejected else
    var owner := if NormalizeAccount(p.owner) != "" then NormalizeAccount(p.owner) else NormalizeAccount(n.to);
    if owner == "" then Rejected else
    var token := NftToken(p.collection, p.token, owner, n.from, p.metadataUri, p.metadataHash, p.imageUri,
                          n.id, n.id, false);
    Applied(s.(recorded := s.recorded + {n.id}, nfts := s.nfts[key := token]), n)
  }

  function ApplyNftTransfer(c: Checks, s: State, t: Tx): Outcome {
    if t.nft.None? then Rejected else
    var n := NormalNft(t);
    if !ValidNftTransfer(n) || !c.verify(Signed(n)) then Rejected else
    var key := NftKey(n.nft.value.collection, n.nft.value.token);
    if key !in s.nfts || s.nfts[key].burned || !SameAccount(s.nfts[key].owner, n.from) then Rejected else
    var token := s.nfts[key].(owner := NormalizeAccount(n.to), lastTx := n.id);
    Applied(s.(nfts := s.nfts[key := token], recorded := s.recorded + {n.id}), n)
  }

  function ApplyMint(c: Checks, s: State, t: Tx): Outcome {
    if t.amount < 1 || Get(s.accounts, t.from) <= 0 || !c.verify(Signed(t)) then Rejected else
    Applied(s.(recorded := s.recorded + {t.id},
               accounts := s.accounts[t.to := Get(s.accounts, t.to) + t.amount],
               validators := if t.to != "" && c.native(t.to) then s.validators + {t.to} else s.validators), t)
  }

  function Moved(accounts: map<string, int>, from: string, to: string, amount: int): map<string, int> {
    var debited := accounts[from := Get(accounts, from) - amount];
    debited[to := Get(debited, to) + amount]
  }

  function Advanced(s: State, n: Tx): State {
    s.(recorded := s.recorded + {n.id},
       nonces := if IsEvm(n) then s.nonces[n.from := n.nonce + 1] else s.nonces)
  }

  function ApplyTransfer(c: Checks, s: State, t: Tx): Outcome {
    if t.amount < 0 || (!IsEvm(t) && t.amount < 1) || !c.verify(Signed(t)) then Rejected
    else if IsEvm(t) && Get(s.nonces, t.from) != t.nonce then Rejected
    else if Get(s.accounts, t.from) < t.amount then Rejected
    else Applied(Advanced(s.(accounts := Moved(s.accounts, t.from, t.to, t.amount)), t), t)
  }

  function ApplyAmm(c: Checks, s: State, t: Tx): Outcome {
    if t.amm.None? then Rejected else
    var n := NormalAmm(t);
    var a := n.amm.value;
    if !ValidAmm(n) || !c.verify(Signed(n)) then Rejected
    else if IsEvm(n) && Get(s.nonces, n.from) != n.nonce then Rejected
    else if a.action == "asset_credit" then
      if !IsOperator(c, s, n.from) then Rejected
      else Applied(Advanced(Credit(s, a.asset, n.to, a.amount), n), n)
    else if a.action == "asset_debit" then
      if !IsOperator(c, s, n.from) || !CanDebit(s, a.asset, n.to, a.amount) then Rejected
      else Applied(Advanced(Debit(s, a.asset, n.to, a.amount), n), n)
    else if a.action == "amm_create_pool" then ApplyCreatePool(c, s, n)
    else if a.action == "amm_add_liquidity" then ApplyAddLiquidity(c, s, n)
    else if a.action == "amm_swap" then ApplySwapTx(s, n)
    else Rejected
  }

  function ApplyCreatePool(c: Checks, s: State, n: Tx): Outcome
    requires n.amm.Some?
  {
    var a := n.amm.value;
    var id := PoolID(a.assetA, a.assetB);
    if !IsOperator(c, s, n.from) || id == "" || id in s.pools then Rejected else
    var pool := Pool(id, NormalizeAsset(a.assetA), NormalizeAsset(a.assetB), 0, 0, AMM_FEE_BPS, n.id, n.id);
    Applied(Advanced(s.(pools := s.pools[id := pool]), n), n)
  }

  /** Both sides of a deposit; the second debit is skipped when the first left too little. */
  function DebitBoth(s: State, pool: Pool, from: string, amountA: int, amountB: int): State
    requires CanDebit(s, pool.assetA, from, amountA)
  {
    var s1 := Debit(s, pool.assetA, from, amountA);
    if CanDebit(s1, pool.assetB, from, amountB) then Debit(s1, pool.assetB, from, amountB) else s1
  }

  function Deposited(s: State, pool: Pool, from: string, amountA: int, amountB: int, tx: string): State
    requires CanDebit(s, pool.assetA, from, amountA)
  {
    var s' := DebitBoth(s, pool, from, amountA, amountB);
    var grown := pool.(reserveA := pool.reserveA + amountA, reserveB := pool.reserveB + amountB, lastTx := tx);
    s'.(pools := s'.pools[pool.id := grown])
  }

  function ApplyAddLiquidity(c: Checks, s: State, n: Tx): Outcome
    requires n.amm.Some?
  {
    var a := n.amm.value;
    var id := NormalizePoolID(a.poolID);
    if !IsOperator(c, s, n.from) || a.amountA < 1 || a.amountB < 1 || id !in s.pools then Rejected else
    var pool := s.pools[id];
    if !CanDebit(s, pool.assetA, n.from, a.amountA) || !CanDebit(s, pool.assetB, n.from, a.amountB) then Rejected else
    Applied(Advanced(Deposited(s, pool, n.from, a.amountA, a.amountB, n.id), n), n)
  }

  function ApplySwapTx(s: State, n: Tx): Outcome
    requires n.amm.Some?
  {
    var a := n.amm.value;
    var id := NormalizePoolID(a.poolID);
    if a.amountIn < 1 || a.minAmountOut < 0 || id !in s.pools then Rejected else
    var pool := s.pools[id];
    var quote := QuoteSwap(pool, a.assetIn, a.amountIn);
    if quote.NoQuote? || quote.out < a.minAmountOut || quote.out < 1 then Rejected
    else if !CanDebit(s, a.assetIn, n.from, a.amountIn) then Rejected else
    var swapped := ApplySwap(pool, a.assetIn, a.amountIn, quote.out);
    if swapped.Refused? then Rejected else
    var s1 := Debit(s, a.assetIn, n.from, a.amountIn);
    var s2 := Credit(s1, a.assetOut, n.from, quote.out);
    var n' := n.(amm := Some(a.(amountOut := quote.out)));
    Applied(Advanced(s2.(pools := s2.pools[pool.id := swapped.pool.(lastTx := n.id)]), n'), n')
  }

  // ----- lists of transactions -----------------------------------------------------------------------

  /** The ledger after every transaction, or nothing when one is rejected. */
  function ApplyAll(c: Checks, s: State, txs: seq<Tx>): Option<State>
    decreases |txs|
  {
    if txs == [] then Some(s) else
    var r := Apply(c, s, txs[0]);
    if r.Rejected? then None else ApplyAll(c, r.state, txs[1..])
  }

  /** The ledger after the transactions that apply, skipping the others. */
  function ApplySome(c: Checks, s: State, txs: seq<Tx>): State
    decreases |txs|
  {
    if txs == [] then s else
    var r := Apply(c, s, txs[0]);
    ApplySome(c, if r.Rejected? then s else r.state, txs[1..])
  }

  lemma {:induction false} ApplyAllAppend(c: Checks, s: State, txs: seq<Tx>, more: seq<Tx>)
    requires ApplyAll(c, s, txs).Some?
    ensures ApplyAll(c, s, txs + more) == ApplyAll(c, ApplyAll(c, s, txs).value, more)
    decreases |txs|
  {
    if txs == [] {
      assert txs + more == more;
    } else {
      assert (txs + more)[0] == txs[0] && (txs + more)[1..] == txs[1..] + more;
      ApplyAllAppend(c, Apply(c, s, txs[0]).state, txs[1..], more);
    }
  }

  /** A list that applies in full is applied in full when rejected ones would be skipped. */
  lemma {:induction false} ApplyAllIsSome(c: Checks, s: State, txs: seq<Tx>)
    requires ApplyAll(c, s, txs).Some?
    ensures ApplySome(c, s, txs) == ApplyAll(c, s, txs).value
    decreases |txs|
  {
    if txs != [] {
      ApplyAllIsSome(c, Apply(c, s, txs[0]).state, txs[1..]);
    }
  }
}
