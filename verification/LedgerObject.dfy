/** The ledger as the node holds it: maps updated in place, step by step, by one transaction. */
module LedgerObject {
  import opened Text
  import opened Amm
  import opened Sums
  import opened Ledgers
  import opened LedgerLaws
  import opened Lottery
  import opened Genesis

  /** The new state is the outcome's, or nothing changed when the transaction was rejected. */
  ghost predicate Follows(before: State, after: State, ok: bool, tx: Tx, r: Outcome) {
    match r
    case Rejected => !ok && after == before
    case Applied(s, n) => ok && after == s && tx == n
  }

  class Ledger {
    var accounts: map<string, int>
    var nonces: map<string, int>
    var validators: set<string>
    var nfts: map<string, NftToken>
    var assets: map<string, map<string, int>>
    var pools: map<string, Pool>
    var recorded: set<string>

    ghost function Value(): State
      reads this
    {
      State(accounts, nonces, validators, nfts, assets, pools, recorded)
    }

    constructor ()
      ensures Value() == EMPTY
    {
      accounts, nonces, validators, nfts := map[], map[], {}, map[];
      assets, pools, recorded := map[], map[], {};
    }

    method MarkValidator(account: string)
      modifies this
      ensures Value() == WithValidator(old(Value()), account)
    {
      validators := validators + {account};
    }

    method AddBalance(account: string, amount: int)
      modifies this
      ensures Value() == old(Value()).(accounts := old(accounts)[account := Get(old(accounts), account) + amount])
    {
      accounts := accounts[account := Get(accounts, account) + amount];
    }

    /** Fills a new ledger with the genesis balances; holders of a positive balance become validators. */
    method InitializeFromGenesis(g: Settings)
      requires Value() == EMPTY
      modifies this
      ensures Value() == FromGenesis(g)
    {
      var left := g.initialBalances.Keys;
      while left != {}
        invariant left <= g.initialBalances.Keys
        invariant accounts.Keys == g.initialBalances.Keys - left
        invariant forall a :: a in accounts ==> accounts[a] == g.initialBalances[a]
        invariant validators == set a | a in g.initialBalances && a !in left && g.initialBalances[a] > 0
        invariant Value() == EMPTY.(accounts := accounts, validators := validators)
        decreases left
      {
        var account :| account in left;
        var amount := g.initialBalances[account];
        accounts := accounts[account := amount];
        if amount > 0 {
          validators := validators + {account};
        }
        left := left - {account};
      }
      assert accounts == g.initialBalances;
    }

    /** The share of the lottery, from one pass over the validator registry in any order. */
    method LotteryTickets(c: Checks, account: string) returns (tickets: int)
      ensures tickets == Tickets(c, Value(), account)
    {
      if account == "" || !c.native(account) {
        return 0;
      }
      hide PositiveBalances, ZeroBalances, Sum;
      var balance := Get(accounts, account);
      var known := account in validators || balance > 0;
      var totalPositive, zeroValidators := VisitRegistry();
      if !known && balance == 0 {
        zeroValidators := zeroValidators + 1;
      }
      if balance > 0 {
        if totalPositive <= 0 {
          return SCALE;
        }
        tickets := TruncDiv(balance * 97 * SCALE, 100 * totalPositive);
        return if tickets < 1 then 1 else tickets;
      }
      if zeroValidators <= 0 {
        return 0;
      }
      tickets := (3 * SCALE) / (100 * zeroValidators);
      return if tickets < 1 then 1 else tickets;
    }

    /** The stake of the validators with a positive balance, and the number of the others. */
    method VisitRegistry() returns (totalPositive: int, zeroValidators: int)
      ensures totalPositive == Sum(PositiveBalances(Value(), validators))
      ensures zeroValidators == |ZeroBalances(Value(), validators)|
    {
      totalPositive, zeroValidators := 0, 0;
      var left := validators;
      assert validators - left == {};
      while left != {}
        invariant left <= validators
        invariant totalPositive == Sum(PositiveBalances(Value(), validators - left))
        invariant zeroValidators == |ZeroBalances(Value(), validators - left)|
        decreases left
      {
        var v :| v in left;
        var b := Get(accounts, v);
        VisitOne(Value(), validators - left, v);
        assert validators - (left - {v}) == (validators - left) + {v};
        if b > 0 {
          totalPositive := totalPositive + b;
        } else {
          zeroValidators := zeroValidators + 1;
        }
        left := left - {v};
      }
      assert validators - left == validators;
    }

    method CreditAsset(asset: string, account: string, amount: int)
      modifies this
      ensures Value() == Credit(old(Value()), asset, account, amount)
    {
      var a, who := NormalizeAsset(asset), NormalizeAccount(account);
      if amount <= 0 || who == "" {
        return;
      }
      if a == PKN {
        accounts := accounts[who := Get(accounts, who) + amount];
        return;
      }
      if a !in assets {
        assets := assets[a := map[]];
      }
      assets := assets[a := assets[a][who := Get(assets[a], who) + amount]];
    }

    method DebitAsset(asset: string, account: string, amount: int) returns (ok: bool)
      modifies this
      ensures ok == CanDebit(old(Value()), asset, account, amount)
      ensures Value() == if ok then Debit(old(Value()), asset, account, amount) else old(Value())
    {
      var a, who := NormalizeAsset(asset), NormalizeAccount(account);
      if amount <= 0 || who == "" {
        return false;
      }
      if a == PKN {
        if Get(accounts, who) < amount {
          return false;
        }
        accounts := accounts[who := Get(accounts, who) - amount];
        return true;
      }
      if a !in assets || Get(assets[a], who) < amount {
        return false;
      }
      assets := assets[a := assets[a][who := Get(assets[a], who) - amount]];
      return true;
    }

    method CanDebitAsset(asset: string, account: string, amount: int) returns (ok: bool)
      ensures ok == CanDebit(Value(), asset, account, amount)
    {
      var a, who := NormalizeAsset(asset), NormalizeAccount(account);
      if amount <= 0 || who == "" {
        return false;
      }
      if a == PKN {
        return Get(accounts, who) >= amount;
      }
      return a in assets && Get(assets[a], who) >= amount;
    }

    method IsOperatorLocked(c: Checks, account: string) returns (ok: bool)
      ensures ok == IsOperator(c, Value(), account)
    {
      ok := account != "" && c.native(account) && account in validators;
    }

    /** Records the transaction and moves an EVM sender's nonce on. */
    method Advance(n: Tx)
      modifies this
      ensures Value() == Advanced(old(Value()), n)
    {
      recorded := recorded + {n.id};
      if IsEvm(n) {
        nonces := nonces[n.from := n.nonce + 1];
      }
    }

    method MintNft(c: Checks, t: Tx) returns (ok: bool, n: Tx)
      modifies this
      ensures Follows(old(Value()), Value(), ok, n, ApplyNftMint(c, old(Value()), t))
    {
      n := t;
      if t.nft.None? {
        return false, n;
      }
      n := NormalNft(t);
      var p := n.nft.value;
      if !ValidNftMint(n) || !c.verify(Signed(n)) {
        return false, n;
      }
      var key := NftKey(p.collection, p.token);
      if key == "" || key in nfts {
        return false, n;
      }
      var owner := NormalizeAccount(p.owner);
      if owner == "" {
        owner := NormalizeAccount(n.to);
      }
      if owner == "" {
        return false, n;
      }
      recorded := recorded + {n.id};
      nfts := nfts[key := NftToken(p.collection, p.token, owner, n.from, p.metadataUri, p.metadataHash,
                                   p.imageUri, n.id, n.id, false)];
      return true, n;
    }

    method TransferNft(c: Checks, t: Tx) returns (ok: bool, n: Tx)
      modifies this
      ensures Follows(old(Value()), Value(), ok, n, ApplyNftTransfer(c, old(Value()), t))
    {
      n := t;
      if t.nft.None? {
        return false, n;
      }
      n := NormalNft(t);
      if !ValidNftTransfer(n) || !c.verify(Signed(n)) {
        return false, n;
      }
      var key := NftKey(n.nft.value.collection, n.nft.value.token);
      if key !in nfts || nfts[key].burned || !SameAccount(nfts[key].owner, n.from) {
        return false, n;
      }
      var token := nfts[key];
      token := token.(owner := NormalizeAccount(n.to));
      token := token.(lastTx := n.id);
      nfts := nfts[key := token];
      recorded := recorded + {n.id};
      return true, n;
    }

    method CreatePool(c: Checks, n: Tx) returns (ok: bool)
      requires n.amm.Some?
      modifies this
      ensures Follows(old(Value()), Value(), ok, n, ApplyCreatePool(c, old(Value()), n))
    {
      var a := n.amm.value;
      var operator := IsOperatorLocked(c, n.from);
      if !operator {
        return false;
      }
      var id := PoolID(a.assetA, a.assetB);
      if id == "" || id in pools {
        return false;
      }
      pools := pools[id := Pool(id, NormalizeAsset(a.assetA), NormalizeAsset(a.assetB), 0, 0, AMM_FEE_BPS, n.id, n.id)];
      Advance(n);
      return true;
    }

    method Deposit(pool: Pool, from: string, amountA: int, amountB: int, tx: string)
      requires CanDebit(Value(), pool.assetA, from, amountA)
      modifies this
      ensures Value() == Deposited(old(Value()), pool, from, amountA, amountB, tx)
    {
      var _ := DebitAsset(pool.assetA, from, amountA);
      var _ := DebitAsset(pool.assetB, from, amountB);
      var pool' := pool.(reserveA := pool.reserveA + amountA);
      pool' := pool'.(reserveB := pool'.reserveB + amountB);
      pool' := pool'.(lastTx := tx);
      pools := pools[pool'.id := pool'];
    }

    method AddLiquidity(c: Checks, n: Tx) returns (ok: bool)
      requires n.amm.Some?
      modifies this
      ensures Follows(old(Value()), Value(), ok, n, ApplyAddLiquidity(c, old(Value()), n))
    {
      var a := n.amm.value;
      var operator := IsOperatorLocked(c, n.from);
      if !operator || a.amountA < 1 || a.amountB < 1 {
        return false;
      }
      var id := NormalizePoolID(a.poolID);
      if id !in pools {
        return false;
      }
      var pool := pools[id];
      var canA := CanDebitAsset(pool.assetA, n.from, a.amountA);
      var canB := CanDebitAsset(pool.assetB, n.from, a.amountB);
      if !canA || !canB {
        return false;
      }
      Deposit(pool, n.from, a.amountA, a.amountB, n.id);
      Advance(n);
      return true;
    }

    /** The debit comes before the pool is asked to swap; a quote rules out that the pool refuses,
        so a rejected swap leaves no trace. */
    method Swap(n: Tx) returns (ok: bool, n': Tx)
      requires n.amm.Some?
      modifies this
      ensures Follows(old(Value()), Value(), ok, n', ApplySwapTx(old(Value()), n))
    {
      var a := n.amm.value;
      n' := n;
      if a.amountIn < 1 || a.minAmountOut < 0 {
        return false, n';
      }
      var id := NormalizePoolID(a.poolID);
      if id !in pools {
        return false, n';
      }
      var pool := pools[id];
      var quote := QuoteSwap(pool, a.assetIn, a.amountIn);
      if quote.NoQuote? || quote.out < a.minAmountOut || quote.out < 1 {
        return false, n';
      }
      var can := CanDebitAsset(a.assetIn, n.from, a.amountIn);
      if !can {
        return false, n';
      }
      var _ := DebitAsset(a.assetIn, n.from, a.amountIn);
      var swapped := ApplySwap(pool, a.assetIn, a.amountIn, quote.out);
      if swapped.Refused? {
        SwapGrowsProduct(pool, a.assetIn, a.amountIn);
        assert false;
      }
      pool := swapped.pool;
      CreditAsset(a.assetOut, n.from, quote.out);
      n' := n.(amm := Some(a.(amountOut := quote.out)));
      pool := pool.(lastTx := n.id);
      pools := pools[pool.id := pool];
      Advance(n');
      return true, n';
    }

    method ApplyAMM(c: Checks, t: Tx) returns (ok: bool, n: Tx)
      modifies this
      ensures Follows(old(Value()), Value(), ok, n, ApplyAmm(c, old(Value()), t))
    {
      n := t;
      if t.amm.None? {
        return false, n;
      }
      n := NormalAmm(t);
      var a := n.amm.value;
      if !ValidAmm(n) || !c.verify(Signed(n)) {
        return false, n;
      }
      if IsEvm(n) && Get(nonces, n.from) != n.nonce {
        return false, n;
      }
      if a.action == "asset_credit" || a.action == "asset_debit" {
        var operator := IsOperatorLocked(c, n.from);
        if !operator {
          return false, n;
        }
        if a.action == "asset_credit" {
          CreditAsset(a.asset, n.to, a.amount);
        } else {
          var debited := DebitAsset(a.asset, n.to, a.amount);
          if !debited {
            return false, n;
          }
        }
        Advance(n);
        return true, n;
      } else if a.action == "amm_create_pool" {
        ok := CreatePool(c, n);
      } else if a.action == "amm_add_liquidity" {
        ok := AddLiquidity(c, n);
      } else {
        ok, n := Swap(n);
      }
    }

    /** Applies one transaction.  A rejected transaction of any kind leaves the ledger unchanged. */
    method Transaction(c: Checks, t: Tx) returns (ok: bool, n: Tx)
      modifies this
      ensures Follows(old(Value()), Value(), ok, n, Apply(c, old(Value()), t))
    {
      hide Signed, ApplyAmm, ApplyNftMint, ApplyNftTransfer;
      n := t;
      if IsAmm(t) {
        ok, n := ApplyAMM(c, t);
        return;
      }
      if t.kind == "nft_mint" {
        ok, n := MintNft(c, t);
        return;
      }
      if t.kind == "nft_transfer" {
        ok, n := TransferNft(c, t);
        return;
      }
      if t.kind == "mint" {
        if t.amount < 1 || Get(accounts, t.from) <= 0 || !c.verify(Signed(t)) {
          return false, n;
        }
        recorded := recorded + {t.id};
        accounts := accounts[t.to := Get(accounts, t.to) + t.amount];
        if t.to != "" && c.native(t.to) {
          validators := validators + {t.to};
        }
        return true, n;
      }
      if t.amount < 0 || (!IsEvm(t) && t.amount < 1) {
        return false, n;
      }
      if !c.verify(Signed(t)) {
        return false, n;
      }
      if IsEvm(t) && Get(nonces, t.from) != t.nonce {
        return false, n;
      }
      if Get(accounts, t.from) < t.amount {
        return false, n;
      }
      recorded := recorded + {t.id};
      accounts := accounts[t.from := Get(accounts, t.from) - t.amount];
      accounts := accounts[t.to := Get(accounts, t.to) + t.amount];
      if IsEvm(t) {
        nonces := nonces[t.from := t.nonce + 1];
      }
      return true, n;
    }
  }
}
