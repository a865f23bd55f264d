/** Every account along every replayed chain: its balance to the unit, who is registered, and who may make a
    balance fall. */
module ChainPostings {
  import opened Text
  import opened Sums
  import opened Ledgers
  import opened LedgerLaws
  import opened Conservation
  import opened Postings
  import opened Authority
  import opened Effects
  import opened Genesis
  import opened Chain
  import opened Validation
  import opened ChainLaws

  // ----- balances --------------------------------------------------------------------------------------

  /** What the accepted transactions of a list post to an account. */
  function PostedBy(c: Checks, s: State, txs: seq<Tx>, asset: string, who: string): int
    decreases |txs|
  {
    if txs == [] then 0 else
    var r := Apply(c, s, txs[0]);
    if r.Rejected? then PostedBy(c, s, txs[1..], asset, who)
    else Posted(s, txs[0], asset, who) + PostedBy(c, r.state, txs[1..], asset, who)
  }

  lemma {:induction false} ListPosts(c: Checks, s: State, txs: seq<Tx>, asset: string, who: string)
    requires Sane(s)
    ensures BalanceOf(ApplySome(c, s, txs), asset, who) == BalanceOf(s, asset, who) + PostedBy(c, s, txs, asset, who)
    decreases |txs|
  {
    hide Apply, Sane, Posted, BalanceOf;
    if txs != [] {
      var r := Apply(c, s, txs[0]);
      if r.Applied? {
        ApplyPosts(c, s, txs[0], asset, who);
        ApplyAccounts(c, s, txs[0], asset);
        ListPosts(c, r.state, txs[1..], asset, who);
      } else {
        ListPosts(c, s, txs[1..], asset, who);
      }
    }
  }

  function PostedOn(o: Oracle, path: seq<Block>, asset: string, who: string): int
    requires path != []
    decreases |path|
  {
    if |path| == 1 then 0
    else PostedOn(o, Parent(path), asset, who)
         + PostedBy(o.checks, Entering(o, path), BodyOf(o, Last(path)), asset, who)
  }

  predicate Earns(o: Oracle, b: Block, who: string) {
    b.key == who && o.txs(b.meta).Some?
  }

  /** The positions of blocks that this account mined and whose metadata decodes. */
  function MinedBy(o: Oracle, path: seq<Block>, who: string): set<nat> {
    set i: nat | 0 < i < |path| && Earns(o, path[i], who)
  }

  lemma OneMoreMined(o: Oracle, path: seq<Block>, who: string)
    requires |path| > 1
    ensures |MinedBy(o, path, who)| == |MinedBy(o, Parent(path), who)| + if Earns(o, Last(path), who) then 1 else 0
  {
    hide Earns, MinedBy, Parent;
    var n: nat := |path| - 1;
    var before, after := MinedBy(o, Parent(path), who), MinedBy(o, path, who);
    forall i: nat ensures i in after <==> i in before || (i == n && Earns(o, Last(path), who)) {
      MinedAt(o, path, who, i);
    }
    MinedAt(o, path, who, n);
    if Earns(o, Last(path), who) {
      assert after == before + {n};
    } else {
      assert after == before;
    }
  }

  lemma MinedAt(o: Oracle, path: seq<Block>, who: string, i: nat)
    requires |path| > 1
    ensures i in MinedBy(o, path, who) <==>
              i in MinedBy(o, Parent(path), who) || (i == |path| - 1 && Earns(o, Last(path), who))
    ensures i in MinedBy(o, Parent(path), who) ==> i < |path| - 1
  {
    hide Earns;
  }

  lemma RewardPosts(s: State, key: string, asset: string, who: string)
    requires PKN !in s.assets
    ensures BalanceOf(Rewarded(s, key), asset, who) == BalanceOf(s, asset, who) + At(asset, who, PKN, key, 10)
  {
  }

  /** On every replayed chain the balance of every account is its genesis balance, plus what the accepted
      transactions post to it, plus 10 for each decodable block it mined. */
  lemma {:induction false} ChainPosts(o: Oracle, path: seq<Block>, asset: string, who: string)
    requires Rooted(o, path)
    ensures BalanceOf(Replay(o, path), asset, who)
         == (if asset == PKN then Get(GenesisOf(o, path).initialBalances, who) + 10 * |MinedBy(o, path, who)| else 0)
            + PostedOn(o, path, asset, who)
    decreases |path|
  {
    hide Sane, BalanceOf, Rewarded, ApplySome, PostedBy, FromGenesis, MinedBy;
    if |path| == 1 {
      GenesisBalance(o, path, asset, who);
    } else {
      var s, b := Replay(o, Parent(path)), Last(path);
      ChainPosts(o, Parent(path), asset, who);
      ChainConserves(o, Parent(path), asset);
      MarkedAccounts(s, b.key, asset);
      MarkedBalance(s, b.key, asset, who);
      OneMoreMined(o, path, who);
      if o.txs(b.meta).Some? {
        var txs := o.txs(b.meta).value;
        ListPosts(o.checks, Entering(o, path), txs, asset, who);
        ListAccounts(o.checks, Entering(o, path), txs, asset);
        SaneAssets(ApplySome(o.checks, Entering(o, path), txs));
        RewardPosts(ApplySome(o.checks, Entering(o, path), txs), b.key, asset, who);
      } else {
        NothingPosted(o.checks, Entering(o, path), asset, who);
      }
    }
  }

  lemma GenesisBalance(o: Oracle, path: seq<Block>, asset: string, who: string)
    requires Rooted(o, path) && |path| == 1
    ensures BalanceOf(Replay(o, path), asset, who)
         == if asset == PKN then Get(GenesisOf(o, path).initialBalances, who) else 0
    ensures MinedBy(o, path, who) == {}
  {
  }

  lemma SaneAssets(s: State)
    requires Sane(s)
    ensures PKN !in s.assets
  {
  }

  lemma MarkedBalance(s: State, v: string, asset: string, who: string)
    ensures BalanceOf(WithValidator(s, v), asset, who) == BalanceOf(s, asset, who)
  {
  }

  lemma NothingPosted(c: Checks, s: State, asset: string, who: string)
    ensures PostedBy(c, s, [], asset, who) == 0
  {
  }

  // ----- validators ------------------------------------------------------------------------------------

  /** Who the accepted mints of a list register. */
  function RegisteredIn(c: Checks, s: State, txs: seq<Tx>): set<string>
    decreases |txs|
  {
    if txs == [] then {} else
    var r := Apply(c, s, txs[0]);
    if r.Rejected? then RegisteredIn(c, s, txs[1..])
    else RegisteredBy(c, txs[0]) + RegisteredIn(c, r.state, txs[1..])
  }

  lemma {:induction false} ListRegisters(c: Checks, s: State, txs: seq<Tx>)
    ensures ApplySome(c, s, txs).validators == s.validators + RegisteredIn(c, s, txs)
    decreases |txs|
  {
    hide Apply, RegisteredBy;
    if txs != [] {
      var r := Apply(c, s, txs[0]);
      if r.Applied? {
        RecordsAndRegisters(c, s, txs[0]);
        ListRegisters(c, r.state, txs[1..]);
      } else {
        ListRegisters(c, s, txs[1..]);
      }
    }
  }

  function RegisteredOn(o: Oracle, path: seq<Block>): set<string>
    requires path != []
    decreases |path|
  {
    if |path| == 1 then {}
    else RegisteredOn(o, Parent(path)) + RegisteredIn(o.checks, Entering(o, path), BodyOf(o, Last(path)))
  }

  function Miners(path: seq<Block>): set<string> {
    set i | 0 < i < |path| :: path[i].key
  }

  lemma OneMoreMiner(path: seq<Block>)
    requires |path| > 1
    ensures Miners(path) == Miners(Parent(path)) + {Last(path).key}
  {
    forall k | k in Miners(path) ensures k in Miners(Parent(path)) + {Last(path).key} {
      var i :| 0 < i < |path| && path[i].key == k;
      if i < |path| - 1 {
        assert Parent(path)[i].key == k;
      }
    }
    forall k | k in Miners(Parent(path)) ensures k in Miners(path) {
      var i :| 0 < i < |Parent(path)| && Parent(path)[i].key == k;
      assert path[i].key == k;
    }
    assert path[|path| - 1].key in Miners(path);
  }

  /** On every replayed chain the validators are the genesis holders of a positive balance, everyone who
      mined a block, and the native receivers of accepted mints. */
  lemma {:induction false} ChainValidators(o: Oracle, path: seq<Block>)
    requires Rooted(o, path)
    ensures var g := GenesisOf(o, path).initialBalances;
            Replay(o, path).validators == (set a | a in g && g[a] > 0) + Miners(path) + RegisteredOn(o, path)
    decreases |path|
  {
    hide ApplySome, RegisteredIn, Miners;
    if |path| == 1 {
      assert Miners(path) == {} by { NoMiners(path); }
    } else {
      var s, b := Replay(o, Parent(path)), Last(path);
      ChainValidators(o, Parent(path));
      OneMoreMiner(path);
      if o.txs(b.meta).Some? {
        ListRegisters(o.checks, Entering(o, path), o.txs(b.meta).value);
      } else {
        NothingRegistered(o.checks, Entering(o, path));
      }
    }
  }

  lemma NoMiners(path: seq<Block>)
    requires |path| == 1
    ensures Miners(path) == {}
  {
  }

  lemma NothingRegistered(c: Checks, s: State)
    ensures RegisteredIn(c, s, []) == {}
  {
  }

  // ----- falling balances ------------------------------------------------------------------------------

  /** Some accepted transaction in the blocks after the first k authorises a fall. */
  predicate SpendsAfter(o: Oracle, path: seq<Block>, k: nat, who: string)
    requires path != []
    decreases |path|
  {
    |path| > 1 && |path| > k
    && (SpendsAfter(o, Parent(path), k, who) || Spends(o.checks, Entering(o, path), BodyOf(o, Last(path)), who))
  }

  /** Along every chain a balance falls only if a later block holds an accepted transaction that its owner
      signed, or by which an operator debits it. */
  lemma {:induction false} ChainFallIsAuthorised(o: Oracle, path: seq<Block>, k: nat, asset: string, who: string)
    requires Rooted(o, path) && 0 < k <= |path|
    requires BalanceOf(Replay(o, path), asset, who) < BalanceOf(Replay(o, path[..k]), asset, who)
    ensures SpendsAfter(o, path, k, who)
    decreases |path|
  {
    hide Sane, BalanceOf, Rewarded, ApplySome, Spends, Replay;
    assert path[..|path|] == path;
    if k < |path| {
      var s, b := Replay(o, Parent(path)), Last(path);
      assert Parent(path)[..k] == path[..k];
      BlockFall(o, path, asset, who);
      if !Spends(o.checks, Entering(o, path), BodyOf(o, b), who) {
        ChainFallIsAuthorised(o, Parent(path), k, asset, who);
      }
    }
  }

  lemma BlockFall(o: Oracle, path: seq<Block>, asset: string, who: string)
    requires Rooted(o, path) && |path| > 1
    ensures BalanceOf(Replay(o, path), asset, who) < BalanceOf(Replay(o, Parent(path)), asset, who) ==>
              Spends(o.checks, Entering(o, path), BodyOf(o, Last(path)), who)
  {
    hide Sane, BalanceOf, Rewarded, ApplySome, Spends;
    var s, b := Replay(o, Parent(path)), Last(path);
    ChainConserves(o, Parent(path), asset);
    MarkedAccounts(s, b.key, asset);
    MarkedBalance(s, b.key, asset, who);
    if o.txs(b.meta).Some? {
      var txs := o.txs(b.meta).value;
      var after := ApplySome(o.checks, Entering(o, path), txs);
      ListAccounts(o.checks, Entering(o, path), txs, asset);
      SaneAssets(after);
      RewardPosts(after, b.key, asset, who);
      if BalanceOf(after, asset, who) < BalanceOf(Entering(o, path), asset, who) {
        ListFallIsAuthorised(o.checks, Entering(o, path), txs, asset, who);
      }
    }
  }
}
