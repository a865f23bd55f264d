/** The block store of a node: blocks appended by AddBlock after validation against the parent. */
module Blockchains {
  import opened Sums
  import opened Ledgers
  import opened LedgerObject
  import opened Genesis
  import opened Lottery
  import opened Chain
  import opened Validation

  /** Applies a list of transactions in turn, whatever becomes of each. */
  method ApplyIgnoringFailures(o: Oracle, l: Ledger, txs: seq<Tx>)
    modifies l
    ensures l.Value() == ApplySome(o.checks, old(l.Value()), txs)
  {
    hide Apply;
    ghost var start := l.Value();
    for j := 0 to |txs|
      invariant ApplySome(o.checks, l.Value(), txs[j..]) == ApplySome(o.checks, start, txs)
    {
      assert txs[j..][0] == txs[j] && txs[j..][1..] == txs[j + 1..];
      var _, _ := l.Transaction(o.checks, txs[j]);
    }
  }

  /** Applies a list of transactions in turn and stops at the first that is rejected. */
  method ApplyUntilFailure(o: Oracle, l: Ledger, txs: seq<Tx>) returns (ok: bool)
    modifies l
    ensures ok == ApplyAll(o.checks, old(l.Value()), txs).Some?
    ensures ok ==> l.Value() == ApplyAll(o.checks, old(l.Value()), txs).value
  {
    hide Apply;
    ghost var start := l.Value();
    for i := 0 to |txs|
      invariant ApplyAll(o.checks, l.Value(), txs[i..]) == ApplyAll(o.checks, start, txs)
    {
      assert txs[i..][0] == txs[i] && txs[i..][1..] == txs[i + 1..];
      var applied, _ := l.Transaction(o.checks, txs[i]);
      if !applied {
        return false;
      }
    }
    return true;
  }

  method BuildLedgerFromBlocks(o: Oracle, path: seq<Block>) returns (l: Ledger)
    ensures fresh(l) && l.Value() == Replay(o, path)
  {
    hide Apply, ApplySome, Replay, FromGenesis;
    l := new Ledger();
    ReplayStart(o, path);
    if path == [] {
      return;
    }
    var genesis := o.genesis(path[0].meta);
    if genesis.None? {
      return;
    }
    l.InitializeFromGenesis(genesis.value);
    for i := 1 to |path|
      invariant fresh(l) && l.Value() == Replay(o, path[..i])
    {
      var block := path[i];
      ReplayStep(o, path, i);
      l.MarkValidator(block.key);
      var txs := o.txs(block.meta);
      if txs.None? {
        continue;
      }
      ApplyIgnoringFailures(o, l, txs.value);
      l.AddBalance(block.key, MINER_BLOCK_REWARD);
    }
    assert path[..|path|] == path;
  }

  lemma ReplayStart(o: Oracle, path: seq<Block>)
    ensures path == [] || o.genesis(path[0].meta).None? ==> Replay(o, path) == EMPTY
    ensures path != [] && o.genesis(path[0].meta).Some? ==>
              Replay(o, path[..1]) == FromGenesis(o.genesis(path[0].meta).value)
  {
  }

  lemma ReplayStep(o: Oracle, path: seq<Block>, i: nat)
    requires 0 < i < |path| && o.genesis(path[0].meta).Some?
    ensures Replay(o, path[..i + 1]) == ReplayBlock(o, Replay(o, path[..i]), path[i])
  {
    hide ReplayBlock;
    assert path[..i + 1][..i] == path[..i];
  }

  class Blockchain {
    var blocks: seq<Block>

    constructor (genesis: Block)
      ensures blocks == [genesis]
    {
      blocks := [genesis];
    }

    /** Validates a block against the branch of its parent and appends it. */
    method AddBlock(o: Oracle, block: Block) returns (ok: bool)
      requires Store(o, blocks)
      modifies this
      ensures ok == Accepts(o, old(blocks), block)
      ensures blocks == Added(o, old(blocks), block)
    {
      var depths, nodes := CalculateDepths(o, blocks);
      ghost var t := TreeOf(o, blocks);
      if block.parent !in depths {
        return false;
      }
      BranchShape(o, t, blocks[0], block.parent);
      var path := GetBlocksFromLongestBranch(o, nodes, block.parent, t, blocks[0]);
      ok := Validate(o, path, block);
      if ok {
        blocks := blocks + [block];
      }
    }

    method ReplaceBlocks(replacement: seq<Block>)
      modifies this
      ensures blocks == if replacement == [] then old(blocks) else replacement
    {
      if |replacement| == 0 {
        return;
      }
      blocks := replacement;
    }
  }

  /** The checks of AddBlock in the order of the source. */
  method Validate(o: Oracle, path: seq<Block>, block: Block) returns (ok: bool)
    requires path != []
    ensures ok == Check(o, path, block)
  {
    hide Replay, ApplyAll, EffectiveHardness, Tickets;
    if !IsSigned(o, block) {
      return false;
    }
    var decoded := o.genesis(path[0].meta);
    if decoded.None? {
      return false;
    }
    var genesis := decoded.value;
    var parentLedger := BuildLedgerFromBlocks(o, path);
    var tickets := parentLedger.LotteryTickets(o.checks, block.key);
    if tickets <= 0 {
      return false;
    }
    if !DrawChecks(o, genesis.seed, block) {
      return false;
    }
    var hardness := EffectiveHardness(Slots(path), genesis, TxCount(o, block));
    var newcomer := block.key !in parentLedger.validators && Get(parentLedger.accounts, block.key) == 0;
    if newcomer && genesis.hardness > hardness {
      hardness := genesis.hardness;
    }
    if !WinsLottery(tickets, hardness, block.draw) {
      return false;
    }
    var txs := o.txs(block.meta);
    if txs.None? || |txs.value| > BLOCK_SIZE {
      return false;
    }
    ok := ApplyUntilFailure(o, parentLedger, txs.value);
  }

  /** The ledger of the best chain without its last rollback blocks. */
  method LedgerFromBlockchain(o: Oracle, chain: Blockchain, rollback: int) returns (l: Ledger)
    requires Store(o, chain.blocks)
    ensures fresh(l) && l.Value() == Replay(o, Rollback(Canonical(o, chain.blocks), rollback))
  {
    var path := CanonicalBlocks(o, chain.blocks, rollback);
    l := BuildLedgerFromBlocks(o, path);
  }
}
