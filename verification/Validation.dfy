/** Path-local block validation, ledger replay, and the store that AddBlock builds. */
module Validation {
  import opened Sums
  import opened Ledgers
  import opened LedgerLaws
  import opened Genesis
  import opened Lottery
  import opened Chain

  const BLOCK_SIZE := 16
  const MINER_BLOCK_REWARD := 10

  // ----- replay ------------------------------------------------------------------------------------

  function Rewarded(s: State, key: string): State {
    s.(accounts := s.accounts[key := Get(s.accounts, key) + MINER_BLOCK_REWARD])
  }

  /** Replay registers the miner before the transactions and skips transactions that fail; a block
      whose metadata does not decode earns no reward. */
  function ReplayBlock(o: Oracle, s: State, b: Block): State {
    var marked := WithValidator(s, b.key);
    match o.txs(b.meta)
    case None => marked
    case Some(txs) => Rewarded(ApplySome(o.checks, marked, txs), b.key)
  }

  /** The ledger of a chain; a genesis that does not decode gives the empty ledger. */
  function Replay(o: Oracle, path: seq<Block>): State
    decreases |path|
  {
    if path == [] || o.genesis(path[0].meta).None? then EMPTY
    else if |path| == 1 then FromGenesis(o.genesis(path[0].meta).value)
    else ReplayBlock(o, Replay(o, path[..|path| - 1]), path[|path| - 1])
  }

  // ----- validation ----------------------------------------------------------------------------------

  function Slots(path: seq<Block>): seq<int> {
    seq(|path|, i requires 0 <= i < |path| => path[i].slot)
  }

  /** The draw a block must carry: from its lottery proof when it has one, else the public draw. */
  predicate DrawChecks(o: Oracle, seed: int, b: Block) {
    if b.proof != "" then
      && o.proofValid(seed, b.slot, b.key, b.proof)
      && o.proofDraw(b.proof) == Some(b.draw)
    else b.draw == o.publicDraw(seed, b.slot, b.key)
  }

  function TxCount(o: Oracle, b: Block): nat {
    match o.txs(b.meta)
    case None => 0
    case Some(txs) => |txs|
  }

  /** The hardness a block is held to: newcomers without balance get at least the base hardness. */
  function RequiredHardness(o: Oracle, g: Settings, path: seq<Block>, parent: State, b: Block): int {
    var h := EffectiveHardness(Slots(path), g, TxCount(o, b));
    if b.key !in parent.validators && Get(parent.accounts, b.key) == 0 && g.hardness > h then g.hardness else h
  }

  ghost predicate WinsOn(o: Oracle, g: Settings, path: seq<Block>, b: Block) {
    var parent := Replay(o, path);
    var tickets := Tickets(o.checks, parent, b.key);
    tickets > 0 && WinsLottery(tickets, RequiredHardness(o, g, path, parent, b), b.draw)
  }

  predicate BodyApplies(o: Oracle, parent: State, b: Block) {
    match o.txs(b.meta)
    case None => false
    case Some(txs) => |txs| <= BLOCK_SIZE && ApplyAll(o.checks, parent, txs).Some?
  }

  /** Everything AddBlock asks of a block, given the chain up to its parent. */
  ghost predicate Check(o: Oracle, path: seq<Block>, b: Block)
    requires path != []
  {
    && IsSigned(o, b)
    && o.genesis(path[0].meta).Some?
    && DrawChecks(o, o.genesis(path[0].meta).value.seed, b)
    && WinsOn(o, o.genesis(path[0].meta).value, path, b)
    && BodyApplies(o, Replay(o, path), b)
  }

  /** The ledger AddBlock computes when it validates: miner registered and paid after the transactions. */
  function Validated(o: Oracle, parent: State, b: Block): State
    requires BodyApplies(o, parent, b)
  {
    Rewarded(WithValidator(ApplyAll(o.checks, parent, o.txs(b.meta).value).value, b.key), b.key)
  }

  /** A chain each of whose blocks passed validation on the blocks before it. */
  ghost predicate ChainOk(o: Oracle, c: seq<Block>) {
    Linked(o, c) && forall i :: 0 < i < |c| ==> Check(o, c[..i], c[i])
  }

  /** Replaying a validated block rejects none of its transactions and gives the ledger computed
      when it was validated, although the miner is registered earlier. */
  lemma ReplayMatchesValidation(o: Oracle, path: seq<Block>, b: Block)
    requires path != [] && Check(o, path, b)
    ensures BodyApplies(o, Replay(o, path), b) && BodyApplies(o, WithValidator(Replay(o, path), b.key), b)
    ensures Replay(o, path + [b]) == Validated(o, Replay(o, path), b)
  {
    hide Apply, ApplyAll, ApplySome;
    var s, txs := Replay(o, path), o.txs(b.meta).value;
    assert (path + [b])[..|path|] == path;
    ApplyAllWithValidator(o.checks, s, b.key, txs);
    ApplyAllIsSome(o.checks, WithValidator(s, b.key), txs);
  }

  /** On a validated chain, every prefix replays without a rejection to the ledger of validation. */
  lemma ChainReplays(o: Oracle, c: seq<Block>, i: nat)
    requires ChainOk(o, c) && 0 < i < |c|
    ensures BodyApplies(o, Replay(o, c[..i]), c[i])
    ensures BodyApplies(o, WithValidator(Replay(o, c[..i]), c[i].key), c[i])
    ensures Replay(o, c[..i + 1]) == Validated(o, Replay(o, c[..i]), c[i])
  {
    hide Replay, Check, BodyApplies, Validated;
    assert c[..i + 1] == c[..i] + [c[i]];
    ReplayMatchesValidation(o, c[..i], c[i]);
  }

  // ----- the store ---------------------------------------------------------------------------------------

  ghost predicate Accepts(o: Oracle, blocks: seq<Block>, b: Block)
    requires Store(o, blocks)
  {
    var t := TreeOf(o, blocks);
    b.parent in t.nodes && ParentPath(o, blocks, b) != [] && Check(o, ParentPath(o, blocks, b), b)
  }

  ghost function ParentPath(o: Oracle, blocks: seq<Block>, b: Block): seq<Block>
    requires Store(o, blocks)
  {
    Branch(o, TreeOf(o, blocks), blocks[0], b.parent)
  }

  ghost function Added(o: Oracle, blocks: seq<Block>, b: Block): (r: seq<Block>)
    requires Store(o, blocks)
    ensures Store(o, r) && r[0] == blocks[0]
  {
    if Accepts(o, blocks, b) then blocks + [b] else blocks
  }

  /** The store after a list of deliveries. */
  ghost function Feed(o: Oracle, blocks: seq<Block>, deliveries: seq<Block>): (r: seq<Block>)
    requires Store(o, blocks)
    ensures Store(o, r) && r[0] == blocks[0]
    decreases |deliveries|
  {
    if deliveries == [] then blocks
    else Added(o, Feed(o, blocks, deliveries[..|deliveries| - 1]), deliveries[|deliveries| - 1])
  }
}
