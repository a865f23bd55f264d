/** What acceptance of a block means for the block: its signature, its draw, its lottery and its body. */
module Acceptance {
  import opened Sums
  import opened Ledgers
  import opened Authority
  import opened Lottery
  import opened Genesis
  import opened Chain
  import opened Validation
  import opened Convergence

  /** The draw is the public one of the seed, the slot and the key when the block has no proof, and the one
      its valid proof gives otherwise. */
  predicate DrawIsDue(o: Oracle, seed: int, b: Block) {
    && (b.proof == "" ==> b.draw == o.publicDraw(seed, b.slot, b.key))
    && (b.proof != "" ==> o.proofValid(seed, b.slot, b.key, b.proof) && o.proofDraw(b.proof) == Some(b.draw))
  }

  /** Signed over everything but the metadata, with the draw that was due, and a body of at most 16
      transactions. */
  predicate Proper(o: Oracle, g: Block, b: Block) {
    && o.signed(b.(meta := ""))
    && o.genesis(g.meta).Some? && DrawIsDue(o, o.genesis(g.meta).value.seed, b)
    && o.txs(b.meta).Some? && |o.txs(b.meta).value| <= 16
  }

  lemma ParentPathStarts(o: Oracle, store: seq<Block>, b: Block)
    requires Store(o, store) && b.parent in TreeOf(o, store).nodes
    ensures ParentPath(o, store, b) != [] && ParentPath(o, store, b)[0] == store[0]
  {
    hide BuildTree, WellFormed;
    BranchShape(o, TreeOf(o, store), store[0], b.parent);
  }

  /** An accepted block is proper, and its parent is in the store. */
  lemma AcceptedIsProper(o: Oracle, store: seq<Block>, b: Block)
    requires Store(o, store) && Accepts(o, store, b)
    ensures Proper(o, store[0], b)
    ensures b.parent in TreeOf(o, store).nodes
  {
    hide WinsOn, Replay, ApplyAll, Branch, BuildTree, WellFormed;
    ParentPathStarts(o, store, b);
  }

  /** Two accepted blocks on stores with one genesis that agree in slot, key and proof agree in the draw. */
  lemma SameSlotSameDraw(o: Oracle, store: seq<Block>, store': seq<Block>, b: Block, b': Block)
    requires Store(o, store) && Store(o, store') && store[0] == store'[0]
    requires Accepts(o, store, b) && Accepts(o, store', b')
    requires b.slot == b'.slot && b.key == b'.key && b.proof == b'.proof
    ensures b.draw == b'.draw
  {
    hide Accepts, TreeOf;
    AcceptedIsProper(o, store, b);
    AcceptedIsProper(o, store', b');
  }

  /** So a block cannot be given another draw, however it is signed again and whatever it carries. */
  lemma AlteredDrawRefused(o: Oracle, store: seq<Block>, store': seq<Block>, b: Block, b': Block)
    requires Store(o, store) && Store(o, store') && store[0] == store'[0] && Accepts(o, store, b)
    requires b' == b.(draw := b'.draw, signature := b'.signature, meta := b'.meta, parent := b'.parent)
    requires b'.draw != b.draw
    ensures !Accepts(o, store', b')
  {
    hide Accepts, TreeOf;
    if Accepts(o, store', b') {
      SameSlotSameDraw(o, store, store', b, b');
    }
  }

  /** A made-up draw, where 7 is due. */
  lemma MadeUpDrawRefused(hash: Block -> string, checks: Checks)
    requires Lawful(TwinOracle(hash, checks)) && checks.native(ANN)
    ensures var o := TwinOracle(hash, checks);
            Store(o, [EXAMPLE_GENESIS]) && !Accepts(o, [EXAMPLE_GENESIS], Twin(o, "").(draw := 0))
  {
    hide Accepts, TreeOf, Lawful;
    var o := TwinOracle(hash, checks);
    TwinAccepts(hash, checks);
    var b := Twin(o, "");
    AlteredDrawRefused(o, [EXAMPLE_GENESIS], [EXAMPLE_GENESIS], b, b.(draw := 0));
  }

  /** The key has a ticket on the parent's ledger, and the draw wins there, at the effective hardness of the
      parent's chain, or at the base hardness when that is higher and the key is a newcomer's. */
  lemma AcceptedWins(o: Oracle, store: seq<Block>, b: Block)
    requires Store(o, store) && Accepts(o, store, b)
    ensures o.genesis(store[0].meta).Some? && o.txs(b.meta).Some?
    ensures var g, path := o.genesis(store[0].meta).value, ParentPath(o, store, b);
            var s := Replay(o, path);
            var tickets, h := Tickets(o.checks, s, b.key), EffectiveHardness(Slots(path), g, |o.txs(b.meta).value|);
            var known := b.key in s.validators || Get(s.accounts, b.key) != 0;
            && tickets >= 1
            && (WinsLottery(tickets, h, b.draw) || (!known && g.hardness > h))
            && (!known && g.hardness > h ==> WinsLottery(tickets, g.hardness, b.draw))
  {
    hide Replay, ApplyAll, Branch, BuildTree, WellFormed, Tickets, EffectiveHardness, WinsLottery;
    ParentPathStarts(o, store, b);
  }

  /** Every transaction of an accepted block applies in its turn to the parent's ledger, so each was signed. */
  lemma AcceptedBodyApplies(o: Oracle, store: seq<Block>, b: Block, i: nat)
    requires Store(o, store) && Accepts(o, store, b)
    requires o.txs(b.meta).Some? && i < |o.txs(b.meta).value|
    ensures var txs := o.txs(b.meta).value;
            var r := Apply(o.checks, ApplySome(o.checks, Replay(o, ParentPath(o, store, b)), txs[..i]), txs[i]);
            r.Applied? && o.checks.verify(Signed(r.tx))
  {
    hide Replay, Branch, BuildTree, WellFormed, Apply, ApplySome, WinsOn, DrawChecks;
    var txs, s := o.txs(b.meta).value, Replay(o, ParentPath(o, store, b));
    EachApplies(o.checks, s, txs, i);
    AppliedIsSigned(o.checks, ApplySome(o.checks, s, txs[..i]), txs[i]);
  }

  lemma {:induction false} EachApplies(c: Checks, s: State, txs: seq<Tx>, i: nat)
    requires ApplyAll(c, s, txs).Some? && i < |txs|
    ensures Apply(c, ApplySome(c, s, txs[..i]), txs[i]).Applied?
    decreases i
  {
    hide Apply;
    if i > 0 {
      EachApplies(c, Apply(c, s, txs[0]).state, txs[1..], i - 1);
      assert txs[..i][0] == txs[0] && txs[..i][1..] == txs[1..][..i - 1];
    }
  }

  /** Over every list of deliveries: whatever is in the store besides the genesis is proper. */
  lemma {:induction false} StoredIsProper(o: Oracle, g: Block, ds: seq<Block>, b: Block)
    requires Store(o, [g]) && b in Feed(o, [g], ds) && b != g
    ensures Proper(o, g, b)
    decreases |ds|
  {
    hide Accepts, Proper;
    if ds != [] {
      var before, last := Feed(o, [g], ds[..|ds| - 1]), ds[|ds| - 1];
      if b in before {
        StoredIsProper(o, g, ds[..|ds| - 1], b);
      } else {
        AcceptedIsProper(o, before, last);
      }
    }
  }
}
