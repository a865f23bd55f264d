/** The mempool: fixpoint pruning against the best ledger, selection for a candidate block, and what
    remains for that block to be accepted. */
module Mempool {
  import opened Sums
  import opened Ledgers
  import opened LedgerLaws
  import opened LedgerObject
  import opened Effects
  import opened Genesis
  import opened Chain
  import opened Validation

  // ----- pruning -----------------------------------------------------------------------------------------

  function Ids(txs: seq<Tx>): set<string> {
    set i | 0 <= i < |txs| :: txs[i].id
  }

  lemma {:induction false} IdsSize(txs: seq<Tx>, ids: set<string>)
    requires ids <= Ids(txs)
    ensures |ids| <= |txs|
    decreases |txs|
  {
    if txs != [] {
      var n := |txs| - 1;
      var x := txs[n].id;
      forall id | id in ids - {x} ensures id in Ids(txs[..n]) {
        var i :| 0 <= i < |txs| && txs[i].id == id;
        assert txs[..n][i].id == id;
      }
      IdsSize(txs[..n], ids - {x});
    }
  }

  /** kept was applied in order from start, leaving the ledger now; keep holds its identifiers. */
  ghost predicate Kept(c: Checks, start: State, now: State, pending: seq<Tx>, keep: set<string>, kept: seq<Tx>) {
    && keep == Ids(kept) && keep <= Ids(pending) && |keep| == |kept|
    && (forall t :: t in kept ==> t in pending)
    && ApplyAll(c, start, kept) == Some(now)
  }

  ghost predicate NoneApplies(c: Checks, now: State, pending: seq<Tx>, keep: set<string>) {
    forall t :: t in pending && t.id !in keep ==> Apply(c, now, t) == Rejected
  }

  lemma KeepOne(c: Checks, start: State, now: State, pending: seq<Tx>, keep: set<string>, kept: seq<Tx>, t: Tx)
    requires Kept(c, start, now, pending, keep, kept) && t in pending && t.id !in keep && Apply(c, now, t).Applied?
    ensures Kept(c, start, Apply(c, now, t).state, pending, keep + {t.id}, kept + [t])
  {
    hide Apply, ApplyAll;
    ApplyAllAppend(c, start, kept, [t]);
    OneApplies(c, now, t);
    IdsAppend(kept, t);
    var i :| 0 <= i < |pending| && pending[i] == t;
    assert t.id in Ids(pending);
  }

  /** One pass over the pending transactions. */
  method Pass(c: Checks, ledger: Ledger, pending: seq<Tx>, keep0: set<string>, kept0: seq<Tx>, ghost start: State)
    returns (keep: set<string>, kept: seq<Tx>, progress: bool)
    requires Kept(c, start, ledger.Value(), pending, keep0, kept0)
    modifies ledger
    ensures Kept(c, start, ledger.Value(), pending, keep, kept)
    ensures if progress then keep0 < keep else keep == keep0 && NoneApplies(c, ledger.Value(), pending, keep)
  {
    hide Apply, Kept;
    keep, kept, progress := keep0, kept0, false;
    for i := 0 to |pending|
      invariant Kept(c, start, ledger.Value(), pending, keep, kept)
      invariant if progress then keep0 < keep else keep == keep0
      invariant !progress ==> forall j :: 0 <= j < i && pending[j].id !in keep ==>
                  Apply(c, ledger.Value(), pending[j]) == Rejected
    {
      var tx := pending[i];
      if tx.id in keep {
        continue;
      }
      ghost var was := ledger.Value();
      var ok, _ := ledger.Transaction(c, tx);
      if !ok {
        continue;
      }
      KeepOne(c, start, was, pending, keep, kept, tx);
      keep, kept, progress := keep + {tx.id}, kept + [tx], true;
    }
  }

  /** Applies pending transactions pass by pass until a pass applies none.  kept lists what was
      applied, in order. */
  method KeepApplicable(c: Checks, ledger: Ledger, pending: seq<Tx>)
    returns (keep: set<string>, kept: seq<Tx>, passes: nat)
    modifies ledger
    ensures Kept(c, old(ledger.Value()), ledger.Value(), pending, keep, kept)
    ensures NoneApplies(c, ledger.Value(), pending, keep)
    ensures passes <= |pending| + 1
  {
    hide Apply, NoneApplies;
    ghost var start := ledger.Value();
    keep, kept, passes := {}, [], 0;
    var progress := true;
    while progress
      invariant Kept(c, start, ledger.Value(), pending, keep, kept)
      invariant passes <= |keep| + (if progress then 0 else 1)
      invariant !progress ==> NoneApplies(c, ledger.Value(), pending, keep)
      decreases |Ids(pending) - keep|, progress
    {
      ghost var before := keep;
      keep, kept, progress := Pass(c, ledger, pending, keep, kept, start);
      passes := passes + 1;
      KeptGrows(before, keep);
      if progress {
        Shrinks(Ids(pending), before, keep);
      }
    }
    IdsSize(pending, keep);
  }

  lemma OneApplies(c: Checks, s: State, t: Tx)
    requires Apply(c, s, t).Applied?
    ensures ApplyAll(c, s, [t]) == Some(Apply(c, s, t).state)
  {
    hide Apply;
    assert [t][1..] == [];
  }

  lemma IdsAppend(txs: seq<Tx>, t: Tx)
    ensures Ids(txs + [t]) == Ids(txs) + {t.id}
  {
    var more := txs + [t];
    forall id | id in Ids(txs) ensures id in Ids(more) {
      var i :| 0 <= i < |txs| && txs[i].id == id;
      assert more[i].id == id;
    }
    assert more[|txs|].id == t.id;
  }

  lemma KeptGrows(before: set<string>, after: set<string>)
    ensures before < after ==> |before| < |after|
  {
    if before < after {
      var x :| x in after && x !in before;
      SubsetSize(before, after - {x});
    }
  }

  lemma Shrinks(all: set<string>, before: set<string>, after: set<string>)
    requires before < after <= all
    ensures |all - after| < |all - before|
  {
    var x :| x in after && x !in before;
    SubsetSize(all - after, all - before - {x});
  }

  // ----- selection ---------------------------------------------------------------------------------------

  /** What a miner selects: the transactions that apply, in the form the ledger hands back, while
      there is room. */
  function Chosen(c: Checks, s: State, pool: seq<Tx>, room: nat): seq<Tx>
    decreases |pool|
  {
    if pool == [] || room == 0 then [] else
    var r := Apply(c, s, pool[0]);
    if r.Rejected? then Chosen(c, s, pool[1..], room)
    else [r.tx] + Chosen(c, r.state, pool[1..], room - 1)
  }

  /** A rejected transaction leaves no trace, so the selection applies in full and in order to the
      same parent; when it leaves room, it took everything that applied. */
  lemma {:induction false} ChosenApplies(c: Checks, s: State, pool: seq<Tx>, room: nat)
    ensures |Chosen(c, s, pool, room)| <= room
    ensures ApplyAll(c, s, Chosen(c, s, pool, room)).Some?
    ensures |Chosen(c, s, pool, room)| < room ==>
              ApplyAll(c, s, Chosen(c, s, pool, room)).value == ApplySome(c, s, pool)
    decreases |pool|
  {
    hide Apply;
    if pool != [] && room > 0 {
      var r := Apply(c, s, pool[0]);
      if r.Rejected? {
        ChosenApplies(c, s, pool[1..], room);
      } else {
        Reapplies(c, s, pool[0]);
        ChosenApplies(c, r.state, pool[1..], room - 1);
        var rest := Chosen(c, r.state, pool[1..], room - 1);
        assert ([r.tx] + rest)[1..] == rest;
      }
    }
  }

  /** Nothing is selected that is not in the pool. */
  lemma {:induction false} ChosenFromPool(c: Checks, s: State, pool: seq<Tx>, room: nat)
    ensures Ids(Chosen(c, s, pool, room)) <= Ids(pool)
    decreases |pool|
  {
    hide Apply;
    if pool != [] && room > 0 {
      var r, rest := Apply(c, s, pool[0]), pool[1..];
      assert Ids(rest) <= Ids(pool) && pool[0].id in Ids(pool) by {
        assert forall i :: 0 <= i < |rest| ==> rest[i] == pool[i + 1];
      }
      if r.Rejected? {
        ChosenFromPool(c, s, rest, room);
      } else {
        RecordsAndRegisters(c, s, pool[0]);
        ChosenFromPool(c, r.state, rest, room - 1);
        FirstAndRest(r.tx, Chosen(c, r.state, rest, room - 1));
      }
    }
  }

  lemma FirstAndRest(t: Tx, txs: seq<Tx>)
    ensures Ids([t] + txs) == {t.id} + Ids(txs)
  {
    assert forall i :: 0 <= i < |txs| ==> ([t] + txs)[i + 1] == txs[i];
    assert ([t] + txs)[0] == t;
    forall id | id in Ids(txs) ensures id in Ids([t] + txs) {
      var i :| 0 <= i < |txs| && txs[i].id == id;
      assert ([t] + txs)[i + 1].id == id;
    }
  }

  /** One turn of the selection loop. */
  lemma ChosenFrom(c: Checks, s: State, pool: seq<Tx>, i: nat, room: nat)
    requires i <= |pool|
    ensures i == |pool| || room == 0 ==> Chosen(c, s, pool[i..], room) == []
    ensures i < |pool| && room > 0 ==>
              var r := Apply(c, s, pool[i]);
              Chosen(c, s, pool[i..], room) ==
              if r.Rejected? then Chosen(c, s, pool[i + 1..], room)
              else [r.tx] + Chosen(c, r.state, pool[i + 1..], room - 1)
  {
    hide Apply;
    if i < |pool| {
      assert pool[i..][0] == pool[i] && pool[i..][1..] == pool[i + 1..];
    }
  }

  method SelectTransactions(c: Checks, tempLedger: Ledger, pool: seq<Tx>) returns (selected: seq<Tx>)
    modifies tempLedger
    ensures selected == Chosen(c, old(tempLedger.Value()), pool, BLOCK_SIZE)
  {
    hide Apply, Chosen;
    ghost var start := tempLedger.Value();
    selected := [];
    assert pool[0..] == pool;
    for i := 0 to |pool|
      invariant |selected| < BLOCK_SIZE
      invariant selected + Chosen(c, tempLedger.Value(), pool[i..], BLOCK_SIZE - |selected|)
             == Chosen(c, start, pool, BLOCK_SIZE)
    {
      ChosenFrom(c, tempLedger.Value(), pool, i, BLOCK_SIZE - |selected|);
      var ok, tx := tempLedger.Transaction(c, pool[i]);
      if ok {
        selected := selected + [tx];
      }
      if |selected| >= BLOCK_SIZE {
        ChosenFrom(c, tempLedger.Value(), pool, i + 1, 0);
        return;
      }
    }
    ChosenFrom(c, tempLedger.Value(), pool, |pool|, BLOCK_SIZE - |selected|);
  }

  // ----- the candidate block ------------------------------------------------------------------------------

  /** What a miner brings: its account name, its signatures over (seed, slot) and over a header, and
      the encoding of transactions. */
  datatype Miner = Miner(
    key: string,
    prove: (int, int) -> string,
    sign: Block -> string,
    encode: seq<Tx> -> string)

  function NewCandidateBlock(o: Oracle, m: Miner, slot: int, parent: string, txs: seq<Tx>, seed: int): Block {
    var proof := m.prove(seed, slot);
    var draw := match o.proofDraw(proof) case Some(d) => d case None => o.publicDraw(seed, slot, m.key);
    var b := Block("block", m.key, slot, draw, m.encode(txs), parent, "", proof);
    b.(signature := m.sign(Header(b)))
  }

  /** The miner's signatures verify under its own key, and its encoding of these transactions decodes. */
  ghost predicate HonestMiner(o: Oracle, m: Miner, txs: seq<Tx>) {
    && (forall b: Block :: b.key == m.key ==> o.signed(b.(signature := m.sign(b))))
    && (forall seed, slot :: m.prove(seed, slot) != "" && o.proofValid(seed, slot, m.key, m.prove(seed, slot)))
    && o.txs(m.encode(txs)) == Some(txs)
  }

  /** A block built by MineOneSlot: on the best leaf, signed, with the draw of its proof, carrying a
      selection made on the best ledger. */
  ghost predicate Candidate(o: Oracle, store: seq<Block>, g: Settings, pool: seq<Tx>, b: Block)
    requires Store(o, store)
  {
    && o.genesis(store[0].meta) == Some(g)
    && b.parent == BestLeaf(TreeOf(o, store).depths)
    && IsSigned(o, b) && DrawChecks(o, g.seed, b)
    && o.txs(b.meta) == Some(Chosen(o.checks, Replay(o, Canonical(o, store)), pool, BLOCK_SIZE))
  }

  /** What an honest miner builds on its best leaf is such a block, when its settings name the seed of
      the chain's genesis. */
  lemma HonestCandidate(o: Oracle, store: seq<Block>, g: Settings, m: Miner, slot: int, pool: seq<Tx>)
    requires Store(o, store) && o.genesis(store[0].meta) == Some(g)
    requires HonestMiner(o, m, Chosen(o.checks, Replay(o, Canonical(o, store)), pool, BLOCK_SIZE))
    requires o.proofDraw(m.prove(g.seed, slot)).Some?
    ensures var selected := Chosen(o.checks, Replay(o, Canonical(o, store)), pool, BLOCK_SIZE);
            Candidate(o, store, g, pool,
                      NewCandidateBlock(o, m, slot, BestLeaf(TreeOf(o, store).depths), selected, g.seed))
  {
    hide BuildTree, WellFormed, Canonical, Replay, Chosen, BestLeaf;
    var selected := Chosen(o.checks, Replay(o, Canonical(o, store)), pool, BLOCK_SIZE);
    var leaf := BestLeaf(TreeOf(o, store).depths);
    var b := NewCandidateBlock(o, m, slot, leaf, selected, g.seed);
    var bare := Header(b).(signature := "");
    assert Header(b) == bare.(signature := m.sign(bare));
  }

  /** The branch AddBlock validates a candidate on is the canonical chain it was built on. */
  lemma CandidatePath(o: Oracle, store: seq<Block>, b: Block)
    requires Store(o, store) && b.parent == BestLeaf(TreeOf(o, store).depths)
    ensures b.parent in TreeOf(o, store).nodes
    ensures ParentPath(o, store, b) == Canonical(o, store) != []
    ensures Canonical(o, store)[0] == store[0]
  {
    hide BuildTree, WellFormed;
    CanonicalShape(o, store);
    KeysAgree(o, TreeOf(o, store), store[0]);
  }

  /** Only the lottery decides whether the node accepts its own candidate: every other check of
      AddBlock holds by construction. */
  lemma CandidateAcceptedIffWins(o: Oracle, store: seq<Block>, g: Settings, pool: seq<Tx>, b: Block)
    requires Store(o, store) && Candidate(o, store, g, pool, b)
    ensures Accepts(o, store, b) <==> WinsOn(o, g, Canonical(o, store), b)
  {
    hide BuildTree, WellFormed, Replay, ApplyAll, Chosen, WinsOn;
    CandidatePath(o, store, b);
    ChosenApplies(o.checks, Replay(o, Canonical(o, store)), pool, BLOCK_SIZE);
  }

  /** The hardness the miner computes for its selection, from its own settings, is the one AddBlock
      holds the block to exactly when the miner is registered or has a balance, or when the base
      hardness is no higher; a newcomer is granted the base hardness otherwise. */
  lemma MinerHardnessAgrees(o: Oracle, store: seq<Block>, g: Settings, own: Settings, pool: seq<Tx>, b: Block)
    requires Store(o, store) && Candidate(o, store, g, pool, b) && WithDefaults(own) == WithDefaults(g)
    ensures var parent := Replay(o, Canonical(o, store));
            var selected := Chosen(o.checks, parent, pool, BLOCK_SIZE);
            var mine := EffectiveHardness(Slots(Canonical(o, store)), own, |selected|);
            var held := RequiredHardness(o, g, ParentPath(o, store, b), parent, b);
            var known := b.key in parent.validators || Get(parent.accounts, b.key) != 0;
            && (held == mine <==> known || g.hardness <= mine)
            && (held != mine ==> held == g.hardness > mine)
  {
    hide BuildTree, WellFormed, Replay, Chosen, WithDefaults;
    CandidatePath(o, store, b);
  }
}
