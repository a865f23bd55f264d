/** What a miner's own checks have to do with the checks its block must pass.  The miner weighs its draw
    by its committed balance, validation by its lottery tickets; here is when the two agree. */
module Mining {
  import opened Sums
  import opened Ledgers
  import opened Lottery
  import opened Genesis
  import opened Chain
  import opened Validation
  import opened Convergence
  import opened Mempool
  import opened Peers
  import opened Finality
  import opened NumberTheory

  // ----- the two lotteries ---------------------------------------------------------------------------

  ghost function BestLedger(o: Oracle, n: Node): State
    requires Store(o, n.store)
  {
    Replay(o, Canonical(o, n.store))
  }

  /** The hardness the miner computes from its own settings. */
  ghost function OwnHardness(o: Oracle, n: Node, pool: seq<Tx>): int
    requires Store(o, n.store)
  {
    EffectiveHardness(Slots(Canonical(o, n.store)), n.settings, |Selected(o, n, pool)|)
  }

  ghost predicate Known(o: Oracle, n: Node, m: Miner)
    requires Store(o, n.store)
  {
    m.key in BestLedger(o, n).validators || Get(BestLedger(o, n).accounts, m.key) != 0
  }

  /** The hardness validation holds the miner's block to. */
  ghost function HeldHardness(o: Oracle, n: Node, m: Miner, pool: seq<Tx>): int
    requires Store(o, n.store) && SettingsAgree(o, n)
  {
    var base := o.genesis(n.store[0].meta).value.hardness;
    if !Known(o, n, m) && base > OwnHardness(o, n, pool) then base else OwnHardness(o, n, pool)
  }

  ghost function BestTickets(o: Oracle, n: Node, m: Miner): int
    requires Store(o, n.store)
  {
    Tickets(o.checks, BestLedger(o, n), m.key)
  }

  /** Both checks of the miner pass for a draw. */
  ghost predicate Mines(o: Oracle, n: Node, m: Miner, pool: seq<Tx>, draw: int)
    requires Store(o, n.store)
  {
    && Stake(o, n, m) > 0
    && WinsLottery(Stake(o, n, m), OptimisticHardness(n.settings), draw)
    && WinsLottery(Stake(o, n, m), OwnHardness(o, n, pool), draw)
  }

  /** Validation accepts the miner's block with a draw. */
  ghost predicate Admits(o: Oracle, n: Node, m: Miner, pool: seq<Tx>, draw: int)
    requires Store(o, n.store) && SettingsAgree(o, n)
  {
    BestTickets(o, n, m) > 0 && WinsLottery(BestTickets(o, n, m), HeldHardness(o, n, m, pool), draw)
  }

  lemma MinedOnBest(o: Oracle, n: Node, m: Miner, slot: int, pool: seq<Tx>)
    requires Store(o, n.store)
    ensures ParentPath(o, n.store, MinedBlock(o, n, m, slot, pool)) == Canonical(o, n.store)
  {
    hide Replay, Chosen, BuildTree, WellFormed;
    CandidatePath(o, n.store, MinedBlock(o, n, m, slot, pool));
  }

  /** What an honest miner's node builds is refused by it for no reason but the lottery on the
      canonical chain, and the hardness it is held to there is the held hardness. */
  lemma MinedAcceptedIffWins(o: Oracle, n: Node, m: Miner, slot: int, pool: seq<Tx>)
    requires Store(o, n.store) && SettingsAgree(o, n) && HonestMiner(o, m, Selected(o, n, pool))
    requires o.proofDraw(m.prove(n.settings.seed, slot)).Some?
    ensures var b, g, c := MinedBlock(o, n, m, slot, pool), o.genesis(n.store[0].meta).value, Canonical(o, n.store);
            && (Accepts(o, n.store, b) <==> WinsOn(o, g, c, b))
            && RequiredHardness(o, g, c, Replay(o, c), b) == HeldHardness(o, n, m, pool)
            && b.key == m.key && Some(b.draw) == o.proofDraw(m.prove(n.settings.seed, slot))
  {
    hide Canonical, Replay, Chosen, Accepts, WinsOn, BestLeaf, EffectiveHardness;
    hide WithDefaults, HonestMiner, Candidate, RequiredHardness, TreeOf;
    var g := o.genesis(n.store[0].meta).value;
    DefaultsKeepSeed(g);
    DefaultsKeepSeed(n.settings);
    var b := MinedBlock(o, n, m, slot, pool);
    HonestCandidate(o, n.store, g, m, slot, pool);
    CandidateAcceptedIffWins(o, n.store, g, pool, b);
    MinerHardnessAgrees(o, n.store, g, n.settings, pool, b);
    MinedOnBest(o, n, m, slot, pool);
  }

  /** The miner's stake is its committed balance: it does not see the last blocks of the best chain. */
  lemma StakeIgnoresTip(o: Oracle, n: Node, store: seq<Block>, m: Miner)
    requires Store(o, n.store) && Store(o, store)
    requires var c, c' := Canonical(o, n.store), Canonical(o, store);
             |c| == |c'| && n.finalityDepth < |c| && c[..|c| - n.finalityDepth] == c'[..|c| - n.finalityDepth]
    ensures Stake(o, n.(store := store), m) == Stake(o, n, m)
  {
    hide Canonical, CommittedLedger;
    CommittedIgnoresTip(o, n.store, store, n.finalityDepth);
  }

  /** The two lotteries are what the node does: its own checks pass exactly for the draws it mines, and
      its block is accepted exactly for the draws validation admits. */
  lemma SlotOutcome(o: Oracle, n: Node, m: Miner, slot: int, pool: seq<Tx>, draw: int)
    requires Store(o, n.store) && SettingsAgree(o, n) && HonestMiner(o, m, Selected(o, n, pool))
    requires o.proofDraw(m.prove(n.settings.seed, slot)) == Some(draw)
    ensures Prechecked(o, n, m, slot) && WinsExactly(o, n, m, slot, pool) <==> Mines(o, n, m, pool, draw)
    ensures Accepts(o, n.store, MinedBlock(o, n, m, slot, pool)) <==> Admits(o, n, m, pool, draw)
  {
    hide Canonical, Replay, Selected, Accepts, MinedBlock, EffectiveHardness, HonestMiner, WinsLottery;
    hide OptimisticHardness, Stake, HeldHardness, RequiredHardness, Tickets;
    MinedAcceptedIffWins(o, n, m, slot, pool);
  }

  // ----- when they agree ---------------------------------------------------------------------------------

  /** The first draw that the miner's checks turn away. */
  ghost function MinesBelow(o: Oracle, n: Node, m: Miner, pool: seq<Tx>): (t: int)
    requires Store(o, n.store)
    ensures t >= 0
  {
    var stake := Stake(o, n, m);
    var optimistic := Threshold(stake, OptimisticHardness(n.settings));
    var exact := Threshold(stake, OwnHardness(o, n, pool));
    if stake <= 0 then 0 else if optimistic < exact then optimistic else exact
  }

  /** The first draw that validation turns away. */
  ghost function AdmitsBelow(o: Oracle, n: Node, m: Miner, pool: seq<Tx>): (t: int)
    requires Store(o, n.store) && SettingsAgree(o, n)
    ensures t >= 0
  {
    Threshold(BestTickets(o, n, m), HeldHardness(o, n, m, pool))
  }

  lemma NoTicketsNoThreshold(hardness: int)
    ensures Threshold(0, hardness) == 0
  {
    ModUnique(0, 0, 0, UINT64);
    assert ToUint64(hardness) * ToUint64(0) == 0;
  }

  lemma DrawBounds(o: Oracle, n: Node, m: Miner, pool: seq<Tx>, draw: int)
    requires Store(o, n.store) && SettingsAgree(o, n) && IsDraw(draw)
    ensures Mines(o, n, m, pool, draw) <==> draw < MinesBelow(o, n, m, pool)
    ensures Admits(o, n, m, pool, draw) <==> draw < AdmitsBelow(o, n, m, pool)
  {
    hide Threshold, ToUint64, Tickets, Stake, OwnHardness, HeldHardness, BestLedger, OptimisticHardness;
    DrawFits(draw);
    EveryKeyHasTickets(o.checks, BestLedger(o, n), m.key);
    NoTicketsNoThreshold(HeldHardness(o, n, m, pool));
  }

  lemma BelowCovers(a: int, b: int)
    requires a >= 0 && b >= 0
    ensures (forall draw :: IsDraw(draw) && draw < a ==> draw < b) <==> a <= b || DRAW_RANGE <= b
  {
    if b < a && b < DRAW_RANGE {
      assert IsDraw(b);
    }
  }

  /** Every draw the node mines is accepted by its own validation exactly when the first draw its checks
      turn away is no higher than the first that validation turns away, as far as draws reach. */
  lemma MinedDrawsAccepted(o: Oracle, n: Node, m: Miner, pool: seq<Tx>)
    requires Store(o, n.store) && SettingsAgree(o, n)
    ensures (forall draw :: IsDraw(draw) && Mines(o, n, m, pool, draw) ==> Admits(o, n, m, pool, draw))
            <==> MinesBelow(o, n, m, pool) <= AdmitsBelow(o, n, m, pool) || DRAW_RANGE <= AdmitsBelow(o, n, m, pool)
  {
    hide Mines, Admits, MinesBelow, AdmitsBelow;
    forall draw | IsDraw(draw)
      ensures Mines(o, n, m, pool, draw) <==> draw < MinesBelow(o, n, m, pool)
      ensures Admits(o, n, m, pool, draw) <==> draw < AdmitsBelow(o, n, m, pool)
    {
      DrawBounds(o, n, m, pool, draw);
    }
    BelowCovers(MinesBelow(o, n, m, pool), AdmitsBelow(o, n, m, pool));
  }

  /** Every draw validation would accept is mined exactly when it is the other way round. */
  lemma AcceptableDrawsMined(o: Oracle, n: Node, m: Miner, pool: seq<Tx>)
    requires Store(o, n.store) && SettingsAgree(o, n)
    ensures (forall draw :: IsDraw(draw) && Admits(o, n, m, pool, draw) ==> Mines(o, n, m, pool, draw))
            <==> AdmitsBelow(o, n, m, pool) <= MinesBelow(o, n, m, pool) || DRAW_RANGE <= MinesBelow(o, n, m, pool)
  {
    hide Mines, Admits, MinesBelow, AdmitsBelow;
    forall draw | IsDraw(draw)
      ensures Mines(o, n, m, pool, draw) <==> draw < MinesBelow(o, n, m, pool)
      ensures Admits(o, n, m, pool, draw) <==> draw < AdmitsBelow(o, n, m, pool)
    {
      DrawBounds(o, n, m, pool, draw);
    }
    BelowCovers(AdmitsBelow(o, n, m, pool), MinesBelow(o, n, m, pool));
  }

  /** A registered miner whose committed balance is its best balance, without wrap-around: all it mines
      is accepted exactly when the registered total is at most 970,000, when it has a single unit, or
      when its tickets win every draw anyway. */
  lemma RegisteredMiner(o: Oracle, n: Node, m: Miner, pool: seq<Tx>)
    requires Store(o, n.store) && SettingsAgree(o, n) && n.settings == WithDefaults(n.settings)
    requires m.key in BestLedger(o, n).validators && m.key != "" && o.checks.native(m.key)
    requires Stake(o, n, m) == Get(BestLedger(o, n).accounts, m.key) > 0
    requires n.settings.max * 970_000 < UINT64 && n.settings.max * RegisteredTotal(o, n) < UINT64
    ensures (forall draw :: IsDraw(draw) && Mines(o, n, m, pool, draw) ==> Admits(o, n, m, pool, draw))
            <==> || RegisteredTotal(o, n) <= 970_000
                 || Stake(o, n, m) == 1
                 || DRAW_RANGE <= OwnHardness(o, n, pool) * BestTickets(o, n, m)
  {
    hide Mines, Admits, MinesBelow, AdmitsBelow, Canonical, Replay, Stake, EffectiveHardness, WithDefaults;
    MinedDrawsAccepted(o, n, m, pool);
    RegisteredShare(o, n, m);
    RegisteredBounds(o, n, m, pool);
    MulCompare(OwnHardness(o, n, pool), Stake(o, n, m), BestTickets(o, n, m));
  }

  ghost function RegisteredTotal(o: Oracle, n: Node): int
    requires Store(o, n.store)
  {
    Sum(PositiveBalances(BestLedger(o, n), BestLedger(o, n).validators))
  }

  lemma RegisteredShare(o: Oracle, n: Node, m: Miner)
    requires Store(o, n.store)
    requires m.key in BestLedger(o, n).validators && m.key != "" && o.checks.native(m.key)
    requires Stake(o, n, m) == Get(BestLedger(o, n).accounts, m.key) > 0
    ensures 0 < Stake(o, n, m) <= RegisteredTotal(o, n) && 0 <= BestTickets(o, n, m) <= 970_000
    ensures Stake(o, n, m) <= BestTickets(o, n, m) <==> RegisteredTotal(o, n) <= 970_000 || Stake(o, n, m) == 1
  {
    hide Canonical, Replay, Stake, Sum, TicketShare;
    var s := BestLedger(o, n);
    var held := PositiveBalances(s, s.validators);
    SumNonNegative(held);
    assert held[m.key] <= Sum(held);
    RegisteredCap(o.checks, s, m.key);
    EveryKeyHasTickets(o.checks, s, m.key);
    StakeWithinTickets(Stake(o, n, m), Sum(held), |ZeroBalances(s, s.validators)|);
  }

  lemma RegisteredBounds(o: Oracle, n: Node, m: Miner, pool: seq<Tx>)
    requires Store(o, n.store) && SettingsAgree(o, n) && n.settings == WithDefaults(n.settings)
    requires m.key in BestLedger(o, n).validators
    requires 0 < Stake(o, n, m) <= RegisteredTotal(o, n) && 0 <= BestTickets(o, n, m) <= 970_000
    requires n.settings.max * 970_000 < UINT64 && n.settings.max * RegisteredTotal(o, n) < UINT64
    ensures OwnHardness(o, n, pool) >= 1
    ensures MinesBelow(o, n, m, pool) == OwnHardness(o, n, pool) * Stake(o, n, m)
    ensures AdmitsBelow(o, n, m, pool) == OwnHardness(o, n, pool) * BestTickets(o, n, m)
  {
    hide Canonical, Replay, Stake, EffectiveHardness, WithDefaults, Threshold, BestTickets, RegisteredTotal;
    var h, max, stake, tickets := OwnHardness(o, n, pool), n.settings.max, Stake(o, n, m), BestTickets(o, n, m);
    HardnessInBounds(Slots(Canonical(o, n.store)), n.settings, |Selected(o, n, pool)|);
    FitsBelow(h, max, stake, RegisteredTotal(o, n));
    FitsBelow(max, max, stake, RegisteredTotal(o, n));
    FitsBelow(h, max, tickets, 970_000);
    MulMonotone(stake, h, max);
  }

  /** Below a product that fits, thresholds are products. */
  lemma FitsBelow(h: int, max: int, tickets: int, most: int)
    requires 1 <= h <= max && 0 <= tickets <= most && 1 <= most && max * most < UINT64
    ensures Threshold(tickets, h) == h * tickets
  {
    MulMonotone(max, tickets, most);
    MulMonotone(tickets, h, max);
    MulMonotone(max, 1, most);
    MulMonotone(most, 1, max);
    ThresholdBelowWrap(tickets, h);
  }

  lemma MulCompare(h: int, x: int, y: int)
    requires h >= 1
    ensures h * x <= h * y <==> x <= y
  {
    if x <= y {
      MulMonotone(h, x, y);
    } else {
      MulMonotone(h, y + 1, x);
      assert h * (y + 1) == h * y + h;
    }
  }

  // ----- instances -----------------------------------------------------------------------------------------

  function ExampleMiner(key: string): Miner {
    Miner(key, (_, _) => "proof", _ => "signature", _ => "[]")
  }

  function ExampleNode(s: Settings, finalityDepth: nat): Node {
    Node([EXAMPLE_GENESIS], 0, finalityDepth, s)
  }

  /** The node of the instances: its best and committed ledgers are those of the genesis, its miner is
      honest, and a young chain has the hardness of the settings. */
  lemma ExampleFacts(hash: Block -> string, checks: Checks, s: Settings, draw: int, finalityDepth: nat, key: string)
    requires Lawful(ExampleOracle(hash, checks, s, draw)) && s == WithDefaults(s) && s.forkHeight > 1
    ensures var o, n, m := ExampleOracle(hash, checks, s, draw), ExampleNode(s, finalityDepth), ExampleMiner(key);
            && Store(o, n.store) && SettingsAgree(o, n)
            && BestLedger(o, n) == FromGenesis(s) && Stake(o, n, m) == Get(FromGenesis(s).accounts, key)
            && HonestMiner(o, m, Selected(o, n, []))
            && OwnHardness(o, n, []) == Clamp(s.hardness, s.min, s.max)
  {
    var o, n := ExampleOracle(hash, checks, s, draw), ExampleNode(s, finalityDepth);
    assert Store(o, n.store);
    GenesisAlone(o, EXAMPLE_GENESIS);
    hide Canonical, Lawful;
    assert Rollback([EXAMPLE_GENESIS], finalityDepth) == [EXAMPLE_GENESIS];
    assert Replay(o, [EXAMPLE_GENESIS]) == FromGenesis(s);
  }

  lemma {:induction false} EqualBalances(m: map<string, int>, each: int)
    requires forall v :: v in m ==> m[v] == each
    ensures Sum(m) == |m| * each
    decreases |m|
  {
    if m != map[] {
      var v :| v in m;
      SumRemove(m, v);
      RemovedSize(m, v);
      EqualBalances(m - {v}, each);
      assert (|m| - 1) * each == |m| * each - each;
    }
  }

  /** One of ten holders of a million each, as the default genesis makes them, has 97,000 tickets. */
  lemma TenHolders(checks: Checks, holders: map<string, int>, key: string)
    requires |holders| == 10 && forall v :: v in holders ==> holders[v] == 1_000_000
    requires key in holders && key != "" && checks.native(key)
    ensures var s := FromGenesis(DEFAULTS.(initialBalances := holders));
            key in s.validators && Get(s.accounts, key) == 1_000_000 && Tickets(checks, s, key) == 97_000
  {
    var s := FromGenesis(DEFAULTS.(initialBalances := holders));
    assert PositiveBalances(s, s.validators) == holders;
    EqualBalances(holders, 1_000_000);
  }

  /** At the default genesis a draw of 50,000,000 passes both checks of any of the ten holders, and the
      holder's own node refuses the block. */
  lemma DefaultGenesisRefuses(hash: Block -> string, checks: Checks, holders: map<string, int>, key: string,
                              finalityDepth: nat, slot: int)
    requires |holders| == 10 && forall v :: v in holders ==> holders[v] == 1_000_000
    requires key in holders && key != "" && checks.native(key)
    requires Lawful(ExampleOracle(hash, checks, DEFAULTS.(initialBalances := holders), 50_000_000))
    ensures var s := DEFAULTS.(initialBalances := holders);
            var o, n, m := ExampleOracle(hash, checks, s, 50_000_000), ExampleNode(s, finalityDepth), ExampleMiner(key);
            && Store(o, n.store)
            && Prechecked(o, n, m, slot) && WinsExactly(o, n, m, slot, [])
            && !Accepts(o, n.store, MinedBlock(o, n, m, slot, []))
  {
    hide Prechecked, WinsExactly, Accepts, MinedBlock, Tickets, Stake, Canonical, Selected, HonestMiner, Lawful;
    hide BestLedger, OwnHardness;
    var s := DEFAULTS.(initialBalances := holders);
    var o, n, m := ExampleOracle(hash, checks, s, 50_000_000), ExampleNode(s, finalityDepth), ExampleMiner(key);
    ExampleFacts(hash, checks, s, 50_000_000, finalityDepth, key);
    TenHolders(checks, holders, key);
    SlotOutcome(o, n, m, slot, [], 50_000_000);
    assert Mines(o, n, m, [], 50_000_000) && !Admits(o, n, m, [], 50_000_000);
  }

  const BOB := "bob"

  lemma NewcomerTickets(checks: Checks, s: Settings)
    requires checks.native(BOB) && s.initialBalances == map[ANN := 1]
    ensures var l := FromGenesis(s);
            BOB !in l.validators && Get(l.accounts, BOB) == 0 && Tickets(checks, l, BOB) == 30_000
  {
    var l := FromGenesis(s);
    assert l.validators == {ANN};
    assert ZeroBalances(l, l.validators) == {};
  }

  /** A node with a key and no balance would be accepted with this draw, and never mines: not in any
      slot, whatever the finality depth. */
  lemma NoBalanceNeverMines(hash: Block -> string, checks: Checks, finalityDepth: nat, slot: int)
    requires Lawful(ExampleOracle(hash, checks, TWIN_SETTINGS, 7)) && checks.native(BOB)
    ensures var o, n, m := ExampleOracle(hash, checks, TWIN_SETTINGS, 7),
                           ExampleNode(TWIN_SETTINGS, finalityDepth), ExampleMiner(BOB);
            && Store(o, n.store)
            && Accepts(o, n.store, MinedBlock(o, n, m, slot, []))
            && !Prechecked(o, n, m, slot)
  {
    hide WinsExactly, Accepts, MinedBlock, Tickets, Stake, Canonical, Selected, HonestMiner, Lawful, BestLedger;
    hide OwnHardness;
    var o, m := ExampleOracle(hash, checks, TWIN_SETTINGS, 7), ExampleMiner(BOB);
    var n := ExampleNode(TWIN_SETTINGS, finalityDepth);
    ExampleFacts(hash, checks, TWIN_SETTINGS, 7, finalityDepth, BOB);
    NewcomerTickets(checks, TWIN_SETTINGS);
    SlotOutcome(o, n, m, slot, [], 7);
    assert Admits(o, n, m, [], 7);
  }

  /** A newcomer under a base hardness beyond the maximum: the miner computes 10,000,000, and validation
      grants 20,000,000. */
  lemma NewcomerHardnessDiffers(hash: Block -> string, checks: Checks, finalityDepth: nat)
    requires Lawful(ExampleOracle(hash, checks, TWIN_SETTINGS.(hardness := 20_000_000), 7)) && checks.native(BOB)
    ensures var s := TWIN_SETTINGS.(hardness := 20_000_000);
            var o, n, m := ExampleOracle(hash, checks, s, 7), ExampleNode(s, finalityDepth), ExampleMiner(BOB);
            && Store(o, n.store) && SettingsAgree(o, n)
            && OwnHardness(o, n, []) == 10_000_000 && HeldHardness(o, n, m, []) == 20_000_000
  {
    hide Stake, Canonical, Selected, HonestMiner, Lawful, BestLedger, OwnHardness;
    var s := TWIN_SETTINGS.(hardness := 20_000_000);
    ExampleFacts(hash, checks, s, 7, finalityDepth, BOB);
    NewcomerTickets(checks, s);
  }
}
