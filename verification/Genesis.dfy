/** Genesis settings with their defaults, and the hardness they give along a chain. */
module Genesis {
  import opened Sums
  import opened Amm
  import opened Lottery
  import opened Ledgers
  import opened NumberTheory

  const FORK_HEIGHT := 2000
  const DEFAULT_MIN := 100
  const DEFAULT_MAX := 10_000_000
  const DEFAULT_WINDOW := 32
  const FAST_TARGET := 2
  const IDLE_TARGET := 20

  datatype Settings = Settings(
    hardness: int, seed: int, forkHeight: int, min: int, max: int, window: int,
    fastTarget: int, idleTarget: int, initialBalances: map<string, int>)

  function OrDefault(value: int, default: int): int {
    if value <= 0 then default else value
  }

  function WithDefaults(g: Settings): Settings {
    var min := OrDefault(g.min, DEFAULT_MIN);
    var max := OrDefault(g.max, DEFAULT_MAX);
    g.(forkHeight := OrDefault(g.forkHeight, FORK_HEIGHT),
       min := min,
       max := if max < min then min else max,
       window := OrDefault(g.window, DEFAULT_WINDOW),
       fastTarget := OrDefault(g.fastTarget, FAST_TARGET),
       idleTarget := OrDefault(g.idleTarget, IDLE_TARGET))
  }

  /** Every setting that was given stays, and every missing one has its default; only a maximum below
      the minimum is raised to it. */
  lemma DefaultsFill(g: Settings)
    ensures var d := WithDefaults(g);
            && d.hardness == g.hardness && d.seed == g.seed && d.initialBalances == g.initialBalances
            && Filled(g.forkHeight, d.forkHeight, 2000) && Filled(g.min, d.min, 100)
            && Filled(g.window, d.window, 32) && Filled(g.fastTarget, d.fastTarget, 2)
            && Filled(g.idleTarget, d.idleTarget, 20)
            && (d.max == d.min || Filled(g.max, d.max, 10_000_000)) && d.max >= d.min
            && (d.max > d.min || (g.max <= 0 && d.min >= 10_000_000) || 0 < g.max <= d.min)
  {
  }

  predicate Filled(given: int, filled: int, missing: int) {
    filled == if given > 0 then given else missing
  }

  lemma DefaultsIdempotent(g: Settings)
    ensures WithDefaults(WithDefaults(g)) == WithDefaults(g)
  {
  }

  lemma DefaultsKeepSeed(g: Settings)
    ensures WithDefaults(g).seed == g.seed
  {
  }

  /** The settings record the node shares by pointer; defaults are written into it in place. */
  class Config {
    var hardness: int
    var seed: int
    var forkHeight: int
    var min: int
    var max: int
    var window: int
    var fastTarget: int
    var idleTarget: int
    var initialBalances: map<string, int>

    function Value(): Settings
      reads this
    {
      Settings(hardness, seed, forkHeight, min, max, window, fastTarget, idleTarget, initialBalances)
    }

    constructor (g: Settings)
      ensures Value() == g
    {
      hardness, seed, forkHeight := g.hardness, g.seed, g.forkHeight;
      min, max, window := g.min, g.max, g.window;
      fastTarget, idleTarget, initialBalances := g.fastTarget, g.idleTarget, g.initialBalances;
    }

    method ApplyDefaults()
      modifies this
      ensures Value() == WithDefaults(old(Value()))
    {
      if forkHeight <= 0 { forkHeight := FORK_HEIGHT; }
      if min <= 0 { min := DEFAULT_MIN; }
      if max <= 0 { max := DEFAULT_MAX; }
      if max < min { max := min; }
      if window <= 0 { window := DEFAULT_WINDOW; }
      if fastTarget <= 0 { fastTarget := FAST_TARGET; }
      if idleTarget <= 0 { idleTarget := IDLE_TARGET; }
    }
  }

  /** The ledger before the first block after the genesis. */
  function FromGenesis(g: Settings): State {
    EMPTY.(accounts := g.initialBalances,
           validators := set a | a in g.initialBalances && g.initialBalances[a] > 0)
  }

  function Clamp(value: int, min: int, max: int): int {
    var lo := if min <= 0 then 1 else min;
    var hi := if max < lo then lo else max;
    if value < lo then lo else if value > hi then hi else value
  }

  // ----- recent slot intervals -------------------------------------------------------------------

  function Delta(slots: seq<int>, i: nat): int
    requires 0 < i < |slots|
  {
    slots[i] - slots[i - 1]
  }

  /** The sum and the number of positive slot differences at positions lo up to hi. */
  function Intervals(slots: seq<int>, lo: nat, hi: nat): (int, int)
    requires 0 < lo && hi <= |slots|
    decreases hi
  {
    if hi <= lo then (0, 0) else
    var (total, count) := Intervals(slots, lo, hi - 1);
    var d := Delta(slots, hi - 1);
    if d <= 0 then (total, count) else (total + d, count + 1)
  }

  function WindowStart(n: nat, window: int): nat
    requires n >= 2
  {
    var w := if window < 1 then 1 else window;
    if n - 1 - w < 0 then 0 else n - 1 - w
  }

  function AverageInterval(slots: seq<int>, window: int): int {
    if |slots| < 2 then 0 else
    var (total, count) := Intervals(slots, WindowStart(|slots|, window) + 1, |slots|);
    if count <= 0 then 0 else TruncDiv(total + count / 2, count)
  }

  method AverageRecentSlotInterval(slots: seq<int>, window: int) returns (avg: int)
    ensures avg == AverageInterval(slots, window)
  {
    if |slots| < 2 {
      return 0;
    }
    var start := WindowStart(|slots|, window);
    var total, count := 0, 0;
    for i := start + 1 to |slots|
      invariant (total, count) == Intervals(slots, start + 1, i)
    {
      var delta := slots[i] - slots[i - 1];
      if delta > 0 {
        total := total + delta;
        count := count + 1;
      }
    }
    if count == 0 {
      CountNonNegative(slots, start + 1, |slots|);
      return 0;
    }
    CountNonNegative(slots, start + 1, |slots|);
    avg := TruncDiv(total + count / 2, count);
  }

  lemma {:induction false} CountNonNegative(slots: seq<int>, lo: nat, hi: nat)
    requires 0 < lo && hi <= |slots|
    ensures var (total, count) := Intervals(slots, lo, hi); count >= 0 && total >= count
    decreases hi
  {
    if hi > lo {
      CountNonNegative(slots, lo, hi - 1);
    }
  }

  lemma {:induction false} TotalAtMost(slots: seq<int>, lo: nat, hi: nat, most: int)
    requires 0 < lo && hi <= |slots| && most >= 0
    requires forall i :: lo <= i < hi ==> slots[i] - slots[i - 1] <= most
    ensures var (total, count) := Intervals(slots, lo, hi); total <= count * most
    decreases hi
  {
    if hi > lo {
      TotalAtMost(slots, lo, hi - 1, most);
      var (total, count) := Intervals(slots, lo, hi - 1);
      assert (count + 1) * most == count * most + most;
    }
  }

  /** The rounded average is a number of slots between one and the longest interval of the window,
      and it is zero exactly when no interval in the window is positive. */
  lemma AverageBounds(slots: seq<int>, window: int, most: int)
    requires |slots| >= 2 && most >= 0
    requires forall i :: WindowStart(|slots|, window) < i < |slots| ==> slots[i] - slots[i - 1] <= most
    ensures 0 <= AverageInterval(slots, window) <= most
    ensures AverageInterval(slots, window) == 0 <==>
            forall i :: WindowStart(|slots|, window) < i < |slots| ==> slots[i] - slots[i - 1] <= 0
  {
    var lo := WindowStart(|slots|, window) + 1;
    var (total, count) := Intervals(slots, lo, |slots|);
    CountNonNegative(slots, lo, |slots|);
    TotalAtMost(slots, lo, |slots|, most);
    CountPositive(slots, lo, |slots|);
    if count > 0 {
      var x := total + count / 2;
      FloorGreatest(x, count, 1);
      assert count * most + count / 2 < (most + 1) * count;
      FloorLess(x, count, most + 1);
    }
  }

  /** The positive slot differences at positions lo up to hi. */
  function Positives(slots: seq<int>, lo: nat, hi: nat): map<nat, int>
    requires 0 < lo && hi <= |slots|
  {
    map i: nat | lo <= i < hi && Delta(slots, i) > 0 :: Delta(slots, i)
  }

  lemma {:induction false} IntervalsSum(slots: seq<int>, lo: nat, hi: nat)
    requires 0 < lo && hi <= |slots|
    ensures Intervals(slots, lo, hi) == (Sum(Positives(slots, lo, hi)), |Positives(slots, lo, hi)|)
    decreases hi
  {
    hide Sum, Positives, Delta;
    if hi <= lo {
      NoPositives(slots, lo, hi);
    } else {
      IntervalsSum(slots, lo, hi - 1);
      if Delta(slots, hi - 1) > 0 {
        OneMorePositive(slots, lo, hi);
        SumSet<nat>(Positives(slots, lo, hi - 1), hi - 1, Delta(slots, hi - 1));
      } else {
        SamePositives(slots, lo, hi);
      }
    }
  }

  lemma NoPositives(slots: seq<int>, lo: nat, hi: nat)
    requires 0 < lo && hi <= |slots| && hi <= lo
    ensures Positives(slots, lo, hi) == map[] && Sum(Positives(slots, lo, hi)) == 0
  {
    SumEmpty<nat>();
  }

  lemma SamePositives(slots: seq<int>, lo: nat, hi: nat)
    requires 0 < lo < hi <= |slots| && Delta(slots, hi - 1) <= 0
    ensures Positives(slots, lo, hi) == Positives(slots, lo, hi - 1)
  {
    hide Delta;
  }

  lemma OneMorePositive(slots: seq<int>, lo: nat, hi: nat)
    requires 0 < lo < hi <= |slots| && Delta(slots, hi - 1) > 0
    ensures Positives(slots, lo, hi) == Positives(slots, lo, hi - 1)[hi - 1 := Delta(slots, hi - 1)]
    ensures hi - 1 !in Positives(slots, lo, hi - 1)
    ensures |Positives(slots, lo, hi)| == |Positives(slots, lo, hi - 1)| + 1
  {
    hide Delta;
    NewKey(Positives(slots, lo, hi - 1), hi - 1, Delta(slots, hi - 1));
  }

  lemma NewKey(m: map<nat, int>, k: nat, v: int)
    requires k !in m
    ensures |m[k := v]| == |m| + 1
  {
    assert m[k := v].Keys == m.Keys + {k};
  }

  /** The average is that of the positive differences among the last ones the window spans, rounded to
      the nearest number of slots, halves up; zero when there are none. */
  lemma AverageIsRounded(slots: seq<int>, window: int)
    requires |slots| >= 2
    ensures var w := if window < 1 then 1 else window;
            var recent := map i: nat | 0 < i < |slots| && i >= |slots| - w && Delta(slots, i) > 0 :: Delta(slots, i);
            var avg := AverageInterval(slots, window);
            if recent == map[] then avg == 0
            else avg * |recent| <= Sum(recent) + |recent| / 2 < (avg + 1) * |recent|
  {
    hide Sum;
    var w := if window < 1 then 1 else window;
    var lo := WindowStart(|slots|, window) + 1;
    var recent := map i: nat | 0 < i < |slots| && i >= |slots| - w && Delta(slots, i) > 0 :: Delta(slots, i);
    assert recent == Positives(slots, lo, |slots|);
    IntervalsSum(slots, lo, |slots|);
    CountNonNegative(slots, lo, |slots|);
    if recent != map[] {
      assert |recent| > 0;
      FloorBelow(Sum(recent) + |recent| / 2, |recent|);
    }
  }

  lemma {:induction false} CountPositive(slots: seq<int>, lo: nat, hi: nat)
    requires 0 < lo && hi <= |slots|
    ensures Intervals(slots, lo, hi).1 <= 0 <==> forall i :: lo <= i < hi ==> slots[i] - slots[i - 1] <= 0
    decreases hi
  {
    if hi > lo {
      CountPositive(slots, lo, hi - 1);
      CountNonNegative(slots, lo, hi - 1);
      assert Delta(slots, hi - 1) == slots[hi - 1] - slots[hi - 2];
    }
  }

  // ----- effective hardness -------------------------------------------------------------------------

  function DynamicHardness(g: Settings, avg: int, txCount: nat): int {
    var named := if txCount > 0 then g.fastTarget else g.idleTarget;
    var target := if named <= 0 then 1 else named;
    if avg <= 0 then Clamp(g.hardness, g.min, g.max)
    else Clamp(TruncDiv(g.hardness * avg, target), g.min, g.max)
  }

  /** The hardness for a block on top of a chain with these slots, carrying txCount transactions. */
  function EffectiveHardness(slots: seq<int>, genesis: Settings, txCount: nat): int {
    var g := WithDefaults(genesis);
    if slots == [] || |slots| < g.forkHeight then Clamp(g.hardness, g.min, g.max)
    else DynamicHardness(g, AverageInterval(slots, g.window), txCount)
  }

  /** With defaults applied, hardness always lies within the configured bounds. */
  lemma HardnessInBounds(slots: seq<int>, genesis: Settings, txCount: nat)
    ensures var g := WithDefaults(genesis);
            1 <= g.min <= EffectiveHardness(slots, genesis, txCount) <= g.max
  {
    hide AverageInterval;
  }

  predicate Clamped(h: int, value: int, min: int, max: int) {
    h == if value < min then min else if value > max then max else value
  }

  /** From the fork height on, with recent intervals of average a, hardness is the largest number whose
      product with the target is at most the base hardness times a, kept within the bounds; the target
      is the fast one exactly when there are transactions.  Otherwise it is the base hardness, kept
      within the bounds. */
  lemma HardnessAimsAtTarget(slots: seq<int>, genesis: Settings, txCount: nat, q: int)
    ensures var g := WithDefaults(genesis);
            var h, a := EffectiveHardness(slots, genesis, txCount), AverageInterval(slots, g.window);
            var target := if txCount > 0 then g.fastTarget else g.idleTarget;
            && 1 <= g.min <= g.max && target > 0
            && (|slots| < g.forkHeight || a <= 0 ==> Clamped(h, g.hardness, g.min, g.max))
            && (|slots| >= g.forkHeight && a > 0 && g.hardness < 0 ==> h == g.min)
            && (|slots| >= g.forkHeight && a > 0 && g.hardness >= 0 && q * target <= g.hardness * a < (q + 1) * target
                ==> Clamped(h, q, g.min, g.max))
  {
    hide AverageInterval;
    var g := WithDefaults(genesis);
    var a, target := AverageInterval(slots, g.window), if txCount > 0 then g.fastTarget else g.idleTarget;
    if a > 0 && g.hardness < 0 {
      NegativeShare(g.hardness, a, target);
    } else if a > 0 && q * target <= g.hardness * a < (q + 1) * target {
      MulMonotone(a, 0, g.hardness);
      FloorIs(g.hardness * a, target, q);
    }
  }

  /** Longer recent intervals never make winning harder. */
  lemma HardnessFollowsInterval(g: Settings, avg: int, avg': int, txCount: nat)
    requires 0 < avg <= avg'
    ensures DynamicHardness(g, avg, txCount) <= DynamicHardness(g, avg', txCount)
  {
    var named := if txCount > 0 then g.fastTarget else g.idleTarget;
    var target := if named <= 0 then 1 else named;
    if g.hardness >= 0 {
      MulMonotone(g.hardness, avg, avg');
      FloorBelow(g.hardness * avg, target);
      FloorGreatest(g.hardness * avg', target, (g.hardness * avg) / target);
    } else {
      NegativeShare(g.hardness, avg, target);
      NegativeShare(g.hardness, avg', target);
    }
  }

  lemma NegativeShare(hardness: int, avg: int, target: int)
    requires hardness < 0 < avg && target > 0
    ensures TruncDiv(hardness * avg, target) <= 0
  {
    MulMonotone(avg, hardness, 0);
    FloorGreatest(-(hardness * avg), target, 0);
  }

  /** What the miner checks a draw against before it builds a candidate. */
  function OptimisticHardness(g: Settings): int {
    if g.max > 0 then g.max else if g.hardness > 0 then g.hardness else 1
  }

  /** The precheck keeps every draw that wins against the exact candidate exactly when its threshold
      is at least the exact one, as far as draws reach: for all settings, chains and stakes. */
  lemma PrecheckKeepsWinners(slots: seq<int>, genesis: Settings, txCount: nat, tickets: int)
    ensures var exact, optimistic := EffectiveHardness(slots, genesis, txCount), OptimisticHardness(genesis);
            (forall draw :: IsDraw(draw) && WinsLottery(tickets, exact, draw) ==>
                              WinsLottery(tickets, optimistic, draw))
            <==> Threshold(tickets, exact) <= Threshold(tickets, optimistic)
                 || DRAW_RANGE <= Threshold(tickets, optimistic)
  {
    HardnessKeepsWinners(tickets, EffectiveHardness(slots, genesis, txCount), OptimisticHardness(genesis));
  }

  /** With defaults in the settings and no wrap-around at the maximum that is always so. */
  lemma PrecheckSafe(slots: seq<int>, genesis: Settings, txCount: nat, tickets: int, draw: int)
    requires genesis == WithDefaults(genesis) && genesis.max < UINT64
    requires 0 <= tickets < UINT64 && genesis.max * tickets < UINT64
    requires WinsLottery(tickets, EffectiveHardness(slots, genesis, txCount), draw)
    ensures WinsLottery(tickets, OptimisticHardness(genesis), draw)
  {
    hide EffectiveHardness, Threshold;
    HardnessInBounds(slots, genesis, txCount);
    MoreHardnessWins(tickets, EffectiveHardness(slots, genesis, txCount), genesis.max);
  }

  /** The default settings around the default base hardness. */
  const DEFAULTS := Settings(10, 42, 2000, 100, 10_000_000, 32, 2, 20, map[])

  /** At the wrap-around it is not: with every default in place, this stake wins at the exact
      hardness of a young chain and is turned away by the precheck. */
  lemma PrecheckWraps()
    ensures WithDefaults(DEFAULTS) == DEFAULTS && IsDraw(500_000)
    ensures WinsLottery(1_844_674_407_371, EffectiveHardness([0], DEFAULTS, 0), 500_000)
    ensures !WinsLottery(1_844_674_407_371, OptimisticHardness(DEFAULTS), 500_000)
  {
    assert EffectiveHardness([0], DEFAULTS, 0) == 100;
  }

  /** Without defaults it is not either: a genesis record that names none, as an adopted chain may
      carry, turns away a draw that wins at the default minimum. */
  lemma PrecheckNeedsDefaults()
    ensures var g := Settings(1, 0, 0, 0, 0, 0, 0, 0, map[]);
            && IsDraw(50) && WinsLottery(1, EffectiveHardness([0], g, 0), 50)
            && !WinsLottery(1, OptimisticHardness(g), 50)
  {
  }
}
