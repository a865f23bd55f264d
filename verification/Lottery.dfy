/** Lottery tickets from the validator registry, and the winning condition with its 64-bit product. */
module Lottery {
  import opened Sums
  import opened Amm
  import opened Ledgers
  import opened NumberTheory

  const SCALE := 1_000_000
  const DRAW_RANGE := 1_000_000_000_000
  const UINT64 := 0x1_0000_0000_0000_0000

  // ----- tickets -----------------------------------------------------------------------------------

  function PositiveBalances(s: State, who: set<string>): map<string, int> {
    map v | v in who && Get(s.accounts, v) > 0 :: Get(s.accounts, v)
  }

  function ZeroBalances(s: State, who: set<string>): set<string> {
    set v | v in who && Get(s.accounts, v) <= 0
  }

  /** Tickets from an account's own standing and the registry's totals. */
  function TicketShare(native: bool, registered: bool, balance: int, totalPositive: int, zeroValidators: int): int {
    if !native then 0
    else if balance > 0 then
      if totalPositive <= 0 then SCALE else
      var t := TruncDiv(balance * 97 * SCALE, 100 * totalPositive);
      if t < 1 then 1 else t
    else
      var zeros := if !registered && balance == 0 then zeroValidators + 1 else zeroValidators;
      if zeros <= 0 then 0 else
      var t := (3 * SCALE) / (100 * zeros);
      if t < 1 then 1 else t
  }

  ghost function Tickets(c: Checks, s: State, account: string): int {
    TicketShare(account != "" && c.native(account), account in s.validators, Get(s.accounts, account),
                Sum(PositiveBalances(s, s.validators)), |ZeroBalances(s, s.validators)|)
  }

  /** One more validator visited. */
  lemma VisitOne(s: State, done: set<string>, v: string)
    requires v !in done
    ensures var b := Get(s.accounts, v);
            && Sum(PositiveBalances(s, done + {v})) == Sum(PositiveBalances(s, done)) + (if b > 0 then b else 0)
            && |ZeroBalances(s, done + {v})| == |ZeroBalances(s, done)| + (if b > 0 then 0 else 1)
  {
    var b := Get(s.accounts, v);
    if b > 0 {
      assert PositiveBalances(s, done + {v}) == PositiveBalances(s, done)[v := b];
      SumSet(PositiveBalances(s, done), v, b);
      assert ZeroBalances(s, done + {v}) == ZeroBalances(s, done);
    } else {
      assert PositiveBalances(s, done + {v}) == PositiveBalances(s, done);
      assert ZeroBalances(s, done + {v}) == ZeroBalances(s, done) + {v};
    }
  }

  /** A positive balance holds at most 970,000 tickets exactly when it does not exceed the registered
      total by more than rounding allows; without registered stake it never does. */
  lemma TicketCap(balance: int, total: int, zeros: int, registered: bool)
    requires balance > 0
    ensures TicketShare(true, registered, balance, total, zeros) <= 970_000
            <==> balance * 97_000_000 < 97_000_100 * total
  {
    var a, b := balance * 97 * SCALE, 100 * total;
    assert a == balance * 97_000_000;
    if total > 0 {
      if a < 970_001 * b {
        FloorLess(a, b, 970_001);
      } else {
        FloorGreatest(a, b, 970_001);
      }
    }
  }

  /** The tickets of an account, without a division: a positive balance has the largest share whose
      part of the registered stake is no more than 97 percent of the balance, everyone else the largest
      equal part of 30,000, and at least one.  An unregistered newcomer counts itself in. */
  lemma TicketsAreShares(c: Checks, s: State, account: string)
    ensures var t, b := Tickets(c, s, account), Get(s.accounts, account);
            var stake := Sum(map v | v in s.validators && Get(s.accounts, v) > 0 :: Get(s.accounts, v));
            var others := |set v | v in s.validators && Get(s.accounts, v) <= 0|;
            var zeros := others + if account !in s.validators && b == 0 then 1 else 0;
            if account == "" || !c.native(account) then t == 0
            else if b > 0 && stake <= 0 then t == 1_000_000
            else if b > 0 then LargestShare(t, stake, 970_000 * b)
            else if zeros == 0 then t == 0
            else LargestShare(t, zeros, 30_000)
  {
    hide Sum;
    var b := Get(s.accounts, account);
    var stake := Sum(PositiveBalances(s, s.validators));
    var zeros := |ZeroBalances(s, s.validators)| + if account !in s.validators && b == 0 then 1 else 0;
    if b > 0 && stake > 0 {
      ShareIsLargest(970_000 * b, stake, (b * 97 * SCALE) / (100 * stake));
    } else if b <= 0 && zeros > 0 {
      ShareIsLargest(30_000, zeros, (3 * SCALE) / (100 * zeros));
    }
  }

  /** t is the largest number of parts that fit, but at least one. */
  predicate LargestShare(t: int, part: int, whole: int) {
    t >= 1 && (t == 1 || t * part <= whole) && (t + 1) * part > whole
  }

  lemma ShareIsLargest(whole: int, part: int, share: int)
    requires whole >= 0 && part > 0 && share == (100 * whole) / (100 * part)
    ensures LargestShare(if share < 1 then 1 else share, part, whole)
  {
    FloorBelow(100 * whole, 100 * part);
    assert share * (100 * part) == 100 * (share * part);
    assert (share + 1) * (100 * part) == 100 * ((share + 1) * part);
    if share < 1 {
      MulMonotone(part, share + 1, 2);
    }
  }

  /** Whoever has a key and no debt has a ticket, registered or not: exactly the native accounts, but
      for one in debt where no validator is without a positive balance. */
  lemma EveryKeyHasTickets(c: Checks, s: State, account: string)
    ensures Tickets(c, s, account) >= 0
    ensures Tickets(c, s, account) > 0 <==>
              && account != "" && c.native(account)
              && (Get(s.accounts, account) >= 0 || ZeroBalances(s, s.validators) != {})
  {
    var zeros := ZeroBalances(s, s.validators);
    if account in s.validators && Get(s.accounts, account) <= 0 {
      assert account in zeros;
    }
    var n := |zeros| + 1;
    FloorGreatest(3 * SCALE, 100 * n, 0);
  }

  /** A registered validator is capped at 970,000 tickets. */
  lemma RegisteredCap(c: Checks, s: State, v: string)
    requires v in s.validators && Get(s.accounts, v) > 0
    ensures Tickets(c, s, v) <= 970_000
  {
    var m := PositiveBalances(s, s.validators);
    SumNonNegative(m);
    assert m[v] <= Sum(m);
    TicketCap(Get(s.accounts, v), Sum(m), |ZeroBalances(s, s.validators)|, true);
  }

  /** The cap needs registration: this unregistered holder has more tickets than any registered
      validator can. */
  lemma UnregisteredExceedsCap(c: Checks)
    requires c.native("bob")
    ensures var s := EMPTY.(accounts := map["ann" := 1, "bob" := 50], validators := {"ann"});
            Tickets(c, s, "bob") == 48_500_000
  {
    var s := EMPTY.(accounts := map["ann" := 1, "bob" := 50], validators := {"ann"});
    var m := PositiveBalances(s, s.validators);
    assert m == map["ann" := 1];
    SumRemove(m, "ann");
    assert m - {"ann"} == map[];
  }

  /** A registered holder's tickets reach its balance exactly when the registered total is at most
      970,000, or when the balance is a single unit. */
  lemma StakeWithinTickets(balance: int, total: int, zeros: int)
    requires 0 < balance <= total
    ensures balance <= TicketShare(true, true, balance, total, zeros) <==> total <= 970_000 || balance == 1
  {
    var a, b := balance * 97 * SCALE, 100 * total;
    assert a == balance * 97_000_000;
    if total <= 970_000 {
      MulMonotone(balance, b, 97_000_000);
      FloorGreatest(a, b, balance);
    } else {
      assert b * balance > balance * 97_000_000 by { MulMonotone(balance, 97_000_001, b); }
      FloorLess(a, b, balance);
    }
  }

  // ----- totals over the registry --------------------------------------------------------------------

  ghost function PositiveTickets(c: Checks, s: State): map<string, int> {
    map v | v in PositiveBalances(s, s.validators) :: Tickets(c, s, v)
  }

  /** Validators whose proportional share rounds to nothing and is raised to one ticket. */
  ghost function Raised(s: State): set<string> {
    var m := PositiveBalances(s, s.validators);
    set v | v in m && m[v] * 97 * SCALE < 100 * Sum(m)
  }

  function Times(x: int, d: int): int {
    x * d
  }

  predicate FairShare(t: int, d: int, m: int, raised: bool) {
    m > 0 && if raised then t <= 1 else t * d <= m * 97_000_000
  }

  predicate Bounded(ts: int, d: int, ms: int, raised: int) {
    Times(ts, d) <= ms * 97_000_000 + Times(raised, d)
  }

  ghost predicate AllFair(m: map<string, int>, t: map<string, int>, d: int, raised: set<string>) {
    && m.Keys == t.Keys && raised <= m.Keys
    && forall v :: v in m ==> FairShare(t[v], d, m[v], v in raised)
  }

  /** Shares of positive balances, each floored or raised to one, against their total. */
  lemma {:induction false} SharesBound(m: map<string, int>, t: map<string, int>, d: int, raised: set<string>)
    requires d > 0 && AllFair(m, t, d, raised)
    ensures Bounded(Sum(t), d, Sum(m), |raised|)
    decreases |m|
  {
    hide Times, Sum, Bounded, AllFair;
    if m == map[] {
      NothingFair(t, d, raised);
    } else {
      var v :| v in m;
      var m', t', r := RemoveKey(m, t, d, raised, v);
      SharesBound(m', t', d, r);
      AddShare(Sum(t'), t[v], d, Sum(m'), m[v], |r|, |raised|);
    }
  }

  lemma NothingFair(t: map<string, int>, d: int, raised: set<string>)
    requires AllFair(map[], t, d, raised)
    ensures Bounded(Sum(t), d, Sum<string>(map[]), |raised|)
  {
    assert raised == {};
    NoShares(t, raised, d);
  }

  lemma NoShares(t: map<string, int>, raised: set<string>, d: int)
    requires t.Keys == {} && raised == {}
    ensures Bounded(Sum(t), d, Sum<string>(map[]), |raised|) && Sum(t) == 0
  {
    assert t == map[];
  }

  lemma RemoveKey(m: map<string, int>, t: map<string, int>, d: int, raised: set<string>, v: string)
    returns (m': map<string, int>, t': map<string, int>, r: set<string>)
    requires AllFair(m, t, d, raised) && v in m
    ensures AllFair(m', t', d, r) && |m'| < |m| && v in t
    ensures |r| <= |raised| <= |r| + 1 && FairShare(t[v], d, m[v], |raised| != |r|)
    ensures Sum(m) == m[v] + Sum(m') && Sum(t) == t[v] + Sum(t')
  {
    hide FairShare, Sum;
    m', t', r := m - {v}, t - {v}, raised - {v};
    SumRemove(m, v);
    SumRemove(t, v);
    RemovedSize(m, v);
    assert FairShare(t[v], d, m[v], v in raised);
    if v !in raised {
      assert r == raised;
    }
  }

  lemma AddShare(ts: int, t: int, d: int, ms: int, m: int, r: int, r': int)
    requires d > 0 && r <= r' <= r + 1 && FairShare(t, d, m, r' != r) && Bounded(ts, d, ms, r)
    ensures Bounded(ts + t, d, ms + m, r')
  {
    assert (ts + t) * d == ts * d + t * d;
    assert (r + 1) * d == r * d + d;
    if r' != r {
      MulMonotone(d, t, 1);
    }
  }

  /** All registered positive-balance validators together hold at most 970,000 tickets plus one for
      each that was raised to the minimum. */
  lemma PositiveTotal(c: Checks, s: State)
    ensures Sum(PositiveTickets(c, s)) <= 970_000 + |Raised(s)|
  {
    var m, t, raised := PositiveBalances(s, s.validators), PositiveTickets(c, s), Raised(s);
    if m == map[] {
      assert t == map[];
    } else {
      SumNonNegative(m);
      var total := Sum(m);
      var w :| w in m;
      assert m[w] <= total;
      forall v | v in m ensures FairShare(t[v], 100 * total, m[v], v in raised) {
        ShareFloor(c, s, v);
      }
      SharesBound(m, t, 100 * total, raised);
      ScaleDown(Sum(t), |raised|, total);
    }
  }

  lemma ScaleDown(t: int, r: int, total: int)
    requires total > 0 && t * (100 * total) <= total * 97_000_000 + r * (100 * total)
    ensures t <= 970_000 + r
  {
    var d := 100 * total;
    assert (970_000 + r) * d == total * 97_000_000 + r * d;
    if t >= 970_000 + r + 1 {
      MulMonotone(d, 970_000 + r + 1, t);
    }
  }

  lemma ShareFloor(c: Checks, s: State, v: string)
    requires v in PositiveBalances(s, s.validators) && Sum(PositiveBalances(s, s.validators)) > 0
    ensures var total := Sum(PositiveBalances(s, s.validators));
            && (v in Raised(s) ==> Tickets(c, s, v) <= 1)
            && (v !in Raised(s) ==> Tickets(c, s, v) * (100 * total) <= Get(s.accounts, v) * 97_000_000)
  {
    var total, b := Sum(PositiveBalances(s, s.validators)), Get(s.accounts, v);
    var x := b * 97 * SCALE;
    assert x == b * 97_000_000;
    FloorBelow(x, 100 * total);
    if x < 100 * total {
      FloorLess(x, 100 * total, 1);
    } else {
      FloorGreatest(x, 100 * total, 1);
    }
  }

  ghost function ZeroTickets(c: Checks, s: State): map<string, int> {
    map v | v in ZeroBalances(s, s.validators) :: Tickets(c, s, v)
  }

  lemma {:induction false} EqualShares(m: map<string, int>, most: int)
    requires forall v :: v in m ==> m[v] <= most
    ensures Sum(m) <= Times(|m|, most)
    decreases |m|
  {
    hide Times, Sum;
    if m == map[] {
      NoShares(m, {}, most);
      Distribute(0, most);
    } else {
      var v :| v in m;
      SumRemove(m, v);
      RemovedSize(m, v);
      EqualShares(m - {v}, most);
      Distribute(|m - {v}|, most);
    }
  }

  lemma RemovedSize(m: map<string, int>, v: string)
    requires v in m
    ensures |m - {v}| + 1 == |m|
  {
    assert (m - {v}).Keys == m.Keys - {v};
  }

  lemma Distribute(k: int, most: int)
    ensures Times(k + 1, most) == Times(k, most) + most && Times(0, most) == 0
  {
  }

  /** All registered validators without a positive balance together hold at most 30,000 tickets, or
      one each when there are more of them than that. */
  lemma ZeroTotal(c: Checks, s: State)
    ensures var n := |ZeroBalances(s, s.validators)|;
            Sum(ZeroTickets(c, s)) <= if n <= 30_000 then 30_000 else n
  {
    var zeros := ZeroBalances(s, s.validators);
    var n, m := |zeros|, ZeroTickets(c, s);
    assert m.Keys == zeros;
    if n == 0 {
      assert m == map[];
    } else {
      var share := (3 * SCALE) / (100 * n);
      var most := if share < 1 then 1 else share;
      EqualShares(m, most);
      assert |m| == |m.Keys| == n;
      FloorBelow(3 * SCALE, 100 * n);
      FloorTimes(n, share);
    }
  }

  lemma FloorTimes(n: int, share: int)
    requires n > 0 && share == (3 * SCALE) / (100 * n)
    ensures n * (if share < 1 then 1 else share) <= if n <= 30_000 then 30_000 else n
  {
    FloorBelow(3 * SCALE, 100 * n);
    assert share * (100 * n) == 100 * (n * share);
    if share >= 1 {
      MulMonotone(100 * n, 1, share);
    }
  }

  // ----- winning ---------------------------------------------------------------------------------------

  function ToUint64(x: int): int {
    x % UINT64
  }

  /** The 64-bit product a draw is compared with; it wraps around. */
  function Threshold(tickets: int, hardness: int): (t: int)
    ensures 0 <= t < UINT64
  {
    ToUint64(ToUint64(hardness) * ToUint64(tickets))
  }

  predicate WinsLottery(tickets: int, hardness: int, draw: int) {
    ToUint64(draw) < Threshold(tickets, hardness)
  }

  /** A draw wins exactly when it is below the product of tickets and hardness, modulo 2^64. */
  lemma WinsBelowProduct(tickets: int, hardness: int, draw: int)
    requires 0 <= tickets < UINT64 && 0 <= hardness < UINT64 && 0 <= draw < UINT64
    ensures WinsLottery(tickets, hardness, draw) <==> draw < (tickets * hardness) % 0x1_0000_0000_0000_0000
  {
    ModUnique(tickets, 0, tickets, UINT64);
    ModUnique(hardness, 0, hardness, UINT64);
    ModUnique(draw, 0, draw, UINT64);
    assert hardness * tickets == tickets * hardness;
  }

  predicate IsDraw(draw: int) {
    0 <= draw < DRAW_RANGE
  }

  lemma DrawFits(draw: int)
    requires IsDraw(draw)
    ensures ToUint64(draw) == draw
  {
    ModUnique(draw, 0, draw, UINT64);
  }

  /** One hardness wins every draw that another wins exactly when the other's threshold is no
      higher, as far as draws reach. */
  lemma HardnessKeepsWinners(tickets: int, from: int, to: int)
    ensures (forall draw :: IsDraw(draw) && WinsLottery(tickets, from, draw) ==> WinsLottery(tickets, to, draw))
            <==> Threshold(tickets, from) <= Threshold(tickets, to) || DRAW_RANGE <= Threshold(tickets, to)
  {
    hide ToUint64, Threshold;
    var a, b := Threshold(tickets, from), Threshold(tickets, to);
    forall draw | IsDraw(draw) ensures ToUint64(draw) == draw {
      DrawFits(draw);
    }
    if b < a && b < DRAW_RANGE {
      assert IsDraw(b) && WinsLottery(tickets, from, b) && !WinsLottery(tickets, to, b);
    }
  }

  lemma ThresholdBelowWrap(tickets: int, hardness: int)
    requires 0 <= tickets < UINT64 && 0 <= hardness < UINT64 && hardness * tickets < UINT64
    ensures Threshold(tickets, hardness) == hardness * tickets
  {
    ModUnique(tickets, 0, tickets, UINT64);
    ModUnique(hardness, 0, hardness, UINT64);
    MulMonotone(tickets, 0, hardness);
    ModUnique(hardness * tickets, 0, hardness * tickets, UINT64);
  }

  /** Below the wrap-around more hardness never lowers the threshold. */
  lemma MoreHardnessWins(tickets: int, low: int, high: int)
    requires 0 <= tickets < UINT64 && 0 <= low <= high < UINT64 && high * tickets < UINT64
    ensures Threshold(tickets, low) <= Threshold(tickets, high)
  {
    hide Threshold;
    MulMonotone(tickets, low, high);
    ThresholdBelowWrap(tickets, low);
    ThresholdBelowWrap(tickets, high);
  }

  /** At the wrap-around it can: here doubling the hardness wraps the threshold to zero. */
  lemma MoreHardnessWraps()
    ensures WinsLottery(4, 0x2000_0000_0000_0000, 7) && !WinsLottery(4, 0x4000_0000_0000_0000, 7)
  {
  }
}
