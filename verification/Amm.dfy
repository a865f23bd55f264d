/** Constant-product pools with integer rounding and a fee. */
module Amm {
  import opened Text
  import opened NumberTheory

  const AMM_FEE_BPS := 30
  const AMM_DENOMINATOR_BPS := 10000

  datatype Pool = Pool(
    id: string, assetA: string, assetB: string,
    reserveA: int, reserveB: int, feeBps: int,
    createdTx: string, lastTx: string)

  datatype Quote = NoQuote | Quote(out: int)
  datatype SwapResult = Refused | Swapped(pool: Pool)

  /** Integer division that truncates toward zero. */
  function TruncDiv(a: int, b: int): int
    requires b > 0
  {
    if a >= 0 then a / b else -((-a) / b)
  }

  function ReservesFor(pool: Pool, assetIn: string): (int, int) {
    var a := NormalizeAsset(assetIn);
    if a == pool.assetA then (pool.reserveA, pool.reserveB)
    else if a == pool.assetB then (pool.reserveB, pool.reserveA)
    else (0, 0)
  }

  function EffectiveFee(pool: Pool): (fee: int)
    ensures fee >= 1
  {
    if pool.feeBps <= 0 then AMM_FEE_BPS else pool.feeBps
  }

  function AfterFee(pool: Pool, amountIn: int): int {
    TruncDiv(amountIn * (AMM_DENOMINATOR_BPS - EffectiveFee(pool)), AMM_DENOMINATOR_BPS)
  }

  function QuoteSwap(pool: Pool, assetIn: string, amountIn: int): Quote {
    if amountIn <= 0 || pool.reserveA <= 0 || pool.reserveB <= 0 then NoQuote else
    var (reserveIn, reserveOut) := ReservesFor(pool, assetIn);
    if reserveIn <= 0 || reserveOut <= 0 then NoQuote else
    var afterFee := AfterFee(pool, amountIn);
    if afterFee <= 0 then NoQuote else
    var out := TruncDiv(reserveOut * afterFee, reserveIn + afterFee);
    if out <= 0 || out >= reserveOut then NoQuote else Quote(out)
  }

  function ApplySwap(pool: Pool, assetIn: string, amountIn: int, amountOut: int): SwapResult {
    var a := NormalizeAsset(assetIn);
    if a == pool.assetA then
      if pool.reserveB <= amountOut then Refused
      else Swapped(pool.(reserveA := pool.reserveA + amountIn, reserveB := pool.reserveB - amountOut))
    else if a == pool.assetB then
      if pool.reserveA <= amountOut then Refused
      else Swapped(pool.(reserveB := pool.reserveB + amountIn, reserveA := pool.reserveA - amountOut))
    else Refused
  }

  // ----- the arithmetic of one quote -----------------------------------------------------------

  lemma FloorBelow(a: int, b: int)
    requires a >= 0 && b > 0
    ensures (a / b) * b <= a < (a / b + 1) * b
  {
  }

  lemma FloorGreatest(a: int, b: int, k: int)
    requires a >= 0 && b > 0 && k * b <= a
    ensures k <= a / b
  {
    FloorBelow(a, b);
    if k >= a / b + 1 {
      MulMonotone(b, a / b + 1, k);
    }
  }

  lemma FloorLess(a: int, b: int, k: int)
    requires a >= 0 && b > 0 && a < k * b
    ensures a / b < k
  {
    FloorBelow(a, b);
    if a / b >= k {
      MulMonotone(b, k, a / b);
    }
  }

  /** What a quote guarantees, freed of its divisions. */
  lemma QuoteFacts(pool: Pool, assetIn: string, amountIn: int)
    requires QuoteSwap(pool, assetIn, amountIn).Quote?
    ensures var (reserveIn, reserveOut) := ReservesFor(pool, assetIn);
            var f, out := AfterFee(pool, amountIn), QuoteSwap(pool, assetIn, amountIn).out;
            && reserveIn > 0 && 0 < out < reserveOut && 0 < f < amountIn
            && out * (reserveIn + f) <= reserveOut * f
  {
    FeeShrinks(pool, amountIn);
    var (reserveIn, reserveOut) := ReservesFor(pool, assetIn);
    var f := AfterFee(pool, amountIn);
    QuoteFloor(reserveOut, f, reserveIn);
  }

  lemma FeeShrinks(pool: Pool, amountIn: int)
    requires amountIn > 0 && AfterFee(pool, amountIn) > 0
    ensures AfterFee(pool, amountIn) < amountIn
  {
    var fee := EffectiveFee(pool);
    MulMonotone(amountIn, 1, fee);
    assert amountIn * (AMM_DENOMINATOR_BPS - fee) == amountIn * AMM_DENOMINATOR_BPS - amountIn * fee;
  }

  lemma QuoteFloor(r: int, f: int, s: int)
    requires r > 0 && f > 0 && s > 0
    ensures r * f >= 0 && ((r * f) / (s + f)) * (s + f) <= r * f
  {
    FloorBelow(r * f, s + f);
  }

  lemma ProductGrows(s: int, r: int, x: int, f: int, out: int)
    requires s > 0 && 0 < out < r && 0 < f < x && out * (s + f) <= r * f
    ensures s * r < (s + x) * (r - out)
  {
    assert (s + x) * (r - out) == s * r + x * r - out * (s + f) - out * (x - f);
    assert out * (x - f) < r * (x - f);
    assert r * f + r * (x - f) == x * r;
  }

  // ----- what a quote is -------------------------------------------------------------------------

  /** The reserves on the side of the asset sold and on the other side. */
  predicate Sides(pool: Pool, assetIn: string, reserveIn: int, reserveOut: int) {
    var a := NormalizeAsset(assetIn);
    || (a == pool.assetA && reserveIn == pool.reserveA && reserveOut == pool.reserveB)
    || (a != pool.assetA && a == pool.assetB && reserveIn == pool.reserveB && reserveOut == pool.reserveA)
  }

  /** Paying out keeps the reserve product, when only x of what is sold counts. */
  predicate KeepsProduct(reserveIn: int, reserveOut: int, x: int, out: int) {
    (reserveIn + x) * (reserveOut - out) >= reserveIn * reserveOut
  }

  /** x is the largest whole amount that is at most amountIn less the fee in basis points; a fee that
      is not set is 30. */
  predicate CountedInput(pool: Pool, amountIn: int, x: int) {
    var fee := if pool.feeBps <= 0 then 30 else pool.feeBps;
    10_000 * x <= amountIn * (10_000 - fee) < 10_000 * (x + 1)
  }

  /** A quote is the largest payout that keeps the product, and there is one exactly when something
      counts, both reserves are positive, and the payout is positive and leaves a reserve. */
  lemma QuoteIsLargest(pool: Pool, assetIn: string, amountIn: int, reserveIn: int, reserveOut: int, x: int, out: int)
    requires Sides(pool, assetIn, reserveIn, reserveOut) && CountedInput(pool, amountIn, x)
    ensures QuoteSwap(pool, assetIn, amountIn) == Quote(out) <==>
              && amountIn > 0 && x > 0 && reserveIn > 0 && reserveOut > 0 && 0 < out < reserveOut
              && KeepsProduct(reserveIn, reserveOut, x, out) && !KeepsProduct(reserveIn, reserveOut, x, out + 1)
  {
    hide NormalizeAsset, KeepsProduct, AfterFee;
    assert ReservesFor(pool, assetIn) == (reserveIn, reserveOut);
    CountedIsAfterFee(pool, amountIn, x);
    if x > 0 && reserveIn > 0 && reserveOut > 0 {
      assert reserveOut * x >= 0 by { MulMonotone(reserveOut, 0, x); }
      LargestPayout(reserveIn, reserveOut, x, out);
    }
  }

  lemma CountedIsAfterFee(pool: Pool, amountIn: int, x: int)
    requires CountedInput(pool, amountIn, x)
    ensures x > 0 ==> AfterFee(pool, amountIn) == x
    ensures x <= 0 ==> AfterFee(pool, amountIn) <= 0
  {
    var kept := amountIn * (AMM_DENOMINATOR_BPS - EffectiveFee(pool));
    if kept >= 0 {
      FloorGreatest(kept, 10_000, x);
      FloorLess(kept, 10_000, x + 1);
    } else {
      FloorGreatest(-kept, 10_000, 0);
    }
  }

  lemma LargestPayout(s: int, r: int, x: int, out: int)
    requires s > 0 && r > 0 && x > 0 && r * x >= 0
    ensures KeepsProduct(s, r, x, out) && !KeepsProduct(s, r, x, out + 1) <==> out == (r * x) / (s + x)
  {
    PayoutBound(s, r, x, out);
    PayoutBound(s, r, x, out + 1);
    FloorIs(r * x, s + x, out);
  }

  lemma PayoutBound(s: int, r: int, x: int, out: int)
    ensures KeepsProduct(s, r, x, out) <==> out * (s + x) <= r * x
  {
    assert (s + x) * (r - out) == s * r + r * x - out * (s + x);
  }

  lemma FloorIs(a: int, b: int, q: int)
    requires a >= 0 && b > 0
    ensures q * b <= a < (q + 1) * b <==> q == a / b
  {
    if q * b <= a < (q + 1) * b {
      FloorGreatest(a, b, q);
      FloorLess(a, b, q + 1);
    }
    FloorBelow(a, b);
  }

  /** An asset the pool does not hold is never quoted. */
  lemma ForeignNeverQuoted(pool: Pool, assetIn: string, amountIn: int)
    requires NormalizeAsset(assetIn) != pool.assetA && NormalizeAsset(assetIn) != pool.assetB
    ensures QuoteSwap(pool, assetIn, amountIn) == NoQuote
  {
    hide NormalizeAsset;
  }

  predicate Positive(pool: Pool) {
    pool.reserveA > 0 && pool.reserveB > 0
  }

  /** An accepted quote is always applied; it keeps both reserves positive and the product grows. */
  lemma SwapGrowsProduct(pool: Pool, assetIn: string, amountIn: int)
    requires QuoteSwap(pool, assetIn, amountIn).Quote?
    ensures var r := ApplySwap(pool, assetIn, amountIn, QuoteSwap(pool, assetIn, amountIn).out);
            && r.Swapped? && Positive(r.pool)
            && pool.reserveA * pool.reserveB < r.pool.reserveA * r.pool.reserveB
  {
    QuoteFacts(pool, assetIn, amountIn);
    var (reserveIn, reserveOut) := ReservesFor(pool, assetIn);
    ProductGrows(reserveIn, reserveOut, amountIn, AfterFee(pool, amountIn), QuoteSwap(pool, assetIn, amountIn).out);
  }

  // ----- runs of swaps ---------------------------------------------------------------------------

  datatype Order = Order(assetIn: string, amountIn: int)

  /** One accepted swap against the pool. */
  function SwapOnce(pool: Pool, o: Order): SwapResult {
    var q := QuoteSwap(pool, o.assetIn, o.amountIn);
    if q.NoQuote? then Refused else ApplySwap(pool, o.assetIn, o.amountIn, q.out)
  }

  /** The pool after every order, if all are accepted. */
  function SwapAll(pool: Pool, orders: seq<Order>): SwapResult
    decreases |orders|
  {
    if orders == [] then Swapped(pool) else
    var r := SwapOnce(pool, orders[0]);
    if r.Refused? then Refused else SwapAll(r.pool, orders[1..])
  }

  lemma {:induction false} RunGrowsProduct(pool: Pool, orders: seq<Order>)
    requires orders != [] && SwapAll(pool, orders).Swapped?
    ensures var end := SwapAll(pool, orders).pool;
            Positive(end) && pool.reserveA * pool.reserveB < end.reserveA * end.reserveB
    decreases |orders|
  {
    SwapGrowsProduct(pool, orders[0].assetIn, orders[0].amountIn);
    if |orders| > 1 {
      RunGrowsProduct(SwapOnce(pool, orders[0]).pool, orders[1..]);
    }
  }

  /** No run of swaps drains one reserve for free: if one side is no larger than it was, the other
      side is strictly larger. */
  lemma NoFreeRun(pool: Pool, orders: seq<Order>)
    requires orders != [] && SwapAll(pool, orders).Swapped?
    ensures var end := SwapAll(pool, orders).pool;
            && (end.reserveA <= pool.reserveA ==> end.reserveB > pool.reserveB)
            && (end.reserveB <= pool.reserveB ==> end.reserveA > pool.reserveA)
  {
    RunGrowsProduct(pool, orders);
    LargerProduct(pool, SwapAll(pool, orders).pool);
  }

  lemma LargerProduct(pool: Pool, end: Pool)
    requires Positive(end) && pool.reserveA * pool.reserveB < end.reserveA * end.reserveB
    ensures end.reserveA <= pool.reserveA ==> end.reserveB > pool.reserveB
    ensures end.reserveB <= pool.reserveB ==> end.reserveA > pool.reserveA
  {
    if end.reserveA <= pool.reserveA && end.reserveB <= pool.reserveB {
      MulMonotone(end.reserveB, end.reserveA, pool.reserveA);
      MulMonotone(pool.reserveA, end.reserveB, pool.reserveB);
    }
  }

  // ----- splitting an order ----------------------------------------------------------------------

  function Total(parts: seq<int>): int {
    if parts == [] then 0 else parts[0] + Total(parts[1..])
  }

  /** What selling the parts one after another pays out in all, if every sale is accepted. */
  function SplitOut(pool: Pool, assetIn: string, parts: seq<int>): Quote
    decreases |parts|
  {
    if parts == [] then Quote(0) else
    var q := QuoteSwap(pool, assetIn, parts[0]);
    var r := SwapOnce(pool, Order(assetIn, parts[0]));
    if q.NoQuote? || r.Refused? then NoQuote else
    var rest := SplitOut(r.pool, assetIn, parts[1..]);
    if rest.NoQuote? then NoQuote else Quote(q.out + rest.out)
  }

  lemma FeeSuperadditive(pool: Pool, a: int, b: int)
    requires a > 0 && b > 0 && AfterFee(pool, a) > 0 && AfterFee(pool, b) > 0
    ensures AfterFee(pool, a) + AfterFee(pool, b) <= AfterFee(pool, a + b)
  {
    var k := AMM_DENOMINATOR_BPS - EffectiveFee(pool);
    assert a * k > 0 && b * k > 0;
    assert (a + b) * k == a * k + b * k;
  }

  /** Two floors against one, with the fee left behind in the pool after the first sale. */
  lemma SplitBound(r: int, s: int, a: int, u: int, v: int, w: int, o1: int, o2: int)
    requires s > 0 && 0 < u <= a && v > 0 && w >= u + v && 0 <= o1 <= r && o2 >= 0
    requires o1 * (s + u) <= r * u
    requires o2 * (s + a + v) <= (r - o1) * v
    ensures (o1 + o2) * (s + w) <= r * w
  {
    var t, d := o1 + o2, w - (u + v);
    assert o2 * (s + u + v) <= o2 * (s + a + v);
    assert o1 * (s + u + v) == o1 * (s + u) + o1 * v;
    assert (r - o1) * v == r * v - o1 * v;
    assert t * (s + u + v) <= r * u + r * v;
    CapByReserve(t, r, s, u + v);
    assert t * d <= r * d;
    assert t * (s + w) == t * (s + u + v) + t * d;
    assert r * w == r * (u + v) + r * d;
  }

  lemma CapByReserve(t: int, r: int, s: int, x: int)
    requires s > 0 && x > 0 && r >= 0 && t * (s + x) <= r * x
    ensures t <= r
  {
    assert (r + 1) * (s + x) == r * x + r * s + (s + x);
    if t > r {
      MulMonotone(s + x, r + 1, t);
    }
  }

  /** Splitting an order in two never pays more than placing it whole. */
  lemma SplitInTwo(pool: Pool, assetIn: string, a: int, b: int)
    requires SwapOnce(pool, Order(assetIn, a)).Swapped?
    requires QuoteSwap(SwapOnce(pool, Order(assetIn, a)).pool, assetIn, b).Quote?
    ensures var q := QuoteSwap(pool, assetIn, a + b);
            && q.Quote?
            && QuoteSwap(pool, assetIn, a).out
               + QuoteSwap(SwapOnce(pool, Order(assetIn, a)).pool, assetIn, b).out <= q.out
  {
    var mid := SwapOnce(pool, Order(assetIn, a)).pool;
    QuoteFacts(pool, assetIn, a);
    QuoteFacts(mid, assetIn, b);
    var (s, r) := ReservesFor(pool, assetIn);
    var o1, o2 := QuoteSwap(pool, assetIn, a).out, QuoteSwap(mid, assetIn, b).out;
    assert ReservesFor(mid, assetIn) == (s + a, r - o1);
    assert AfterFee(mid, b) == AfterFee(pool, b);
    var u, v, w := AfterFee(pool, a), AfterFee(pool, b), AfterFee(pool, a + b);
    FeeSuperadditive(pool, a, b);
    SplitBound(r, s, a, u, v, w, o1, o2);
    WholeQuote(r, s, w, o1 + o2);
  }

  lemma WholeQuote(r: int, s: int, w: int, t: int)
    requires r > 0 && s > 0 && w > 0 && t > 0 && t * (s + w) <= r * w
    ensures r * w >= 0 && t <= (r * w) / (s + w) < r
  {
    FloorGreatest(r * w, s + w, t);
    assert r * w < r * (s + w) by { assert r * (s + w) == r * s + r * w; }
    FloorLess(r * w, s + w, r);
  }

  lemma {:induction false} SplitTotalPositive(pool: Pool, assetIn: string, parts: seq<int>)
    requires parts != [] && SplitOut(pool, assetIn, parts).Quote?
    ensures Total(parts) > 0
    decreases |parts|
  {
    if |parts| > 1 {
      SplitTotalPositive(SwapOnce(pool, Order(assetIn, parts[0])).pool, assetIn, parts[1..]);
    }
  }

  /** Cutting an order into any number of consecutive swaps never pays more than the single swap,
      and whenever every part is accepted the single swap is too. */
  lemma {:induction false} SplittingNeverPays(pool: Pool, assetIn: string, parts: seq<int>)
    requires parts != [] && SplitOut(pool, assetIn, parts).Quote?
    ensures var q := QuoteSwap(pool, assetIn, Total(parts));
            q.Quote? && SplitOut(pool, assetIn, parts).out <= q.out
    decreases |parts|
  {
    if |parts| == 1 {
      assert Total(parts) == parts[0] + Total([]);
    } else {
      var rest := parts[1..];
      SplittingNeverPays(SwapOnce(pool, Order(assetIn, parts[0])).pool, assetIn, rest);
      SplitInTwo(pool, assetIn, parts[0], Total(rest));
    }
  }
}
