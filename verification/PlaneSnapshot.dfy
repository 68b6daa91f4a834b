/** The snapshot a concentrated pool writes to the plane and its decoder
    (liquidity_pool_concentrated/src/plane.rs, liquidity_pool_liquidity_calculator/src/plane.rs). */
module PlaneSnapshot {
  import opened Words
  import opened PriceMath
  import opened Minting
  import opened TickMath
  import opened ChunkStore
  import opened TickIndex
  import opened StepWalk
  import opened StepDepth
  import DepthLiquidity
  import PositionWorth
  import Solvency

  const PLANE_DATA_VERSION: U128 := 1
  const U32_MAX: nat := 0xFFFF_FFFF
  const I32_MAX: nat := 0x7FFF_FFFF

  // ----------------------------------------------------------------------- encoding

  /** What full-range positions together hold, rounded down. */
  function FullRangeReserves(spacing: int, fullRange: U128, price: U256): Option<(U128, U128)>
  {
    var ticks := FullRangeTicks(spacing);
    if fullRange == 0 || ticks.None? then Some((0, 0))
    else AmountsForLiquidity(price, TickPrice(ticks.value.0), TickPrice(ticks.value.1), fullRange, false)
  }

  /** Header and body of a snapshot. */
  function Encode(fee: U128, spacing: int, steps: U128, reserves: (U128, U128), fullRange: (U128, U128),
                  down: seq<U128>, up: seq<U128>): (seq<U128>, seq<U128>)
    requires spacing <= I32_MAX
  {
    ([PLANE_DATA_VERSION, fee, if spacing > 0 then spacing else 0, steps],
     [reserves.0, reserves.1, fullRange.0, fullRange.1] + down + up)
  }

  /** `get_pool_data`. */
  method GetPoolData(store: TickStorage, fee: U128, spacing: int, reserves: (U128, U128), price: U256, tick: int,
                     active: U128, fullRange: U128)
    returns (initArgs: seq<U128>, body: seq<U128>)
    requires -0x8000_0000 <= spacing <= I32_MAX && price < MAX_PRICE && fullRange <= I128_MAX
    requires spacing > 0 && price > 0 ==>
      && MIN_TICK <= tick <= MAX_TICK
      && IndexOk(store.chunks, store.chunkBitmap, store.wordBitmap, spacing)
      && forall c: int, down: bool :: NetAt(Scene(store.chunks, spacing, fullRange, down), c) > I128_MIN
    ensures FullRangeReserves(spacing, fullRange, price).Some?
    ensures var base, steps := SatU128(active - fullRange), ExactSteps(spacing);
      (initArgs, body) == Encode(fee, spacing, steps, reserves, FullRangeReserves(spacing, fullRange, price).value,
        DirectionSteps(Scene(store.chunks, spacing, fullRange, true), price, tick, steps, base),
        DirectionSteps(Scene(store.chunks, spacing, fullRange, false), price, tick, steps, base))
  {
    hide DirectionSteps, IndexOk, NetAt;
    var exactSteps := ExactTickStepsForSpacing(spacing);
    var base := SatU128(active - fullRange);
    FullRangeReservesExist(spacing, fullRange, price);
    var full := FullRangeReserves(spacing, fullRange, price).value;
    body := [reserves.0, reserves.1, full.0, full.1];
    var down := CollectExactDirectionSteps(store, price, tick, true, exactSteps, spacing, base, fullRange);
    body := body + down;
    var up := CollectExactDirectionSteps(store, price, tick, false, exactSteps, spacing, base, fullRange);
    body := body + up;
    initArgs := [PLANE_DATA_VERSION, fee, if spacing > 0 then spacing else 0, exactSteps];
  }

  lemma FullRangeReservesExist(spacing: int, fullRange: U128, price: U256)
    requires price < MAX_PRICE
    ensures FullRangeReserves(spacing, fullRange, price).Some?
  {
    var ticks := FullRangeTicks(spacing);
    if fullRange > 0 && ticks.Some? {
      var (lower, upper) := (TickPrice(ticks.value.0), TickPrice(ticks.value.1));
      hide TickPrice, FullRangeTicks;
      Amount0IsSingleRounding(Lower(lower, upper), Upper(lower, upper), fullRange, false);
      Amount1IsSingleRounding(Lower(lower, upper), Upper(lower, upper), fullRange, false);
      if lower < price < upper {
        Amount0IsSingleRounding(price, upper, fullRange, false);
        Amount1IsSingleRounding(lower, price, fullRange, false);
      }
    }
  }

  /** They are exactly what the full-range liquidity stands for at the price, rounded down and cut off
      at 128 bits; nothing where the spacing leaves no room for a range. */
  lemma FullRangeReservesAreWorth(spacing: int, fullRange: U128, price: U256)
    requires 0 < price < MAX_PRICE
    ensures var r, ticks := FullRangeReserves(spacing, fullRange, price), FullRangeTicks(spacing);
      if ticks.None? then r == Some((0, 0))
      else
        var (lower, upper) := ticks.value;
        r == Some((Solvency.AmountOf(fullRange, PositionWorth.PerUnit(lower, upper, 0, price), false),
                   Solvency.AmountOf(fullRange, PositionWorth.PerUnit(lower, upper, 1, price), false)))
  {
    hide PositionWorth.PerUnit, Solvency.AmountOf, AmountsForLiquidity, SqrtRatioAtTick;
    var ticks := FullRangeTicks(spacing);
    if ticks.Some? {
      DepthLiquidity.FullRangeIsLegal(spacing);
      var (lower, upper) := ticks.value;
      hide FullRangeTicks;
      if fullRange == 0 {
        Solvency.NothingStandsForNothing(PositionWorth.PerUnit(lower, upper, 0, price));
        Solvency.NothingStandsForNothing(PositionWorth.PerUnit(lower, upper, 1, price));
      } else {
        Solvency.AmountsAreWorth(price, lower, upper, fullRange, false);
      }
    }
  }

  // ----------------------------------------------------------------------- decoding

  /** `Vec::get`. */
  function At(s: seq<U128>, i: nat): Option<U128>
  {
    if i < |s| then Some(s[i]) else None
  }

  function OrZero(v: Option<U128>): U128
  {
    match v case Some(x) => x case None => 0
  }

  datatype ConcentratedPoolData = ConcentratedPoolData(
    fee: U128, tickSpacing: nat, steps: nat, fullRangeReserve0: U128, fullRangeReserve1: U128, reserves: seq<U128>)
  {
    function Reserve(i: nat): U128
    {
      OrZero(At(reserves, i))
    }

    function FullRangeIn(inIdx: nat): U128
    {
      if inIdx == 0 then fullRangeReserve0 else fullRangeReserve1
    }

    function Step0To1(step: nat): (U128, U128)
    {
      StepPair(step, 4)
    }

    function Step1To0(step: nat): (U128, U128)
    {
      StepPair(step, SatU32(4 + SatU32(steps * 2)))
    }

    function StepPair(step: nat, baseOffset: nat): (U128, U128)
    {
      if step >= steps then (0, 0)
      else
        var inIdx := SatU32(baseOffset + SatU32(step * 2));
        var outIdx := SatU32(inIdx + 1);
        (OrZero(At(reserves, inIdx)), OrZero(At(reserves, outIdx)))
    }
  }

  /** `parse_concentrated_data`; no result when it panics. */
  function Parse(initArgs: seq<U128>, reserves: seq<U128>): Option<ConcentratedPoolData>
  {
    if |initArgs| < 4 || initArgs[0] != 1 then None
    else
      var spacing := if initArgs[2] > I32_MAX then I32_MAX else initArgs[2];
      Some(ConcentratedPoolData(initArgs[1], spacing, SatU32(initArgs[3]), OrZero(At(reserves, 2)), OrZero(At(reserves, 3)), reserves))
  }

  /** Decoding a snapshot gives back everything that was written, pair by pair in both
      directions, for as many steps as fit the format. */
  lemma SnapshotRoundTrip(fee: U128, spacing: int, steps: nat, reserves: (U128, U128), fullRange: (U128, U128),
                          down: seq<U128>, up: seq<U128>, k: nat)
    requires spacing <= I32_MAX && |down| == |up| == 2 * steps && 4 + 4 * steps <= U32_MAX
    ensures var (initArgs, body) := Encode(fee, spacing, steps, reserves, fullRange, down, up);
      var r := Parse(initArgs, body);
      && r.Some? && r.value.fee == fee && r.value.tickSpacing == (if spacing > 0 then spacing else 0) && r.value.steps == steps
      && r.value.Reserve(0) == reserves.0 && r.value.Reserve(1) == reserves.1
      && r.value.FullRangeIn(0) == fullRange.0 && r.value.FullRangeIn(1) == fullRange.1
      && r.value.Step0To1(k) == (if k < steps then (down[2 * k], down[2 * k + 1]) else (0, 0))
      && r.value.Step1To0(k) == (if k < steps then (up[2 * k], up[2 * k + 1]) else (0, 0))
  {
    var body := Encode(fee, spacing, steps, reserves, fullRange, down, up).1;
    if k < steps {
      assert body[4 + 2 * k] == down[2 * k] && body[5 + 2 * k] == down[2 * k + 1];
      assert body[4 + 2 * steps + 2 * k] == up[2 * k] && body[5 + 2 * steps + 2 * k] == up[2 * k + 1];
    }
  }

  /** What a reader of the plane decodes is what the pool's two depth walks computed. */
  lemma PlaneShowsTheWalks(chunks: map<int, Chunk>, fee: U128, spacing: int, steps: nat, reserves: (U128, U128), price: U256,
                           tick: int, base: U128, fullRange: U128, full: (U128, U128), k: nat)
    requires spacing <= I32_MAX && price < MAX_PRICE && steps <= MAX_EXACT_TICK_STEPS && k < steps
    ensures var down := DirectionSteps(Scene(chunks, spacing, fullRange, true), price, tick, steps, base);
      var up := DirectionSteps(Scene(chunks, spacing, fullRange, false), price, tick, steps, base);
      var (initArgs, body) := Encode(fee, spacing, steps, reserves, full, down, up);
      var r := Parse(initArgs, body);
      && r.Some? && |down| == |up| == 2 * steps
      && r.value.Step0To1(k) == (down[2 * k], down[2 * k + 1])
      && r.value.Step1To0(k) == (up[2 * k], up[2 * k + 1])
  {
    var down := DirectionSteps(Scene(chunks, spacing, fullRange, true), price, tick, steps, base);
    var up := DirectionSteps(Scene(chunks, spacing, fullRange, false), price, tick, steps, base);
    TwoNumbersPerStep(Scene(chunks, spacing, fullRange, true), price, tick, steps, base);
    TwoNumbersPerStep(Scene(chunks, spacing, fullRange, false), price, tick, steps, base);
    SnapshotRoundTrip(fee, spacing, steps, reserves, full, down, up, k);
  }
}
