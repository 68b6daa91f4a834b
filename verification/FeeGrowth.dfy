/** Wrapping fee counters and the fee growth inside a range
    (liquidity_pool_concentrated/src/math.rs, contract/internal.rs). */
module FeeGrowth {
  import opened Words

  function WrapSub(a: U256, b: U256): U256
  {
    if a >= b then a - b else TWO_256 - 1 - b + a + 1
  }

  function WrapAdd(a: U256, b: U256): U256
  {
    var remaining := TWO_256 - 1 - a;
    if remaining >= b then a + b else b - remaining - 1
  }

  /** Equal up to a multiple of 2^256: what wrapping counters can tell. */
  ghost predicate Same(a: int, b: int)
  {
    (a - b) % 0x1_00000000_00000000_00000000_00000000_00000000_00000000_00000000_00000000 == 0
  }

  /** Wrapping operations are the integer ones up to a multiple of 2^256, and the only
      256-bit words that are. */
  lemma WrapsAreModular(a: U256, b: U256, r: U256)
    ensures r == WrapSub(a, b) <==> Same(r, a - b)
    ensures r == WrapAdd(a, b) <==> Same(r, a + b)
  {
  }

  /** Growth per unit of liquidity that a fee adds, in 128 fractional bits. */
  function FeeGrowthDelta(fee: U128, liquidity: U128): (delta: U256)
    ensures delta * liquidity <= fee * TWO_128
    ensures liquidity > 0 ==> fee * TWO_128 < delta * liquidity + liquidity
  {
    if fee == 0 || liquidity == 0 then 0
    else
      FloorBounds(fee * TWO_128, liquidity);
      MulMono(1, liquidity, fee * TWO_128 / liquidity);
      fee * TWO_128 / liquidity
  }

  /** Fee that a growth pays to some liquidity; no result when it leaves the number range. */
  function MulDivFeeGrowth(delta: U256, liquidity: U128): Option<U128>
  {
    if liquidity == 0 then Some(0)
    else
      var product: nat := delta * liquidity;
      if product >= TWO_256 then None
      else
        var value := product / TWO_128;
        if value < TWO_128 then Some(value) else None
  }

  /** The three numbers growth inside a range is read from, for one token. */
  function GrowthInside(global: U256, outsideLower: U256, outsideUpper: U256, lower: int, upper: int, tick: int): U256
  {
    var below := if tick >= lower then outsideLower else WrapSub(global, outsideLower);
    var above := if tick < upper then outsideUpper else WrapSub(global, outsideUpper);
    WrapSub(WrapSub(global, below), above)
  }

  /** Growth of the counter reaches a range exactly while the current tick is inside it. */
  lemma GrowthReachesRange(global: U256, delta: U256, outsideLower: U256, outsideUpper: U256, lower: int, upper: int, tick: int)
    requires lower < upper
    ensures var before := GrowthInside(global, outsideLower, outsideUpper, lower, upper, tick);
      var after := GrowthInside(WrapAdd(global, delta), outsideLower, outsideUpper, lower, upper, tick);
      after == if lower <= tick < upper then WrapAdd(before, delta) else before
  {
  }

  /** Crossing a bound of the range flips its counter and moves the tick to the bound's other
      side, which leaves the growth inside as it was. */
  lemma CrossingKeepsInside(global: U256, outsideLower: U256, outsideUpper: U256, lower: int, upper: int,
                            tick: int, tick': int, flipLower: bool, flipUpper: bool)
    requires lower < upper && !(flipLower && flipUpper)
    requires flipLower == ((tick >= lower) != (tick' >= lower))
    requires flipUpper == ((tick >= upper) != (tick' >= upper))
    ensures GrowthInside(global, if flipLower then WrapSub(global, outsideLower) else outsideLower,
                         if flipUpper then WrapSub(global, outsideUpper) else outsideUpper, lower, upper, tick')
         == GrowthInside(global, outsideLower, outsideUpper, lower, upper, tick)
  {
  }

  /** Growth added to the counter and to one tick's outside counter reaches a range exactly
      when it holds the far side of that tick: where the price was before it crossed the tick
      downward, or upward. No other bound lies between the tick and the current one. */
  lemma SpreadReachesFarSide(global: U256, delta: U256, outsideLower: U256, outsideUpper: U256, lower: int, upper: int,
                             tick: int, t: int, down: bool)
    requires lower < upper && if down then tick < t else t <= tick
    requires if down then !(tick < lower < t) && !(tick < upper < t) else !(t < lower <= tick) && !(t < upper <= tick)
    ensures var far := if down then t else t - 1;
      var before := GrowthInside(global, outsideLower, outsideUpper, lower, upper, tick);
      GrowthInside(WrapAdd(global, delta), if lower == t then WrapAdd(outsideLower, delta) else outsideLower,
                   if upper == t then WrapAdd(outsideUpper, delta) else outsideUpper, lower, upper, tick)
      == if lower <= far < upper then WrapAdd(before, delta) else before
  {
    var below := if tick >= lower then outsideLower else WrapSub(global, outsideLower);
    var above := if tick < upper then outsideUpper else WrapSub(global, outsideUpper);
    ShiftBoth(global, outsideLower, delta);
    ShiftBoth(global, outsideUpper, delta);
    ShiftBoth(global, below, delta);
    ShiftBoth(WrapSub(global, below), above, delta);
    hide WrapSub, WrapAdd;
  }

  /** Adding the same to both sides of a wrapping difference cancels; adding it to the first
      adds it to the difference. */
  lemma ShiftBoth(a: U256, b: U256, delta: U256)
    ensures WrapSub(WrapAdd(a, delta), WrapAdd(b, delta)) == WrapSub(a, b)
    ensures WrapSub(WrapAdd(a, delta), b) == WrapAdd(WrapSub(a, b), delta)
  {
  }
}
