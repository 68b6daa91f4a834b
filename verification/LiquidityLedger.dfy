/** Positions, tick liquidity and fee counters of the concentrated pool over whole runs
    (liquidity_pool_concentrated/src/contract/internal.rs, extensions.rs). */
module LiquidityLedger {
  import opened Words
  import opened TickMath
  import opened ChunkStore
  import opened TickUpdate
  import opened FeeGrowth

  /** One number per token. */
  type Counters = c: seq<U256> | |c| == 2 witness [0, 0]
  type Amounts = c: seq<nat> | |c| == 2 witness [0, 0]

  /** A position with the growth it last saw inside its range. `grown` is a history variable:
      the growth that truly reached the position since then, counted without wrapping. */
  datatype Position = Position(lower: int, upper: int, liquidity: U128, last: Counters, grown: Amounts)

  /** The pool's ticks, current tick, fee counters and active liquidity, its positions, and two
      history variables: fees given to liquidity providers and fees credited to positions. */
  datatype Ledger = Ledger(
    spacing: int, ticks: map<int, TickData>, tick: int, growth: Counters, active: U128,
    positions: seq<Position>, fees: Amounts, credited: Amounts)

  function TickOf(s: Ledger, t: int): TickData
  {
    if t in s.ticks then s.ticks[t] else ZERO_TICK
  }

  function Outside(t: TickData, k: nat): U256
  {
    if k == 0 then t.feeOutside0 else t.feeOutside1
  }

  /** `compute_fee_growth_inside`. */
  function Inside(s: Ledger, lower: int, upper: int, k: nat): U256
    requires k < 2
  {
    GrowthInside(s.growth[k], Outside(TickOf(s, lower), k), Outside(TickOf(s, upper), k), lower, upper, s.tick)
  }

  // -------------------------------------------------------------------- operations

  predicate LegalTick(t: int, spacing: int)
  {
    spacing > 0 && MIN_TICK <= t <= MAX_TICK && t % spacing == 0
  }

  /** `update_tick_liquidity`, in terms of plain ticks. */
  function ChangeTick(s: Ledger, t: int, delta: int, isUpper: bool): Option<Ledger>
    requires s.spacing > 0
  {
    match UpdatedTick(TickOf(s, t), t, delta, isUpper, s.spacing, Globals(s.tick, s.growth[0], s.growth[1]))
    case Some(after) => Some(s.(ticks := s.ticks[t := after]))
    case None => None
  }

  function ChangeBounds(s: Ledger, p: Position, delta: int): Option<Ledger>
    requires s.spacing > 0
  {
    match ChangeTick(s, p.lower, delta, false)
    case Some(s1) => ChangeTick(s1, p.upper, delta, true)
    case None => None
  }

  /** Fees a position has earned since it last looked. */
  function Earned(s: Ledger, p: Position, k: nat): Option<U128>
    requires k < 2
  {
    MulDivFeeGrowth(WrapSub(Inside(s, p.lower, p.upper, k), p.last[k]), p.liquidity)
  }

  /** `accrue_position_fees`. */
  function Accrue(s: Ledger, i: nat): Option<Ledger>
    requires i < |s.positions|
  {
    var p := s.positions[i];
    var (e0, e1) := (Earned(s, p, 0), Earned(s, p, 1));
    if e0.None? || e1.None? then None
    else
      var seen: Counters := [Inside(s, p.lower, p.upper, 0), Inside(s, p.lower, p.upper, 1)];
      Some(s.(positions := s.positions[i := p.(last := seen, grown := [0, 0])],
              credited := [s.credited[0] + e0.value, s.credited[1] + e1.value]))
  }

  predicate Covers(p: Position, tick: int)
  {
    p.lower <= tick < p.upper
  }

  /** A new position, still without liquidity. */
  function Open(s: Ledger, lower: int, upper: int): Option<Ledger>
  {
    if lower < upper && LegalTick(lower, s.spacing) && LegalTick(upper, s.spacing) then
      Some(s.(positions := s.positions + [Position(lower, upper, 0, [0, 0], [0, 0])]))
    else None
  }

  /** The liquidity part of `deposit_position`: ticks first, then fees, then the position. */
  function Deposit(s: Ledger, i: nat, amount: U128): Option<Ledger>
    requires i < |s.positions| && s.spacing > 0
  {
    var changed := ChangeBounds(s, s.positions[i], amount);
    if amount > I128_MAX || changed.None? then None
    else
      match Accrue(changed.value, i)
      case None => None
      case Some(s1) =>
        var p := s1.positions[i];
        Some(s1.(positions := s1.positions[i := p.(liquidity := SatU128(p.liquidity + amount))],
                 active := if Covers(p, s.tick) then SatU128(s.active + amount) else s.active))
  }

  /** The liquidity part of `withdraw_position`: fees first, then the position, then ticks. */
  function Withdraw(s: Ledger, i: nat, amount: U128): Option<Ledger>
    requires i < |s.positions| && s.spacing > 0
  {
    match Accrue(s, i)
    case None => None
    case Some(s1) =>
      var p := s1.positions[i];
      if amount > I128_MAX || p.liquidity < amount then None
      else
        var s2 := s1.(positions := s1.positions[i := p.(liquidity := p.liquidity - amount)]);
        match ChangeBounds(s2, p, -(amount as int))
        case None => None
        case Some(s3) =>
          if !Covers(p, s.tick) then Some(s3)
          else if s.active < amount then None
          else Some(s3.(active := s.active - amount))
  }

  /** `add_fee_growth_global` for a fee paid while the pool's liquidity was active. */
  function AddFee(s: Ledger, k: nat, fee: U128): Ledger
    requires k < 2
  {
    var delta := FeeGrowthDelta(fee, s.active);
    s.(growth := s.growth[k := WrapAdd(s.growth[k], delta)], fees := s.fees[k := s.fees[k] + fee],
       positions := Grow(s.positions, s.tick, k, delta))
  }

  /** Growth as it truly reaches a position. */
  function GrowOne(p: Position, tick: int, k: nat, delta: U256): Position
    requires k < 2
  {
    if Covers(p, tick) then p.(grown := p.grown[k := p.grown[k] + delta]) else p
  }

  function Grow(ps: seq<Position>, tick: int, k: nat, delta: U256): seq<Position>
    requires k < 2
  {
    seq(|ps|, i requires 0 <= i < |ps| => GrowOne(ps[i], tick, k, delta))
  }

  predicate IsInitialized(s: Ledger, t: int)
  {
    TickOf(s, t).gross > 0
  }

  /** `cross_tick` and the change of liquidity and tick that goes with it. */
  function Cross(s: Ledger, t: int, down: bool): Option<Ledger>
  {
    var data := TickOf(s, t);
    var flipped := data.(feeOutside0 := WrapSub(s.growth[0], data.feeOutside0),
                         feeOutside1 := WrapSub(s.growth[1], data.feeOutside1));
    var liquidity := if down then s.active - data.net else s.active + data.net;
    if liquidity < 0 then None
    else Some(s.(ticks := s.ticks[t := flipped], active := SatU128(liquidity), tick := if down then t - 1 else t))
  }

  /** What a swap remembers of its way: the last liquidity in range that was not zero, the last
      tick it crossed and whether it crossed any. */
  datatype Last = Last(liquidity: U128, tick: int, crossed: bool)

  /** A tick on the side of t from which the price came. */
  function Far(t: int, down: bool): int
  {
    if down then t else t - 1
  }

  /** The tick in whose range the growth of an unswapped input counts. */
  function SpreadTick(s: Ledger, last: Last, down: bool): int
  {
    if last.crossed then Far(last.tick, down) else s.tick
  }

  /** `swap_internal` spreads an unswapped input: growth at the rate of the last liquidity that
      was not zero, and the same growth again at the last tick crossed. */
  function Spread(s: Ledger, k: nat, surplus: U128, last: Last, down: bool): Ledger
    requires k < 2
  {
    var delta := FeeGrowthDelta(surplus, last.liquidity);
    var data := TickOf(s, last.tick);
    var written := if k == 0 then data.(feeOutside0 := WrapAdd(data.feeOutside0, delta))
                   else data.(feeOutside1 := WrapAdd(data.feeOutside1, delta));
    s.(growth := s.growth[k := WrapAdd(s.growth[k], delta)], fees := s.fees[k := s.fees[k] + surplus],
       ticks := if last.crossed && delta != 0 then s.ticks[last.tick := written] else s.ticks,
       positions := Grow(s.positions, SpreadTick(s, last, down), k, delta))
  }

  /** t was the last tick crossed: the price has met no initialized tick since. */
  ghost predicate JustCrossed(s: Ledger, t: int, down: bool)
  {
    && IsInitialized(s, t)
    && (if down then s.tick < t else t <= s.tick)
    && forall u: int | IsInitialized(s, u) :: if down then !(s.tick < u < t) else !(t < u <= s.tick)
  }

  /** The swap reaches the nearest initialized tick: none lies between it and the current one. */
  ghost predicate NextTick(s: Ledger, t: int, down: bool)
  {
    && IsInitialized(s, t)
    && (if down then t <= s.tick else s.tick < t)
    && forall u: int | IsInitialized(s, u) :: if down then !(t < u <= s.tick) else !(s.tick < u < t)
  }

  /** The price moves without reaching an initialized tick. */
  ghost predicate SameSide(s: Ledger, tick: int)
  {
    forall u: int | IsInitialized(s, u) :: u <= s.tick <==> u <= tick
  }

  // --------------------------------------------------------------------- sums

  function Sum(ps: seq<Position>, f: Position -> int): int
  {
    if ps == [] then 0 else Sum(ps[..|ps| - 1], f) + f(ps[|ps| - 1])
  }

  lemma {:induction false} SumUpdate(ps: seq<Position>, i: nat, p: Position, f: Position -> int)
    requires i < |ps|
    ensures Sum(ps[i := p], f) == Sum(ps, f) - f(ps[i]) + f(p)
  {
    var n := |ps| - 1;
    if i < n {
      SumUpdate(ps[..n], i, p, f);
      assert ps[i := p][..n] == ps[..n][i := p];
    } else {
      assert ps[i := p][..n] == ps[..n];
    }
  }

  /** Part i of a sum of non-negative parts. */
  lemma {:induction false} PartOfSum(ps: seq<Position>, i: nat, f: Position -> int)
    requires i < |ps| && forall p :: f(p) >= 0
    ensures 0 <= f(ps[i]) <= Sum(ps, f)
  {
    var n := |ps| - 1;
    SumNonNegative(ps[..n], f);
    if i < n {
      PartOfSum(ps[..n], i, f);
    }
  }

  lemma {:induction false} SumNonNegative(ps: seq<Position>, f: Position -> int)
    requires forall p :: f(p) >= 0
    ensures Sum(ps, f) >= 0
  {
    if ps != [] {
      SumNonNegative(ps[..|ps| - 1], f);
    }
  }

  function GrossPart(t: int): Position -> int
  {
    (p: Position) => if p.lower == t || p.upper == t then p.liquidity else 0
  }

  function NetPart(t: int): Position -> int
  {
    (p: Position) => if p.lower == t then p.liquidity as int else if p.upper == t then -(p.liquidity as int) else 0
  }

  function ActivePart(tick: int): Position -> int
  {
    (p: Position) => if p.lower <= tick < p.upper then p.liquidity else 0
  }

  /** Growth owed to a position, in 128 fractional bits. */
  function OwedPart(k: nat): Position -> int
    requires k < 2
  {
    (p: Position) => p.grown[k] * p.liquidity
  }

  // --------------------------------------------------------------- the invariant

  /** Every tick records the liquidity of the positions that start or end there, within the
      cap of a tick. */
  ghost predicate TicksAreSums(s: Ledger)
    requires s.spacing > 0
  {
    forall t: int ::
      && TickOf(s, t).gross == Sum(s.positions, GrossPart(t)) <= MaxLiquidityPerTick(s.spacing)
      && TickOf(s, t).net == Sum(s.positions, NetPart(t))
  }

  ghost predicate PositionsLegal(s: Ledger)
  {
    forall i | 0 <= i < |s.positions| ::
      var p := s.positions[i];
      p.lower < p.upper && LegalTick(p.lower, s.spacing) && LegalTick(p.upper, s.spacing)
  }

  /** Active liquidity is that of the positions whose range holds the current tick. */
  ghost predicate ActiveIsSum(s: Ledger)
  {
    s.active == Sum(s.positions, ActivePart(s.tick))
  }

  /** The wrapped counters tell each position's true growth up to a multiple of 2^256. */
  ghost predicate CountersTrack(s: Ledger, k: nat)
    requires k < 2
  {
    forall i | 0 <= i < |s.positions| :: Tracks(s, s.positions[i], k)
  }

  ghost predicate Tracks(s: Ledger, p: Position, k: nat)
    requires k < 2
  {
    p.liquidity > 0 ==> Same(Inside(s, p.lower, p.upper, k) - p.last[k], p.grown[k])
  }

  /** What positions are owed and have been credited is covered by the fees given. */
  ghost predicate Covered(s: Ledger, k: nat)
    requires k < 2
  {
    Sum(s.positions, OwedPart(k)) + s.credited[k] * TWO_128 <= s.fees[k] * TWO_128
  }

  ghost predicate LedgerOk(s: Ledger)
  {
    && s.spacing > 0 && TicksAreSums(s) && PositionsLegal(s) && ActiveIsSum(s)
    && CountersTrack(s, 0) && CountersTrack(s, 1) && Covered(s, 0) && Covered(s, 1)
  }
}
