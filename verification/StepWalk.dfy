/** The depth walk of the concentrated pool: per-step swap depths in one direction
    (liquidity_pool_concentrated/src/plane.rs). */
module StepWalk {
  import opened Words
  import opened PriceMath
  import opened TickMath
  import opened Bitmap
  import opened ChunkStore
  import opened TickIndex
  import opened TickSearch

  const MIN_EXACT_TICK_STEPS: nat := 8
  const MAX_EXACT_TICK_STEPS: nat := 20
  const TARGET_PRICE_DISTANCE_TICKS: nat := 5700

  /** Prices a pool can have once it is initialized. */
  type Price = x: U256 | 0 < x < MAX_PRICE witness 1

  // ------------------------------------------------------------------ step layout

  /** Spacing intervals from the start to the far end of a step. */
  function StepTarget(step: nat): nat
  {
    (step + 1) * (step + 2) / 2
  }

  /** Ticks from the start to the far end of the last of so many steps. */
  function Covered(steps: nat, spacing: nat): nat
  {
    steps * (steps + 1) / 2 * spacing
  }

  /** The first number of steps from `steps` on that is 20 or reaches 5700 ticks. */
  function StepsFromCount(spacing: nat, steps: nat): (r: nat)
    requires steps <= MAX_EXACT_TICK_STEPS
    ensures steps <= r <= MAX_EXACT_TICK_STEPS
    ensures r == MAX_EXACT_TICK_STEPS || Covered(r, spacing) >= TARGET_PRICE_DISTANCE_TICKS
    ensures forall k: nat | steps <= k < r :: Covered(k, spacing) < TARGET_PRICE_DISTANCE_TICKS
    decreases MAX_EXACT_TICK_STEPS - steps
  {
    if steps == MAX_EXACT_TICK_STEPS || Covered(steps, spacing) >= TARGET_PRICE_DISTANCE_TICKS then steps
    else StepsFromCount(spacing, steps + 1)
  }

  /** Steps written for a spacing: the fewest, from 8 to 20, that reach 5700 ticks, or 20. */
  function ExactSteps(spacing: int): nat
  {
    if spacing <= 0 then 0 else StepsFromCount(spacing, MIN_EXACT_TICK_STEPS)
  }

  method ExactTickStepsForSpacing(spacing: int) returns (steps: nat)
    ensures steps == ExactSteps(spacing)
  {
    if spacing <= 0 {
      return 0;
    }
    hide Covered;
    steps := MIN_EXACT_TICK_STEPS;
    while steps < MAX_EXACT_TICK_STEPS
      invariant MIN_EXACT_TICK_STEPS <= steps <= MAX_EXACT_TICK_STEPS
      invariant ExactSteps(spacing) == StepsFromCount(spacing, steps)
    {
      var covered := SatU32(Covered(steps, spacing));
      if covered >= TARGET_PRICE_DISTANCE_TICKS {
        return;
      }
      steps := steps + 1;
    }
  }

  function TargetCompressed(start: int, step: nat, zeroForOne: bool): int
  {
    if zeroForOne then start - StepTarget(step) else start + StepTarget(step) + 1
  }

  function TargetTick(start: int, step: nat, spacing: int, zeroForOne: bool): int
  {
    var tick := SatI32(TargetCompressed(start, step, zeroForOne) * spacing);
    if zeroForOne then (if tick < MIN_TICK then MIN_TICK else tick)
    else if tick > MAX_TICK then MAX_TICK else tick
  }

  /** Each step is one interval wider than the one before, the first one interval wide, so that
      together they cover what the number of steps is chosen by. */
  lemma StepsWiden(step: nat, spacing: nat)
    ensures StepTarget(step) == (if step == 0 then 0 else StepTarget(step - 1)) + step + 1
    ensures StepTarget(step) * spacing == Covered(step + 1, spacing)
  {
    Triangular(step);
    if step > 0 {
      Triangular(step - 1);
    }
  }

  lemma {:induction false} Triangular(step: nat)
    ensures (step + 1) * (step + 2) == 2 * StepTarget(step)
  {
    if step > 0 {
      Triangular(step - 1);
      assert (step + 1) * (step + 2) == step * (step + 1) + 2 * (step + 1);
    }
  }

  /** Ticks from the pool's tick to where a step ends. */
  function Reach(tick: int, step: nat, spacing: int, zeroForOne: bool): int
    requires spacing > 0
  {
    var end := TargetTick(tick / spacing, step, spacing, zeroForOne);
    if zeroForOne then tick - end else end - tick
  }

  /** A step ends at the tick boundary so many intervals away: as far as all steps up to it cover,
      and what is left of the interval that holds the pool's tick; or at the end of the ticks. */
  lemma StepEnds(tick: int, step: nat, spacing: int, zeroForOne: bool)
    requires spacing > 0 && MIN_TICK <= tick <= MAX_TICK
    ensures var end := TargetTick(tick / spacing, step, spacing, zeroForOne);
      || end == (if zeroForOne then MIN_TICK else MAX_TICK)
      || (end % spacing == 0 && Covered(step + 1, spacing) <= Reach(tick, step, spacing, zeroForOne) <= Covered(step + 1, spacing) + spacing)
  {
    var start, t := tick / spacing, StepTarget(step);
    StepsWiden(step, spacing);
    FloorBounds(tick, spacing);
    hide Covered, StepTarget;
    MulMono(0, t, spacing);
    assert (start - t) * spacing == start * spacing - t * spacing;
    assert (start + t + 1) * spacing == start * spacing + t * spacing + spacing;
    DivModUnique((start - t) * spacing, spacing, start - t, 0);
    DivModUnique((start + t + 1) * spacing, spacing, start + t + 1, 0);
  }

  /** The steps written for a spacing reach at least 5700 ticks, unless they are 20 or the ticks end. */
  lemma StepsReach(tick: int, spacing: int, zeroForOne: bool)
    requires spacing > 0 && MIN_TICK <= tick <= MAX_TICK
    ensures var steps := ExactSteps(spacing);
      && MIN_EXACT_TICK_STEPS <= steps <= MAX_EXACT_TICK_STEPS
      && (|| Reach(tick, steps - 1, spacing, zeroForOne) >= TARGET_PRICE_DISTANCE_TICKS
          || steps == MAX_EXACT_TICK_STEPS
          || TargetTick(tick / spacing, steps - 1, spacing, zeroForOne) == if zeroForOne then MIN_TICK else MAX_TICK)
  {
    hide Covered, TargetTick;
    StepEnds(tick, ExactSteps(spacing) - 1, spacing, zeroForOne);
  }

  // ------------------------------------------------------------------- one segment

  /** Amounts in and out of a move between two prices at constant liquidity. */
  function ComputeAmounts(from: Price, to: Price, liquidity: U128, zeroForOne: bool): (U128, U128)
  {
    Amount0IsSingleRounding(Lower(from, to), Upper(from, to), liquidity, zeroForOne);
    Amount1IsSingleRounding(Lower(from, to), Upper(from, to), liquidity, !zeroForOne);
    var token0 := Amount0Delta(Lower(from, to), Upper(from, to), liquidity, zeroForOne).value;
    var token1 := Amount1Delta(Lower(from, to), Upper(from, to), liquidity, !zeroForOne).value;
    if zeroForOne then (token0, token1) else (token1, token0)
  }

  function ApplyLiquidityNet(liquidity: U128, net: int, zeroForOne: bool): U128
  {
    if zeroForOne then
      if net >= 0 then SatU128(liquidity - net) else SatU128(liquidity + -net)
    else
      if net >= 0 then SatU128(liquidity + net) else SatU128(liquidity - -net)
  }

  function FullRangeTicks(spacing: int): Option<(int, int)>
  {
    if spacing <= 0 then None
    else
      var lower0 := MIN_TICK - TruncRem(MIN_TICK, spacing);
      var lower := if lower0 < MIN_TICK then SatI32(lower0 + spacing) else lower0;
      var upper0 := MAX_TICK - TruncRem(MAX_TICK, spacing);
      var upper := if upper0 > MAX_TICK then SatI32(upper0 - spacing) else upper0;
      if lower >= upper then None else Some((lower, upper))
  }

  /** What to add to a tick's net liquidity to leave full-range positions out of it. */
  function FullRangeAdjustment(tick: int, spacing: int, lower: int, upper: int, fullRangeLiquidity: int): int
  {
    if fullRangeLiquidity == 0 || spacing <= 0 then 0
    else if CompressTick(tick, spacing) == CompressTick(lower, spacing) then -fullRangeLiquidity
    else if CompressTick(tick, spacing) == CompressTick(upper, spacing) then fullRangeLiquidity
    else 0
  }

  // ------------------------------------------------------------ the walk's meaning

  /** What one walk reads: the ticks, their spacing, the liquidity of full-range positions
      and the direction. */
  datatype Scene = Scene(chunks: map<int, Chunk>, spacing: int, fullRange: nat, zeroForOne: bool)

  /** Price and liquidity of the cursor, and the amounts of the step so far. */
  datatype Walk = Walk(price: Price, liquidity: U128, amountIn: U128, amountOut: U128)

  function TickPrice(tick: int): Price
  {
    SqrtRatioAtTick(ClampTick(tick))
  }

  /** A tick's net liquidity with full-range positions left out. */
  function NetAt(v: Scene, c: int): int
  {
    var (lower, upper) := match FullRangeTicks(v.spacing) case Some(ticks) => ticks case None => (0, 0);
    SatI128(TickAt(v.chunks, c).net + FullRangeAdjustment(CompressedToTick(c, v.spacing), v.spacing, lower, upper, v.fullRange))
  }

  /** The cursor moves to a price, at its liquidity. */
  function MoveTo(v: Scene, w: Walk, price: Price): Walk
  {
    var (amountIn, amountOut) := ComputeAmounts(w.price, price, w.liquidity, v.zeroForOne);
    Walk(price, w.liquidity, SatU128(w.amountIn + amountIn), SatU128(w.amountOut + amountOut))
  }

  /** The cursor moves to an initialized tick and crosses it. */
  function Cross(v: Scene, w: Walk, c: int): Walk
  {
    var moved := MoveTo(v, w, TickPrice(CompressedToTick(c, v.spacing)));
    moved.(liquidity := ApplyLiquidityNet(w.liquidity, NetAt(v, c), v.zeroForOne))
  }

  predicate Saturated(w: Walk)
  {
    w.amountIn == U128_MAX || w.amountOut == U128_MAX
  }

  /** Crosses ticks in order, and stops early once an amount saturates. */
  function CrossAll(v: Scene, w: Walk, ticks: seq<int>): Walk
    decreases |ticks|
  {
    if ticks == [] then w
    else
      var crossed := Cross(v, w, ticks[0]);
      if Saturated(crossed) then crossed else CrossAll(v, crossed, ticks[1..])
  }

  /** The initialized ticks the cursor meets, in order. */
  function Visited(v: Scene, from: int, limit: int): seq<int>
    decreases if v.zeroForOne then from - limit else limit - from
  {
    if v.zeroForOne then
      if from < limit then []
      else (if Initialized(v.chunks, from) then [from] else []) + Visited(v, from - 1, limit)
    else
      if from > limit then []
      else (if Initialized(v.chunks, from) then [from] else []) + Visited(v, from + 1, limit)
  }

  /** A whole step: the ticks up to the target, then the rest of the way to it. */
  function WalkStep(v: Scene, w: Walk, ticks: seq<int>, target: Price): Walk
  {
    var crossed := CrossAll(v, w, ticks);
    var ended :=
      if crossed.price != target && crossed.liquidity > 0 && !Saturated(crossed) then MoveTo(v, crossed, target) else crossed;
    ended.(price := target)
  }

  /** The cursor tick a step scans from. */
  function ScanFrom(start: int, step: nat, zeroForOne: bool): int
  {
    if step == 0 then (if zeroForOne then start else start + 1) else TargetCompressed(start, step - 1, zeroForOne)
  }

  function TicksOfStep(v: Scene, start: int, step: nat): seq<int>
  {
    Visited(v, ScanFrom(start, step, v.zeroForOne), TargetCompressed(start, step, v.zeroForOne))
  }

  function Zeros(steps: nat): seq<U128>
  {
    if steps == 0 then [] else [0, 0] + Zeros(steps - 1)
  }

  /** The numbers written from `step` on, two a step. */
  function StepsFrom(v: Scene, start: int, step: nat, steps: nat, price: Price, liquidity: U128): seq<U128>
    requires step <= steps
    decreases steps - step
  {
    if step == steps then []
    else
      var targetTick := TargetTick(start, step, v.spacing, v.zeroForOne);
      var target := TickPrice(targetTick);
      if target == price then Zeros(steps - step)
      else
        var w := WalkStep(v, Walk(price, liquidity, 0, 0), TicksOfStep(v, start, step), target);
        [w.amountIn, w.amountOut] +
        if targetTick <= MIN_TICK || targetTick >= MAX_TICK then Zeros(steps - step - 1)
        else StepsFrom(v, start, step + 1, steps, target, w.liquidity)
  }

  function DirectionSteps(v: Scene, price: U256, tick: int, steps: nat, liquidity: U128): seq<U128>
    requires price < MAX_PRICE
  {
    if v.spacing <= 0 || price == 0 then Zeros(steps)
    else StepsFrom(v, tick / v.spacing, 0, steps, price, liquidity)
  }

  // -------------------------------------------------------------------- the loops

  /** The next tick a cursor meets is the one a search from it finds. */
  lemma {:induction false} VisitedIsScan(v: Scene, from: int, limit: int)
    ensures var next := if v.zeroForOne then ScanDown(v.chunks, from, limit) else ScanUp(v.chunks, from, limit);
      Visited(v, from, limit) ==
        if next.None? then [] else [next.value] + Visited(v, if v.zeroForOne then next.value - 1 else next.value + 1, limit)
    decreases if v.zeroForOne then from - limit else limit - from
  {
    hide Initialized;
    if v.zeroForOne {
      if from >= limit && !Initialized(v.chunks, from) {
        VisitedIsScan(v, from - 1, limit);
      }
    } else {
      if from <= limit && !Initialized(v.chunks, from) {
        VisitedIsScan(v, from + 1, limit);
      }
    }
  }

  predicate Legal(c: int, spacing: int)
  {
    MIN_TICK <= c * spacing <= MAX_TICK
  }

  /** A legal tick on this side of the target's compressed tick is on this side of the target. */
  lemma FoundBeforeTarget(start: int, step: nat, spacing: int, zeroForOne: bool, c: int)
    requires spacing > 0 && Legal(c, spacing)
    requires var limit := TargetCompressed(start, step, zeroForOne); if zeroForOne then c >= limit else c <= limit
    ensures var target := TargetTick(start, step, spacing, zeroForOne);
      if zeroForOne then CompressedToTick(c, spacing) >= target else CompressedToTick(c, spacing) <= target
  {
    var limit := TargetCompressed(start, step, zeroForOne);
    CompressRoundTrip(c, spacing);
    if zeroForOne {
      MulMono(limit, c, spacing);
    } else {
      MulMono(c, limit, spacing);
    }
  }

  /** Crossing the tick a search found: amounts up to it, then its net liquidity. */
  method CrossFound(ghost v: Scene, ghost c: int, w: Walk, initTick: int, rawNet: int, spacing: int, fullRange: nat, zeroForOne: bool)
    returns (crossed: Walk)
    requires spacing > 0 && v.spacing == spacing && v.fullRange == fullRange && v.zeroForOne == zeroForOne
    requires initTick == CompressedToTick(c, spacing) && Legal(c, spacing) && rawNet == TickAt(v.chunks, c).net
    ensures crossed == Cross(v, w, c) && CompressTick(initTick, spacing) == c
  {
    CompressRoundTrip(c, spacing);
    var price := SqrtRatioAtTick(initTick);
    hide ComputeAmounts, SqrtRatioAtTick, FullRangeTicks, FullRangeAdjustment, TickAt, CompressedToTick;
    var (amountIn, amountOut) := ComputeAmounts(w.price, price, w.liquidity, zeroForOne);
    var fullRangeTicks := FullRangeTicks(spacing);
    var (lower, upper) := match fullRangeTicks case Some(ticks) => ticks case None => (0, 0);
    var adjustment := FullRangeAdjustment(initTick, spacing, lower, upper, fullRange);
    var net := SatI128(rawNet + adjustment);
    crossed := Walk(price, ApplyLiquidityNet(w.liquidity, net, zeroForOne),
                    SatU128(w.amountIn + amountIn), SatU128(w.amountOut + amountOut));
  }

  /** The first tick a scan from the cursor looks at, and the first after crossing `c`. */
  function From(at: int, zeroForOne: bool): int
  {
    if zeroForOne then at else at + 1
  }

  function Past(c: int, zeroForOne: bool): int
  {
    if zeroForOne then c - 1 else c + 1
  }

  /** What the search reports is the head of what the cursor has still to meet. */
  lemma SearchIsHead(v: Scene, at: int, limit: int)
    requires v.spacing > 0 && InRange(v.chunks, v.spacing)
    ensures var next := Nearest(v.chunks, at, limit, v.zeroForOne);
      var found := Found(v.chunks, v.spacing, next);
      var rest := Visited(v, From(at, v.zeroForOne), limit);
      && found.Some? == next.Some?
      && (next.None? ==> rest == [])
      && (next.Some? ==>
            && found.value == (CompressedToTick(next.value, v.spacing), TickAt(v.chunks, next.value).net)
            && Legal(next.value, v.spacing)
            && (if v.zeroForOne then limit <= next.value <= at else at < next.value <= limit)
            && rest == [next.value] + Visited(v, Past(next.value, v.zeroForOne), limit))
  {
    VisitedIsScan(v, From(at, v.zeroForOne), limit);
    NearestIsInitialized(v.chunks, at, limit, v.zeroForOne);
    var next := Nearest(v.chunks, at, limit, v.zeroForOne);
    hide Visited, ScanDown, ScanUp, TickAt, Initialized;
    if next.Some? {
      LegalRoundTrip(v.chunks, v.spacing, next.value);
    }
  }

  lemma LegalRoundTrip(chunks: map<int, Chunk>, spacing: int, c: int)
    requires spacing > 0 && InRange(chunks, spacing) && Initialized(chunks, c)
    ensures Legal(c, spacing) && CompressedToTick(c, spacing) == c * spacing
  {
    CompressRoundTrip(c, spacing);
  }

  /** The next tick to cross before the step's target, with its net liquidity. */
  method NextToCross(store: TickStorage, cc: ChunkCache, ghost v: Scene, start: int, step: nat, at: int, spacing: int, zeroForOne: bool)
    returns (found: Option<(int, int)>, ghost c: int)
    requires StoreOk(store, cc, spacing) && v.chunks == View(store, cc) && v.spacing == spacing && v.zeroForOne == zeroForOne
    requires -0x100001 <= at < 0x100000
    modifies cc
    ensures View(store, cc) == old(View(store, cc))
    ensures var limit := TargetCompressed(start, step, zeroForOne);
      var rest := Visited(v, From(at, zeroForOne), limit);
      if found.None? then rest == []
      else
        && found.value == (CompressedToTick(c, spacing), TickAt(v.chunks, c).net) && Legal(c, spacing)
        && (if zeroForOne then limit <= c <= at else at < c <= limit)
        && rest == [c] + Visited(v, Past(c, zeroForOne), limit)
  {
    assert spacing > 0 && InRange(v.chunks, spacing);
    hide IndexOk, Visited, Nearest, From, Past, TargetTick, TargetCompressed, Initialized, TickAt, Found, Legal, CompressedToTick, InRange;
    var limit := TargetCompressed(start, step, zeroForOne);
    var targetTick := TargetTick(start, step, spacing, zeroForOne);
    SearchIsHead(v, at, limit);
    found := FindInitializedTick(store, cc, at, limit, spacing, zeroForOne);
    if found.Some? {
      c := Nearest(v.chunks, at, limit, zeroForOne).value;
      FoundBeforeTarget(start, step, spacing, zeroForOne, c);
    } else {
      c := 0;
    }
    var initInRange := found.Some? && if zeroForOne then found.value.0 >= targetTick else found.value.0 <= targetTick;
    if !initInRange {
      return None, c;
    }
  }

  /** How far the cursor is from the target's compressed tick. */
  function Left(at: int, limit: int, zeroForOne: bool): int
  {
    if zeroForOne then at - limit + 1 else limit - at + 1
  }

  /** One round of the inner loop: the search, and the crossing of what it found. There are
      no more rounds when nothing was found or an amount has saturated. */
  method CrossNext(store: TickStorage, cc: ChunkCache, ghost v: Scene, start: int, step: nat, at: int, w: Walk,
                   spacing: int, fullRange: nat, zeroForOne: bool)
    returns (more: bool, w': Walk, at': int)
    requires StoreOk(store, cc, spacing) && v == Scene(View(store, cc), spacing, fullRange, zeroForOne)
    requires -0x100001 <= at < 0x100000
    requires -0x100000 < TargetCompressed(start, step, zeroForOne) < 0x100000
    modifies cc
    ensures View(store, cc) == old(View(store, cc))
    ensures var limit := TargetCompressed(start, step, zeroForOne);
      && CrossAll(v, w, Visited(v, From(at, zeroForOne), limit))
           == (if more then CrossAll(v, w', Visited(v, From(at', zeroForOne), limit)) else w')
      && (more ==> 0 <= Left(at', limit, zeroForOne) < Left(at, limit, zeroForOne) && -0x100001 <= at' < 0x100000)
  {
    assert spacing > 0;
    hide IndexOk, Visited, Cross, TargetCompressed, Saturated, TickAt, CompressTick, CompressedToTick, CrossAll, InRange, Legal;
    ghost var rest := Visited(v, From(at, zeroForOne), TargetCompressed(start, step, zeroForOne));
    CrossAllUnfold(v, w, rest);
    var found, c := NextToCross(store, cc, v, start, step, at, spacing, zeroForOne);
    if found.None? {
      return false, w, at;
    }
    var (initTick, rawNet) := found.value;
    w' := CrossFound(v, c, w, initTick, rawNet, spacing, fullRange, zeroForOne);
    at' := CompressTick(initTick, spacing);
    if zeroForOne {
      at' := at' - 1;
    }
    assert From(at', zeroForOne) == Past(c, zeroForOne);
    SaturatedIs(w');
    more := !(w'.amountIn == U128_MAX || w'.amountOut == U128_MAX);
  }

  /** The inner loop: crosses every initialized tick up to the step's target. */
  method CrossTicks(store: TickStorage, cc: ChunkCache, ghost v: Scene, start: int, step: nat, cursor: int, w0: Walk,
                    spacing: int, fullRange: nat, zeroForOne: bool)
    returns (w: Walk)
    requires StoreOk(store, cc, spacing) && v == Scene(View(store, cc), spacing, fullRange, zeroForOne)
    requires -0x100000 < cursor < 0x100000 && -0x100000 < TargetCompressed(start, step, zeroForOne) < 0x100000
    modifies cc
    ensures View(store, cc) == old(View(store, cc))
    ensures w == CrossAll(v, w0, Visited(v, From(cursor, zeroForOne), TargetCompressed(start, step, zeroForOne)))
  {
    hide IndexOk, Visited, TargetCompressed, CrossAll, From, Left;
    w := w0;
    var at := cursor;
    var more := true;
    ghost var limit := TargetCompressed(start, step, zeroForOne);
    while more
      invariant View(store, cc) == v.chunks && StoreOk(store, cc, spacing)
      invariant more ==> -0x100001 <= at < 0x100000
      invariant CrossAll(v, w0, Visited(v, From(cursor, zeroForOne), limit))
             == if more then CrossAll(v, w, Visited(v, From(at, zeroForOne), limit)) else w
      decreases more, Left(at, limit, zeroForOne)
    {
      more, w, at := CrossNext(store, cc, v, start, step, at, w, spacing, fullRange, zeroForOne);
    }
  }

  lemma SaturatedIs(w: Walk)
    ensures Saturated(w) <==> w.amountIn == U128_MAX || w.amountOut == U128_MAX
  {
  }

  lemma CrossAllUnfold(v: Scene, w: Walk, ticks: seq<int>)
    ensures ticks == [] ==> CrossAll(v, w, ticks) == w
    ensures ticks != [] ==> var crossed := Cross(v, w, ticks[0]);
      CrossAll(v, w, ticks) == if Saturated(crossed) then crossed else CrossAll(v, crossed, ticks[1..])
  {
  }

  method PushEmptySteps(out: seq<U128>, steps: nat) returns (r: seq<U128>)
    ensures r == out + Zeros(steps)
  {
    r := out;
    for i := 0 to steps
      invariant r + Zeros(steps - i) == out + Zeros(steps)
    {
      r := r + [0];
      r := r + [0];
      assert r + Zeros(steps - i - 1) == r[..|r| - 2] + ([0, 0] + Zeros(steps - i - 1));
    }
  }

  lemma TargetBounds(tick: int, step: nat, spacing: int, zeroForOne: bool)
    requires spacing > 0 && MIN_TICK <= tick <= MAX_TICK && step <= MAX_EXACT_TICK_STEPS
    ensures -900_000 < tick / spacing < 900_000 && -1_000_000 < TargetCompressed(tick / spacing, step, zeroForOne) < 1_000_000
    ensures MIN_TICK <= TargetTick(tick / spacing, step, spacing, zeroForOne) <= MAX_TICK
  {
    var start := tick / spacing;
    FloorBounds(tick, spacing);
    FloorGalois(MIN_TICK, tick, spacing);
    FloorGalois(MAX_TICK + 1, tick, spacing);
    MulMono(1, spacing, MAX_TICK + 1);
    assert MIN_TICK * spacing <= MIN_TICK;
    MulMono(step + 1, 21, step + 2);
    MulMono(step + 2, 22, 21);
    var t := TargetCompressed(start, step, zeroForOne);
    if zeroForOne {
      MulMono(t, start, spacing);
    } else {
      MulMono(start + 1, t, spacing);
      Remainder(tick, spacing);
    }
  }

  /** `collect_exact_direction_steps`: two numbers for each step, whatever ticks it meets. */
  method CollectExactDirectionSteps(store: TickStorage, slotPrice: U256, slotTick: int, zeroForOne: bool, steps: nat,
                                    spacing: int, baseLiquidity: U128, fullRange: nat)
    returns (result: seq<U128>)
    requires slotPrice < MAX_PRICE && steps <= MAX_EXACT_TICK_STEPS && fullRange <= I128_MAX
    requires spacing > 0 && slotPrice > 0 ==>
      && MIN_TICK <= slotTick <= MAX_TICK
      && IndexOk(store.chunks, store.chunkBitmap, store.wordBitmap, spacing)
      && forall c: int :: NetAt(Scene(store.chunks, spacing, fullRange, zeroForOne), c) > I128_MIN
    ensures result == DirectionSteps(Scene(store.chunks, spacing, fullRange, zeroForOne), slotPrice, slotTick, steps, baseLiquidity)
  {
    if spacing <= 0 {
      result := PushEmptySteps([], steps);
      return;
    }
    if slotPrice == 0 {
      result := PushEmptySteps([], steps);
      return;
    }
    var start := CompressTick(slotTick, spacing);
    CompressIsFloor(slotTick, spacing);
    var cc := new ChunkCache(store);
    assert View(store, cc) == store.chunks;
    result := WalkSteps(store, cc, Scene(store.chunks, spacing, fullRange, zeroForOne), slotPrice, slotTick, start, steps,
                        spacing, baseLiquidity, fullRange, zeroForOne);
  }

  /** The outer loop: one step after another until the end of the tick range. */
  method WalkSteps(store: TickStorage, cc: ChunkCache, ghost v: Scene, slotPrice: Price, slotTick: int, start: int, steps: nat,
                   spacing: int, baseLiquidity: U128, fullRange: nat, zeroForOne: bool)
    returns (result: seq<U128>)
    requires StoreOk(store, cc, spacing) && v == Scene(View(store, cc), spacing, fullRange, zeroForOne)
    requires MIN_TICK <= slotTick <= MAX_TICK && steps <= MAX_EXACT_TICK_STEPS && spacing > 0 && start == slotTick / spacing
    modifies cc
    ensures result == StepsFrom(v, start, 0, steps, slotPrice, baseLiquidity)
  {
    hide IndexOk, TargetTick, TargetCompressed, SqrtRatioAtTick, NetAt, Zeros, StepsFrom, WalkStep, TicksOfStep;
    var price: Price := slotPrice;
    var liquidity := baseLiquidity;
    var exhausted := false;
    var cursor := start;
    result := [];
    TargetBounds(slotTick, 0, spacing, zeroForOne);
    for step := 0 to steps
      invariant View(store, cc) == v.chunks && StoreOk(store, cc, spacing)
      invariant !exhausted ==> From(cursor, zeroForOne) == ScanFrom(start, step, zeroForOne) && -1_000_001 < cursor < 1_000_000
      invariant StepsFrom(v, start, 0, steps, slotPrice, baseLiquidity)
             == result + if exhausted then Zeros(steps - step) else StepsFrom(v, start, step, steps, price, liquidity)
    {
      ZerosUnfold(steps - step);
      TargetBounds(slotTick, step, spacing, zeroForOne);
      if exhausted {
        Append2(result, 0, 0, Zeros(steps - step - 1));
        result := result + [0];
        result := result + [0];
        continue;
      }
      StepsFromUnfold(v, start, step, steps, price, liquidity);
      var targetTick := TargetTick(start, step, spacing, zeroForOne);
      var target := SqrtRatioAtTick(targetTick);
      assert target == TickPrice(targetTick);
      if target == price {
        Append2(result, 0, 0, Zeros(steps - step - 1));
        result := result + [0];
        result := result + [0];
        exhausted := true;
        continue;
      }
      var w := CollectStep(store, cc, v, start, step, cursor, price, liquidity, target, spacing, fullRange, zeroForOne);
      exhausted := targetTick <= MIN_TICK || targetTick >= MAX_TICK;
      Append2(result, w.amountIn, w.amountOut,
              if exhausted then Zeros(steps - step - 1) else StepsFrom(v, start, step + 1, steps, target, w.liquidity));
      result := result + [w.amountIn];
      result := result + [w.amountOut];
      price := target;
      liquidity := w.liquidity;
      cursor := TargetCompressed(start, step, zeroForOne);
      if !zeroForOne {
        cursor := cursor - 1;
      }
    }
    StepsFromEnd(v, start, steps, price, liquidity);
    ZerosUnfold(0);
  }

  lemma Append2(s: seq<U128>, a: U128, b: U128, rest: seq<U128>)
    ensures s + ([a, b] + rest) == (s + [a]) + [b] + rest
  {
  }

  lemma StepsFromEnd(v: Scene, start: int, steps: nat, price: Price, liquidity: U128)
    ensures StepsFrom(v, start, steps, steps, price, liquidity) == []
  {
  }

  /** One step: the inner loop, then the rest of the way to the target. */
  method CollectStep(store: TickStorage, cc: ChunkCache, ghost v: Scene, start: int, step: nat, cursor: int, price: Price,
                     liquidity: U128, target: Price, spacing: int, fullRange: nat, zeroForOne: bool)
    returns (w: Walk)
    requires StoreOk(store, cc, spacing) && v == Scene(View(store, cc), spacing, fullRange, zeroForOne)
    requires -0x100000 < cursor < 0x100000 && -0x100000 < TargetCompressed(start, step, zeroForOne) < 0x100000
    requires From(cursor, zeroForOne) == ScanFrom(start, step, zeroForOne)
    modifies cc
    ensures View(store, cc) == old(View(store, cc))
    ensures w == WalkStep(v, Walk(price, liquidity, 0, 0), TicksOfStep(v, start, step), target)
  {
    hide IndexOk, Visited, TargetCompressed, ScanFrom, ComputeAmounts;
    w := CrossTicks(store, cc, v, start, step, cursor, Walk(price, liquidity, 0, 0), spacing, fullRange, zeroForOne);
    if w.price != target && w.liquidity > 0 && w.amountIn != U128_MAX && w.amountOut != U128_MAX {
      var (amountIn, amountOut) := ComputeAmounts(w.price, target, w.liquidity, zeroForOne);
      w := w.(amountIn := SatU128(w.amountIn + amountIn), amountOut := SatU128(w.amountOut + amountOut));
    }
    w := w.(price := target);
  }

  lemma StepsFromUnfold(v: Scene, start: int, step: nat, steps: nat, price: Price, liquidity: U128)
    requires step < steps
    ensures var targetTick := TargetTick(start, step, v.spacing, v.zeroForOne);
      var target := TickPrice(targetTick);
      var w := WalkStep(v, Walk(price, liquidity, 0, 0), TicksOfStep(v, start, step), target);
      var rest :=
        if targetTick <= MIN_TICK || targetTick >= MAX_TICK then Zeros(steps - step - 1)
        else StepsFrom(v, start, step + 1, steps, target, w.liquidity);
      StepsFrom(v, start, step, steps, price, liquidity)
        == if target == price then Zeros(steps - step) else [w.amountIn, w.amountOut] + rest
  {
  }

  lemma ZerosUnfold(n: nat)
    ensures Zeros(n) == if n == 0 then [] else [0, 0] + Zeros(n - 1)
  {
  }
}
