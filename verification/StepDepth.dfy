/** What the depth walk's numbers mean (liquidity_pool_concentrated/src/plane.rs). */
module StepDepth {
  import opened Words
  import opened PriceMath
  import opened TickMath
  import opened Bitmap
  import opened TickIndex
  import opened StepWalk

  // ------------------------------------------------------------- two numbers a step

  lemma {:induction false} ZerosLength(n: nat)
    ensures |Zeros(n)| == 2 * n
  {
    if n > 0 {
      ZerosLength(n - 1);
    }
  }

  lemma {:induction false} StepsFromLength(v: Scene, start: int, step: nat, steps: nat, price: Price, liquidity: U128)
    requires step <= steps
    ensures |StepsFrom(v, start, step, steps, price, liquidity)| == 2 * (steps - step)
    decreases steps - step
  {
    hide TargetTick, TickPrice, WalkStep, TicksOfStep;
    if step < steps {
      ZerosLength(steps - step);
      ZerosLength(steps - step - 1);
      var target := TickPrice(TargetTick(start, step, v.spacing, v.zeroForOne));
      var w := WalkStep(v, Walk(price, liquidity, 0, 0), TicksOfStep(v, start, step), target);
      StepsFromLength(v, start, step + 1, steps, target, w.liquidity);
    }
  }

  /** Exactly two numbers are written for every step asked for. */
  lemma TwoNumbersPerStep(v: Scene, price: U256, tick: int, steps: nat, liquidity: U128)
    requires price < MAX_PRICE
    ensures |DirectionSteps(v, price, tick, steps, liquidity)| == 2 * steps
  {
    ZerosLength(steps);
    if v.spacing > 0 && price > 0 {
      StepsFromLength(v, tick / v.spacing, 0, steps, price, liquidity);
    }
  }

  // ----------------------------------------------------------------- a step's sums

  /** Amounts in and out of a move at constant liquidity, without any cap. */
  function ExactMove(v: Scene, from: Price, to: Price, liquidity: U128): (nat, nat)
  {
    var (low, high) := (Lower(from, to), Upper(from, to));
    if v.zeroForOne then (Exact0(liquidity * Q96, low, high, true), Exact1(liquidity, low, high, false))
    else (Exact1(liquidity, low, high, true), Exact0(liquidity * Q96, low, high, false))
  }

  /** Liquidity once a tick is crossed, without any cap. */
  function Crossed(v: Scene, liquidity: int, c: int): int
  {
    if v.zeroForOne then liquidity - NetAt(v, c) else liquidity + NetAt(v, c)
  }

  /** Liquidity once ticks are crossed in order. */
  function LiquidityAfter(v: Scene, liquidity: int, ticks: seq<int>): int
    decreases |ticks|
  {
    if ticks == [] then liquidity else LiquidityAfter(v, Crossed(v, liquidity, ticks[0]), ticks[1..])
  }

  /** Liquidity stays a 128-bit number all along. */
  predicate LiquidityFits(v: Scene, liquidity: int, ticks: seq<int>)
    decreases |ticks|
  {
    0 <= liquidity <= U128_MAX && (ticks == [] || LiquidityFits(v, Crossed(v, liquidity, ticks[0]), ticks[1..]))
  }

  /** The sum over the segments that the ticks cut the way to the target into, each at the
      liquidity left by the ticks before it. */
  function SegmentSums(v: Scene, price: Price, liquidity: int, ticks: seq<int>, target: Price): (nat, nat)
    requires LiquidityFits(v, liquidity, ticks)
    decreases |ticks|
  {
    if ticks == [] then ExactMove(v, price, target, liquidity)
    else
      var next := TickPrice(CompressedToTick(ticks[0], v.spacing));
      var here := ExactMove(v, price, next, liquidity);
      var rest := SegmentSums(v, next, Crossed(v, liquidity, ticks[0]), ticks[1..], target);
      (here.0 + rest.0, here.1 + rest.1)
  }

  lemma ComputedIsExact(v: Scene, from: Price, to: Price, liquidity: U128)
    ensures var (amountIn, amountOut) := ComputeAmounts(from, to, liquidity, v.zeroForOne);
      amountIn == SatU128(ExactMove(v, from, to, liquidity).0) && amountOut == SatU128(ExactMove(v, from, to, liquidity).1)
  {
    Amount0IsSingleRounding(Lower(from, to), Upper(from, to), liquidity, v.zeroForOne);
    Amount1IsSingleRounding(Lower(from, to), Upper(from, to), liquidity, !v.zeroForOne);
  }

  lemma NoMoveIsFree(v: Scene, price: Price, target: Price, liquidity: U128)
    requires price == target || liquidity == 0
    ensures ExactMove(v, price, target, liquidity) == (0, 0)
  {
    var (low, high) := (Lower(price, target), Upper(price, target));
    ZeroMove0(liquidity * Q96, low, high, true);
    ZeroMove0(liquidity * Q96, low, high, false);
    ZeroMove1(liquidity, low, high, true);
    ZeroMove1(liquidity, low, high, false);
    hide Exact0, Exact1;
  }

  lemma ZeroMove0(n1: nat, sa: nat, sb: nat, up: bool)
    requires 0 < sa <= sb && (n1 == 0 || sa == sb)
    ensures Exact0(n1, sa, sb, up) == 0
  {
    assert sa * sb > 0 && n1 * (sb - sa) == 0;
    DivModUnique(0, sa * sb, 0, 0);
  }

  lemma ZeroMove1(liquidity: nat, sa: nat, sb: nat, up: bool)
    requires sa <= sb && (liquidity == 0 || sa == sb)
    ensures Exact1(liquidity, sa, sb, up) == 0
  {
    assert liquidity * (sb - sa) == 0;
  }

  /** Adding capped to a capped amount is capping the sum. */
  lemma CapOfSum(a: nat, b: nat)
    ensures SatU128(SatU128(a) + SatU128(b)) == SatU128(a + b)
  {
  }

  lemma {:induction false} CrossAllSums(v: Scene, w: Walk, ticks: seq<int>, target: Price, a: nat, b: nat)
    requires LiquidityFits(v, w.liquidity, ticks) && !Saturated(w) && w.amountIn == a && w.amountOut == b
    ensures var (si, so) := SegmentSums(v, w.price, w.liquidity, ticks, target);
      var end := WalkStep(v, w, ticks, target);
      && (a + si < U128_MAX && b + so < U128_MAX ==>
            && end.price == target && end.liquidity == LiquidityAfter(v, w.liquidity, ticks)
            && end.amountIn == a + si && end.amountOut == b + so)
      && (a + si >= U128_MAX || b + so >= U128_MAX ==> Saturated(end))
    decreases |ticks|
  {
    hide NetAt, ComputeAmounts, ExactMove, TickPrice, CompressedToTick;
    if ticks == [] {
      ComputedIsExact(v, w.price, target, w.liquidity);
      if w.price == target || w.liquidity == 0 {
        NoMoveIsFree(v, w.price, target, w.liquidity);
      }
    } else {
      var next := TickPrice(CompressedToTick(ticks[0], v.spacing));
      ComputedIsExact(v, w.price, next, w.liquidity);
      var here := ExactMove(v, w.price, next, w.liquidity);
      CapOfSum(a, here.0);
      CapOfSum(b, here.1);
      FitsNext(v, w.liquidity, ticks);
      var crossed := Cross(v, w, ticks[0]);
      assert crossed.liquidity == Crossed(v, w.liquidity, ticks[0]);
      if !Saturated(crossed) {
        CrossAllSums(v, crossed, ticks[1..], target, a + here.0, b + here.1);
      }
    }
  }

  lemma FitsNext(v: Scene, liquidity: int, ticks: seq<int>)
    requires ticks != [] && LiquidityFits(v, liquidity, ticks)
    ensures 0 <= Crossed(v, liquidity, ticks[0]) <= U128_MAX
    ensures LiquidityFits(v, Crossed(v, liquidity, ticks[0]), ticks[1..])
  {
  }

  /** A step's pair is the sum over its segments, unless a sum leaves 128 bits; then one of
      the two numbers is the saturation mark. */
  lemma StepIsSumOfSegments(v: Scene, price: Price, liquidity: U128, ticks: seq<int>, target: Price)
    requires LiquidityFits(v, liquidity, ticks)
    ensures var (si, so) := SegmentSums(v, price, liquidity, ticks, target);
      var end := WalkStep(v, Walk(price, liquidity, 0, 0), ticks, target);
      if si < U128_MAX && so < U128_MAX then
        end.price == target && end.liquidity == LiquidityAfter(v, liquidity, ticks) && end.amountIn == si && end.amountOut == so
      else Saturated(end)
  {
    assert !Saturated(Walk(price, liquidity, 0, 0));
    hide Saturated, WalkStep, SegmentSums, LiquidityFits, LiquidityAfter;
    CrossAllSums(v, Walk(price, liquidity, 0, 0), ticks, target, 0, 0);
  }

  // ----------------------------------------------------------------- the whole path

  lemma {:induction false} FitsSplit(v: Scene, liquidity: int, a: seq<int>, b: seq<int>)
    requires LiquidityFits(v, liquidity, a + b)
    ensures LiquidityFits(v, liquidity, a) && LiquidityFits(v, LiquidityAfter(v, liquidity, a), b)
    ensures LiquidityAfter(v, liquidity, a + b) == LiquidityAfter(v, LiquidityAfter(v, liquidity, a), b)
    decreases |a|
  {
    hide Crossed;
    if a == [] {
      assert a + b == b;
    } else {
      assert (a + b)[0] == a[0] && (a + b)[1..] == a[1..] + b;
      FitsSplit(v, Crossed(v, liquidity, a[0]), a[1..], b);
    }
  }

  /** Every tick the first `k` steps cross, in order, step after step. */
  function TicksCrossed(v: Scene, start: int, k: nat): seq<int>
  {
    if k == 0 then [] else TicksCrossed(v, start, k - 1) + TicksOfStep(v, start, k - 1)
  }

  /** Every initialized tick from the start to the far end of step `k - 1`, each once. */
  function TicksOnPath(v: Scene, start: int, k: nat): seq<int>
  {
    if k == 0 then [] else Visited(v, ScanFrom(start, 0, v.zeroForOne), TargetCompressed(start, k - 1, v.zeroForOne))
  }

  function StartPrice(v: Scene, start: int, price: Price, k: nat): Price
  {
    if k == 0 then price else TickPrice(TargetTick(start, k - 1, v.spacing, v.zeroForOne))
  }

  function EndPrice(v: Scene, start: int, k: nat): Price
  {
    TickPrice(TargetTick(start, k, v.spacing, v.zeroForOne))
  }

  /** The walk is not exhausted before or at step `k`. */
  ghost predicate Reached(v: Scene, start: int, price: Price, k: nat)
  {
    && (forall j: nat | j <= k :: EndPrice(v, start, j) != StartPrice(v, start, price, j))
    && (forall j: nat | j < k :: MIN_TICK < TargetTick(start, j, v.spacing, v.zeroForOne) < MAX_TICK)
  }

  /** The exact sums of step `k`, at the liquidity the steps before it left. */
  function StepSums(v: Scene, start: int, price: Price, base: U128, k: nat): (nat, nat)
    requires LiquidityFits(v, base, TicksCrossed(v, start, k + 1))
  {
    FitsSplit(v, base, TicksCrossed(v, start, k), TicksOfStep(v, start, k));
    SegmentSums(v, StartPrice(v, start, price, k), LiquidityAfter(v, base, TicksCrossed(v, start, k)),
                TicksOfStep(v, start, k), EndPrice(v, start, k))
  }

  lemma FitsEarlier(v: Scene, start: int, base: U128, j: nat, k: nat)
    requires j <= k && LiquidityFits(v, base, TicksCrossed(v, start, k))
    ensures LiquidityFits(v, base, TicksCrossed(v, start, j))
    decreases k
  {
    hide LiquidityFits, LiquidityAfter;
    if j < k {
      FitsSplit(v, base, TicksCrossed(v, start, k - 1), TicksOfStep(v, start, k - 1));
      FitsEarlier(v, start, base, j, k - 1);
    }
  }

  /** No step before `k` saturates. */
  ghost predicate NoneSaturatesBefore(v: Scene, start: int, price: Price, base: U128, k: nat)
    requires LiquidityFits(v, base, TicksCrossed(v, start, k))
  {
    forall j: nat | j < k ::
      FitsEarlier(v, start, base, j + 1, k);
      StepSums(v, start, price, base, j).0 < U128_MAX && StepSums(v, start, price, base, j).1 < U128_MAX
  }

  /** An unsaturated step writes its sums and hands on its price and liquidity. */
  lemma OneStepOn(v: Scene, start: int, k: nat, steps: nat, price: Price, liquidity: U128)
    requires k < steps && EndPrice(v, start, k) != price && LiquidityFits(v, liquidity, TicksOfStep(v, start, k))
    requires MIN_TICK < TargetTick(start, k, v.spacing, v.zeroForOne) < MAX_TICK
    requires var (si, so) := SegmentSums(v, price, liquidity, TicksOfStep(v, start, k), EndPrice(v, start, k));
      si < U128_MAX && so < U128_MAX
    ensures 0 <= LiquidityAfter(v, liquidity, TicksOfStep(v, start, k)) <= U128_MAX
    ensures var (si, so) := SegmentSums(v, price, liquidity, TicksOfStep(v, start, k), EndPrice(v, start, k));
      StepsFrom(v, start, k, steps, price, liquidity)
        == [si, so] + StepsFrom(v, start, k + 1, steps, EndPrice(v, start, k), LiquidityAfter(v, liquidity, TicksOfStep(v, start, k)))
  {
    StepIsSumOfSegments(v, price, liquidity, TicksOfStep(v, start, k), EndPrice(v, start, k));
    StepsFromUnfold(v, start, k, steps, price, liquidity);
    hide WalkStep, SegmentSums, TicksOfStep, TargetTick, LiquidityFits, LiquidityAfter, StepsFrom, TickPrice;
    var w := WalkStep(v, Walk(price, liquidity, 0, 0), TicksOfStep(v, start, k), EndPrice(v, start, k));
    assert w.liquidity == LiquidityAfter(v, liquidity, TicksOfStep(v, start, k));
  }

  /** A step is reached through the ones before it. */
  lemma EarlierReached(v: Scene, start: int, price: Price, base: U128, k: nat)
    requires Reached(v, start, price, k + 1) && LiquidityFits(v, base, TicksCrossed(v, start, k + 1))
    requires NoneSaturatesBefore(v, start, price, base, k + 1)
    ensures Reached(v, start, price, k) && LiquidityFits(v, base, TicksCrossed(v, start, k))
    ensures NoneSaturatesBefore(v, start, price, base, k)
    ensures EndPrice(v, start, k) != StartPrice(v, start, price, k)
    ensures MIN_TICK < TargetTick(start, k, v.spacing, v.zeroForOne) < MAX_TICK
    ensures StepSums(v, start, price, base, k).0 < U128_MAX && StepSums(v, start, price, base, k).1 < U128_MAX
  {
    hide StepSums, EndPrice, StartPrice, TargetTick, LiquidityFits, TicksCrossed;
    FitsEarlier(v, start, base, k, k + 1);
  }

  /** Before step `k` the numbers written are those of the earlier steps, and the walk goes
      on from the step's start price at the liquidity the crossed ticks leave. */
  lemma {:induction false} WalkReaches(v: Scene, start: int, steps: nat, price: Price, base: U128, k: nat)
    requires k < steps && Reached(v, start, price, k) && LiquidityFits(v, base, TicksCrossed(v, start, k))
    requires NoneSaturatesBefore(v, start, price, base, k)
    ensures 0 <= LiquidityAfter(v, base, TicksCrossed(v, start, k)) <= U128_MAX
    ensures var all := StepsFrom(v, start, 0, steps, price, base);
      |all| == 2 * steps
      && all[2 * k..] == StepsFrom(v, start, k, steps, StartPrice(v, start, price, k), LiquidityAfter(v, base, TicksCrossed(v, start, k)))
  {
    hide Reached, NoneSaturatesBefore, SegmentSums, StepsFrom, LiquidityAfter, LiquidityFits, TargetTick, TicksOfStep, StartPrice, EndPrice, TicksCrossed;
    if k == 0 {
      WalkStarts(v, start, steps, price, base);
    } else {
      var j := k - 1;
      assert j + 1 == k;
      EarlierReached(v, start, price, base, j);
      WalkReaches(v, start, steps, price, base, j);
      WalkGoesOn(v, start, steps, price, base, j);
      var all := StepsFrom(v, start, 0, steps, price, base);
      assert all[2 * k..] == all[2 * j..][2..];
    }
  }

  lemma WalkStarts(v: Scene, start: int, steps: nat, price: Price, base: U128)
    ensures LiquidityAfter(v, base, TicksCrossed(v, start, 0)) == base && StartPrice(v, start, price, 0) == price
    ensures |StepsFrom(v, start, 0, steps, price, base)| == 2 * steps
    ensures StepsFrom(v, start, 0, steps, price, base)[0..] == StepsFrom(v, start, 0, steps, price, base)
  {
    StepsFromLength(v, start, 0, steps, price, base);
  }

  lemma WalkGoesOn(v: Scene, start: int, steps: nat, price: Price, base: U128, k: nat)
    requires k + 1 < steps && LiquidityFits(v, base, TicksCrossed(v, start, k + 1))
    requires 0 <= LiquidityAfter(v, base, TicksCrossed(v, start, k)) <= U128_MAX
    requires EndPrice(v, start, k) != StartPrice(v, start, price, k)
    requires MIN_TICK < TargetTick(start, k, v.spacing, v.zeroForOne) < MAX_TICK
    requires StepSums(v, start, price, base, k).0 < U128_MAX && StepSums(v, start, price, base, k).1 < U128_MAX
    ensures 0 <= LiquidityAfter(v, base, TicksCrossed(v, start, k + 1)) <= U128_MAX
    ensures var here := StepsFrom(v, start, k, steps, StartPrice(v, start, price, k), LiquidityAfter(v, base, TicksCrossed(v, start, k)));
      |here| >= 2 && here[2..] == StepsFrom(v, start, k + 1, steps, StartPrice(v, start, price, k + 1),
                                            LiquidityAfter(v, base, TicksCrossed(v, start, k + 1)))
  {
    hide SegmentSums, StepsFrom, LiquidityAfter, LiquidityFits, TargetTick, TicksOfStep, TickPrice;
    FitsSplit(v, base, TicksCrossed(v, start, k), TicksOfStep(v, start, k));
    var liquidity := LiquidityAfter(v, base, TicksCrossed(v, start, k));
    OneStepOn(v, start, k, steps, StartPrice(v, start, price, k), liquidity);
  }

  /** The numbers of step `k` are its exact sums, at the liquidity obtained by folding the
      adjusted nets of the crossed ticks in order; or, if a sum leaves 128 bits, one of them
      is the saturation mark. */
  lemma PairIsPathSum(v: Scene, start: int, steps: nat, price: Price, base: U128, k: nat)
    requires k < steps && Reached(v, start, price, k) && LiquidityFits(v, base, TicksCrossed(v, start, k + 1))
    requires LiquidityFits(v, base, TicksCrossed(v, start, k)) && NoneSaturatesBefore(v, start, price, base, k)
    ensures var all := StepsFrom(v, start, 0, steps, price, base);
      var (si, so) := StepSums(v, start, price, base, k);
      && |all| == 2 * steps
      && if si < U128_MAX && so < U128_MAX then all[2 * k] == si && all[2 * k + 1] == so
         else all[2 * k] == U128_MAX || all[2 * k + 1] == U128_MAX
  {
    WalkReaches(v, start, steps, price, base, k);
    var at, liquidity := StartPrice(v, start, price, k), LiquidityAfter(v, base, TicksCrossed(v, start, k));
    FitsSplit(v, base, TicksCrossed(v, start, k), TicksOfStep(v, start, k));
    StepIsSumOfSegments(v, at, liquidity, TicksOfStep(v, start, k), EndPrice(v, start, k));
    StepsFromUnfold(v, start, k, steps, at, liquidity);
    assert EndPrice(v, start, k) != at;
    hide WalkStep, SegmentSums, TicksOfStep, TargetTick, LiquidityFits, LiquidityAfter, StepsFrom, TickPrice, Reached, NoneSaturatesBefore, StartPrice;
    var all := StepsFrom(v, start, 0, steps, price, base);
    assert all[2 * k] == all[2 * k..][0] && all[2 * k + 1] == all[2 * k..][1];
  }

  // ------------------------------------------------------------ ticks on a boundary

  function NetSum(v: Scene, ticks: seq<int>): int
  {
    if ticks == [] then 0 else NetAt(v, ticks[0]) + NetSum(v, ticks[1..])
  }

  lemma {:induction false} NetSumSplit(v: Scene, a: seq<int>, b: seq<int>)
    ensures NetSum(v, a + b) == NetSum(v, a) + NetSum(v, b)
    decreases |a|
  {
    hide NetAt;
    if a == [] {
      assert a + b == b;
    } else {
      assert (a + b)[1..] == a[1..] + b;
      NetSumSplit(v, a[1..], b);
    }
  }

  lemma NoTicksSumToZero(v: Scene)
    ensures NetSum(v, []) == 0
  {
  }

  /** Folding nets one after another is adding, or taking away, their sum. */
  lemma {:induction false} LiquidityIsNetSum(v: Scene, liquidity: int, ticks: seq<int>)
    ensures LiquidityAfter(v, liquidity, ticks) == if v.zeroForOne then liquidity - NetSum(v, ticks) else liquidity + NetSum(v, ticks)
    decreases |ticks|
  {
    hide NetAt;
    if ticks != [] {
      LiquidityIsNetSum(v, Crossed(v, liquidity, ticks[0]), ticks[1..]);
    }
  }

  /** Ticks up to a place and ticks past it are all the ticks. */
  lemma {:induction false} VisitedSplit(v: Scene, from: int, mid: int, limit: int)
    requires if v.zeroForOne then limit <= mid <= from + 1 else from - 1 <= mid <= limit
    ensures Visited(v, from, limit) == Visited(v, from, mid) + Visited(v, Past(mid, v.zeroForOne), limit)
    decreases if v.zeroForOne then from - mid + 1 else mid - from + 1
  {
    hide Initialized;
    if v.zeroForOne {
      if from >= mid {
        VisitedSplit(v, from - 1, mid, limit);
      }
    } else {
      if from <= mid {
        VisitedSplit(v, from + 1, mid, limit);
      }
    }
  }

  function AtBoundary(v: Scene, start: int, j: nat): seq<int>
  {
    var c := TargetCompressed(start, j, v.zeroForOne);
    if Initialized(v.chunks, c) then [c] else []
  }

  /** The initialized ticks that lie exactly where one of the first `k` steps hands over to
      the next. */
  function HandoverTicks(v: Scene, start: int, k: nat): seq<int>
  {
    if k <= 1 then [] else HandoverTicks(v, start, k - 1) + AtBoundary(v, start, k - 2)
  }

  lemma StepsAdvance(start: int, k: nat, zeroForOne: bool)
    ensures if zeroForOne then TargetCompressed(start, k + 1, true) < TargetCompressed(start, k, true) < start
            else TargetCompressed(start, k + 1, false) > TargetCompressed(start, k, false) > start
  {
    assert (k + 2) * (k + 3) == (k + 1) * (k + 2) + 2 * (k + 2);
    assert (k + 1) * (k + 2) >= 2;
  }

  /** One more step meets its boundary tick again and then the new part of the path. */
  lemma NextStepTicks(v: Scene, start: int, k: nat)
    requires k > 0
    ensures var past := Visited(v, Past(TargetCompressed(start, k - 1, v.zeroForOne), v.zeroForOne), TargetCompressed(start, k, v.zeroForOne));
      && TicksOfStep(v, start, k) == AtBoundary(v, start, k - 1) + past
      && TicksOnPath(v, start, k + 1) == TicksOnPath(v, start, k) + past
  {
    var from, mid, limit := ScanFrom(start, 0, v.zeroForOne), TargetCompressed(start, k - 1, v.zeroForOne), TargetCompressed(start, k, v.zeroForOne);
    StepsAdvance(start, k - 1, v.zeroForOne);
    hide TargetCompressed, Initialized;
    VisitedSplit(v, from, mid, limit);
    VisitedFirst(v, mid, limit);
  }

  lemma VisitedFirst(v: Scene, at: int, limit: int)
    requires if v.zeroForOne then limit <= at else at <= limit
    ensures Visited(v, at, limit) == (if Initialized(v.chunks, at) then [at] else []) + Visited(v, Past(at, v.zeroForOne), limit)
  {
    hide Initialized;
  }

  /** Over the first `k` steps every initialized tick of the path is crossed once, and those
      on a handover a second time. */
  lemma {:induction false} CrossedIsPathPlusHandovers(v: Scene, start: int, k: nat)
    ensures |TicksCrossed(v, start, k)| == |TicksOnPath(v, start, k)| + |HandoverTicks(v, start, k)|
    ensures NetSum(v, TicksCrossed(v, start, k)) == NetSum(v, TicksOnPath(v, start, k)) + NetSum(v, HandoverTicks(v, start, k))
    ensures HandoverTicks(v, start, k) == [] ==> TicksCrossed(v, start, k) == TicksOnPath(v, start, k)
  {
    hide NetSum, Initialized, TargetCompressed, Visited;
    if k == 0 {
      NoTicksSumToZero(v);
    } else if k == 1 {
      NoTicksSumToZero(v);
      assert TicksOnPath(v, start, 1) + [] == TicksOnPath(v, start, 1);
      assert TicksCrossed(v, start, 0) == [];
      assert TicksCrossed(v, start, 1) == TicksOfStep(v, start, 0);
    } else {
      CrossedIsPathPlusHandovers(v, start, k - 1);
      NextStepTicks(v, start, k - 1);
      var past := Visited(v, Past(TargetCompressed(start, k - 2, v.zeroForOne), v.zeroForOne), TargetCompressed(start, k - 1, v.zeroForOne));
      NetSumSplit(v, TicksCrossed(v, start, k - 1), TicksOfStep(v, start, k - 1));
      NetSumSplit(v, AtBoundary(v, start, k - 2), past);
      NetSumSplit(v, TicksOnPath(v, start, k - 1), past);
      NetSumSplit(v, HandoverTicks(v, start, k - 1), AtBoundary(v, start, k - 2));
    }
  }

  lemma {:induction false} NoHandovers(v: Scene, start: int, k: nat)
    ensures HandoverTicks(v, start, k) == [] <==> forall j: nat | j + 1 < k :: !Initialized(v.chunks, TargetCompressed(start, j, v.zeroForOne))
  {
    hide Initialized, TargetCompressed;
    if k > 1 {
      NoHandovers(v, start, k - 1);
    }
  }

  /** The walk crosses each initialized tick of its path exactly once if and only if none lies
      on a step boundary; its liquidity is the path's, off by the nets at the boundaries. */
  lemma CrossesEachTickOnce(v: Scene, start: int, base: int, k: nat)
    ensures TicksCrossed(v, start, k) == TicksOnPath(v, start, k)
      <==> forall j: nat | j + 1 < k :: !Initialized(v.chunks, TargetCompressed(start, j, v.zeroForOne))
    ensures var off := NetSum(v, HandoverTicks(v, start, k));
      LiquidityAfter(v, base, TicksCrossed(v, start, k))
        == LiquidityAfter(v, base, TicksOnPath(v, start, k)) + if v.zeroForOne then -off else off
  {
    hide Initialized, TargetCompressed, TicksCrossed, TicksOnPath, HandoverTicks, NetSum, LiquidityAfter;
    CrossedIsPathPlusHandovers(v, start, k);
    NoHandovers(v, start, k);
    LiquidityIsNetSum(v, base, TicksCrossed(v, start, k));
    LiquidityIsNetSum(v, base, TicksOnPath(v, start, k));
  }
}
