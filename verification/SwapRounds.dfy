/** The swap loop of the concentrated pool as rounds over the ledger: what one round does, the
    recursion that `swap_loop` is, and what holds whenever it ends
    (liquidity_pool_concentrated/src/contract/internal.rs). */
module SwapRounds {
  import opened Words
  import opened PriceMath
  import opened TickMath
  import opened TickLadder
  import opened TickAccuracy
  import opened ChunkStore
  import opened TickIndex
  import opened TickMaintenance
  import Search = SwapSearch
  import Steps = SwapStep
  import opened LiquidityLedger
  import opened LedgerInvariants
  import opened PositionWorth

  /** Ticks that the search may not pass over. */
  ghost predicate SkipsNothing(s: Ledger, next: int, initialized: bool, down: bool)
  {
    && (if down then MIN_TICK <= next <= s.tick else s.tick < next <= MAX_TICK)
    && (initialized ==> IsInitialized(s, next))
    && forall u: int | IsInitialized(s, u) ::
         if down then u <= s.tick ==> u <= next && (u == next ==> initialized)
         else u > s.tick ==> u >= next && (u == next ==> initialized)
  }

  /** Where a downward step leads. */
  lemma DownStep(s: Ledger, price: U256, limit: U256, next: int, initialized: bool, stepPrice: U256)
    requires SkipsNothing(s, next, initialized, true) && OnLadder(s.tick, price)
    requires MIN_SQRT_RATIO < limit < price
    requires (if P(next) < limit then limit else P(next)) <= stepPrice <= price
    ensures P(next) <= price
    ensures stepPrice == P(next) ==>
      && next > MIN_TICK && OnLadder(next - 1, stepPrice)
      && (if initialized then NextTick(s, next, true) else SameSide(s, next - 1))
    ensures stepPrice != P(next) && stepPrice != price ==>
      var t := TickOfPrice(stepPrice); t.Some? && OnLadder(t.value, stepPrice) && SameSide(s, t.value)
  {
    hide P, TickOfPrice;
    Ends();
    Rises(next, s.tick);
    if stepPrice == P(next) {
      assert next > MIN_TICK;
      Rises(next - 1, next);
    } else if stepPrice != price {
      TickBetween(stepPrice, next, s.tick);
    }
  }

  /** Where an upward step leads. */
  lemma UpStep(s: Ledger, price: U256, limit: U256, next: int, initialized: bool, stepPrice: U256)
    requires SkipsNothing(s, next, initialized, false) && OnLadder(s.tick, price)
    requires price < limit < MAX_SQRT_RATIO
    requires price <= stepPrice <= if P(next) > limit then limit else P(next)
    ensures price <= P(next)
    ensures stepPrice == P(next) ==>
      && next < MAX_TICK && OnLadder(next, stepPrice)
      && (if initialized then NextTick(s, next, false) else SameSide(s, next))
    ensures stepPrice != P(next) && stepPrice != price ==>
      var t := TickOfPrice(stepPrice); t.Some? && OnLadder(t.value, stepPrice) && SameSide(s, t.value)
  {
    hide P, TickOfPrice;
    Ends();
    Rises(s.tick + 1, next);
    if stepPrice == P(next) {
      assert next < MAX_TICK;
      Rises(next, next + 1);
    } else if stepPrice != price {
      TickBetween(stepPrice, s.tick, next - 1);
    }
  }

  lemma {:induction false} NoPositionAt(ps: seq<Position>, t: int)
    requires forall i | 0 <= i < |ps| :: ps[i].lower != t && ps[i].upper != t
    ensures Sum(ps, GrossPart(t)) == 0
  {
    if ps != [] {
      NoPositionAt(ps[..|ps| - 1], t);
    }
  }

  /** Initialized ticks are legal ones. */
  lemma InitializedIsLegal(s: Ledger, t: int)
    requires LedgerOk(s) && IsInitialized(s, t)
    ensures LegalTick(t, s.spacing)
  {
    assert TickOf(s, t).gross == Sum(s.positions, GrossPart(t));
    if !LegalTick(t, s.spacing) {
      NoPositionAt(s.positions, t);
    }
  }

  /** The search of the stored ticks passes over no tick of the ledger. */
  lemma AnswerSkipsNothing(chunks: map<int, Chunk>, s: Ledger, next: int, initialized: bool, down: bool)
    requires LedgerOk(s) && Records(chunks, s) && InRange(chunks, s.spacing) && MIN_TICK <= s.tick < MAX_TICK
    requires Search.Answer(chunks, s.tick, s.spacing, down, next, initialized)
    ensures SkipsNothing(s, next, initialized, down)
  {
    if down {
      Search.SkipsNothingDown(chunks, s.tick, s.spacing, next, initialized);
    } else {
      Search.SkipsNothingUp(chunks, s.tick, s.spacing, next, initialized);
    }
    if initialized {
      var c: int :| Initialized(chunks, c) && c * s.spacing == next;
    }
    hide Search.Answer;
    forall u: int | IsInitialized(s, u)
      ensures Initialized(chunks, u / s.spacing) && u / s.spacing * s.spacing == u
    {
      StoredTick(chunks, s, u);
    }
  }

  lemma StoredTick(chunks: map<int, Chunk>, s: Ledger, u: int)
    requires LedgerOk(s) && Records(chunks, s) && IsInitialized(s, u)
    ensures u / s.spacing * s.spacing == u && Initialized(chunks, u / s.spacing)
  {
    InitializedIsLegal(s, u);
    Remainder(u, s.spacing);
  }

  /** What the loop carries from one iteration to the next. */
  datatype SwapState = SwapState(price: U256, tick: int, liquidity: U128, remaining: U128, calculated: U128)

  /** The loop's variables describe the ledger, and the price has not passed its limit. */
  ghost predicate SwapOk(w: SwapState, s: Ledger, limit: U256, zeroForOne: bool)
  {
    && LedgerOk(s) && w.tick == s.tick && w.liquidity == s.active && OnLadder(w.tick, w.price)
    && if zeroForOne then limit <= w.price else w.price <= limit
  }

  /** A price limit inside the ladder, ahead of the price. */
  predicate LimitAhead(price: U256, limit: U256, zeroForOne: bool)
  {
    if zeroForOne then MIN_SQRT_RATIO < limit <= price else price <= limit < MAX_SQRT_RATIO
  }

  /** `validate_price_limit`: a limit of zero stands for the end of the ladder. Exactly the
      limits strictly between the price and the ladder's end are accepted. */
  function ValidatedLimit(price: U256, limit: U256, zeroForOne: bool): (r: Option<U256>)
    ensures r.Some? ==> LimitAhead(price, r.value, zeroForOne) && r.value != price
    ensures limit != 0 ==> (r.Some? <==> LimitAhead(price, limit, zeroForOne) && limit != price)
    ensures limit == 0 ==> (r.Some? <==> if zeroForOne then price > MIN_SQRT_RATIO + 1 else price < MAX_SQRT_RATIO - 1)
  {
    var effective := if limit != 0 then limit else if zeroForOne then MIN_SQRT_RATIO + 1 else MAX_SQRT_RATIO - 1;
    if zeroForOne then
      if effective <= MIN_SQRT_RATIO || effective >= price then None else Some(effective)
    else
      if effective >= MAX_SQRT_RATIO || effective <= price then None else Some(effective)
  }

  function Target(next: int, limit: U256, zeroForOne: bool): U256
  {
    if zeroForOne then (if P(next) < limit then limit else P(next))
    else if P(next) > limit then limit else P(next)
  }

  /** The ledger after a step: the fee reaches the positions in range, then the price moves. */
  ghost function AfterStep(s: Ledger, lpFee: U128, next: int, crossing: bool, zeroForOne: bool, tick: int): Ledger
  {
    var s1 := AddFee(s, if zeroForOne then 0 else 1, lpFee);
    var crossed := Cross(s1, next, zeroForOne);
    if crossing && crossed.Some? then crossed.value else Moved(s1, tick)
  }

  /** Only the fee's token is paid to liquidity providers, and nothing is credited yet. */
  ghost predicate FeesGrew(s: Ledger, s': Ledger, zeroForOne: bool, lpFee: nat)
  {
    && s'.credited == s.credited
    && s'.fees[InToken(zeroForOne)] == s.fees[InToken(zeroForOne)] + lpFee
    && s'.fees[OutToken(zeroForOne)] == s.fees[OutToken(zeroForOne)]
  }

  lemma StepHoldings(s: Ledger, lpFee: U128, next: int, crossing: bool, zeroForOne: bool, tick: int)
    ensures var s' := AfterStep(s, lpFee, next, crossing, zeroForOne, tick);
      SameHoldings(s.positions, s'.positions) && FeesGrew(s, s', zeroForOne, lpFee)
  {
    hide TickOf;
  }

  /** Either the next tick is crossed, or the price moves where no initialized tick is. */
  lemma AfterStepKeeps(s: Ledger, lpFee: U128, next: int, crossing: bool, zeroForOne: bool, tick: int)
    requires LedgerOk(s) && if crossing then NextTick(s, next, zeroForOne) && tick == TickAfter(next, zeroForOne) else SameSide(s, tick)
    ensures var s' := AfterStep(s, lpFee, next, crossing, zeroForOne, tick);
      && LedgerOk(s') && s'.tick == tick && s'.spacing == s.spacing
      && s'.active == (if !crossing then s.active else if zeroForOne then s.active - TickOf(s, next).net else s.active + TickOf(s, next).net)
      && forall t: int :: TickOf(s', t).gross == TickOf(s, t).gross && TickOf(s', t).net == TickOf(s, t).net
    ensures var s' := AfterStep(s, lpFee, next, crossing, zeroForOne, tick);
      SameHoldings(s.positions, s'.positions) && FeesGrew(s, s', zeroForOne, lpFee)
  {
    StepHoldings(s, lpFee, next, crossing, zeroForOne, tick);
    hide LedgerOk, AddFee, Cross, NextTick, SameSide, TickOf;
    var k := if zeroForOne then 0 else 1;
    var s1 := AddFee(s, k, lpFee);
    AddFeeKeeps(s, k, lpFee);
    FeeKeepsTicks(s, k, lpFee, next, zeroForOne, tick);
    if crossing {
      CrossKeeps(s1, next, zeroForOne);
      CrossedActive(s1, next, zeroForOne);
    } else {
      MoveKeeps(s1, tick);
      MovedTicks(s1, tick);
    }
  }

  lemma FeeKeepsTicks(s: Ledger, k: nat, fee: U128, next: int, down: bool, tick: int)
    requires k < 2
    ensures var s1 := AddFee(s, k, fee);
      && s1.tick == s.tick && s1.spacing == s.spacing && s1.active == s.active
      && (forall t: int :: TickOf(s1, t) == TickOf(s, t))
      && NextTick(s1, next, down) == NextTick(s, next, down) && SameSide(s1, tick) == SameSide(s, tick)
  {
    var s1 := AddFee(s, k, fee);
    assert forall t: int :: TickOf(s1, t) == TickOf(s, t);
    assert forall t: int :: IsInitialized(s1, t) == IsInitialized(s, t);
    hide AddFee;
  }

  lemma MovedTicks(s: Ledger, tick: int)
    ensures forall t: int :: TickOf(Moved(s, tick), t) == TickOf(s, t)
  {
  }

  lemma CrossedActive(s: Ledger, next: int, zeroForOne: bool)
    requires Cross(s, next, zeroForOne).Some? && LedgerOk(s) && NextTick(s, next, zeroForOne)
    ensures var s' := Cross(s, next, zeroForOne).value;
      && s'.active == (if zeroForOne then s.active - TickOf(s, next).net else s.active + TickOf(s, next).net)
      && s'.tick == TickAfter(next, zeroForOne) && s'.spacing == s.spacing
      && forall t: int :: TickOf(s', t).gross == TickOf(s, t).gross && TickOf(s', t).net == TickOf(s, t).net
  {
    CrossKeeps(s, next, zeroForOne);
    var s' := Cross(s, next, zeroForOne).value;
    ActiveAfterCross(s, next, zeroForOne);
    ActiveFits(s, TickAfter(next, zeroForOne));
    assert TickOf(s, next).net == Sum(s.positions, NetPart(next));
    hide Sum, LedgerOk;
  }

  /** A step from the loop's state always moves towards its target. */
  lemma TargetAhead(w: SwapState, s: Ledger, limit: U256, zeroForOne: bool, next: int, initialized: bool)
    requires SwapOk(w, s, limit, zeroForOne) && LimitAhead(w.price, limit, zeroForOne)
    requires SkipsNothing(s, next, initialized, zeroForOne)
    ensures Steps.Ahead(w.price, Target(next, limit, zeroForOne), zeroForOne)
  {
    Positive(w.tick);
    Positive(w.tick + 1);
    Positive(next);
    hide P, TickOfPrice, LedgerOk;
    if zeroForOne {
      Rises(next, w.tick);
    } else {
      Rises(w.tick + 1, next);
    }
  }

  /** What every step does, with liquidity or without: it stops at the target, or it has used up
      what remained. */
  ghost predicate FairStep(step: Steps.Step, w: SwapState, target: U256, fee: U128, zeroForOne: bool, exactInput: bool)
    requires fee < Steps.FEE_DENOMINATOR
  {
    && (if zeroForOne then target <= step.sqrtNext <= w.price else w.price <= step.sqrtNext <= target)
    && (if exactInput then
          && step.amountIn + step.feeAmount <= w.remaining
          && (step.sqrtNext != target ==> step.amountIn + step.feeAmount == w.remaining)
        else
          && step.amountOut <= w.remaining
          && (step.sqrtNext != target ==> step.amountOut == w.remaining))
    && Steps.FeeCovers(step.amountIn, step.feeAmount, fee)
    && (w.liquidity == 0 ==> step.amountIn == 0 && step.amountOut == 0 && step.feeAmount == 0)
    && (step.amountOut > 0 ==> step.amountIn > 0)
  }

  /** The step takes in what its move costs, and pays out no more than the move yields. */
  ghost predicate PaidFor(step: Steps.Step, price: U256, liquidity: U128, zeroForOne: bool)
  {
    && Steps.Ahead(price, step.sqrtNext, zeroForOne)
    && (step.amountIn < U128_MAX ==> Steps.ExactIn(price, step.sqrtNext, liquidity, zeroForOne) <= step.amountIn)
    && step.amountOut <= Steps.ExactOut(price, step.sqrtNext, liquidity, zeroForOne)
  }

  lemma StepIsFair(w: SwapState, target: U256, fee: U128, zeroForOne: bool, exactInput: bool)
    requires fee < Steps.FEE_DENOMINATOR && Steps.Ahead(w.price, target, zeroForOne)
    ensures var step := Steps.ComputeSwapStep(w.price, target, w.liquidity, w.remaining, fee, zeroForOne, exactInput);
      step.Some? ==> FairStep(step.value, w, target, fee, zeroForOne, exactInput) && PaidFor(step.value, w.price, w.liquidity, zeroForOne)
  {
    if w.liquidity > 0 {
      if exactInput {
        Steps.ExactInputStep(w.price, target, w.liquidity, w.remaining, fee, zeroForOne);
      } else {
        Steps.ExactOutputStep(w.price, target, w.liquidity, w.remaining, fee, zeroForOne);
      }
      var step := Steps.ComputeSwapStep(w.price, target, w.liquidity, w.remaining, fee, zeroForOne, exactInput);
      if step.Some? && step.value.amountOut > 0 {
        OutputIsPaid(step.value, w.price, w.liquidity, zeroForOne);
      }
      hide Steps.ComputeSwapStep, Steps.ExactIn, Steps.ExactOut;
    } else {
      FreeWithoutLiquidity(w.price, target, zeroForOne);
      hide Steps.ExactIn, Steps.ExactOut;
    }
  }

  /** A move that yields something costs something. */
  lemma OutputIsPaid(step: Steps.Step, price: U256, liquidity: U128, zeroForOne: bool)
    requires PaidFor(step, price, liquidity, zeroForOne) && step.amountOut > 0 && liquidity > 0
    ensures step.amountIn > 0
  {
    if price == step.sqrtNext {
      NothingMoved(liquidity, price, zeroForOne);
    } else {
      MovedCosts(price, step.sqrtNext, liquidity, zeroForOne);
    }
    hide Steps.ExactIn, Steps.ExactOut;
  }

  lemma NothingMoved(liquidity: U128, price: U256, zeroForOne: bool)
    requires price > 0
    ensures Steps.ExactOut(price, price, liquidity, zeroForOne) == 0
  {
    assert price * price > 0;
    assert price - price == 0;
    RoundedZero(price * price);
    RoundedZero(Q96);
    hide Rounded;
  }

  lemma RoundedZero(d: nat)
    requires d > 0
    ensures Rounded(0, d, false) == 0
  {
  }

  lemma MovedCosts(price: U256, next: U256, liquidity: U128, zeroForOne: bool)
    requires liquidity > 0 && price != next && Steps.Ahead(price, next, zeroForOne)
    ensures Steps.ExactIn(price, next, liquidity, zeroForOne) > 0
  {
    hide Rounded;
    if zeroForOne {
      assert next * price > 0;
      SomethingMoved(liquidity * Q96 * (price - next), next * price, liquidity * Q96, price - next);
    } else {
      SomethingMoved(liquidity * (next - price), Q96, liquidity, next - price);
    }
  }

  lemma SomethingMoved(n: nat, d: nat, a: nat, b: nat)
    requires n == a * b && a > 0 && b > 0 && d > 0
    ensures Rounded(n, d, true) > 0
  {
    assert a * b > 0;
    CeilGalois(0, n, d);
  }

  lemma FreeWithoutLiquidity(price: U256, next: U256, zeroForOne: bool)
    requires Steps.Ahead(price, next, zeroForOne)
    ensures Steps.ExactIn(price, next, 0, zeroForOne) == 0 && Steps.ExactOut(price, next, 0, zeroForOne) == 0
  {
    assert price * next > 0 && next * price > 0;
  }

  /** `amount_remaining` and `amount_calculated` after a step. */
  function Account(w: SwapState, step: Steps.Step, exactInput: bool): (U128, U128)
  {
    if exactInput then
      (Steps.SaturatingSub(Steps.SaturatingSub(w.remaining, step.amountIn), step.feeAmount), SatU128(w.calculated + step.amountOut))
    else
      (Steps.SaturatingSub(w.remaining, step.amountOut), SatU128(SatU128(w.calculated + step.amountIn) + step.feeAmount))
  }

  /** Liquidity after a crossing; a panic when there is too little to take away. */
  function CrossLiquidity(liquidity: U128, net: int, zeroForOne: bool): Option<U128>
  {
    var signed := if zeroForOne then -net else net;
    if signed < 0 then
      if liquidity < -signed then None else Some(liquidity + signed)
    else Some(SatU128(liquidity + signed))
  }

  /** What a downward or upward step leads to, for both directions at once. */
  lemma StepLeads(w: SwapState, s: Ledger, limit: U256, zeroForOne: bool, next: int, initialized: bool, stepPrice: U256)
    requires SwapOk(w, s, limit, zeroForOne) && LimitAhead(w.price, limit, zeroForOne) && w.price != limit
    requires SkipsNothing(s, next, initialized, zeroForOne)
    requires var target := Target(next, limit, zeroForOne);
      if zeroForOne then target <= stepPrice <= w.price else w.price <= stepPrice <= target
    ensures MIN_TICK <= next <= MAX_TICK
    ensures stepPrice == P(next) ==>
      && (if zeroForOne then MIN_TICK < next <= w.tick else w.tick < next < MAX_TICK)
      && OnLadder(TickAfter(next, zeroForOne), stepPrice)
      && (if initialized then NextTick(s, next, zeroForOne) else SameSide(s, TickAfter(next, zeroForOne)))
    ensures stepPrice != P(next) && stepPrice != w.price ==>
      var t := TickOfPrice(stepPrice); t.Some? && OnLadder(t.value, stepPrice) && SameSide(s, t.value)
    ensures if zeroForOne then limit <= stepPrice else stepPrice <= limit
    ensures SameSide(s, w.tick) && OnLadder(w.tick, w.price)
  {
    assert MIN_TICK <= w.tick < MAX_TICK;
    hide P, TickOfPrice, LedgerOk, NextTick, OnLadder;
    if zeroForOne {
      DownStep(s, w.price, limit, next, initialized, stepPrice);
    } else {
      UpStep(s, w.price, limit, next, initialized, stepPrice);
    }
  }

  /** Crossing never finds too little liquidity: the loop's variable is the ledger's. */
  lemma CrossingSucceeds(s: Ledger, lpFee: U128, next: int, zeroForOne: bool)
    requires LedgerOk(s) && NextTick(s, next, zeroForOne)
    ensures var s' := AfterStep(s, lpFee, next, true, zeroForOne, TickAfter(next, zeroForOne));
      CrossLiquidity(s.active, TickOf(s, next).net, zeroForOne) == Some(s'.active)
  {
    AfterStepKeeps(s, lpFee, next, true, zeroForOne, TickAfter(next, zeroForOne));
    hide AfterStep, LedgerOk;
  }

  lemma StoredNet(chunks: map<int, Chunk>, s: Ledger, next: int)
    requires LedgerOk(s) && Records(chunks, s) && IsInitialized(s, next)
    ensures TickAt(chunks, next / s.spacing).net == TickOf(s, next).net
  {
    StoredTick(chunks, s, next);
  }

  /** No position covers a tick beyond the outermost initialized one. */
  lemma NothingBeyond(chunks: map<int, Chunk>, s: Ledger, bound: int, down: bool)
    requires LedgerOk(s) && Records(chunks, s)
    requires if down then LowestIs(chunks, s.spacing, bound) && s.tick < bound else HighestIs(chunks, s.spacing, bound) && s.tick >= bound
    ensures s.active == 0
  {
    forall i | 0 <= i < |s.positions|
      ensures ActivePart(s.tick)(s.positions[i]) == 0
    {
      var p := s.positions[i];
      if p.liquidity > 0 {
        BoundsInitialized(s, i);
        StoredTick(chunks, s, p.lower);
        StoredTick(chunks, s, p.upper);
      }
    }
    AllZero(s.positions, ActivePart(s.tick));
    hide Sum, HighestIs, LowestIs;
  }

  lemma {:induction false} AllZero(ps: seq<Position>, f: Position -> int)
    requires forall i | 0 <= i < |ps| :: f(ps[i]) == 0
    ensures Sum(ps, f) == 0
  {
    if ps != [] {
      AllZero(ps[..|ps| - 1], f);
    }
  }

  /** The part of a fee left to liquidity providers. */
  function LpPart(fee: U128, protocolFraction: nat): U128
  {
    SatU128(fee - fee * protocolFraction / Steps.FEE_DENOMINATOR)
  }

  lemma FeesAddUp(paid: nat, charged: nat, paid': nat, charged': nat, fee: U128)
    requires fee < Steps.FEE_DENOMINATOR && Steps.FeeCovers(paid, charged, fee) && Steps.FeeCovers(paid', charged', fee)
    ensures Steps.FeeCovers(paid + paid', charged + charged', fee)
  {
  }

  /** Up to the next tick, no position with liquidity has a bound inside the move. */
  lemma RoundStays(w: SwapState, s: Ledger, limit: U256, zeroForOne: bool, next: int, initialized: bool, stepPrice: U256, i: nat)
    requires SwapOk(w, s, limit, zeroForOne) && LimitAhead(w.price, limit, zeroForOne)
    requires SkipsNothing(s, next, initialized, zeroForOne) && i < |s.positions| && s.positions[i].liquidity > 0
    requires var target := Target(next, limit, zeroForOne);
      if zeroForOne then target <= stepPrice <= w.price else w.price <= stepPrice <= target
    ensures Stays(s.positions[i], s.tick, w.price, stepPrice)
  {
    var p, t := s.positions[i], s.tick;
    BoundsInitialized(s, i);
    assert LegalTick(p.lower, s.spacing) && LegalTick(p.upper, s.spacing) && p.lower < p.upper;
    assert P(t) <= w.price <= P(t + 1) && MIN_TICK <= t < MAX_TICK;
    hide P, LedgerOk, TicksAreSums, TickOf;
    Rises(p.lower, p.upper);
    Rises(t, t + 1);
    if zeroForOne {
      Rises(next, t);
      BoundBelow(p.lower, t, next);
      BoundBelow(p.upper, t, next);
    } else {
      Rises(t + 1, next);
      BoundAbove(p.lower, t, next);
      BoundAbove(p.upper, t, next);
    }
  }

  /** A bound the search passes over downward is at or below its answer, or above the price. */
  lemma BoundBelow(u: int, t: int, next: int)
    requires MIN_TICK <= u <= MAX_TICK && MIN_TICK <= next <= t < MAX_TICK && (u <= t ==> u <= next)
    ensures if u <= t then P(u) <= P(next) else P(t + 1) <= P(u)
  {
    hide P;
    if u <= t {
      Rises(u, next);
    } else {
      Rises(t + 1, u);
    }
  }

  lemma BoundAbove(u: int, t: int, next: int)
    requires MIN_TICK <= u <= MAX_TICK && MIN_TICK <= t < next <= MAX_TICK && (u > t ==> u >= next)
    ensures if u <= t then P(u) <= P(t) else P(next) <= P(u)
  {
    hide P;
    if u <= t {
      Rises(u, t);
    } else {
      Rises(next, u);
    }
  }

  /** A round's amounts cover what the positions gain and give up. */
  lemma RoundIsPaidFor(w: SwapState, s: Ledger, qs: seq<Position>, limit: U256, zeroForOne: bool, next: int, initialized: bool, step: Steps.Step)
    requires SwapOk(w, s, limit, zeroForOne) && LimitAhead(w.price, limit, zeroForOne) && SameHoldings(s.positions, qs)
    requires SkipsNothing(s, next, initialized, zeroForOne) && PaidFor(step, w.price, w.liquidity, zeroForOne)
    requires var target := Target(next, limit, zeroForOne);
      if zeroForOne then target <= step.sqrtNext <= w.price else w.price <= step.sqrtNext <= target
    ensures step.amountIn < U128_MAX ==>
      WorthMoves(s.positions, w.price, qs, step.sqrtNext, zeroForOne, step.amountIn, step.amountOut)
  {
    forall i | 0 <= i < |s.positions|
      ensures s.positions[i].liquidity > 0 ==> Stays(s.positions[i], s.tick, w.price, step.sqrtNext)
    {
      if s.positions[i].liquidity > 0 {
        RoundStays(w, s, limit, zeroForOne, next, initialized, step.sqrtNext, i);
      }
    }
    hide LedgerOk, SkipsNothing, Target, Stays, Steps.ExactIn, Steps.ExactOut;
    if step.amountIn < U128_MAX {
      SegmentIsPaidFor(s, qs, w.price, step.sqrtNext, zeroForOne, step.amountIn, step.amountOut);
    }
  }

  lemma NextIsTick(s: Ledger, next: int, initialized: bool, down: bool)
    requires SkipsNothing(s, next, initialized, down) && MIN_TICK <= s.tick <= MAX_TICK
    ensures MIN_TICK <= next <= MAX_TICK
  {
  }

  lemma PriceIs(tick: int)
    requires MIN_TICK <= tick <= MAX_TICK
    ensures P(tick) == SqrtRatioAtTick(tick)
  {
    hide SqrtRatioAtTick;
  }

  /** Totals over the loop's steps, for the contract only. */
  datatype Totals = Totals(paidIn: nat, charged: nat, paidOut: nat, toProviders: nat, rounds: nat)

  /** The loop's accounts: what remains is the amount less the steps' own amounts, and fees
      cover the configured share of everything paid. */
  ghost predicate Accounts(w: SwapState, t: Totals, amount: U128, fee: U128, exactInput: bool)
    requires fee < Steps.FEE_DENOMINATOR
  {
    && (if exactInput then w.remaining == amount - t.paidIn - t.charged && w.calculated == SatU128(t.paidOut)
        else w.remaining == amount - t.paidOut && w.calculated == SatU128(t.paidIn + t.charged))
    && Steps.FeeCovers(t.paidIn, t.charged, fee)
  }

  function AddStep(t: Totals, step: Steps.Step, protocolFraction: nat): Totals
  {
    Totals(t.paidIn + step.amountIn, t.charged + step.feeAmount, t.paidOut + step.amountOut,
           t.toProviders + LpPart(step.feeAmount, protocolFraction), t.rounds + 1)
  }

  /** What the totals say about the ledger and the positions between the start and now. */
  ghost predicate Settled(s0: Ledger, price0: U256, s: Ledger, price: U256, zeroForOne: bool, t: Totals)
  {
    && FeesGrew(s0, s, zeroForOne, t.toProviders) && t.toProviders <= t.charged && |s.positions| == |s0.positions|
    && (t.paidIn < U128_MAX ==> WorthMoves(s0.positions, price0, s.positions, price, zeroForOne, t.paidIn, t.paidOut))
  }

  lemma SettledGoesOn(s0: Ledger, price0: U256, s: Ledger, price: U256, s': Ledger, price': U256, zeroForOne: bool,
                      t: Totals, step: Steps.Step, protocolFraction: nat)
    requires Settled(s0, price0, s, price, zeroForOne, t) && SameHoldings(s.positions, s'.positions)
    requires FeesGrew(s, s', zeroForOne, LpPart(step.feeAmount, protocolFraction))
    requires step.amountIn < U128_MAX ==>
      WorthMoves(s.positions, price, s'.positions, price', zeroForOne, step.amountIn, step.amountOut)
    ensures Settled(s0, price0, s', price', zeroForOne, AddStep(t, step, protocolFraction))
  {
    hide WorthMoves;
    PartOfTheFee(step.feeAmount, protocolFraction);
    if t.paidIn + step.amountIn < U128_MAX {
      WorthMovesOn(s0.positions, price0, s.positions, price, s'.positions, price', zeroForOne,
                   t.paidIn, t.paidOut, step.amountIn, step.amountOut);
    }
  }

  /** The protocol's part of a fee is the configured fraction of it, rounded down. */
  lemma PartOfTheFee(fee: U128, protocolFraction: nat)
    ensures LpPart(fee, protocolFraction) <= fee
    ensures protocolFraction <= Steps.FEE_DENOMINATOR ==>
      var cut := fee - LpPart(fee, protocolFraction);
      cut * Steps.FEE_DENOMINATOR <= fee * protocolFraction < (cut + 1) * Steps.FEE_DENOMINATOR
  {
    FloorGalois(0, fee * protocolFraction, Steps.FEE_DENOMINATOR);
    FloorBounds(fee * protocolFraction, Steps.FEE_DENOMINATOR);
    if protocolFraction <= Steps.FEE_DENOMINATOR {
      MulMono(protocolFraction, Steps.FEE_DENOMINATOR, fee);
      RoundedAtMost(fee * protocolFraction, Steps.FEE_DENOMINATOR, false, fee);
    }
  }

  lemma AccountsGoOn(w: SwapState, w': SwapState, t: Totals, step: Steps.Step, target: U256, amount: U128, fee: U128, zeroForOne: bool, exactInput: bool,
                       protocolFraction: nat)
    requires fee < Steps.FEE_DENOMINATOR && Accounts(w, t, amount, fee, exactInput) && FairStep(step, w, target, fee, zeroForOne, exactInput)
    requires (w'.remaining, w'.calculated) == Account(w, step, exactInput)
    ensures Accounts(w', AddStep(t, step, protocolFraction), amount, fee, exactInput)
    ensures step.sqrtNext != target ==> w'.remaining == 0
  {
    FeesAddUp(t.paidIn, t.charged, step.amountIn, step.feeAmount, fee);
    hide Steps.FeeCovers;
  }

  predicate Live(w: SwapState, limit: U256)
  {
    w.remaining > 0 && w.price != limit
  }

  function Distance(tick: int, zeroForOne: bool): int
  {
    if zeroForOne then tick - MIN_TICK else MAX_TICK - tick
  }

  lemma StartsFair(fee: U128)
    requires fee < Steps.FEE_DENOMINATOR
    ensures Steps.FeeCovers(0, 0, fee)
  {
  }

  lemma NothingSettled(s: Ledger, price: U256, zeroForOne: bool)
    ensures Settled(s, price, s, price, zeroForOne, Totals(0, 0, 0, 0, 0))
  {
    hide Worth;
  }

  // ----------------------------------------------------------------------- rounds

  /** What a swap is asked to do, and the pool's fees. */
  datatype Order = Order(fee: U128, limit: U256, spacing: int, zeroForOne: bool, exactInput: bool, protocolFraction: nat)

  /** The loop's variables, the ledger they stand for, totals over the rounds so far, and what the
      swap remembers of its way; `onTick` says that the last round ended on a crossing. */
  datatype Cursor = Cursor(w: SwapState, s: Ledger, t: Totals, last: Last, onTick: bool)

  /** Where the cursor goes when the price moves to `to`. */
  function NewTick(tick: int, price: U256, next: int, to: U256, zeroForOne: bool): int
  {
    var found := TickOfPrice(to);
    if to == P(next) then TickAfter(next, zeroForOne)
    else if to == price || found.None? then tick
    else found.value
  }

  function StepOf(w: SwapState, next: int, o: Order): Option<Steps.Step>
    requires o.fee < Steps.FEE_DENOMINATOR
  {
    Steps.ComputeSwapStep(w.price, Target(next, o.limit, o.zeroForOne), w.liquidity, w.remaining, o.fee, o.zeroForOne, o.exactInput)
  }

  ghost function LedgerAfter(c: Cursor, next: int, initialized: bool, step: Steps.Step, o: Order): Ledger
  {
    AfterStep(c.s, LpPart(step.feeAmount, o.protocolFraction), next, step.sqrtNext == P(next) && initialized, o.zeroForOne,
              NewTick(c.w.tick, c.w.price, next, step.sqrtNext, o.zeroForOne))
  }

  /** The cursor after a step towards `next`. */
  ghost function AfterRound(c: Cursor, next: int, initialized: bool, step: Steps.Step, o: Order): Cursor
  {
    var s' := LedgerAfter(c, next, initialized, step, o);
    var (remaining, calculated) := Account(c.w, step, o.exactInput);
    var crossing := step.sqrtNext == P(next) && initialized;
    var rate := if c.w.liquidity > 0 then c.w.liquidity else c.last.liquidity;
    Cursor(SwapState(step.sqrtNext, s'.tick, s'.active, remaining, calculated), s', AddStep(c.t, step, o.protocolFraction),
           Last(rate, if crossing then next else c.last.tick, c.last.crossed || crossing), crossing)
  }

  /** One round of the loop; None is a panic of its step. */
  ghost function Round(chunks: map<int, Chunk>, c: Cursor, o: Order): Option<Cursor>
    requires o.fee < Steps.FEE_DENOMINATOR && o.spacing > 0
  {
    var (next, initialized) := Search.SearchAnswer(chunks, c.w.tick, o.spacing, o.zeroForOne);
    match StepOf(c.w, next, o)
    case None => None
    case Some(step) => Some(AfterRound(c, next, initialized, step, o))
  }

  /** The loop's variables describe the ledger, and the chunks the ledger's ticks. */
  ghost predicate Ready(chunks: map<int, Chunk>, c: Cursor, o: Order)
  {
    && o.fee < Steps.FEE_DENOMINATOR && c.s.spacing == o.spacing
    && SwapOk(c.w, c.s, o.limit, o.zeroForOne) && LimitAhead(c.w.price, o.limit, o.zeroForOne)
    && Records(chunks, c.s) && InRange(chunks, o.spacing)
    && LastOk(c.s, c.last, c.onTick, o.zeroForOne)
  }

  /** A round makes progress: nothing is left to do, or the tick has moved on. */
  ghost predicate Progress(c: Cursor, c': Cursor, o: Order)
  {
    !Live(c'.w, o.limit) || -1 <= Distance(c'.w.tick, o.zeroForOne) < Distance(c.w.tick, o.zeroForOne)
  }

  /** What a round takes and leaves: its step is fair and paid for. */
  ghost predicate FairRound(c: Cursor, c': Cursor, o: Order, step: Steps.Step, target: U256)
    requires o.fee < Steps.FEE_DENOMINATOR
  {
    && FairStep(step, c.w, target, o.fee, o.zeroForOne, o.exactInput)
    && (c'.w.remaining, c'.w.calculated) == Account(c.w, step, o.exactInput) && c'.w.price == step.sqrtNext
    && c'.t == AddStep(c.t, step, o.protocolFraction)
    && SameHoldings(c.s.positions, c'.s.positions)
    && FeesGrew(c.s, c'.s, o.zeroForOne, LpPart(step.feeAmount, o.protocolFraction))
    && (step.amountIn < U128_MAX ==>
          WorthMoves(c.s.positions, c.w.price, c'.s.positions, c'.w.price, o.zeroForOne, step.amountIn, step.amountOut))
    && (if c.w.liquidity > 0 then c'.last.liquidity > 0
        else c'.last.liquidity == c.last.liquidity && step.amountIn == 0 && step.amountOut == 0 && step.feeAmount == 0)
  }

  // ------------------------------------------------------------- what a round keeps

  /** What the search answers and where a step to `stepPrice` leads. */
  lemma RoundLeads(chunks: map<int, Chunk>, c: Cursor, o: Order, stepPrice: U256)
    requires Ready(chunks, c, o) && c.w.price != o.limit
    requires var next := Search.SearchAnswer(chunks, c.w.tick, o.spacing, o.zeroForOne).0;
      var target := Target(next, o.limit, o.zeroForOne);
      if o.zeroForOne then target <= stepPrice <= c.w.price else c.w.price <= stepPrice <= target
    ensures var (next, initialized) := Search.SearchAnswer(chunks, c.w.tick, o.spacing, o.zeroForOne);
      var tick := NewTick(c.w.tick, c.w.price, next, stepPrice, o.zeroForOne);
      && SkipsNothing(c.s, next, initialized, o.zeroForOne)
      && OnLadder(tick, stepPrice) && (if o.zeroForOne then o.limit <= stepPrice else stepPrice <= o.limit)
      && (if stepPrice == P(next) && initialized then NextTick(c.s, next, o.zeroForOne) && tick == TickAfter(next, o.zeroForOne)
          else SameSide(c.s, tick))
      && (stepPrice == P(next) ==> if o.zeroForOne then tick < c.w.tick else tick > c.w.tick)
  {
    var (next, initialized) := Search.SearchAnswer(chunks, c.w.tick, o.spacing, o.zeroForOne);
    assert MIN_TICK <= c.w.tick < MAX_TICK;
    hide P, TickOfPrice, LedgerOk, Records, SkipsNothing, NextTick, SameSide, OnLadder, LastOk, InRange;
    AnswerSkipsNothing(chunks, c.s, next, initialized, o.zeroForOne);
    StepLeads(c.w, c.s, o.limit, o.zeroForOne, next, initialized, stepPrice);
  }

  /** Liquidity at a tick depends on holdings only. */
  lemma {:induction false} ActiveOfHoldings(ps: seq<Position>, qs: seq<Position>, tick: int)
    requires SameHoldings(ps, qs)
    ensures Sum(ps, ActivePart(tick)) == Sum(qs, ActivePart(tick))
  {
    if ps != [] {
      ActiveOfHoldings(ps[..|ps| - 1], qs[..|qs| - 1], tick);
    }
  }

  /** What the swap remembers stays right through a round. */
  lemma LastKeeps(c: Cursor, next: int, initialized: bool, step: Steps.Step, o: Order)
    requires LedgerOk(c.s) && LastOk(c.s, c.last, c.onTick, o.zeroForOne) && c.w.liquidity == c.s.active
    requires var tick := NewTick(c.w.tick, c.w.price, next, step.sqrtNext, o.zeroForOne);
      if step.sqrtNext == P(next) && initialized then NextTick(c.s, next, o.zeroForOne) && tick == TickAfter(next, o.zeroForOne)
      else SameSide(c.s, tick)
    ensures var c' := AfterRound(c, next, initialized, step, o); LastOk(c'.s, c'.last, c'.onTick, o.zeroForOne)
  {
    var c' := AfterRound(c, next, initialized, step, o);
    var tick, z, crossing := NewTick(c.w.tick, c.w.price, next, step.sqrtNext, o.zeroForOne), o.zeroForOne, step.sqrtNext == P(next) && initialized;
    AfterStepKeeps(c.s, LpPart(step.feeAmount, o.protocolFraction), next, crossing, z, tick);
    hide P, NewTick, AfterStep, LpPart, FeesGrew;
    if crossing {
      CrossedLast(c.s, c'.s, next, z);
    } else {
      UncrossedLast(c.s, c'.s, c.last, c.onTick, z, c'.last);
    }
  }

  ghost predicate SameLiquidity(s: Ledger, s': Ledger)
  {
    forall t: int :: TickOf(s', t).gross == TickOf(s, t).gross && TickOf(s', t).net == TickOf(s, t).net
  }

  /** Right after a crossing the far side has the liquidity there was before it. */
  lemma CrossedLast(s: Ledger, s': Ledger, t: int, down: bool)
    requires LedgerOk(s) && NextTick(s, t, down) && SameHoldings(s.positions, s'.positions) && SameLiquidity(s, s')
    requires s'.tick == TickAfter(t, down)
    ensures JustCrossed(s', t, down) && FarLiquidity(s', t, down) == s.active
  {
    SameActive(s, s.tick, Far(t, down));
    ActiveOfHoldings(s.positions, s'.positions, Far(t, down));
    hide Sum, SameHoldings;
  }

  lemma UncrossedLast(s: Ledger, s': Ledger, last: Last, onTick: bool, down: bool, last': Last)
    requires LedgerOk(s) && LastOk(s, last, onTick, down) && SameSide(s, s'.tick) && s'.active == s.active
    requires SameHoldings(s.positions, s'.positions) && SameLiquidity(s, s')
    requires last' == Last(if s.active > 0 then s.active else last.liquidity, last.tick, last.crossed)
    ensures LastOk(s', last', false, down)
  {
    if last.crossed {
      SomeSideHasLiquidity(s, last.tick, down);
      ActiveOfHoldings(s.positions, s'.positions, Far(last.tick, down));
      StillCrossed(s, s', last.tick, down);
      hide Sum, SameHoldings, JustCrossed, LedgerOk, SameSide, SameLiquidity;
    }
  }

  lemma StillCrossed(s: Ledger, s': Ledger, t: int, down: bool)
    requires JustCrossed(s, t, down) && SameSide(s, s'.tick) && SameLiquidity(s, s')
    ensures JustCrossed(s', t, down)
  {
    assert forall u: int :: IsInitialized(s', u) == IsInitialized(s, u);
    hide SameLiquidity, IsInitialized;
  }

  /** A round goes to where its step stops, against the ledger's liquidity, on the ladder. */
  lemma RoundReady(chunks: map<int, Chunk>, c: Cursor, o: Order, step: Steps.Step)
    requires Ready(chunks, c, o) && c.w.price != o.limit
    requires var next := Search.SearchAnswer(chunks, c.w.tick, o.spacing, o.zeroForOne).0;
      FairStep(step, c.w, Target(next, o.limit, o.zeroForOne), o.fee, o.zeroForOne, o.exactInput)
    ensures var (next, initialized) := Search.SearchAnswer(chunks, c.w.tick, o.spacing, o.zeroForOne);
      var c' := AfterRound(c, next, initialized, step, o);
      && Ready(chunks, c', o)
      && SameHoldings(c.s.positions, c'.s.positions) && FeesGrew(c.s, c'.s, o.zeroForOne, LpPart(step.feeAmount, o.protocolFraction))
      && (step.sqrtNext == P(next) ==> if o.zeroForOne then c'.w.tick < c.w.tick else c'.w.tick > c.w.tick)
  {
    var (next, initialized) := Search.SearchAnswer(chunks, c.w.tick, o.spacing, o.zeroForOne);
    var c' := AfterRound(c, next, initialized, step, o);
    var crossing, tick := step.sqrtNext == P(next) && initialized, NewTick(c.w.tick, c.w.price, next, step.sqrtNext, o.zeroForOne);
    var fee := LpPart(step.feeAmount, o.protocolFraction);
    hide P, TickOfPrice, LedgerOk, Records, SkipsNothing, NextTick, SameSide, OnLadder, LastOk, InRange, FairStep,
      SameHoldings, FeesGrew, AfterStep, Search.SearchAnswer, NewTick, LpPart, Target;
    assert if o.zeroForOne then Target(next, o.limit, o.zeroForOne) <= step.sqrtNext <= c.w.price
      else c.w.price <= step.sqrtNext <= Target(next, o.limit, o.zeroForOne) by { FairDirection(step, c.w, Target(next, o.limit, o.zeroForOne), o); }
    RoundLeads(chunks, c, o, step.sqrtNext);
    AfterStepKeeps(c.s, fee, next, crossing, o.zeroForOne, tick);
    assert c'.s == AfterStep(c.s, fee, next, crossing, o.zeroForOne, tick);
    LastKeeps(c, next, initialized, step, o);
    RecordsStay(chunks, c.s, c'.s);
    hide AfterRound, SameLiquidity, SwapOk, LimitAhead;
    StillReady(chunks, c, c', o);
  }

  lemma StillReady(chunks: map<int, Chunk>, c: Cursor, c': Cursor, o: Order)
    requires Ready(chunks, c, o) && Records(chunks, c'.s) && LedgerOk(c'.s) && c'.s.spacing == c.s.spacing
    requires c'.w.tick == c'.s.tick && c'.w.liquidity == c'.s.active && OnLadder(c'.s.tick, c'.w.price)
    requires LastOk(c'.s, c'.last, c'.onTick, o.zeroForOne)
    requires if o.zeroForOne then o.limit <= c'.w.price <= c.w.price else c.w.price <= c'.w.price <= o.limit
    ensures Ready(chunks, c', o)
  {
  }

  lemma FairDirection(step: Steps.Step, w: SwapState, target: U256, o: Order)
    requires o.fee < Steps.FEE_DENOMINATOR && FairStep(step, w, target, o.fee, o.zeroForOne, o.exactInput)
    ensures if o.zeroForOne then target <= step.sqrtNext <= w.price else w.price <= step.sqrtNext <= target
  {
  }

  /** The step of a round is fair and paid for. */
  lemma RoundStep(chunks: map<int, Chunk>, c: Cursor, o: Order)
    requires Ready(chunks, c, o) && c.w.price != o.limit
    ensures var (next, initialized) := Search.SearchAnswer(chunks, c.w.tick, o.spacing, o.zeroForOne);
      var step, target := StepOf(c.w, next, o), Target(next, o.limit, o.zeroForOne);
      && SkipsNothing(c.s, next, initialized, o.zeroForOne) && Steps.Ahead(c.w.price, target, o.zeroForOne)
      && (step.Some? ==>
            && FairStep(step.value, c.w, target, o.fee, o.zeroForOne, o.exactInput)
            && PaidFor(step.value, c.w.price, c.w.liquidity, o.zeroForOne))
  {
    var (next, initialized) := Search.SearchAnswer(chunks, c.w.tick, o.spacing, o.zeroForOne);
    assert MIN_TICK <= c.w.tick < MAX_TICK;
    hide P, LedgerOk, Records, SkipsNothing, OnLadder, LastOk, InRange, Steps.ComputeSwapStep, PaidFor, FairStep, Search.SearchAnswer, Target;
    AnswerSkipsNothing(chunks, c.s, next, initialized, o.zeroForOne);
    TargetAhead(c.w, c.s, o.limit, o.zeroForOne, next, initialized);
    StepIsFair(c.w, Target(next, o.limit, o.zeroForOne), o.fee, o.zeroForOne, o.exactInput);
  }

  /** A round keeps everything the loop relies on, is fair and paid for, and makes progress. */
  lemma RoundKeeps(chunks: map<int, Chunk>, c: Cursor, o: Order)
    returns (step: Steps.Step, target: U256)
    requires Ready(chunks, c, o) && c.w.price != o.limit && Round(chunks, c, o).Some?
    ensures var c' := Round(chunks, c, o).value;
      Ready(chunks, c', o) && FairRound(c, c', o, step, target) && Progress(c, c', o)
  {
    var (next, initialized) := Search.SearchAnswer(chunks, c.w.tick, o.spacing, o.zeroForOne);
    target := Target(next, o.limit, o.zeroForOne);
    step := StepOf(c.w, next, o).value;
    var c' := AfterRound(c, next, initialized, step, o);
    RoundStep(chunks, c, o);
    RoundReady(chunks, c, o, step);
    RoundPaid(chunks, c, o, step);
    InTickRange(chunks, c', o);
    hide P, Ready, StepOf, LedgerAfter, FairStep, PaidFor, WorthMoves, SameHoldings, FeesGrew, LpPart, Search.SearchAnswer, Target;
    RoundProgress(c, c', o, next, step);
  }

  lemma RoundPaid(chunks: map<int, Chunk>, c: Cursor, o: Order, step: Steps.Step)
    requires Ready(chunks, c, o) && c.w.price != o.limit
    requires var (next, initialized) := Search.SearchAnswer(chunks, c.w.tick, o.spacing, o.zeroForOne);
      && FairStep(step, c.w, Target(next, o.limit, o.zeroForOne), o.fee, o.zeroForOne, o.exactInput)
      && PaidFor(step, c.w.price, c.w.liquidity, o.zeroForOne)
    ensures var (next, initialized) := Search.SearchAnswer(chunks, c.w.tick, o.spacing, o.zeroForOne);
      var c' := AfterRound(c, next, initialized, step, o);
      step.amountIn < U128_MAX ==>
        WorthMoves(c.s.positions, c.w.price, c'.s.positions, c'.w.price, o.zeroForOne, step.amountIn, step.amountOut)
  {
    var (next, initialized) := Search.SearchAnswer(chunks, c.w.tick, o.spacing, o.zeroForOne);
    var c' := AfterRound(c, next, initialized, step, o);
    RoundReady(chunks, c, o, step);
    RoundStep(chunks, c, o);
    hide P, SwapOk, SkipsNothing, StepOf, LedgerAfter, Steps.FeeCovers, PaidFor, WorthMoves, SameHoldings, FeesGrew, LpPart, Search.SearchAnswer;
    RoundIsPaidFor(c.w, c.s, c'.s.positions, o.limit, o.zeroForOne, next, initialized, step);
  }

  lemma RoundProgress(c: Cursor, c': Cursor, o: Order, next: int, step: Steps.Step)
    requires o.fee < Steps.FEE_DENOMINATOR && FairStep(step, c.w, Target(next, o.limit, o.zeroForOne), o.fee, o.zeroForOne, o.exactInput)
    requires c'.w.price == step.sqrtNext && (c'.w.remaining, c'.w.calculated) == Account(c.w, step, o.exactInput)
    requires MIN_TICK <= c'.w.tick < MAX_TICK
    requires step.sqrtNext == P(next) ==> if o.zeroForOne then c'.w.tick < c.w.tick else c'.w.tick > c.w.tick
    ensures Progress(c, c', o)
  {
    hide P, Steps.FeeCovers;
  }

  lemma InTickRange(chunks: map<int, Chunk>, c: Cursor, o: Order)
    requires Ready(chunks, c, o)
    ensures MIN_TICK <= c.w.tick < MAX_TICK
  {
    hide P;
  }

  lemma RecordsStay(chunks: map<int, Chunk>, s: Ledger, s': Ledger)
    requires Records(chunks, s) && s'.spacing == s.spacing && SameLiquidity(s, s')
    ensures Records(chunks, s')
  {
    hide TickAt;
  }

  // ---------------------------------------------------------------------- the loop

  /** The price has passed all initialized ticks. */
  predicate Past(tick: int, bound: int, zeroForOne: bool)
  {
    if zeroForOne then tick < bound else tick >= bound
  }

  predicate Over(w: SwapState, bound: int, o: Order)
  {
    !Live(w, o.limit) || Past(w.tick, bound, o.zeroForOne)
  }

  lemma RoundGoesOn(chunks: map<int, Chunk>, c: Cursor, o: Order)
    requires Ready(chunks, c, o) && c.w.price != o.limit && Round(chunks, c, o).Some?
    ensures Ready(chunks, Round(chunks, c, o).value, o) && Progress(c, Round(chunks, c, o).value, o)
  {
    var step, target := RoundKeeps(chunks, c, o);
  }

  lemma ReadyIsSpaced(chunks: map<int, Chunk>, c: Cursor, o: Order)
    requires Ready(chunks, c, o)
    ensures o.fee < Steps.FEE_DENOMINATOR && o.spacing > 0 && MIN_TICK <= c.w.tick < MAX_TICK
  {
    hide P;
  }

  /** The loop from a cursor on: round after round until nothing is left to swap, the limit is
      reached or no liquidity is ahead; None when a round panics. */
  ghost function Loop(chunks: map<int, Chunk>, bound: int, c: Cursor, o: Order): Option<Cursor>
    requires Ready(chunks, c, o)
    decreases Live(c.w, o.limit), Distance(c.w.tick, o.zeroForOne)
  {
    ReadyIsSpaced(chunks, c, o);
    if Over(c.w, bound, o) then Some(c)
    else
      var next := Round(chunks, c, o);
      if next.None? then None
      else
        RoundGoesOn(chunks, c, o);
        Loop(chunks, bound, next.value, o)
  }

  /** The loop's variables before its first round. */
  function Start(s: Ledger, price: U256, amount: U128): Cursor
  {
    Cursor(SwapState(price, s.tick, s.active, amount, 0), s, Totals(0, 0, 0, 0, 0), Last(s.active, s.tick, false), false)
  }

  /** A pool at rest, and a limit ahead of its price. */
  ghost predicate MaySwap(chunks: map<int, Chunk>, s: Ledger, price: U256, o: Order)
  {
    && o.fee < Steps.FEE_DENOMINATOR && o.protocolFraction <= Steps.FEE_DENOMINATOR && s.spacing == o.spacing
    && LedgerOk(s) && OnLadder(s.tick, price) && LimitAhead(price, o.limit, o.zeroForOne)
    && Records(chunks, s) && InRange(chunks, o.spacing)
  }

  lemma StartReady(chunks: map<int, Chunk>, s: Ledger, price: U256, amount: U128, o: Order)
    requires MaySwap(chunks, s, price, o)
    ensures Ready(chunks, Start(s, price, amount), o)
  {
    hide LedgerOk, OnLadder, Records, InRange;
  }

  /** `swap_loop`: None when nothing is asked for, when a round panics, and when an exact output
      is left unfilled. */
  ghost function Swap(chunks: map<int, Chunk>, bound: int, s: Ledger, price: U256, amount: U128, o: Order): Option<Cursor>
    requires MaySwap(chunks, s, price, o)
  {
    StartReady(chunks, s, price, amount, o);
    if amount == 0 then None
    else
      var end := Loop(chunks, bound, Start(s, price, amount), o);
      if end.None? || (!o.exactInput && end.value.w.remaining > 0) then None else end
  }

  // ------------------------------------------------------------- when the loop ends

  /** What has been true since the start, at a cursor on the way. */
  ghost predicate Since(s0: Ledger, price0: U256, amount: U128, c: Cursor, o: Order)
    requires o.fee < Steps.FEE_DENOMINATOR
  {
    && Accounts(c.w, c.t, amount, o.fee, o.exactInput) && Settled(s0, price0, c.s, c.w.price, o.zeroForOne, c.t)
    && (if o.zeroForOne then c.w.price <= price0 else price0 <= c.w.price)
    && (c.t.paidIn + c.t.charged + c.t.paidOut > 0 ==> c.last.liquidity > 0) && (c.t.paidOut > 0 ==> c.t.paidIn > 0)
  }

  lemma SinceGoesOn(s0: Ledger, price0: U256, amount: U128, c: Cursor, c': Cursor, o: Order, step: Steps.Step, target: U256)
    requires o.fee < Steps.FEE_DENOMINATOR && Since(s0, price0, amount, c, o) && FairRound(c, c', o, step, target)
    ensures Since(s0, price0, amount, c', o)
  {
    hide Accounts, Settled, FeesGrew, WorthMoves, SameHoldings, LpPart;
    AccountsGoOn(c.w, c'.w, c.t, step, target, amount, o.fee, o.zeroForOne, o.exactInput, o.protocolFraction);
    SettledGoesOn(s0, price0, c.s, c.w.price, c'.s, c'.w.price, o.zeroForOne, c.t, step, o.protocolFraction);
  }

  lemma {:induction false} LoopKeeps(chunks: map<int, Chunk>, bound: int, c: Cursor, o: Order, s0: Ledger, price0: U256, amount: U128)
    requires Ready(chunks, c, o) && Since(s0, price0, amount, c, o)
    ensures var end := Loop(chunks, bound, c, o);
      end.Some? ==> Ready(chunks, end.value, o) && Since(s0, price0, amount, end.value, o) && Over(end.value.w, bound, o)
    decreases Live(c.w, o.limit), Distance(c.w.tick, o.zeroForOne)
  {
    ReadyIsSpaced(chunks, c, o);
    hide Ready, Since, Round, FairRound;
    if !Over(c.w, bound, o) && Round(chunks, c, o).Some? {
      var step, target := RoundKeeps(chunks, c, o);
      var c' := Round(chunks, c, o).value;
      SinceGoesOn(s0, price0, amount, c, c', o, step, target);
      LoopKeeps(chunks, bound, c', o, s0, price0, amount);
    }
  }

  /** `bound` is the last initialized tick ahead. */
  ghost predicate IsBound(chunks: map<int, Chunk>, bound: int, o: Order)
  {
    if o.zeroForOne then LowestIs(chunks, o.spacing, bound) else HighestIs(chunks, o.spacing, bound)
  }

  /** A swap that ends: the ledger is in order with a tick that matches its price, the price is
      within the limit, no more than the amount is used, and all of it unless the limit was
      reached or no liquidity is left in range; its totals are those of its rounds, and cover
      the fee and what the positions gained. */
  lemma SwapEnds(chunks: map<int, Chunk>, bound: int, s: Ledger, price: U256, amount: U128, o: Order)
    requires MaySwap(chunks, s, price, o) && IsBound(chunks, bound, o)
    ensures var end := Swap(chunks, bound, s, price, amount, o);
      end.Some? ==>
        var e, t := end.value, end.value.t;
        && LedgerOk(e.s) && e.w.tick == e.s.tick && e.w.liquidity == e.s.active && OnLadder(e.w.tick, e.w.price)
        && (if o.zeroForOne then o.limit <= e.w.price <= price else price <= e.w.price <= o.limit)
        && (e.w.remaining == 0 || e.w.price == o.limit || e.s.active == 0)
        && (if o.exactInput then amount - e.w.remaining == t.paidIn + t.charged && e.w.calculated == SatU128(t.paidOut)
            else e.w.remaining == 0 && amount == t.paidOut && e.w.calculated == SatU128(t.paidIn + t.charged))
        && Steps.FeeCovers(t.paidIn, t.charged, o.fee)
        && Settled(s, price, e.s, e.w.price, o.zeroForOne, t)
        && (t.paidIn + t.charged + t.paidOut > 0 ==> e.last.liquidity > 0) && (t.paidOut > 0 ==> t.paidIn > 0)
        && LastOk(e.s, e.last, e.onTick, o.zeroForOne)
  {
    hide LedgerOk, OnLadder, Records, InRange, Settled, Steps.FeeCovers, LastOk, LowestIs, HighestIs, Loop, Ready, Since;
    StartReady(chunks, s, price, amount, o);
    StartsSince(s, price, amount, o);
    LoopKeeps(chunks, bound, Start(s, price, amount), o, s, price, amount);
    var end := Swap(chunks, bound, s, price, amount, o);
    if end.Some? {
      EndParts(chunks, bound, s, price, amount, o, end.value);
    }
  }

  lemma StartsSince(s: Ledger, price: U256, amount: U128, o: Order)
    requires o.fee < Steps.FEE_DENOMINATOR
    ensures Since(s, price, amount, Start(s, price, amount), o)
  {
    NothingSettled(s, price, o.zeroForOne);
    StartsFair(o.fee);
    hide Settled, Steps.FeeCovers;
  }

  /** What the loop has kept, where it stops. */
  lemma EndParts(chunks: map<int, Chunk>, bound: int, s: Ledger, price: U256, amount: U128, o: Order, e: Cursor)
    requires Ready(chunks, e, o) && Since(s, price, amount, e, o) && Over(e.w, bound, o) && IsBound(chunks, bound, o)
    ensures var t := e.t;
      && LedgerOk(e.s) && e.w.tick == e.s.tick && e.w.liquidity == e.s.active && OnLadder(e.w.tick, e.w.price)
      && (if o.zeroForOne then o.limit <= e.w.price <= price else price <= e.w.price <= o.limit)
      && (e.w.remaining == 0 || e.w.price == o.limit || e.s.active == 0)
      && Accounts(e.w, t, amount, o.fee, o.exactInput) && Settled(s, price, e.s, e.w.price, o.zeroForOne, t)
      && (t.paidIn + t.charged + t.paidOut > 0 ==> e.last.liquidity > 0) && (t.paidOut > 0 ==> t.paidIn > 0)
      && LastOk(e.s, e.last, e.onTick, o.zeroForOne)
  {
    hide LedgerOk, OnLadder, Records, InRange, Settled, Accounts, LastOk, LowestIs, HighestIs;
    if Past(e.w.tick, bound, o.zeroForOne) {
      NothingBeyond(chunks, e.s, bound, o.zeroForOne);
    }
  }

  // ----------------------------------------------------------- when a swap succeeds

  /** A bound on amount and price that keeps every token0 denominator within 256 bits, and a fee
      of at most one half, which fits 128 bits with whatever it is charged on. */
  predicate CannotFail(amount: nat, price: U256, o: Order)
  {
    if o.exactInput then o.zeroForOne ==> amount * price + U128_MAX * Q96 < TWO_256
    else o.fee <= Steps.FEE_DENOMINATOR / 2
  }

  lemma StepSucceeds(w: SwapState, next: int, o: Order)
    requires o.fee < Steps.FEE_DENOMINATOR && CannotFail(w.remaining, w.price, o)
    requires Steps.Ahead(w.price, Target(next, o.limit, o.zeroForOne), o.zeroForOne)
    ensures StepOf(w, next, o).Some?
  {
    if w.liquidity > 0 {
      if o.exactInput {
        InputSucceeds(w, Target(next, o.limit, o.zeroForOne), o);
      } else {
        OutputSucceeds(w, Target(next, o.limit, o.zeroForOne), o);
      }
    }
    hide P, Steps.ExactInputStop, Steps.ExactOutputStop, Steps.MulDivU128, Steps.Input, Steps.Output;
  }

  lemma InputSucceeds(w: SwapState, target: U256, o: Order)
    requires o.fee < Steps.FEE_DENOMINATOR && o.exactInput && CannotFail(w.remaining, w.price, o) && w.liquidity > 0
    requires Steps.Ahead(w.price, target, o.zeroForOne)
    ensures Steps.ComputeSwapStep(w.price, target, w.liquidity, w.remaining, o.fee, o.zeroForOne, true).Some?
  {
    hide Steps.ComputeSwapStep, Steps.ExactIn, Steps.ExactOut, Steps.LessFee, Steps.FeeOn, Steps.FeeCovers, Steps.Overflows;
    Steps.ExactInputStep(w.price, target, w.liquidity, w.remaining, o.fee, o.zeroForOne);
    if o.zeroForOne {
      NoOverflow(w.price, w.liquidity, Steps.LessFee(w.remaining, o.fee), w.remaining);
    }
  }

  lemma OutputSucceeds(w: SwapState, target: U256, o: Order)
    requires o.fee < Steps.FEE_DENOMINATOR && !o.exactInput && CannotFail(w.remaining, w.price, o) && w.liquidity > 0
    requires Steps.Ahead(w.price, target, o.zeroForOne)
    ensures Steps.ComputeSwapStep(w.price, target, w.liquidity, w.remaining, o.fee, o.zeroForOne, false).Some?
  {
    hide Steps.ComputeSwapStep, Steps.ExactIn, Steps.ExactOut, Steps.FeeOn, Steps.FeeCovers, Steps.ExactOutputStop, Steps.Charged;
    Steps.ExactOutputStep(w.price, target, w.liquidity, w.remaining, o.fee, o.zeroForOne);
    var stop := Steps.ExactOutputStop(w.price, target, w.liquidity, w.remaining, o.zeroForOne);
    HalfFits(Steps.Charged(w.price, stop.value, w.liquidity, o.zeroForOne), o.fee);
  }

  lemma NoOverflow(price: U256, liquidity: U128, lessFee: U128, remaining: U128)
    requires lessFee <= remaining && remaining * price + U128_MAX * Q96 < TWO_256
    ensures !Steps.Overflows(price, liquidity, lessFee)
  {
    MulMono(lessFee, remaining, price);
    MulMono(liquidity, U128_MAX, Q96);
  }

  lemma HalfFits(charged: U128, fee: U128)
    requires fee <= Steps.FEE_DENOMINATOR / 2
    ensures Steps.FeeOn(charged, fee) < TWO_128
  {
    var rest: nat := 10_000 - fee;
    MulMono(fee, rest, charged);
    RoundedAtMost(charged * fee, rest, true, charged);
  }

  lemma {:induction false} LoopSucceeds(chunks: map<int, Chunk>, bound: int, c: Cursor, o: Order)
    requires Ready(chunks, c, o) && CannotFail(c.w.remaining, c.w.price, o)
    ensures Loop(chunks, bound, c, o).Some?
    decreases Live(c.w, o.limit), Distance(c.w.tick, o.zeroForOne)
  {
    ReadyIsSpaced(chunks, c, o);
    if !Over(c.w, bound, o) {
      RoundStep(chunks, c, o);
      StepSucceeds(c.w, Search.SearchAnswer(chunks, c.w.tick, o.spacing, o.zeroForOne).0, o);
      hide StepOf, Ready, AfterRound, FairStep, SkipsNothing, PaidFor, Search.SearchAnswer;
      assert Round(chunks, c, o).Some?;
      var step, target := RoundKeeps(chunks, c, o);
      var c' := Round(chunks, c, o).value;
      hide Round;
      StillCannotFail(c, c', o, step, target);
      LoopSucceeds(chunks, bound, c', o);
    }
  }

  lemma StillCannotFail(c: Cursor, c': Cursor, o: Order, step: Steps.Step, target: U256)
    requires o.fee < Steps.FEE_DENOMINATOR && FairRound(c, c', o, step, target) && CannotFail(c.w.remaining, c.w.price, o)
    ensures CannotFail(c'.w.remaining, c'.w.price, o)
  {
    if o.exactInput && o.zeroForOne {
      assert c'.w.remaining <= c.w.remaining && c'.w.price <= c.w.price;
      MulMono(c'.w.remaining, c.w.remaining, c.w.price);
      MulMono(c'.w.price, c.w.price, c'.w.remaining);
    }
    hide FairStep;
  }

  /** An exact input of some amount always goes through when amount and price are within those
      bounds; an exact output does exactly when it is filled before the limit and the end of
      liquidity. */
  lemma SwapSucceeds(chunks: map<int, Chunk>, bound: int, s: Ledger, price: U256, amount: U128, o: Order)
    requires MaySwap(chunks, s, price, o) && CannotFail(amount, price, o) && amount > 0
    ensures Ready(chunks, Start(s, price, amount), o)
    ensures var end := Loop(chunks, bound, Start(s, price, amount), o);
      end.Some? && (Swap(chunks, bound, s, price, amount, o).Some? <==> o.exactInput || end.value.w.remaining == 0)
  {
    StartReady(chunks, s, price, amount, o);
    LoopSucceeds(chunks, bound, Start(s, price, amount), o);
    hide Loop, Ready, CannotFail;
  }

  // ------------------------------------------------- what is left at the end of the ladder

  /** The limit both public swaps ask for: the ladder's end, less one. */
  predicate DefaultLimit(o: Order)
  {
    o.limit == if o.zeroForOne then MIN_SQRT_RATIO + 1 else MAX_SQRT_RATIO - 1
  }

  /** One above the first price belongs to the first tick, one below the last to the last. */
  lemma EndTick(tick: int, o: Order)
    requires DefaultLimit(o) && OnLadder(tick, o.limit)
    ensures tick == if o.zeroForOne then MIN_TICK else MAX_TICK - 1
  {
    Ends();
    PriceRises(MIN_TICK);
    PriceRises(MAX_TICK - 1);
    hide SqrtRatioAtTick;
    if o.zeroForOne {
      if tick > MIN_TICK {
        Rises(MIN_TICK + 1, tick);
      }
    } else {
      if tick < MAX_TICK - 1 {
        Rises(tick + 1, MAX_TICK - 1);
      }
    }
  }

  /** When the spacing does not divide the last tick, no position reaches the ladder's ends. */
  lemma NobodyAtEnds(s: Ledger)
    requires LedgerOk(s) && MAX_TICK % s.spacing != 0
    ensures s.tick == MIN_TICK || s.tick == MAX_TICK - 1 ==> s.active == 0
  {
    if s.tick == MIN_TICK || s.tick == MAX_TICK - 1 {
      NegativeMultiple(s.spacing);
      forall i | 0 <= i < |s.positions|
        ensures ActivePart(s.tick)(s.positions[i]) == 0
      {
        assert LegalTick(s.positions[i].lower, s.spacing) && LegalTick(s.positions[i].upper, s.spacing);
      }
      AllZero(s.positions, ActivePart(s.tick));
      hide Sum;
    }
  }

  lemma NegativeMultiple(spacing: int)
    requires spacing > 0 && MAX_TICK % spacing != 0
    ensures MIN_TICK % spacing != 0
  {
    if MIN_TICK % spacing == 0 {
      Remainder(MIN_TICK, spacing);
      DivModUnique(MAX_TICK, spacing, -(MIN_TICK / spacing), 0);
    }
  }

  /** With such a spacing and the default limit, a swap that leaves some of its amount over ends
      without liquidity in range, and its surplus is credited at the right rate. */
  lemma DefaultSwapPays(chunks: map<int, Chunk>, bound: int, s: Ledger, price: U256, amount: U128, o: Order)
    requires MaySwap(chunks, s, price, o) && IsBound(chunks, bound, o) && DefaultLimit(o) && MAX_TICK % o.spacing != 0
    ensures var end := Swap(chunks, bound, s, price, amount, o);
      end.Some? && end.value.w.remaining > 0 ==>
        end.value.s.active == 0 && RatePays(end.value.s, end.value.last, end.value.onTick, o.zeroForOne)
  {
    var end := Swap(chunks, bound, s, price, amount, o);
    SwapEnds(chunks, bound, s, price, amount, o);
    hide MaySwap, Swap, LedgerOk, OnLadder, Settled, Steps.FeeCovers, LastOk, LowestIs, HighestIs;
    if end.Some? && end.value.w.remaining > 0 {
      var e := end.value;
      SwapKeepsSpacing(chunks, bound, s, price, amount, o);
      if e.w.price == o.limit {
        EndTick(e.w.tick, o);
        NobodyAtEnds(e.s);
      }
    }
  }

  lemma SwapKeepsSpacing(chunks: map<int, Chunk>, bound: int, s: Ledger, price: U256, amount: U128, o: Order)
    requires MaySwap(chunks, s, price, o) && Swap(chunks, bound, s, price, amount, o).Some?
    ensures Ready(chunks, Swap(chunks, bound, s, price, amount, o).value, o)
    ensures Swap(chunks, bound, s, price, amount, o).value.s.spacing == o.spacing
  {
    StartReady(chunks, s, price, amount, o);
    NothingSettled(s, price, o.zeroForOne);
    StartsFair(o.fee);
    hide Ready, Settled, Steps.FeeCovers, Loop;
    LoopKeeps(chunks, bound, Start(s, price, amount), o, s, price, amount);
    ReadySpacing(chunks, Swap(chunks, bound, s, price, amount, o).value, o);
  }

  lemma ReadySpacing(chunks: map<int, Chunk>, c: Cursor, o: Order)
    requires Ready(chunks, c, o)
    ensures c.s.spacing == o.spacing
  {
  }
}
