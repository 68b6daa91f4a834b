/** What a swap owes its caller: how near the amounts of its rounds come to what the positions
    gain and give up, from the other side than SwapRounds
    (liquidity_pool_concentrated/src/contract/internal.rs). */
module SwapDues {
  import opened Words
  import opened PriceMath
  import opened TickAccuracy
  import opened ChunkStore
  import opened FeeGrowth
  import Search = SwapSearch
  import Steps = SwapStep
  import opened LiquidityLedger
  import opened LedgerInvariants
  import opened PositionWorth
  import opened SwapRounds

  // ------------------------------------------------------------------------ a step

  /** The step of a round: nothing but the move without liquidity, and else the farthest an input
      reaches, or the nearest that pays an output, at exact amounts. */
  ghost predicate ExactStep(step: Steps.Step, w: SwapState, target: U256, fee: U128, zeroForOne: bool, exactInput: bool)
    requires fee < Steps.FEE_DENOMINATOR && Steps.Ahead(w.price, target, zeroForOne)
  {
    if w.liquidity == 0 then step == Steps.Step(target, 0, 0, 0)
    else if exactInput then Steps.FairInputStep(step, w.price, target, w.liquidity, w.remaining, fee, zeroForOne)
    else Steps.FairOutputStep(step, w.price, target, w.liquidity, w.remaining, fee, zeroForOne)
  }

  lemma StepIsExact(w: SwapState, target: U256, fee: U128, zeroForOne: bool, exactInput: bool)
    requires fee < Steps.FEE_DENOMINATOR && Steps.Ahead(w.price, target, zeroForOne)
    ensures var step := Steps.ComputeSwapStep(w.price, target, w.liquidity, w.remaining, fee, zeroForOne, exactInput);
      step.Some? ==> ExactStep(step.value, w, target, fee, zeroForOne, exactInput)
  {
    if w.liquidity > 0 {
      hide Steps.ComputeSwapStep, Steps.FairInputStep, Steps.FairOutputStep;
      if exactInput {
        Steps.ExactInputStep(w.price, target, w.liquidity, w.remaining, fee, zeroForOne);
      } else {
        Steps.ExactOutputStep(w.price, target, w.liquidity, w.remaining, fee, zeroForOne);
      }
    }
  }

  /** The price one unit farther on the way, and one unit back. */
  function Farther(price: U256, zeroForOne: bool): U256
    requires 0 < price < MAX_PRICE
  {
    if zeroForOne then price - 1 else price + 1
  }

  function Nearer(price: U256, zeroForOne: bool): U256
    requires 0 < price < MAX_PRICE
  {
    Farther(price, !zeroForOne)
  }

  /** An input that does not reach the target would be used up by a move one unit farther. */
  lemma InputReaches(step: Steps.Step, w: SwapState, target: U256, fee: U128, zeroForOne: bool)
    requires fee < Steps.FEE_DENOMINATOR && Steps.Ahead(w.price, target, zeroForOne) && step.sqrtNext != target
    requires ExactStep(step, w, target, fee, zeroForOne, true)
    ensures 0 < step.sqrtNext < MAX_PRICE
    ensures var v := Farther(step.sqrtNext, zeroForOne);
      && Steps.Between(step.sqrtNext, v, target, zeroForOne) && Steps.Ahead(w.price, v, zeroForOne)
      && Steps.LessFee(w.remaining, fee) <= Steps.ExactIn(w.price, v, w.liquidity, zeroForOne)
  {
    hide Steps.ExactIn, Steps.ExactOut, Steps.LessFee, Steps.FeeOn, Steps.FeeCovers;
    var v := Farther(step.sqrtNext, zeroForOne);
    assert Steps.Between(w.price, v, target, zeroForOne) && Steps.Beyond(w.price, step.sqrtNext, v, zeroForOne);
  }

  /** An output that is filled moves the price, and a move one unit shorter pays no more. */
  lemma OutputReaches(step: Steps.Step, w: SwapState, target: U256, fee: U128, zeroForOne: bool)
    requires fee < Steps.FEE_DENOMINATOR && Steps.Ahead(w.price, target, zeroForOne) && step.amountOut == w.remaining > 0
    requires ExactStep(step, w, target, fee, zeroForOne, false)
    ensures 0 < step.sqrtNext < MAX_PRICE
    ensures var v := Nearer(step.sqrtNext, zeroForOne);
      && Steps.Between(w.price, v, step.sqrtNext, zeroForOne) && Steps.Ahead(w.price, v, zeroForOne)
      && Steps.ExactOut(w.price, v, w.liquidity, zeroForOne) <= step.amountOut
  {
    hide Steps.ExactIn, Steps.ExactOut, Steps.FeeOn, Steps.FeeCovers;
    if step.sqrtNext == w.price {
      NothingMoved(w.liquidity, w.price, zeroForOne);
      assert false;
    } else {
      var v := Nearer(step.sqrtNext, zeroForOne);
      if Steps.ExactOut(w.price, target, w.liquidity, zeroForOne) <= w.remaining {
        OutputMonotone(w.price, v, target, w.liquidity, zeroForOne);
      } else {
        assert Steps.Between(w.price, v, target, zeroForOne) && !Steps.Between(step.sqrtNext, v, target, zeroForOne);
      }
    }
  }

  /** A shorter move pays no more. */
  lemma OutputMonotone(cur: U256, near: U256, far: U256, liquidity: U128, zeroForOne: bool)
    requires liquidity > 0 && Steps.Ahead(cur, far, zeroForOne) && Steps.Ahead(cur, near, zeroForOne)
    requires Steps.Between(cur, near, far, zeroForOne)
    ensures Steps.ExactOut(cur, near, liquidity, zeroForOne) <= Steps.ExactOut(cur, far, liquidity, zeroForOne)
  {
    if zeroForOne {
      MulMono(cur - near, cur - far, liquidity);
      RoundedMono(liquidity * (cur - near), liquidity * (cur - far), Q96);
    } else {
      SplitExact0(liquidity * Q96, cur, near, far, false);
    }
  }

  lemma RoundedMono(m: nat, n: nat, d: nat)
    requires d > 0 && m <= n
    ensures Rounded(m, d, false) <= Rounded(n, d, false)
  {
    FloorBounds(m, d);
    FloorGalois(m / d, n, d);
  }

  // ----------------------------------------------------------------------- a round

  /** Up to any price on the way to the target, positions gain what the move costs and give up
      what it pays, short of one unit. */
  lemma PartIsTight(w: SwapState, s: Ledger, qs: seq<Position>, limit: U256, zeroForOne: bool, next: int, initialized: bool, v: U256,
                    paidIn: nat, paidOut: nat)
    requires SwapOk(w, s, limit, zeroForOne) && LimitAhead(w.price, limit, zeroForOne) && SameHoldings(s.positions, qs)
    requires SkipsNothing(s, next, initialized, zeroForOne) && Steps.Ahead(w.price, v, zeroForOne)
    requires Steps.Between(w.price, v, Target(next, limit, zeroForOne), zeroForOne)
    ensures paidIn <= Steps.ExactIn(w.price, v, w.liquidity, zeroForOne) ==>
      WorthGrows(s.positions, w.price, qs, v, InToken(zeroForOne), paidIn as real, 1)
    ensures Steps.ExactOut(w.price, v, w.liquidity, zeroForOne) <= paidOut ==>
      WorthGrows(s.positions, w.price, qs, v, OutToken(zeroForOne), -(paidOut as real), 1)
  {
    forall i | 0 <= i < |s.positions|
      ensures s.positions[i].liquidity > 0 ==> Stays(s.positions[i], s.tick, w.price, v)
    {
      if s.positions[i].liquidity > 0 {
        RoundStays(w, s, limit, zeroForOne, next, initialized, v, i);
      }
    }
    hide LedgerOk, SkipsNothing, Target, Stays, Steps.ExactIn, Steps.ExactOut, WorthGrows;
    SegmentIsTight(s, qs, w.price, v, zeroForOne, paidIn, paidOut);
  }

  /** From `c` to `price`, what positions stand for in token k grows by `change` up to one unit. */
  ghost predicate RoundGrows(c: Cursor, c': Cursor, price: U256, k: nat, change: real)
  {
    WorthGrows(c.s.positions, c.w.price, c'.s.positions, price, k, change, 1)
  }

  /** A round's input is within a unit of what positions gain. What they give up is within a unit
      of its output, or, where that fills an exact output, would be one price unit sooner. The fee
      is the configured one, or the round uses an exact input up and its net part would not have
      moved the price one unit farther. */
  ghost predicate DueRound(c: Cursor, c': Cursor, o: Order, step: Steps.Step)
    requires o.fee < Steps.FEE_DENOMINATOR
  {
    && 0 < c'.w.price < MAX_PRICE
    && RoundGrows(c, c', c'.w.price, InToken(o.zeroForOne), step.amountIn as real)
    && (step.amountOut < U128_MAX ==>
          RoundGrows(c, c', if o.exactInput || c'.w.remaining > 0 then c'.w.price else Nearer(c'.w.price, o.zeroForOne),
                     OutToken(o.zeroForOne), -(step.amountOut as real)))
    && (step.feeAmount != Steps.FeeOn(step.amountIn, o.fee) ==>
          && o.exactInput && c'.w.remaining == 0
          && RoundGrows(c, c', Farther(c'.w.price, o.zeroForOne), InToken(o.zeroForOne), Steps.LessFee(c.w.remaining, o.fee) as real))
    && FeesReach(c.s, c'.s, InToken(o.zeroForOne), LpPart(step.feeAmount, o.protocolFraction), 1)
  }

  /** What positions can claim of token k since they were last settled has grown by a fee, less than
      one unit a round short of it, and that of the other token not at all. */
  ghost predicate FeesReach(s: Ledger, s': Ledger, k: nat, fee: nat, rounds: nat)
    requires k < 2
  {
    && Sum(s.positions, OwedPart(k)) + fee * TWO_128 <= Sum(s'.positions, OwedPart(k)) + rounds * TWO_128
    && Sum(s'.positions, OwedPart(1 - k)) == Sum(s.positions, OwedPart(1 - k))
  }

  lemma FeeReaches(s: Ledger, k: nat, fee: U128)
    requires k < 2 && LedgerOk(s) && (s.active > 0 || fee == 0)
    ensures FeesReach(s, AddFee(s, k, fee), k, fee, 1)
  {
    var delta := FeeGrowthDelta(fee, s.active);
    OwedGrows(s.positions, s.tick, k, delta);
    GrowKeepsSums(s.positions, s.tick, k, delta);
    hide FeeGrowthDelta, Sum, Grow;
  }

  lemma StepFeeReaches(s: Ledger, lpFee: U128, next: int, crossing: bool, zeroForOne: bool, tick: int)
    requires LedgerOk(s) && (s.active > 0 || lpFee == 0)
    ensures FeesReach(s, AfterStep(s, lpFee, next, crossing, zeroForOne, tick), InToken(zeroForOne), lpFee, 1)
  {
    hide LedgerOk, AddFee, Sum;
    FeeReaches(s, InToken(zeroForOne), lpFee);
  }

  lemma NoFeeOnNothing(fee: U128)
    requires fee < Steps.FEE_DENOMINATOR
    ensures Steps.FeeOn(0, fee) == 0
  {
  }

  /** What the exactness of a step says of its amounts. */
  lemma ExactAmounts(step: Steps.Step, w: SwapState, target: U256, fee: U128, zeroForOne: bool, exactInput: bool)
    requires fee < Steps.FEE_DENOMINATOR && Steps.Ahead(w.price, target, zeroForOne)
    requires ExactStep(step, w, target, fee, zeroForOne, exactInput)
    ensures Steps.Between(w.price, step.sqrtNext, target, zeroForOne) && Steps.Ahead(w.price, step.sqrtNext, zeroForOne)
    ensures step.amountIn <= Steps.ExactIn(w.price, step.sqrtNext, w.liquidity, zeroForOne)
    ensures step.amountOut < U128_MAX && (exactInput || step.amountOut < w.remaining) ==>
      Steps.ExactOut(w.price, step.sqrtNext, w.liquidity, zeroForOne) <= step.amountOut
    ensures step.feeAmount != Steps.FeeOn(step.amountIn, fee) ==> exactInput && step.sqrtNext != target
    ensures exactInput || step.amountOut <= w.remaining
  {
    hide Steps.ExactIn, Steps.ExactOut, Steps.LessFee, Steps.FeeOn, Steps.FeeCovers, Steps.Farthest, Steps.Nearest;
    if w.liquidity == 0 {
      FreeWithoutLiquidity(w.price, target, zeroForOne);
      NoFeeOnNothing(fee);
    }
  }

  lemma DueAmounts(c: Cursor, c': Cursor, o: Order, next: int, initialized: bool, step: Steps.Step)
    requires o.fee < Steps.FEE_DENOMINATOR && c.w.remaining > 0
    requires SwapOk(c.w, c.s, o.limit, o.zeroForOne) && LimitAhead(c.w.price, o.limit, o.zeroForOne)
    requires SkipsNothing(c.s, next, initialized, o.zeroForOne) && SameHoldings(c.s.positions, c'.s.positions)
    requires Steps.Ahead(c.w.price, Target(next, o.limit, o.zeroForOne), o.zeroForOne)
    requires ExactStep(step, c.w, Target(next, o.limit, o.zeroForOne), o.fee, o.zeroForOne, o.exactInput)
    requires c'.w.price == step.sqrtNext && c'.w.remaining == Account(c.w, step, o.exactInput).0
    requires o.exactInput && step.sqrtNext != Target(next, o.limit, o.zeroForOne) ==> c'.w.remaining == 0
    requires FeesReach(c.s, c'.s, InToken(o.zeroForOne), LpPart(step.feeAmount, o.protocolFraction), 1)
    ensures DueRound(c, c', o, step)
  {
    var target, z, v := Target(next, o.limit, o.zeroForOne), o.zeroForOne, step.sqrtNext;
    hide Target, SwapOk, LimitAhead, SkipsNothing, SameHoldings, ExactStep, WorthGrows, Steps.ExactIn, Steps.ExactOut, Steps.LessFee, Steps.FeeOn,
      FeesReach, LpPart;
    ExactAmounts(step, c.w, target, o.fee, z, o.exactInput);
    PartIsTight(c.w, c.s, c'.s.positions, o.limit, z, next, initialized, v, step.amountIn, step.amountOut);
    if !o.exactInput && c'.w.remaining == 0 && step.amountOut < U128_MAX {
      OutputReaches(step, c.w, target, o.fee, z);
      PartIsTight(c.w, c.s, c'.s.positions, o.limit, z, next, initialized, Nearer(v, z), step.amountIn, step.amountOut);
    }
    if o.exactInput && v != target {
      InputReaches(step, c.w, target, o.fee, z);
      PartIsTight(c.w, c.s, c'.s.positions, o.limit, z, next, initialized, Farther(v, z), Steps.LessFee(c.w.remaining, o.fee), step.amountOut);
    }
  }

  lemma RoundFeeReaches(c: Cursor, next: int, initialized: bool, step: Steps.Step, o: Order, target: U256)
    requires o.fee < Steps.FEE_DENOMINATOR && LedgerOk(c.s) && c.w.liquidity == c.s.active && Steps.Ahead(c.w.price, target, o.zeroForOne)
    requires ExactStep(step, c.w, target, o.fee, o.zeroForOne, o.exactInput)
    ensures FeesReach(c.s, AfterRound(c, next, initialized, step, o).s, InToken(o.zeroForOne), LpPart(step.feeAmount, o.protocolFraction), 1)
  {
    if c.w.liquidity == 0 {
      NothingForNothing(o.protocolFraction);
    }
    hide LedgerOk, AfterStep, FeesReach, LpPart, Steps.FairInputStep, Steps.FairOutputStep, P, NewTick;
    StepFeeReaches(c.s, LpPart(step.feeAmount, o.protocolFraction), next, step.sqrtNext == P(next) && initialized, o.zeroForOne,
                   NewTick(c.w.tick, c.w.price, next, step.sqrtNext, o.zeroForOne));
  }

  lemma NothingForNothing(protocolFraction: nat)
    ensures LpPart(0, protocolFraction) == 0
  {
    DivModUnique(0, Steps.FEE_DENOMINATOR, 0, 0);
  }

  lemma RoundIsDue(chunks: map<int, Chunk>, c: Cursor, o: Order, step: Steps.Step)
    requires Ready(chunks, c, o) && c.w.price != o.limit && c.w.remaining > 0
    requires StepOf(c.w, Search.SearchAnswer(chunks, c.w.tick, o.spacing, o.zeroForOne).0, o) == Some(step)
    ensures var (next, initialized) := Search.SearchAnswer(chunks, c.w.tick, o.spacing, o.zeroForOne);
      var c' := AfterRound(c, next, initialized, step, o);
      DueRound(c, c', o, step) && c'.t == AddStep(c.t, step, o.protocolFraction)
  {
    var (next, initialized) := Search.SearchAnswer(chunks, c.w.tick, o.spacing, o.zeroForOne);
    var c' := AfterRound(c, next, initialized, step, o);
    RoundStep(chunks, c, o);
    RoundReady(chunks, c, o, step);
    var target := Target(next, o.limit, o.zeroForOne);
    StepIsExact(c.w, target, o.fee, o.zeroForOne, o.exactInput);
    hide P, LedgerOk, OnLadder, Records, LastOk, SkipsNothing, LedgerAfter, Steps.ComputeSwapStep, PaidFor, SameHoldings, FeesGrew, LpPart,
      Search.SearchAnswer, Target, ExactStep, WorthGrows, FairStep, Steps.ExactIn, Steps.ExactOut, Steps.LessFee, Steps.FeeOn, FeesReach;
    RoundFeeReaches(c, next, initialized, step, o, target);
    DueAmounts(c, c', o, next, initialized, step);
  }

  // ------------------------------------------------------------------ the whole swap

  /** Fees exceed the configured share of what was paid by less than a unit a round. */
  predicate FeeAtMost(paid: nat, charged: nat, fee: U128, rounds: nat)
    requires fee < Steps.FEE_DENOMINATOR
  {
    charged * (Steps.FEE_DENOMINATOR - fee) <= paid * fee + rounds * (Steps.FEE_DENOMINATOR - fee)
  }

  /** The protocol gets its fraction of the fees, less than a unit a round short of it. */
  predicate ProtocolGets(t: Totals, protocolFraction: nat)
  {
    var cut := t.charged - t.toProviders;
    cut * Steps.FEE_DENOMINATOR <= t.charged * protocolFraction <= (cut + t.rounds) * Steps.FEE_DENOMINATOR
  }

  /** An amount less the configured fee on it, not rounded. */
  function NetOf(amount: nat, fee: U128): real
    requires fee < Steps.FEE_DENOMINATOR
  {
    (amount * (Steps.FEE_DENOMINATOR - fee)) as real / Steps.FEE_DENOMINATOR as real
  }

  /** Since the start, what positions stand for at `price` in token k has grown by `change`, up to
      so many units. */
  ghost predicate Grown(s0: Ledger, price0: U256, c: Cursor, price: U256, k: nat, change: real, slack: nat)
  {
    WorthGrows(s0.positions, price0, c.s.positions, price, k, change, slack)
  }

  /** Where a swap stops paying: at its price, or one unit sooner when an exact output is filled. */
  function PaidUpTo(c: Cursor, o: Order): U256
    requires 0 < c.w.price < MAX_PRICE
  {
    if o.exactInput || c.w.remaining > 0 then c.w.price else Nearer(c.w.price, o.zeroForOne)
  }

  /** What a swap owes, up to a unit of each token a round: positions gained what was paid in, gave
      up no more than was paid out, and the fee is the configured one, or an exact input is used
      up and would not have moved the price one unit farther; the protocol gets
      its fraction of it, and what positions can claim grows by the rest. */
  ghost predicate Due(s0: Ledger, price0: U256, amount: U128, c: Cursor, o: Order)
    requires o.fee < Steps.FEE_DENOMINATOR
  {
    && 0 < c.w.price < MAX_PRICE
    && Grown(s0, price0, c, c.w.price, InToken(o.zeroForOne), c.t.paidIn as real, c.t.rounds)
    && (c.t.paidOut < U128_MAX ==>
          Grown(s0, price0, c, PaidUpTo(c, o), OutToken(o.zeroForOne), -(c.t.paidOut as real), c.t.rounds))
    && (!FeeAtMost(c.t.paidIn, c.t.charged, o.fee, c.t.rounds) ==>
          && o.exactInput && c.w.remaining == 0
          && Grown(s0, price0, c, Farther(c.w.price, o.zeroForOne), InToken(o.zeroForOne), NetOf(amount, o.fee), 2 * c.t.rounds))
    && ProtocolGets(c.t, o.protocolFraction) && FeesReach(s0, c.s, InToken(o.zeroForOne), c.t.toProviders, c.t.rounds)
  }

  /** Rounds are no more than the ticks passed, and one. */
  predicate FewRounds(tick0: int, c: Cursor, o: Order)
  {
    if Live(c.w, o.limit) then -1 <= Distance(c.w.tick, o.zeroForOne) <= Distance(tick0, o.zeroForOne) - c.t.rounds
    else c.t.rounds <= Distance(tick0, o.zeroForOne) + 1
  }

  lemma FeeGoesOn(paid: nat, charged: nat, rounds: nat, spent: nat, fee: U128)
    requires fee < Steps.FEE_DENOMINATOR && FeeAtMost(paid, charged, fee, rounds)
    ensures FeeAtMost(paid + spent, charged + Steps.FeeOn(spent, fee), fee, rounds + 1)
  {
    CeilBounds(spent * fee, Steps.FEE_DENOMINATOR - fee);
  }

  /** An amount whose fee is within a unit a round, but for a rest whose net is `last`: all of it net
      is within that of what was paid. */
  lemma NetIsPaid(paid: nat, charged: nat, fee: U128, rounds: nat, rest: nat, last: nat)
    requires fee < Steps.FEE_DENOMINATOR && FeeAtMost(paid, charged, fee, rounds) && last == Steps.LessFee(rest, fee)
    ensures NetOf(paid + charged + rest, fee) <= (paid + last + rounds + 1) as real
    ensures rest == 0 ==> NetOf(paid + charged + rest, fee) <= (paid + rounds) as real
  {
    var c: nat := Steps.FEE_DENOMINATOR - fee;
    var amount := paid + charged + rest;
    FloorBounds(rest * c, Steps.FEE_DENOMINATOR);
    assert amount * c == paid * c + charged * c + rest * c;
    assert paid * c + paid * fee == paid * Steps.FEE_DENOMINATOR;
    MulMono(c, Steps.FEE_DENOMINATOR, rounds);
    AtMostReal(amount * c, Steps.FEE_DENOMINATOR, paid + last + rounds + 1);
    if rest == 0 {
      AtMostReal(amount * c, Steps.FEE_DENOMINATOR, paid + rounds);
    }
  }

  lemma AtMostReal(n: nat, d: nat, m: nat)
    requires d > 0
    ensures n <= m * d ==> n as real / d as real <= m as real
  {
    if n <= m * d {
      RealProduct(m, d);
      QuotientTimes(n as real, d as real);
      RealCancel(n as real / d as real, m as real, d as real);
    }
  }

  lemma DueGoesOn(s0: Ledger, price0: U256, amount: U128, c: Cursor, c': Cursor, o: Order, step: Steps.Step)
    requires o.fee < Steps.FEE_DENOMINATOR && Due(s0, price0, amount, c, o) && DueRound(c, c', o, step)
    requires c.w.remaining > 0 && c'.t == AddStep(c.t, step, o.protocolFraction) && o.protocolFraction <= Steps.FEE_DENOMINATOR
    requires o.exactInput ==> c.w.remaining == amount - c.t.paidIn - c.t.charged
    ensures Due(s0, price0, amount, c', o)
  {
    var i, out := InToken(o.zeroForOne), OutToken(o.zeroForOne);
    var ps, qs, rs, p, q := s0.positions, c.s.positions, c'.s.positions, c.w.price, c'.w.price;
    hide WorthGrows, FeeAtMost, NetOf, Steps.FeeOn, Steps.LessFee, LpPart, ProtocolGets, Sum;
    CutGoesOn(c.t, step, o.protocolFraction);
    WorthGrowsOn(ps, price0, qs, p, rs, q, i, c.t.paidIn as real, c.t.rounds, step.amountIn as real, 1);
    if c'.t.paidOut < U128_MAX {
      WorthGrowsOn(ps, price0, qs, p, rs, PaidUpTo(c', o), out, -(c.t.paidOut as real), c.t.rounds, -(step.amountOut as real), 1);
    }
    if step.feeAmount == Steps.FeeOn(step.amountIn, o.fee) {
      FeeGoesOn(c.t.paidIn, c.t.charged, c.t.rounds, step.amountIn, o.fee);
    } else {
      var last := Steps.LessFee(c.w.remaining, o.fee);
      NetIsPaid(c.t.paidIn, c.t.charged, o.fee, c.t.rounds, c.w.remaining, last);
      WorthGrowsOn(ps, price0, qs, p, rs, Farther(q, o.zeroForOne), i, c.t.paidIn as real, c.t.rounds, last as real, 1);
      GrowsLess(ps, price0, rs, Farther(q, o.zeroForOne), i, c.t.paidIn as real + last as real, c.t.rounds + 1, NetOf(amount, o.fee), c.t.rounds + 1);
    }
  }

  lemma CutGoesOn(t: Totals, step: Steps.Step, protocolFraction: nat)
    requires ProtocolGets(t, protocolFraction) && protocolFraction <= Steps.FEE_DENOMINATOR
    ensures ProtocolGets(AddStep(t, step, protocolFraction), protocolFraction)
  {
    PartOfTheFee(step.feeAmount, protocolFraction);
    hide LpPart;
    assert (t.charged + step.feeAmount) * protocolFraction == t.charged * protocolFraction + step.feeAmount * protocolFraction;
  }

  /** Units of growth turn into units of slack. */
  lemma GrowsLess(ps: seq<Position>, a: U256, qs: seq<Position>, b: U256, k: nat, change: real, slack: nat, less: real, more: nat)
    requires WorthGrows(ps, a, qs, b, k, change, slack) && less <= change + more as real
    ensures WorthGrows(ps, a, qs, b, k, less, slack + more)
  {
    hide Worth;
  }

  lemma StartsDue(s: Ledger, price: U256, amount: U128, o: Order)
    requires o.fee < Steps.FEE_DENOMINATOR && OnLadder(s.tick, price) && amount > 0
    ensures Due(s, price, amount, Start(s, price, amount), o) && FewRounds(s.tick, Start(s, price, amount), o)
  {
    Positive(s.tick);
    Positive(s.tick + 1);
    hide P, Worth;
  }

  lemma {:induction false} LoopIsDue(chunks: map<int, Chunk>, bound: int, c: Cursor, o: Order, s0: Ledger, price0: U256, amount: U128)
    requires Ready(chunks, c, o) && Since(s0, price0, amount, c, o)
    requires Due(s0, price0, amount, c, o) && FewRounds(s0.tick, c, o) && o.protocolFraction <= Steps.FEE_DENOMINATOR
    ensures var end := Loop(chunks, bound, c, o);
      end.Some? ==> Due(s0, price0, amount, end.value, o) && FewRounds(s0.tick, end.value, o)
    decreases Live(c.w, o.limit), Distance(c.w.tick, o.zeroForOne)
  {
    ReadyIsSpaced(chunks, c, o);
    hide Ready, Since, Round, FairRound, Due, DueRound;
    if !Over(c.w, bound, o) && Round(chunks, c, o).Some? {
      var c' := Round(chunks, c, o).value;
      RoundGoesOn(chunks, c, o);
      SinceRound(chunks, c, o, s0, price0, amount);
      DueAfter(chunks, c, o, s0, price0, amount);
      LoopIsDue(chunks, bound, c', o, s0, price0, amount);
    }
  }

  lemma SinceRound(chunks: map<int, Chunk>, c: Cursor, o: Order, s0: Ledger, price0: U256, amount: U128)
    requires Ready(chunks, c, o) && c.w.price != o.limit && Round(chunks, c, o).Some? && Since(s0, price0, amount, c, o)
    ensures Since(s0, price0, amount, Round(chunks, c, o).value, o)
  {
    ReadyIsSpaced(chunks, c, o);
    hide Ready, Since, Round, FairRound;
    var step, target := RoundKeeps(chunks, c, o);
    SinceGoesOn(s0, price0, amount, c, Round(chunks, c, o).value, o, step, target);
  }

  lemma DueAfter(chunks: map<int, Chunk>, c: Cursor, o: Order, s0: Ledger, price0: U256, amount: U128)
    requires Ready(chunks, c, o) && Live(c.w, o.limit) && Round(chunks, c, o).Some? && Since(s0, price0, amount, c, o)
    requires Due(s0, price0, amount, c, o) && o.protocolFraction <= Steps.FEE_DENOMINATOR
    ensures Due(s0, price0, amount, Round(chunks, c, o).value, o)
  {
    ReadyIsSpaced(chunks, c, o);
    var (next, initialized) := Search.SearchAnswer(chunks, c.w.tick, o.spacing, o.zeroForOne);
    var step := StepOf(c.w, next, o).value;
    hide Ready, Due, DueRound, AfterRound, StepOf, Settled, Search.SearchAnswer, Steps.FeeCovers;
    RoundIsDue(chunks, c, o, step);
    DueGoesOn(s0, price0, amount, c, AfterRound(c, next, initialized, step, o), o, step);
  }

  /** A swap that ends owes nothing: within a unit of each token a round, positions have gained what
      was paid in, and gave up what was paid out (up to one price unit before the end when an
      exact output was filled); the fee is the configured share of what was paid within a unit a
      round, or an exact input is used up, and its part net of the fee is no more than what
      positions would have gained one price unit farther; the protocol has its fraction of the fee,
      and positions can claim the rest. There is at most one round more than there are ticks ahead. */
  lemma SwapIsDue(chunks: map<int, Chunk>, bound: int, s: Ledger, price: U256, amount: U128, o: Order)
    requires MaySwap(chunks, s, price, o)
    ensures var end := Swap(chunks, bound, s, price, amount, o);
      end.Some? ==> Due(s, price, amount, end.value, o) && end.value.t.rounds <= Distance(s.tick, o.zeroForOne) + 1
  {
    hide LedgerOk, OnLadder, Records, Due, Loop, Ready, Since, LimitAhead;
    if amount > 0 {
      StartReady(chunks, s, price, amount, o);
      StartsSince(s, price, amount, o);
      StartsDue(s, price, amount, o);
      LoopIsDue(chunks, bound, Start(s, price, amount), o, s, price, amount);
    }
  }

  /** What was paid in but the fee is what positions have gained, or would have one price unit
      farther, where an exact input is used up. */
  ghost predicate PaysPositions(s0: Ledger, price0: U256, c: Cursor, o: Order, paid: nat)
    requires o.fee < Steps.FEE_DENOMINATOR && 0 < c.w.price < MAX_PRICE
  {
    var k, net, slack := InToken(o.zeroForOne), NetOf(paid, o.fee), 2 * c.t.rounds;
    || Grown(s0, price0, c, c.w.price, k, net, slack)
    || (o.exactInput && c.w.remaining == 0 && Grown(s0, price0, c, Farther(c.w.price, o.zeroForOne), k, net, slack))
  }

  lemma DuePays(s0: Ledger, price0: U256, amount: U128, c: Cursor, o: Order)
    requires o.fee < Steps.FEE_DENOMINATOR && Due(s0, price0, amount, c, o)
    requires o.exactInput ==> amount - c.w.remaining == c.t.paidIn + c.t.charged
    ensures PaysPositions(s0, price0, c, o, c.t.paidIn + c.t.charged)
  {
    hide WorthGrows, NetOf, FeeAtMost;
    if FeeAtMost(c.t.paidIn, c.t.charged, o.fee, c.t.rounds) {
      NetIsPaid(c.t.paidIn, c.t.charged, o.fee, c.t.rounds, 0, Steps.LessFee(0, o.fee));
      GrowsLess(s0.positions, price0, c.s.positions, c.w.price, InToken(o.zeroForOne), c.t.paidIn as real, c.t.rounds,
                NetOf(c.t.paidIn + c.t.charged, o.fee), c.t.rounds);
    }
  }
}
