/** One step of the concentrated swap loop: `compute_swap_step`
    (liquidity_pool_concentrated/src/contract/internal.rs). */
module SwapStep {
  import opened Words
  import opened PriceMath
  import opened NextPrice

  const FEE_DENOMINATOR: U128 := 10_000

  datatype Step = Step(sqrtNext: U256, amountIn: U128, amountOut: U128, feeAmount: U128)

  /** `mul_div_u128`; None is a panic. */
  function MulDivU128(amount: U128, numerator: U128, denominator: U128, up: bool): Option<U128>
  {
    if denominator == 0 then None
    else
      var v := Rounded(amount * numerator, denominator, up);
      if v < TWO_128 then Some(v) else None
  }

  function Max(a: U256, b: U256): U256 { if a >= b then a else b }
  function Min(a: U256, b: U256): U256 { if a <= b then a else b }

  function Clamp(computed: U256, target: U256, zeroForOne: bool): U256
  {
    if zeroForOne then Max(computed, target) else Min(computed, target)
  }

  function NextFromInput(price: U256, liquidity: U128, amount: U128, zeroForOne: bool): Option<U256>
  {
    if zeroForOne then NextFromAmount0(price, liquidity, amount, true)
    else NextFromAmount1(price, liquidity, amount, true)
  }

  function NextFromOutput(price: U256, liquidity: U128, amount: U128, zeroForOne: bool): Option<U256>
  {
    if zeroForOne then NextFromAmount1(price, liquidity, amount, false)
    else NextFromAmount0(price, liquidity, amount, false)
  }

  /** Input of the move `from -> to`, rounded up. */
  function TryInput(from: U256, to: U256, liquidity: U128, zeroForOne: bool): Option<U128>
  {
    if zeroForOne then TryAmount0Delta(to, from, liquidity, true)
    else TryAmount1Delta(from, to, liquidity, true)
  }

  /** Output of the move `from -> to`, rounded down. */
  function TryOutput(from: U256, to: U256, liquidity: U128, zeroForOne: bool): Option<U128>
  {
    if zeroForOne then TryAmount1Delta(to, from, liquidity, false)
    else TryAmount0Delta(from, to, liquidity, false)
  }

  function Input(from: U256, to: U256, liquidity: U128, zeroForOne: bool): Option<U128>
  {
    if zeroForOne then Amount0Delta(to, from, liquidity, true)
    else Amount1Delta(from, to, liquidity, true)
  }

  function Output(from: U256, to: U256, liquidity: U128, zeroForOne: bool): Option<U128>
  {
    if zeroForOne then Amount1Delta(to, from, liquidity, false)
    else Amount0Delta(from, to, liquidity, false)
  }

  function SaturatingSub(a: U128, b: U128): U128
  {
    if a >= b then a - b else 0
  }

  /** The price an exact-input step stops at. */
  function ExactInputStop(cur: U256, target: U256, liquidity: U128, lessFee: U128, zeroForOne: bool): Option<U256>
  {
    var toTarget := TryInput(cur, target, liquidity, zeroForOne);
    if toTarget.Some? && lessFee >= toTarget.value then Some(target)
    else
      var computed := NextFromInput(cur, liquidity, lessFee, zeroForOne);
      if computed.None? then None else Some(Clamp(computed.value, target, zeroForOne))
  }

  /** The price an exact-output step stops at. */
  function ExactOutputStop(cur: U256, target: U256, liquidity: U128, wanted: U128, zeroForOne: bool): Option<U256>
  {
    var toTarget := TryOutput(cur, target, liquidity, zeroForOne);
    if toTarget.Some? && wanted >= toTarget.value then Some(target)
    else
      var computed := NextFromOutput(cur, liquidity, wanted, zeroForOne);
      if computed.None? then None else Some(Clamp(computed.value, target, zeroForOne))
  }

  /** `compute_swap_step`; None is a panic. */
  function ComputeSwapStep(cur: U256, target: U256, liquidity: U128, remaining: U128, fee: U128,
                           zeroForOne: bool, exactInput: bool): Option<Step>
    requires fee < FEE_DENOMINATOR
  {
    if liquidity == 0 then Some(Step(target, 0, 0, 0))
    else
      var complement: U128 := FEE_DENOMINATOR - fee;
      if exactInput then
        var lessFee := MulDivU128(remaining, complement, FEE_DENOMINATOR, false);
        if lessFee.None? then None
        else
          var next := ExactInputStop(cur, target, liquidity, lessFee.value, zeroForOne);
          if next.None? then None
          else
            var amountIn := Input(cur, next.value, liquidity, zeroForOne);
            var amountOut := Output(cur, next.value, liquidity, zeroForOne);
            if amountIn.None? || amountOut.None? then None
            else
              var feeAmount := if next.value == target
                then MulDivU128(amountIn.value, fee, complement, true)
                else Some(SaturatingSub(remaining, amountIn.value));
              if feeAmount.None? then None
              else Some(Step(next.value, amountIn.value, amountOut.value, feeAmount.value))
      else
        var next := ExactOutputStop(cur, target, liquidity, remaining, zeroForOne);
        if next.None? then None
        else
          var amountIn := Input(cur, next.value, liquidity, zeroForOne);
          var amountOut := Output(cur, next.value, liquidity, zeroForOne);
          if amountIn.None? || amountOut.None? then None
          else
            var feeAmount := MulDivU128(amountIn.value, fee, complement, true);
            if feeAmount.None? then None
            else Some(Step(next.value, amountIn.value, Min(amountOut.value, remaining), feeAmount.value))
  }

  // -------------------------------------------------------- where a step stops

  /** Prices of a pool, with the target ahead of the current one. */
  ghost predicate Ahead(cur: U256, target: U256, zeroForOne: bool)
  {
    0 < cur < MAX_PRICE && 0 < target < MAX_PRICE && if zeroForOne then target <= cur else cur <= target
  }

  ghost predicate Between(cur: U256, next: U256, target: U256, zeroForOne: bool)
  {
    if zeroForOne then target <= next <= cur else cur <= next <= target
  }

  /** The unrounded-to-u128 input of a move, and its output. */
  function ExactIn(cur: U256, next: U256, liquidity: U128, zeroForOne: bool): nat
    requires cur > 0 && next > 0 && if zeroForOne then next <= cur else cur <= next
  {
    if zeroForOne then Exact0(liquidity * Q96, next, cur, true) else Exact1(liquidity, cur, next, true)
  }

  function ExactOut(cur: U256, next: U256, liquidity: U128, zeroForOne: bool): nat
    requires cur > 0 && next > 0 && if zeroForOne then next <= cur else cur <= next
  {
    if zeroForOne then Exact1(liquidity, next, cur, false) else Exact0(liquidity * Q96, cur, next, false)
  }

  lemma MoveAmounts(cur: U256, next: U256, liquidity: U128, zeroForOne: bool)
    requires Ahead(cur, next, zeroForOne)
    ensures var i := ExactIn(cur, next, liquidity, zeroForOne);
      && TryInput(cur, next, liquidity, zeroForOne) == (if i < TWO_128 then Some(i) else None)
      && Input(cur, next, liquidity, zeroForOne) == Some(if i < TWO_128 then i else U128_MAX)
    ensures var o := ExactOut(cur, next, liquidity, zeroForOne);
      && TryOutput(cur, next, liquidity, zeroForOne) == (if o < TWO_128 then Some(o) else None)
      && Output(cur, next, liquidity, zeroForOne) == Some(if o < TWO_128 then o else U128_MAX)
  {
    if zeroForOne {
      Amount0IsSingleRounding(next, cur, liquidity, true);
      Amount1IsSingleRounding(next, cur, liquidity, false);
    } else {
      Amount1IsSingleRounding(cur, next, liquidity, true);
      Amount0IsSingleRounding(cur, next, liquidity, false);
    }
  }

  /** A shorter move costs no more. */
  lemma InputMonotone(cur: U256, near: U256, far: U256, liquidity: U128, zeroForOne: bool)
    requires liquidity > 0 && Ahead(cur, far, zeroForOne) && Ahead(cur, near, zeroForOne)
    requires Between(cur, near, far, zeroForOne)
    ensures ExactIn(cur, near, liquidity, zeroForOne) <= ExactIn(cur, far, liquidity, zeroForOne)
  {
    var amount := ExactIn(cur, far, liquidity, zeroForOne);
    if zeroForOne {
      InputExtreme0(liquidity * Q96, cur, amount, far);
      InputExtreme0(liquidity * Q96, cur, amount, near);
    } else {
      InputExtreme1(liquidity, cur, amount, far);
      InputExtreme1(liquidity, cur, amount, near);
    }
  }

  /** The denominator of a token0 input's price leaves 256 bits, though the product in it does
      not. */
  predicate Overflows(price: U256, liquidity: U128, amount: U128)
  {
    amount * price < TWO_256 <= liquidity * Q96 + amount * price
  }

  lemma NumeratorFits(liquidity: U128)
    ensures liquidity * Q96 < TWO_256
  {
  }

  /** `v` lies farther on the way than `next`. */
  predicate Beyond(cur: U256, next: U256, v: U256, zeroForOne: bool)
  {
    if zeroForOne then v < next <= cur else cur <= next < v
  }

  /** Moving to `v` costs all of an input, and more unless the token0 price of that input is the
      fallback's. */
  ghost predicate Costs(cur: U256, v: U256, liquidity: U128, amount: U128, zeroForOne: bool)
    requires cur > 0 && v > 0 && if zeroForOne then v <= cur else cur <= v
  {
    var cost := ExactIn(cur, v, liquidity, zeroForOne);
    amount <= cost && (!zeroForOne || amount * cur < TWO_256 ==> amount < cost)
  }

  /** The computed price of an input: its cost is covered, and the input does not reach farther. */
  lemma ComputedFromInput(cur: U256, liquidity: U128, amount: U128, zeroForOne: bool)
    requires 0 < cur < MAX_PRICE && liquidity > 0
    ensures var r := NextFromInput(cur, liquidity, amount, zeroForOne);
      && (r == None <==> zeroForOne && Overflows(cur, liquidity, amount))
      && (r.Some? ==>
            && r.value > 0
            && (if zeroForOne then r.value <= cur else cur <= r.value)
            && ExactIn(cur, r.value, liquidity, zeroForOne) <= amount
            && forall v: U256 | v > 0 && Beyond(cur, r.value, v, zeroForOne) :: Costs(cur, v, liquidity, amount, zeroForOne))
  {
    if zeroForOne {
      InputPrice0(cur, liquidity, amount);
      NumeratorFits(liquidity);
    } else {
      InputPrice1(cur, liquidity, amount);
      QuotientFits(amount, liquidity);
      assert amount * Q96 < 0x1_00000000_00000000_00000000_00000000_00000000_00000000_00000000;
    }
  }

  /** The input does not reach beyond `next`. */
  ghost predicate Farthest(cur: U256, next: U256, target: U256, liquidity: U128, amount: U128, zeroForOne: bool)
    requires Ahead(cur, target, zeroForOne)
  {
    forall v: U256 | Between(cur, v, target, zeroForOne) && Beyond(cur, next, v, zeroForOne) ::
      Costs(cur, v, liquidity, amount, zeroForOne)
  }

  /** An exact-input step stops at the target exactly when the input reaches it, otherwise
      strictly before it, where the move is paid for and one that goes on takes all of the input. */
  lemma InputStop(cur: U256, target: U256, liquidity: U128, lessFee: U128, zeroForOne: bool)
    requires liquidity > 0 && Ahead(cur, target, zeroForOne)
    ensures var next := ExactInputStop(cur, target, liquidity, lessFee, zeroForOne);
      && (next == None <==> zeroForOne && ExactIn(cur, target, liquidity, zeroForOne) > lessFee && Overflows(cur, liquidity, lessFee))
      && (next.Some? ==>
            && 0 < next.value < MAX_PRICE
            && Between(cur, next.value, target, zeroForOne)
            && ExactIn(cur, next.value, liquidity, zeroForOne) <= lessFee
            && (next.value == target <==> ExactIn(cur, target, liquidity, zeroForOne) <= lessFee)
            && Farthest(cur, next.value, target, liquidity, lessFee, zeroForOne))
  {
    MoveAmounts(cur, target, liquidity, zeroForOne);
    if ExactIn(cur, target, liquidity, zeroForOne) > lessFee {
      ComputedFromInput(cur, liquidity, lessFee, zeroForOne);
      var r := NextFromInput(cur, liquidity, lessFee, zeroForOne);
      if r.Some? && (if zeroForOne then r.value <= target else target <= r.value) {
        if r.value < MAX_PRICE {
          InputMonotone(cur, target, r.value, liquidity, zeroForOne);
        } else {
          InputExtreme1(liquidity, cur, lessFee, r.value);
          InputExtreme1(liquidity, cur, lessFee, target);
        }
        assert false;
      }
    }
  }

  /** Exactly the prices from `next` on pay what is wanted. */
  ghost predicate Nearest(cur: U256, next: U256, target: U256, liquidity: U128, wanted: U128, zeroForOne: bool)
    requires Ahead(cur, target, zeroForOne)
  {
    forall v: U256 | Between(cur, v, target, zeroForOne) ::
      wanted <= ExactOut(cur, v, liquidity, zeroForOne) <==> Between(next, v, target, zeroForOne)
  }

  /** An exact-output step never panics on its price: it stops at the target when the move
      pays no more than wanted, and otherwise at the nearest price that pays enough. */
  lemma OutputStop(cur: U256, target: U256, liquidity: U128, wanted: U128, zeroForOne: bool)
    requires liquidity > 0 && Ahead(cur, target, zeroForOne)
    ensures var next := ExactOutputStop(cur, target, liquidity, wanted, zeroForOne);
      && next.Some? && 0 < next.value < MAX_PRICE
      && Between(cur, next.value, target, zeroForOne)
      && (if ExactOut(cur, target, liquidity, zeroForOne) <= wanted then next.value == target
          else Nearest(cur, next.value, target, liquidity, wanted, zeroForOne))
  {
    MoveAmounts(cur, target, liquidity, zeroForOne);
    if ExactOut(cur, target, liquidity, zeroForOne) > wanted {
      ComputedFromOutput(cur, target, liquidity, wanted, zeroForOne);
      hide ExactOut, NextFromOutput, Nearest, TryOutput;
    }
  }

  /** The computed price of an output within reach: the nearest that pays it, so none is clamped. */
  lemma ComputedFromOutput(cur: U256, target: U256, liquidity: U128, wanted: U128, zeroForOne: bool)
    requires liquidity > 0 && Ahead(cur, target, zeroForOne) && wanted < ExactOut(cur, target, liquidity, zeroForOne)
    ensures var r := NextFromOutput(cur, liquidity, wanted, zeroForOne);
      && r.Some? && Between(cur, r.value, target, zeroForOne)
      && Nearest(cur, r.value, target, liquidity, wanted, zeroForOne)
  {
    if zeroForOne {
      OutputPrice1(cur, liquidity, wanted);
      OutputExtreme1(liquidity, cur, wanted, target);
    } else if wanted > 0 {
      OutputReach0(liquidity * Q96, cur, target, wanted);
      OutputExtreme0(liquidity * Q96, cur, wanted, target);
      OutputPrice0(cur, liquidity, wanted);
      var r := NextFromOutput(cur, liquidity, wanted, zeroForOne);
      hide NextFromOutput, Exact0, NextFromAmount0;
      forall v: U256 | Between(cur, v, target, zeroForOne)
        ensures wanted <= ExactOut(cur, v, liquidity, zeroForOne) <==> Between(r.value, v, target, zeroForOne)
      {
        OutputExtreme0(liquidity * Q96, cur, wanted, v);
      }
    }
  }

  /** When the whole move pays more than `wanted`, the denominator of the computed price is positive. */
  lemma OutputReach0(n1: nat, cur: nat, target: nat, wanted: nat)
    requires 0 < cur <= target && wanted < Exact0(n1, cur, target, false)
    ensures wanted * cur < n1
  {
    assert cur * target > 0;
    FloorGalois(wanted + 1, n1 * (target - cur), cur * target);
    assert n1 * (target - cur) == n1 * target - n1 * cur;
    assert (wanted + 1) * (cur * target) == (wanted * cur + cur) * target;
    assert n1 * cur >= 0;
    MulCancel(wanted * cur + cur, n1, target);
  }

  // ------------------------------------------------------------ whole steps

  /** What is left of an input after the fee, rounded down. */
  function LessFee(remaining: nat, fee: nat): (r: nat)
    requires fee < FEE_DENOMINATOR
    ensures r <= remaining
  {
    MulMono(FEE_DENOMINATOR - fee, FEE_DENOMINATOR, remaining);
    RoundedAtMost(remaining * (FEE_DENOMINATOR - fee), FEE_DENOMINATOR, false, remaining);
    remaining * (FEE_DENOMINATOR - fee) / FEE_DENOMINATOR
  }

  /** The fee on an input net of fee, rounded up. */
  function FeeOn(spent: nat, fee: nat): nat
    requires fee < FEE_DENOMINATOR
  {
    CeilDiv(spent * fee, FEE_DENOMINATOR - fee)
  }

  /** `feeAmount` is at least the configured share of input plus fee. */
  ghost predicate FeeCovers(spent: nat, feeAmount: nat, fee: nat)
    requires fee < FEE_DENOMINATOR
  {
    (spent + feeAmount) * fee <= feeAmount * FEE_DENOMINATOR
  }

  lemma FeeOnIsEnough(spent: nat, fee: nat, charged: nat)
    requires fee < FEE_DENOMINATOR
    ensures FeeCovers(spent, charged, fee) <==> FeeOn(spent, fee) <= charged
  {
    CeilGalois(charged, spent * fee, FEE_DENOMINATOR - fee);
    assert charged * (FEE_DENOMINATOR - fee) == charged * FEE_DENOMINATOR - charged * fee;
    assert (spent + charged) * fee == spent * fee + charged * fee;
  }

  /** Spending at most `LessFee(remaining)` leaves the fee on what was spent. */
  lemma FeeShare(remaining: nat, fee: nat, spent: nat)
    requires fee < FEE_DENOMINATOR
    ensures LessFee(remaining, fee) <= remaining
    ensures spent <= LessFee(remaining, fee) <==> spent + FeeOn(spent, fee) <= remaining
  {
    var complement := FEE_DENOMINATOR - fee;
    FloorGalois(spent, remaining * complement, FEE_DENOMINATOR);
    CeilGalois(remaining - spent, spent * fee, complement);
    FeeSplit(remaining, fee, spent);
  }

  lemma FeeSplit(remaining: int, fee: int, spent: int)
    ensures spent * FEE_DENOMINATOR <= remaining * (FEE_DENOMINATOR - fee)
       <==> spent * fee <= (remaining - spent) * (FEE_DENOMINATOR - fee)
  {
    assert spent * FEE_DENOMINATOR == spent * (FEE_DENOMINATOR - fee) + spent * fee;
    assert (remaining - spent) * (FEE_DENOMINATOR - fee) == remaining * (FEE_DENOMINATOR - fee) - spent * (FEE_DENOMINATOR - fee);
  }

  lemma FeeCalls(remaining: U128, spent: U128, fee: U128)
    requires fee < FEE_DENOMINATOR
    ensures MulDivU128(remaining, FEE_DENOMINATOR - fee, FEE_DENOMINATOR, false) == Some(LessFee(remaining, fee))
    ensures MulDivU128(spent, fee, FEE_DENOMINATOR - fee, true)
         == if FeeOn(spent, fee) < TWO_128 then Some(FeeOn(spent, fee)) else None
  {
    FeeShare(remaining, fee, 0);
  }

  /** What is charged for a move and paid out by it: the exact amounts, u128::MAX when they are larger. */
  function Charged(cur: U256, next: U256, liquidity: U128, zeroForOne: bool): U128
    requires cur > 0 && next > 0 && if zeroForOne then next <= cur else cur <= next
  {
    var cost := ExactIn(cur, next, liquidity, zeroForOne);
    if cost < TWO_128 then cost else U128_MAX
  }

  function Yield(cur: U256, next: U256, liquidity: U128, zeroForOne: bool): U128
    requires cur > 0 && next > 0 && if zeroForOne then next <= cur else cur <= next
  {
    var due := ExactOut(cur, next, liquidity, zeroForOne);
    if due < TWO_128 then due else U128_MAX
  }

  /** What an exact-input step does: it stops at the target when what remains less its fee
      affords it, and else at the farthest price that it affords; it takes the exact rounded-up
      cost of the move and pays its rounded-down output; the fee is the configured one on the
      cost, or all that is left when the step stops early. */
  ghost predicate FairInputStep(s: Step, cur: U256, target: U256, liquidity: U128, remaining: U128, fee: U128, zeroForOne: bool)
    requires fee < FEE_DENOMINATOR && Ahead(cur, target, zeroForOne)
  {
    && Between(cur, s.sqrtNext, target, zeroForOne)
    && s.amountIn + s.feeAmount <= remaining
    && (s.sqrtNext != target ==> s.amountIn + s.feeAmount == remaining)
    && (s.sqrtNext == target <==> ExactIn(cur, target, liquidity, zeroForOne) <= LessFee(remaining, fee))
    && Farthest(cur, s.sqrtNext, target, liquidity, LessFee(remaining, fee), zeroForOne)
    && s.amountIn == ExactIn(cur, s.sqrtNext, liquidity, zeroForOne)
    && s.amountOut == Yield(cur, s.sqrtNext, liquidity, zeroForOne)
    && FeeCovers(s.amountIn, s.feeAmount, fee)
    && (s.sqrtNext == target ==> s.feeAmount == FeeOn(s.amountIn, fee))
  }

  /** The parts of an exact-input step that has a price to stop at. */
  lemma InputStepParts(cur: U256, next: U256, target: U256, liquidity: U128, remaining: U128, fee: U128, zeroForOne: bool)
    requires fee < FEE_DENOMINATOR && liquidity > 0 && Ahead(cur, target, zeroForOne)
    requires ExactInputStop(cur, target, liquidity, LessFee(remaining, fee), zeroForOne) == Some(next)
    requires 0 < next < MAX_PRICE && Between(cur, next, target, zeroForOne)
    requires ExactIn(cur, next, liquidity, zeroForOne) <= LessFee(remaining, fee)
    ensures var r := ComputeSwapStep(cur, target, liquidity, remaining, fee, zeroForOne, true);
      var spent := ExactIn(cur, next, liquidity, zeroForOne);
      && r.Some? && r.value.sqrtNext == next && r.value.amountIn == spent
      && r.value.amountOut == Yield(cur, next, liquidity, zeroForOne)
      && r.value.feeAmount == if next == target then FeeOn(spent, fee) else remaining - spent
  {
    hide ExactInputStop, Input, Output, ExactIn, ExactOut, MulDivU128, LessFee, FeeOn;
    var spent := ExactIn(cur, next, liquidity, zeroForOne);
    FeeShare(remaining, fee, spent);
    FeeCalls(remaining, 0, fee);
    FeeCalls(remaining, spent, fee);
    MoveAmounts(cur, next, liquidity, zeroForOne);
  }

  lemma InputStepFails(cur: U256, target: U256, liquidity: U128, remaining: U128, fee: U128, zeroForOne: bool)
    requires fee < FEE_DENOMINATOR && liquidity > 0
    requires ExactInputStop(cur, target, liquidity, LessFee(remaining, fee), zeroForOne) == None
    ensures ComputeSwapStep(cur, target, liquidity, remaining, fee, zeroForOne, true) == None
  {
    hide ExactInputStop, MulDivU128, LessFee;
    FeeCalls(remaining, 0, fee);
  }

  /** An exact-input step panics exactly when it stops short of its target and the token0
      denominator overflows. */
  lemma ExactInputStep(cur: U256, target: U256, liquidity: U128, remaining: U128, fee: U128, zeroForOne: bool)
    requires fee < FEE_DENOMINATOR && liquidity > 0 && Ahead(cur, target, zeroForOne)
    ensures var r := ComputeSwapStep(cur, target, liquidity, remaining, fee, zeroForOne, true);
      var lessFee := LessFee(remaining, fee);
      && (r == None <==> zeroForOne && ExactIn(cur, target, liquidity, zeroForOne) > lessFee && Overflows(cur, liquidity, lessFee))
      && (r.Some? ==> FairInputStep(r.value, cur, target, liquidity, remaining, fee, zeroForOne))
  {
    hide ComputeSwapStep, Overflows, ExactInputStop, LessFee, FeeOn, FeeCovers, ExactIn, ExactOut, Farthest, Yield;
    var lessFee := LessFee(remaining, fee);
    FeeShare(remaining, fee, 0);
    InputStop(cur, target, liquidity, lessFee, zeroForOne);
    var next := ExactInputStop(cur, target, liquidity, lessFee, zeroForOne);
    if next.Some? {
      InputStepParts(cur, next.value, target, liquidity, remaining, fee, zeroForOne);
      var spent := ExactIn(cur, next.value, liquidity, zeroForOne);
      FeeShare(remaining, fee, spent);
      FeeOnIsEnough(spent, fee, FeeOn(spent, fee));
      FeeOnIsEnough(spent, fee, remaining - spent);
    } else {
      InputStepFails(cur, target, liquidity, remaining, fee, zeroForOne);
    }
  }

  /** What an exact-output step does: it stops at the target when the whole move pays no more
      than wanted, and else at the nearest price that pays it; it pays the rounded-down output of
      the move but no more than wanted, takes its rounded-up cost and charges the fee on it. */
  ghost predicate FairOutputStep(s: Step, cur: U256, target: U256, liquidity: U128, wanted: U128, fee: U128, zeroForOne: bool)
    requires fee < FEE_DENOMINATOR && Ahead(cur, target, zeroForOne)
  {
    && Between(cur, s.sqrtNext, target, zeroForOne)
    && (if ExactOut(cur, target, liquidity, zeroForOne) <= wanted then s.sqrtNext == target
        else s.amountOut == wanted && Nearest(cur, s.sqrtNext, target, liquidity, wanted, zeroForOne))
    && s.amountOut == Min(Yield(cur, s.sqrtNext, liquidity, zeroForOne), wanted)
    && s.amountIn == Charged(cur, s.sqrtNext, liquidity, zeroForOne)
    && s.feeAmount == FeeOn(s.amountIn, fee)
    && FeeCovers(s.amountIn, s.feeAmount, fee)
  }

  /** The only panic of an exact-output step is a fee above u128. */
  lemma ExactOutputStep(cur: U256, target: U256, liquidity: U128, wanted: U128, fee: U128, zeroForOne: bool)
    requires fee < FEE_DENOMINATOR && liquidity > 0 && Ahead(cur, target, zeroForOne)
    ensures var r := ComputeSwapStep(cur, target, liquidity, wanted, fee, zeroForOne, false);
      var next := ExactOutputStop(cur, target, liquidity, wanted, zeroForOne);
      && next.Some? && Between(cur, next.value, target, zeroForOne)
      && (r == None <==> FeeOn(Charged(cur, next.value, liquidity, zeroForOne), fee) >= TWO_128)
      && (r.Some? ==> r.value.sqrtNext == next.value && FairOutputStep(r.value, cur, target, liquidity, wanted, fee, zeroForOne))
  {
    OutputStop(cur, target, liquidity, wanted, zeroForOne);
    var next := ExactOutputStop(cur, target, liquidity, wanted, zeroForOne);
    MoveAmounts(cur, next.value, liquidity, zeroForOne);
    var charged := Charged(cur, next.value, liquidity, zeroForOne);
    FeeCalls(0, charged, fee);
    FeeOnIsEnough(charged, fee, FeeOn(charged, fee));
  }
}
