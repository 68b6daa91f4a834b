/** Quotes of the constant-product pool (liquidity_pool/src/pool.rs). */
module PoolQuotes {
  import opened Words

  const FEE_MULTIPLIER: nat := 10000

  /** Why a call panics. `Host` stands for arithmetic overflow, division by zero and token
      transfers that the token refuses. */
  datatype Error =
    | Host
    | WrongInputVecSize
    | AllCoinsRequired
    | OutMinNotSatisfied
    | InMaxNotSatisfied
    | CannotSwapSameToken
    | InTokenOutOfBounds
    | OutTokenOutOfBounds
    | EmptyPool
    | InvalidDepositAmount
    | FeeOutOfBounds
    | ZeroAmount
    | InsufficientBalance
    | InvariantDoesNotHold
    | MaxIterationsReached

  datatype Result<+T> = Ok(value: T) | Err(error: Error) {
    predicate IsFailure()
    {
      Err?
    }

    function PropagateFailure<U>(): Result<U>
      requires Err?
    {
      Err(error)
    }

    function Extract(): T
      requires Ok?
    {
      value
    }
  }

  /** A 128-bit result, or the panic of an operation that leaves the range. */
  function Checked(x: int): Result<U128>
  {
    if 0 <= x < TWO_128 then Ok(x) else Err(Host)
  }

  function Checked256(x: int): Result<U256>
  {
    if 0 <= x < TWO_256 then Ok(x) else Err(Host)
  }

  /** `fixed_mul_floor` and `fixed_mul_ceil`: the product does not overflow, the result may. */
  function MulDiv128(x: nat, y: nat, d: nat, up: bool): Result<U128>
  {
    if d == 0 then Err(Host) else Checked(Rounded(x * y, d, up))
  }

  function DepositAmounts(desired: (nat, nat), min: (nat, nat), reserves: (nat, nat)): Result<(U128, U128)>
  {
    if reserves.0 == 0 && reserves.1 == 0 then
      var a :- Checked(desired.0);
      var b :- Checked(desired.1);
      Ok((a, b))
    else
      var amountB :- MulDiv128(desired.0, reserves.1, reserves.0, false);
      if amountB <= desired.1 then
        if amountB < min.1 then Err(InvalidDepositAmount)
        else
          var a :- Checked(desired.0);
          Ok((a, amountB))
      else
        var amountA :- MulDiv128(desired.1, reserves.0, reserves.1, false);
        var b :- Checked(desired.1);
        if amountA > desired.0 || amountA < min.0 then Err(InvalidDepositAmount) else Ok((amountA, b))
  }

  /** Amount out and the part of the input kept as fee. */
  function AmountOut(amount: nat, sell: nat, buy: nat, fee: nat): Result<(U128, U128)>
    requires fee <= FEE_MULTIPLIER
  {
    if amount == 0 then Ok((0, 0))
    else
      var gross :- Checked(amount * (FEE_MULTIPLIER - fee));
      var afterFee := gross / FEE_MULTIPLIER;
      var base :- Checked(sell + afterFee);
      var out :- MulDiv128(afterFee, buy, base, false);
      var kept :- Checked(amount - afterFee);
      Ok((out, kept))
  }

  /** Amount in that buys exactly `out`, and the part of it kept as fee. */
  function AmountIn(out: nat, sell: nat, buy: nat, fee: nat): Result<(U128, U128)>
    requires fee <= FEE_MULTIPLIER
  {
    if out == 0 then Ok((0, 0))
    else if out >= buy then Err(InsufficientBalance)
    else
      var afterFee :- MulDiv128(sell, out, buy - out, true);
      var beforeFee :- MulDiv128(afterFee, FEE_MULTIPLIER, FEE_MULTIPLIER - fee, true);
      var kept :- Checked(beforeFee - afterFee);
      Ok((beforeFee, kept))
  }

  // ------------------------------------------------------------------ Galois pair

  /** Input net of fee, before any truncation to 128 bits. */
  function NetOfFee(amount: nat, fee: nat): nat
    requires fee <= FEE_MULTIPLIER
  {
    amount * (FEE_MULTIPLIER - fee) / FEE_MULTIPLIER
  }

  /** Net input that buys `out`. */
  function NetNeeded(out: nat, sell: nat, buy: nat): nat
    requires out < buy
  {
    CeilDiv(sell * out, buy - out)
  }

  /** A net input buys at least `out` exactly when it reaches the net amount needed. */
  lemma NetBuys(net: nat, out: nat, sell: nat, buy: nat)
    requires sell > 0 && out < buy
    ensures net * buy / (sell + net) >= out <==> net >= NetNeeded(out, sell, buy)
  {
    FloorGalois(out, net * buy, sell + net);
    CeilGalois(net, sell * out, buy - out);
    assert out * (sell + net) == sell * out + out * net;
    assert net * (buy - out) == net * buy - out * net;
  }

  /** A gross input leaves at least `net` after the fee exactly when it reaches the gross-up. */
  lemma GrossUp(amount: nat, net: nat, fee: nat)
    requires fee < FEE_MULTIPLIER
    ensures NetOfFee(amount, fee) >= net <==> amount >= CeilDiv(net * FEE_MULTIPLIER, FEE_MULTIPLIER - fee)
  {
    FloorGalois(net, amount * (FEE_MULTIPLIER - fee), FEE_MULTIPLIER);
    CeilGalois(amount, net * FEE_MULTIPLIER, FEE_MULTIPLIER - fee);
  }

  /** Selling at least the strict-receive quote, and nothing less, yields at least the amount
      asked for. A quote that does not fit 128 bits is one no input reaches. */
  lemma QuoteIsSufficientAndMinimal(amount: U128, out: nat, sell: U128, buy: U128, fee: nat)
    requires 0 < sell && 0 < out < buy && fee < FEE_MULTIPLIER
    requires AmountOut(amount, sell, buy, fee).Ok?
    ensures var quote := AmountIn(out, sell, buy, fee);
      AmountOut(amount, sell, buy, fee).value.0 >= out <==> quote.Ok? && amount >= quote.value.0
  {
    var needed := NetNeeded(out, sell, buy);
    var gross := CeilDiv(needed * FEE_MULTIPLIER, FEE_MULTIPLIER - fee);
    assert sell * out > 0;
    CeilGalois(0, sell * out, buy - out);
    NetBuys(NetOfFee(amount, fee), out, sell, buy);
    GrossUp(amount, needed, fee);
    GrossUp(gross, needed, fee);
    NetAtMost(gross, fee);
    NetAtMost(amount, fee);
  }

  lemma NetAtMost(amount: nat, fee: nat)
    requires fee <= FEE_MULTIPLIER
    ensures NetOfFee(amount, fee) <= amount
  {
    MulMono(FEE_MULTIPLIER - fee, FEE_MULTIPLIER, amount);
    FloorGalois(amount + 1, amount * (FEE_MULTIPLIER - fee), FEE_MULTIPLIER);
  }

  // -------------------------------------------------------- what the quotes promise

  /** The price paid never beats the curve: the product of reserves does not fall, even
      when the whole fee leaves the pool. */
  lemma AmountOutKeepsProduct(amount: nat, sell: nat, buy: nat, fee: nat)
    requires sell > 0 && fee <= FEE_MULTIPLIER && AmountOut(amount, sell, buy, fee).Ok?
    ensures var (out, kept) := AmountOut(amount, sell, buy, fee).value;
      && kept == amount - NetOfFee(amount, fee) >= 0
      && (buy > 0 ==> out < buy) && out <= buy
      && (sell + amount - kept) * (buy - out) >= sell * buy
  {
    var out := AmountOut(amount, sell, buy, fee).value.0;
    NetAtMost(amount, fee);
    AmountOutIsMost(amount, sell, buy, fee);
    if amount == 0 {
      DivModUnique(0, FEE_MULTIPLIER, 0, 0);
    }
    assert Buys(NetOfFee(amount, fee), sell, buy, out);
    assert buy > 0 ==> sell * buy > 0;
    hide NetOfFee;
  }

  lemma AmountInKeepsProduct(out: nat, sell: nat, buy: nat, fee: nat)
    requires sell > 0 && 0 < out && fee < FEE_MULTIPLIER && AmountIn(out, sell, buy, fee).Ok?
    ensures var (amount, kept) := AmountIn(out, sell, buy, fee).value;
      && out < buy && 0 <= kept < amount && amount - kept == NetNeeded(out, sell, buy) <= NetOfFee(amount, fee)
      && (sell + amount - kept) * (buy - out) >= sell * buy
  {
    var (amount, kept) := AmountIn(out, sell, buy, fee).value;
    var net := NetNeeded(out, sell, buy);
    hide NetOfFee;
    GrossUp(amount, net, fee);
    NetBuys(net, out, sell, buy);
    BuysUpTo(net, sell, buy, out);
    assert sell * out > 0;
    CeilGalois(0, sell * out, buy - out);
  }

  /** Paying `out` for a net input leaves the product of the reserves as large as it was. */
  predicate Buys(net: nat, sell: nat, buy: nat, out: nat)
  {
    out <= buy && (sell + net) * (buy - out) >= sell * buy
  }

  /** The most that a net input buys. */
  ghost predicate IsOutput(net: nat, sell: nat, buy: nat, out: nat)
  {
    forall v: nat :: Buys(net, sell, buy, v) <==> v <= out
  }

  lemma AmountOutIsMost(amount: nat, sell: nat, buy: nat, fee: nat)
    requires sell > 0 && fee <= FEE_MULTIPLIER && AmountOut(amount, sell, buy, fee).Ok?
    ensures IsOutput(NetOfFee(amount, fee), sell, buy, AmountOut(amount, sell, buy, fee).value.0)
  {
    var out := AmountOut(amount, sell, buy, fee).value.0;
    var net := NetOfFee(amount, fee);
    if amount == 0 {
      DivModUnique(0, FEE_MULTIPLIER, 0, 0);
      DivModUnique(0, sell, 0, 0);
    }
    assert net * buy / (sell + net) == out;
    hide AmountOut, NetOfFee;
    forall v: nat
      ensures Buys(net, sell, buy, v) <==> v <= out
    {
      BuysUpTo(net, sell, buy, v);
    }
  }

  lemma BuysUpTo(net: nat, sell: nat, buy: nat, v: nat)
    requires sell > 0
    ensures Buys(net, sell, buy, v) <==> v <= net * buy / (sell + net)
  {
    var d, n := sell + net, net * buy;
    FloorGalois(v, n, d);
    assert d * buy == sell * buy + n;
    if v <= buy {
      assert d * (buy - v) == d * buy - v * d;
    } else {
      MulMono(buy + 1, v, d);
      assert (buy + 1) * d == d * buy + d;
      assert sell * buy >= 0;
    }
  }

  /** `amount` is the least gross input whose net part leaves the product as large when `out` is paid. */
  ghost predicate IsInput(amount: nat, sell: nat, buy: nat, out: nat, fee: nat)
    requires fee <= FEE_MULTIPLIER
  {
    forall a: nat :: Buys(NetOfFee(a, fee), sell, buy, out) <==> amount <= a
  }

  lemma AmountInIsLeast(out: nat, sell: nat, buy: nat, fee: nat)
    requires sell > 0 && 0 < out && fee < FEE_MULTIPLIER && AmountIn(out, sell, buy, fee).Ok?
    ensures IsInput(AmountIn(out, sell, buy, fee).value.0, sell, buy, out, fee)
  {
    var amount := AmountIn(out, sell, buy, fee).value.0;
    var needed := NetNeeded(out, sell, buy);
    assert amount == CeilDiv(needed * FEE_MULTIPLIER, FEE_MULTIPLIER - fee);
    hide AmountIn, NetOfFee;
    forall a: nat
      ensures Buys(NetOfFee(a, fee), sell, buy, out) <==> amount <= a
    {
      GrossUp(a, needed, fee);
      NetBuys(NetOfFee(a, fee), out, sell, buy);
      BuysUpTo(NetOfFee(a, fee), sell, buy, out);
    }
  }

  /** A deposit takes no more than offered of either coin, all of one of them, and of the
      other the most that does not exceed the reserves' ratio. */
  lemma DepositFollowsRatio(desired: (nat, nat), min: (nat, nat), reserves: (nat, nat))
    requires reserves.0 > 0 && reserves.1 > 0 && DepositAmounts(desired, min, reserves).Ok?
    ensures var (a, b) := DepositAmounts(desired, min, reserves).value;
      && a <= desired.0 && b <= desired.1
      && ((a == desired.0 && b * reserves.0 <= a * reserves.1 < (b + 1) * reserves.0)
          || (b == desired.1 && a * reserves.1 <= b * reserves.0 < (a + 1) * reserves.1))
  {
    FloorBounds(desired.0 * reserves.1, reserves.0);
    FloorBounds(desired.1 * reserves.0, reserves.1);
    Remainder(desired.0 * reserves.1, reserves.0);
    Remainder(desired.1 * reserves.0, reserves.1);
  }

  /** With no minimums a deposit is never rejected for its amounts: when the second coin is
      the scarce one, the first suffices. */
  lemma DepositNeverInvalid(desired: (nat, nat), reserves: (nat, nat))
    requires reserves.0 > 0 && reserves.1 > 0
    ensures DepositAmounts(desired, (0, 0), reserves) != Err(InvalidDepositAmount)
  {
    FloorGalois(desired.1 + 1, desired.0 * reserves.1, reserves.0);
    FloorGalois(desired.0 + 1, desired.1 * reserves.0, reserves.1);
    assert (desired.1 + 1) * reserves.0 == desired.1 * reserves.0 + reserves.0;
    assert (desired.0 + 1) * reserves.1 == desired.0 * reserves.1 + reserves.1;
  }
}
