/** The next price after an input or an output, and liquidity from amounts
    (liquidity_pool_concentrated/src/math.rs). Each rounding is shown to be the exact
    extreme the pool can afford. */
module NextPrice {
  import opened Words
  import opened U512
  import opened PriceMath

  // ------------------------------------------------------------------- prices

  /** `get_next_sqrt_price_from_amount0`; None is a panic. */
  function NextFromAmount0(price: U256, liquidity: U128, amount: U128, add: bool): Option<U256>
  {
    if amount == 0 then Some(price)
    else if price == 0 then None
    else
      var n1: U256 := liquidity * Q96;
      if amount <= (TWO_256 - 1) / price then
        FloorGalois(amount, TWO_256 - 1, price);
        var product: U256 := amount * price;
        if add then
          if n1 + product < TWO_256 then MulDiv(n1, price, n1 + product, true) else None
        else if n1 <= product then None
        else MulDiv(n1, price, n1 - product, true)
      else if add then
        FloorBelow(n1, price);
        FloorGalois(n1 + 1, n1, price);
        MulMono(1, price, n1 + 1);
        CeilBelow(n1, n1 / price + amount);
        Some(CeilDiv(n1, n1 / price + amount))
      else None
  }

  /** `get_next_sqrt_price_from_amount1`; None is a panic. */
  function NextFromAmount1(price: U256, liquidity: U128, amount: U128, add: bool): Option<U256>
  {
    match MulDiv(amount, Q96, liquidity, !add)
    case None => None
    case Some(quotient) =>
      if add then
        if price + quotient < TWO_256 then Some(price + quotient) else None
      else if price <= quotient then None
      else Some(price - quotient)
  }

  // ------------------------------------------------- the extremes, on integers

  /** Prices at or below `p` whose rounded-up token0 input is covered by `amount` are
      exactly those at or above the ceiling the code computes. */
  lemma InputExtreme0(n1: nat, p: nat, amount: nat, v: nat)
    requires n1 > 0 && 0 < v <= p
    ensures n1 + amount * p > 0
    ensures Exact0(n1, v, p, true) <= amount <==> CeilDiv(n1 * p, n1 + amount * p) <= v
    ensures 0 < CeilDiv(n1 * p, n1 + amount * p) <= p
  {
    assert amount * p >= 0;
    var d := n1 + amount * p;
    assert v * p > 0;
    CeilGalois(amount, n1 * (p - v), v * p);
    CeilGalois(v, n1 * p, d);
    InputIdentity(n1, p, amount, v);
    CeilGalois(p, n1 * p, d);
    InputIdentity(n1, p, amount, p);
    CeilGalois(0, n1 * p, d);
    assert n1 * p > 0;
  }

  lemma InputIdentity(n1: int, p: int, amount: int, v: int)
    ensures v * (n1 + amount * p) - n1 * p == amount * (v * p) - n1 * (p - v)
    ensures p >= 0 && amount >= 0 ==> amount * (p * p) >= 0
  {
  }

  /** The fallback denominator `n1 / p + amount` is at most the true one, so its price is
      on the covered side too. */
  lemma InputFallback0(n1: nat, p: nat, amount: nat)
    requires n1 > 0 && p > 0 && amount > 0
    ensures n1 + amount * p > 0
    ensures CeilDiv(n1 * p, n1 + amount * p) <= CeilDiv(n1, n1 / p + amount) <= p
  {
    var den := n1 / p + amount;
    var next := CeilDiv(n1, den);
    FloorBounds(n1, p);
    CeilBounds(n1, den);
    FallbackIdentity(n1, p, amount, n1 / p, next);
    CeilGalois(next, n1 * p, n1 + amount * p);
    CeilGalois(p, n1, den);
  }

  lemma FallbackIdentity(n1: nat, p: nat, amount: nat, q: nat, next: nat)
    requires q * p <= n1 < q * p + p && amount > 0 && n1 <= next * (q + amount)
    ensures n1 + amount * p > 0 || n1 == 0
    ensures n1 * p <= next * (n1 + amount * p)
    ensures n1 <= p * (q + amount)
  {
    MulMono(n1, next * (q + amount), p);
    assert next * (q + amount) * p == next * (q * p + amount * p);
    MulMono(q * p + amount * p, n1 + amount * p, next);
    MulMono(1, amount, p);
    assert p * (q + amount) == q * p + amount * p;
  }

  /** Prices at or above `p` that pay out at least `amount` of token0, rounded down, are
      exactly those at or above the ceiling the code computes. */
  lemma OutputExtreme0(n1: nat, p: nat, amount: nat, v: nat)
    requires 0 < p <= v && amount * p < n1
    ensures amount <= Exact0(n1, p, v, false) <==> CeilDiv(n1 * p, n1 - amount * p) <= v
    ensures CeilDiv(n1 * p, n1 - amount * p) >= p
  {
    assert p * v > 0;
    MulMono(0, amount, p);
    var d := n1 - amount * p;
    FloorGalois(amount, n1 * (v - p), p * v);
    CeilGalois(v, n1 * p, d);
    OutputIdentity(n1, p, amount, v);
    CeilGalois(p - 1, n1 * p, d);
    OutputAbove(n1, p, d);
  }

  lemma OutputAbove(n1: nat, p: nat, d: nat)
    requires p > 0 && 0 < d <= n1
    ensures (p - 1) * d < n1 * p
  {
    MulMono(d, n1, p - 1);
    assert n1 * (p - 1) == n1 * p - n1;
  }

  lemma OutputIdentity(n1: int, p: int, amount: int, v: int)
    ensures v * (n1 - amount * p) - n1 * p == n1 * (v - p) - amount * (p * v)
  {
  }

  lemma InputExtreme1(liquidity: nat, p: nat, amount: nat, v: nat)
    requires liquidity > 0 && p <= v
    ensures Exact1(liquidity, p, v, true) <= amount <==> v <= p + amount * Q96 / liquidity
  {
    CeilGalois(amount, liquidity * (v - p), Q96);
    FloorGalois(v - p, amount * Q96, liquidity);
  }

  lemma OutputExtreme1(liquidity: nat, p: nat, amount: nat, v: nat)
    requires liquidity > 0 && v <= p
    ensures amount <= Exact1(liquidity, v, p, false) <==> v <= p - CeilDiv(amount * Q96, liquidity)
  {
    FloorGalois(amount, liquidity * (p - v), Q96);
    CeilGalois(p - v, amount * Q96, liquidity);
  }

  /** A price below the fallback's costs at least the whole input: dropping the remainder of
      `n1 / p` keeps the price less than one unit of input short of the exact one. */
  lemma FallbackReach0(n1: nat, p: nat, amount: nat, v: nat)
    requires n1 > 0 && 0 < v <= p && amount > 0
    requires v < CeilDiv(n1, n1 / p + amount)
    ensures amount <= Exact0(n1, v, p, true)
  {
    var q := n1 / p;
    assert v * p > 0;
    FloorBounds(n1, p);
    CeilGalois(v, n1, q + amount);
    FallbackCost(n1, p, amount, q, v);
    CeilGalois(amount - 1, n1 * (p - v), v * p);
  }

  lemma FallbackCost(n1: int, p: int, amount: int, q: int, v: int)
    requires 0 < v && 0 < p && n1 < q * p + p && v * (q + amount) < n1
    ensures (amount - 1) * (v * p) < n1 * (p - v)
  {
    MulMono(v * (q + amount) + 1, n1, p);
    MulMono(n1, q * p + p, v);
    assert (v * (q + amount) + 1) * p == v * (q * p) + amount * (v * p) + p;
    assert (q * p + p) * v == v * (q * p) + v * p;
  }

  // ------------------------------------------------- the four price functions

  /** Token0 in: the only panic is an overflowing denominator; otherwise the price moves
      down to a positive price whose rounded-up cost is within the input, any lower price costs
      at least the whole input, and below the overflow threshold it costs more. */
  lemma InputPrice0(price: U256, liquidity: U128, amount: U128)
    requires price > 0 && liquidity > 0
    ensures var r := NextFromAmount0(price, liquidity, amount, true);
      && (r == None <==> amount > 0 && amount * price < TWO_256 <= liquidity * Q96 + amount * price)
      && (r.Some? ==> 0 < r.value <= price && Exact0(liquidity * Q96, r.value, price, true) <= amount)
      && (r.Some? && amount * price < TWO_256 ==>
            forall v | 0 < v <= price :: Exact0(liquidity * Q96, v, price, true) <= amount <==> r.value <= v)
      && (r.Some? ==> forall v | 0 < v < r.value :: amount <= Exact0(liquidity * Q96, v, price, true))
  {
    var n1 := liquidity * Q96;
    var r := NextFromAmount0(price, liquidity, amount, true);
    FloorGalois(amount, TWO_256 - 1, price);
    forall v | 0 < v <= price
      ensures Exact0(n1, v, price, true) <= amount <==> CeilDiv(n1 * price, n1 + amount * price) <= v
    {
      InputExtreme0(n1, price, amount, v);
    }
    InputExtreme0(n1, price, amount, price);
    if amount == 0 {
      DivModUnique(n1 * price, n1, price, 0);
    } else if amount * price < TWO_256 {
      if n1 + amount * price < TWO_256 {
        MulDivIs(n1, price, n1 + amount * price, true);
      }
    } else {
      InputFallback0(n1, price, amount);
      forall v | 0 < v < r.value
        ensures amount <= Exact0(n1, v, price, true)
      {
        FallbackReach0(n1, price, amount, v);
      }
    }
  }

  /** Token0 out: a result is the lowest price that pays the output, rounded down, exactly
      when that price fits 256 bits; otherwise the code returns a cut price that does not. */
  lemma OutputPrice0(price: U256, liquidity: U128, amount: U128)
    requires price > 0 && amount > 0
    ensures var r := NextFromAmount0(price, liquidity, amount, false);
      var n1 := liquidity * Q96;
      && (n1 <= amount * price ==> r == None)
      && (amount * price < n1 && CeilDiv(n1 * price, n1 - amount * price) < TWO_256 ==>
            r == Some(CeilDiv(n1 * price, n1 - amount * price)))
      && (amount * price < n1 && r.Some? ==>
            ((price <= r.value && amount <= Exact0(n1, price, r.value, false))
             <==> CeilDiv(n1 * price, n1 - amount * price) < TWO_256))
  {
    var n1 := liquidity * Q96;
    FloorGalois(amount, TWO_256 - 1, price);
    var r := NextFromAmount0(price, liquidity, amount, false);
    if amount * price < n1 {
      var exact := CeilDiv(n1 * price, n1 - amount * price);
      OutputExtreme0(n1, price, amount, price);
      if exact < TWO_256 {
        MulDivIs(n1, price, n1 - amount * price, true);
        OutputExtreme0(n1, price, amount, exact);
      } else if r.Some? && price <= r.value {
        WordResult(r);
        OutputExtreme0(n1, price, amount, r.value);
      }
    }
  }

  /** Token1 in: the highest price whose rounded-up cost is within the input. */
  lemma InputPrice1(price: U256, liquidity: U128, amount: U128)
    requires liquidity > 0
    ensures var r := NextFromAmount1(price, liquidity, amount, true);
      && (r == None <==> price + amount * Q96 / liquidity >= TWO_256)
      && (r.Some? ==> price <= r.value && Exact1(liquidity, price, r.value, true) <= amount)
      && (r.Some? ==>
            forall v | price <= v :: Exact1(liquidity, price, v, true) <= amount <==> v <= r.value)
  {
    QuotientFits(amount, liquidity);
    MulDivIs(amount, Q96, liquidity, false);
    forall v | price <= v
      ensures Exact1(liquidity, price, v, true) <= amount <==> v <= price + amount * Q96 / liquidity
    {
      InputExtreme1(liquidity, price, amount, v);
    }
    FloorGalois(0, amount * Q96, liquidity);
  }

  /** Token1 out: the highest price that still pays the output, rounded down. */
  lemma OutputPrice1(price: U256, liquidity: U128, amount: U128)
    requires liquidity > 0
    ensures var r := NextFromAmount1(price, liquidity, amount, false);
      && (r == None <==> price <= CeilDiv(amount * Q96, liquidity))
      && (r.Some? ==> 0 < r.value <= price && amount <= Exact1(liquidity, r.value, price, false))
      && (r.Some? ==>
            forall v | v <= price && 0 <= v :: amount <= Exact1(liquidity, v, price, false) <==> v <= r.value)
  {
    QuotientFits(amount, liquidity);
    MulDivIs(amount, Q96, liquidity, true);
    forall v | v <= price && 0 <= v
      ensures amount <= Exact1(liquidity, v, price, false) <==> v <= price - CeilDiv(amount * Q96, liquidity)
    {
      OutputExtreme1(liquidity, price, amount, v);
    }
  }

  lemma QuotientFits(amount: U128, liquidity: U128)
    requires liquidity > 0
    ensures amount * Q96 / liquidity <= CeilDiv(amount * Q96, liquidity) <= amount * Q96 < TWO_256
  {
    MulMono(1, liquidity, amount * Q96);
    CeilGalois(amount * Q96, amount * Q96, liquidity);
  }

  /** The cut is reachable at legal prices: with L = 2^101, price 2^129 - 1 and an output of
      2^68, the exact price needs 258 bits and the returned one pays less than was asked. */
  lemma OutputPrice0Cut()
    ensures var price: U256 := 0x1_FFFFFFFF_FFFFFFFF_FFFFFFFF_FFFFFFFF;
      var liquidity: U128 := 0x20_00000000_00000000_00000000;
      var amount: U128 := 0x10_00000000_00000000;
      var r := NextFromAmount0(price, liquidity, amount, false);
      && MIN_SQRT_RATIO <= price < MAX_SQRT_RATIO
      && amount * price < liquidity * Q96
      && r.Some? && price <= r.value && Exact0(liquidity * Q96, price, r.value, false) < amount
  {
    var price: U256 := 0x1_FFFFFFFF_FFFFFFFF_FFFFFFFF_FFFFFFFF;
    var liquidity: U128 := 0x20_00000000_00000000_00000000;
    var amount: U128 := 0x10_00000000_00000000;
    var n1 := liquidity * Q96;
    var d := n1 - amount * price;
    assert d == 0x10_00000000_00000000;
    assert n1 * price == 0x3_FFFFFFFF_FFFFFFFF_FFFFFFFF_FFFFFFFE_00000000_00000000_00000000_00000000 * d;
    var q := 0x3_FFFFFFFF_FFFFFFFF_FFFFFFFF_FFFFFFFE_00000000_00000000_00000000_00000000;
    DivModUnique(n1 * price, d, q, 0);
    FloorGalois(amount, TWO_256 - 1, price);
    var cut := q - 3 * TWO_256;
    DivModUnique(q, TWO_256, 3, cut);
    OutputPrice0(price, liquidity, amount);
    assert MulDiv(n1, price, d, true) == Some(cut);
  }
}
