/** Liquidity bought by a deposit and the amounts charged for it
    (liquidity_pool_concentrated/src/math.rs, contract/internal.rs, contract/extensions.rs). */
module Minting {
  import opened Words
  import opened U512
  import opened PriceMath

  function LiquidityForAmount0(pa: U256, pb: U256, amount: U128): Option<U128>
  {
    if amount == 0 then Some(0)
    else
      var sa, sb := Lower(pa, pb), Upper(pa, pb);
      if sb - sa == 0 then Some(0)
      else
        match MulDiv(sa, sb, Q96, false)
        case None => None
        case Some(intermediate) =>
          match MulDiv(amount, intermediate, sb - sa, false)
          case None => None
          case Some(v) => ToU128(v)
  }

  function LiquidityForAmount1(pa: U256, pb: U256, amount: U128): Option<U128>
  {
    if amount == 0 then Some(0)
    else
      var sa, sb := Lower(pa, pb), Upper(pa, pb);
      if sb - sa == 0 then Some(0)
      else
        match MulDiv(amount, Q96, sb - sa, false)
        case None => None
        case Some(v) => ToU128(v)
  }

  /** `max_liquidity_for_amounts_at_slot` for a range with the given boundary prices. */
  function MaxLiquidity(price: U256, lower: U256, upper: U256, desired0: U128, desired1: U128): Option<U128>
  {
    if desired0 == 0 && desired1 == 0 then Some(0)
    else if price <= lower then LiquidityForAmount0(lower, upper, desired0)
    else if price >= upper then LiquidityForAmount1(lower, upper, desired1)
    else
      match LiquidityForAmount0(price, upper, desired0)
      case None => None
      case Some(l0) =>
        match LiquidityForAmount1(lower, price, desired1)
        case None => None
        case Some(l1) => Some(if l0 <= l1 then l0 else l1)
  }

  /** `amounts_for_liquidity`: rounded up when minting, down when burning. */
  function AmountsForLiquidity(price: U256, lower: U256, upper: U256, liquidity: U128, up: bool): Option<(U128, U128)>
  {
    if price <= lower then Both(Amount0Delta(lower, upper, liquidity, up), Some(0))
    else if price < upper then
      Both(Amount0Delta(price, upper, liquidity, up), Amount1Delta(lower, price, liquidity, up))
    else Both(Some(0), Amount1Delta(lower, upper, liquidity, up))
  }

  function Both(a: Option<U128>, b: Option<U128>): Option<(U128, U128)>
  {
    if a.Some? && b.Some? then Some((a.value, b.value)) else None
  }

  /** Liquidity bought with token0 costs at most the token0 supplied, rounded up, and so
      does any smaller liquidity. */
  lemma MintCovered0(pa: U256, pb: U256, amount: U128, l: U128)
    requires 0 < pa <= pb
    requires LiquidityForAmount0(pa, pb, amount).Some? && l <= LiquidityForAmount0(pa, pb, amount).value
    ensures Exact0(l * Q96, pa, pb, true) <= amount
  {
    var v := LiquidityForAmount0(pa, pb, amount).value;
    var diff := pb - pa;
    if amount == 0 || diff == 0 {
      CoveredByProduct(l, diff, pa, pb, amount);
    } else {
      var i := MulDiv(pa, pb, Q96, false).value;
      hide LiquidityForAmount0, MulDiv;
      assert v * diff <= amount * i by {
        MulDivNeverAbove(amount, i, diff);
      }
      assert i * Q96 <= pa * pb by {
        MulDivNeverAbove(pa, pb, Q96);
      }
      MintIdentity(l, v, diff, amount, i, pa * pb);
      CoveredByProduct(l, diff, pa, pb, amount);
    }
  }

  lemma CoveredByProduct(l: nat, diff: nat, pa: nat, pb: nat, amount: nat)
    requires 0 < pa <= pb && diff == pb - pa
    requires l == 0 || diff == 0 || l * Q96 * diff <= amount * (pa * pb)
    ensures Exact0(l * Q96, pa, pb, true) <= amount
  {
    assert pa * pb > 0;
    if l == 0 || diff == 0 {
      assert l * Q96 * diff == 0;
    }
    RoundedAtMost(l * Q96 * diff, pa * pb, true, amount);
  }

  lemma MintIdentity(l: nat, v: nat, diff: nat, amount: nat, i: nat, product: nat)
    requires l <= v && v * diff <= amount * i && i * Q96 <= product
    ensures l * Q96 * diff <= amount * product
  {
    MulMono(l, v, diff);
    MulMono(l * diff, amount * i, Q96);
    MulMono(i * Q96, product, amount);
    assert l * diff * Q96 == l * Q96 * diff;
    assert amount * i * Q96 == i * Q96 * amount;
  }

  lemma MintCovered1(pa: U256, pb: U256, amount: U128, l: U128)
    requires pa <= pb
    requires LiquidityForAmount1(pa, pb, amount).Some? && l <= LiquidityForAmount1(pa, pb, amount).value
    ensures Exact1(l, pa, pb, true) <= amount
  {
    var v := LiquidityForAmount1(pa, pb, amount).value;
    var diff := pb - pa;
    if amount == 0 || diff == 0 {
      assert l * diff == 0;
      RoundedAtMost(0, Q96, true, amount);
    } else {
      MulDivNeverAbove(amount, Q96, diff);
      MulMono(l, v, diff);
      RoundedAtMost(l * diff, Q96, true, amount);
    }
  }

  /** The saturated amount is the exact one whenever the exact one is a u128. */
  lemma Amount0Unsaturated(sa: U256, sb: U256, l: U128, up: bool, bound: U128)
    requires 0 < sa <= sb && Exact0(l * Q96, sa, sb, up) <= bound
    ensures Amount0Delta(sa, sb, l, up) == Some(Exact0(l * Q96, sa, sb, up))
    ensures Amount0Delta(sb, sa, l, up) == Some(Exact0(l * Q96, sa, sb, up))
  {
    Amount0IsSingleRounding(sa, sb, l, up);
  }

  lemma Amount1Unsaturated(sa: U256, sb: U256, l: U128, up: bool, bound: U128)
    requires sa <= sb < MAX_PRICE && Exact1(l, sa, sb, up) <= bound
    ensures Amount1Delta(sa, sb, l, up) == Some(Exact1(l, sa, sb, up))
    ensures Amount1Delta(sb, sa, l, up) == Some(Exact1(l, sa, sb, up))
  {
    Amount1IsSingleRounding(sa, sb, l, up);
  }

  /** One token of a position: what is charged is within the amount supplied, and what
      burning the same liquidity pays is within what was charged. */
  ghost predicate Covered(charged: Option<U128>, paid: Option<U128>, supplied: U128)
  {
    charged.Some? && paid.Some? && paid.value <= charged.value <= supplied
  }

  lemma Token0Covered(sa: U256, sb: U256, supplied: U128, l: U128)
    requires 0 < sa <= sb
    requires LiquidityForAmount0(sa, sb, supplied).Some? && l <= LiquidityForAmount0(sa, sb, supplied).value
    ensures Covered(Amount0Delta(sa, sb, l, true), Amount0Delta(sa, sb, l, false), supplied)
  {
    MintCovered0(sa, sb, supplied, l);
    ExactGap0(l * Q96, sa, sb);
    Amount0Unsaturated(sa, sb, l, true, supplied);
    Amount0Unsaturated(sa, sb, l, false, supplied);
  }

  lemma Token1Covered(sa: U256, sb: U256, supplied: U128, l: U128)
    requires sa <= sb < MAX_PRICE
    requires LiquidityForAmount1(sa, sb, supplied).Some? && l <= LiquidityForAmount1(sa, sb, supplied).value
    ensures Covered(Amount1Delta(sa, sb, l, true), Amount1Delta(sa, sb, l, false), supplied)
  {
    MintCovered1(sa, sb, supplied, l);
    ExactGap1(l, sa, sb);
    Amount1Unsaturated(sa, sb, l, true, supplied);
    Amount1Unsaturated(sa, sb, l, false, supplied);
  }

  /** A deposit is always covered: whatever liquidity the desired amounts buy, the amounts
      charged for it are within the desired ones, so the cap `min(desired)` of
      `deposit_position` never cuts and no refund underflows; withdrawing that liquidity
      at the same price never pays more than was charged. */
  lemma DepositCovered(price: U256, lower: U256, upper: U256, desired0: U128, desired1: U128)
    requires 0 < lower < upper < MAX_PRICE && price < MAX_PRICE
    requires MaxLiquidity(price, lower, upper, desired0, desired1).Some?
    ensures var l := MaxLiquidity(price, lower, upper, desired0, desired1).value;
      var charged, paid := AmountsForLiquidity(price, lower, upper, l, true), AmountsForLiquidity(price, lower, upper, l, false);
      && charged.Some? && paid.Some?
      && paid.value.0 <= charged.value.0 <= desired0
      && paid.value.1 <= charged.value.1 <= desired1
  {
    var l := MaxLiquidity(price, lower, upper, desired0, desired1).value;
    if desired0 == 0 && desired1 == 0 {
      assert Amount0DeltaU256(lower, upper, 0, true) == Some(0);
    } else if price <= lower {
      Token0Covered(lower, upper, desired0, l);
    } else if price >= upper {
      Token1Covered(lower, upper, desired1, l);
    } else {
      Token0Covered(price, upper, desired0, l);
      Token1Covered(lower, price, desired1, l);
    }
  }

  // --------------------------------------------------------- the most that is bought

  /** The largest liquidity whose token1, or token0 with `pa * pb` first rounded down to Q96, is
      within an amount. */
  function Most1(pa: nat, pb: nat, amount: nat): nat
    requires pa < pb
  {
    FloorGalois(0, amount * Q96, pb - pa);
    amount * Q96 / (pb - pa)
  }

  function Most0(pa: nat, pb: nat, amount: nat): nat
    requires pa < pb
  {
    FloorGalois(0, pa * pb, Q96);
    FloorGalois(0, amount * (pa * pb / Q96), pb - pa);
    amount * (pa * pb / Q96) / (pb - pa)
  }

  /** Exactly the liquidity up to `Most1` costs no more than the amount. */
  lemma MostIsMost1(pa: nat, pb: nat, amount: nat, l: nat)
    requires pa < pb
    ensures Exact1(l, pa, pb, true) <= amount <==> l <= Most1(pa, pb, amount)
    ensures Most1(pa, pb, amount) * (pb - pa) <= amount * Q96 < (Most1(pa, pb, amount) + 1) * (pb - pa)
  {
    hide CeilDiv;
    MostBounds(pb - pa, amount * Q96);
    CeilGalois(amount, l * (pb - pa), Q96);
    FloorGalois(l, amount * Q96, pb - pa);
  }

  lemma MostBounds(diff: nat, n: int)
    requires diff > 0
    ensures n / diff * diff <= n < (n / diff + 1) * diff
  {
    FloorBounds(n, diff);
  }

  /** Liquidity up to `Most0` costs no more than the amount, and liquidity above it does, if not by
      the rounding of the product of prices: one token0 in `pb - pa` units of liquidity. */
  lemma MostIsMost0(pa: nat, pb: nat, amount: nat, l: nat)
    requires 0 < pa < pb
    ensures l <= Most0(pa, pb, amount) ==> Exact0(l * Q96, pa, pb, true) <= amount
    ensures l > Most0(pa, pb, amount) + CeilDiv(amount, pb - pa) ==> Exact0(l * Q96, pa, pb, true) > amount
    ensures var i := pa * pb / Q96;
      && i * Q96 <= pa * pb < (i + 1) * Q96
      && Most0(pa, pb, amount) * (pb - pa) <= amount * i < (Most0(pa, pb, amount) + 1) * (pb - pa)
  {
    var diff, i, v := pb - pa, pa * pb / Q96, Most0(pa, pb, amount);
    assert pa * pb > 0;
    FloorBounds(pa * pb, Q96);
    FloorBounds(amount * i, diff);
    CeilGalois(amount, l * Q96 * diff, pa * pb);
    hide Most0;
    if l <= v {
      MintIdentity(l, v, diff, amount, i, pa * pb);
    } else if l > v + CeilDiv(amount, diff) {
      CeilBounds(amount, diff);
      TooMuch(l, v, CeilDiv(amount, diff), diff, amount, i, pa * pb);
    }
  }

  lemma TooMuch(l: nat, v: nat, slack: nat, diff: nat, amount: nat, i: nat, product: nat)
    requires l > v + slack && amount <= slack * diff && amount * i < (v + 1) * diff && product < (i + 1) * Q96
    requires diff > 0
    ensures l * Q96 * diff > amount * product
  {
    MulMono(v + 1 + slack, l, diff);
    assert (v + 1 + slack) * diff == (v + 1) * diff + slack * diff;
    assert amount * (i + 1) == amount * i + amount;
    MulMono(amount * (i + 1) + 1, l * diff, Q96);
    MulMono(product, (i + 1) * Q96, amount);
    assert (amount * (i + 1) + 1) * Q96 == (i + 1) * Q96 * amount + Q96;
    assert l * Q96 * diff == l * diff * Q96;
    assert product * amount == amount * product;
  }

  /** Token1 buys the most it can pay for, or nothing when that is no 128-bit number. */
  lemma LiquidityBought1(pa: U256, pb: U256, amount: U128)
    requires pa < pb
    ensures var most := Most1(pa, pb, amount);
      && LiquidityForAmount1(pa, pb, amount) == (if most < TWO_128 then Some(most) else None)
      && LiquidityForAmount1(pb, pa, amount) == LiquidityForAmount1(pa, pb, amount)
  {
    if amount == 0 {
      DivModUnique(0, pb - pa, 0, 0);
    } else {
      MulMono(1, pb - pa, amount * Q96);
      RoundedAtMost(amount * Q96, pb - pa, false, amount * Q96);
      assert amount * Q96 < TWO_256;
      MulDivIs(amount, Q96, pb - pa, false);
    }
  }

  /** Between prices of the ladder the product fits; what token0 buys is cut to its low 256 bits. */
  lemma LiquidityBought0(pa: U256, pb: U256, amount: U128)
    requires 0 < pa < pb <= MAX_SQRT_RATIO
    ensures var kept := Most0(pa, pb, amount) % TWO_256;
      && LiquidityForAmount0(pa, pb, amount) == (if kept < TWO_128 then Some(kept) else None)
      && LiquidityForAmount0(pb, pa, amount) == LiquidityForAmount0(pa, pb, amount)
  {
    var diff := pb - pa;
    if amount == 0 {
      assert amount * (pa * pb / Q96) == 0;
      DivModUnique(0, diff, 0, 0);
    } else {
      ProductOfPrices(pa, pb);
      MulDivIs(pa, pb, Q96, false);
      var i: U256 := pa * pb / Q96;
      KeptOf(amount, i, diff);
      hide MulDiv;
    }
  }

  lemma ProductOfPrices(pa: U256, pb: U256)
    requires 0 < pa < pb <= MAX_SQRT_RATIO
    ensures 0 <= pa * pb / Q96 < TWO_256
  {
    MulMono(pa, MAX_SQRT_RATIO, pb);
    MulMono(pb, MAX_SQRT_RATIO, MAX_SQRT_RATIO);
    FloorGalois(TWO_256, pa * pb, Q96);
    FloorGalois(0, pa * pb, Q96);
  }

  /** For a divisor as short as a difference of prices, a quotient is cut to its low 256 bits. */
  lemma KeptOf(amount: U128, i: U256, diff: U256)
    requires 0 < diff <= MAX_SQRT_RATIO
    ensures MulDiv(amount, i, diff, false) == Some(amount * i / diff % TWO_256)
  {
    if amount == 0 || i == 0 {
      assert amount * i == 0;
      DivModUnique(0, diff, 0, 0);
    } else {
      ProductRange(amount, i);
      FloorGalois(0, amount * i, diff);
      SmallQuotient(amount * i / diff);
    }
  }

  /** Token0 buys the most it can pay for exactly when that is below 2^256, or when what is kept of
      it is no 128-bit number either. */
  lemma Bought0IsMost(pa: U256, pb: U256, amount: U128)
    requires 0 < pa < pb <= MAX_SQRT_RATIO
    ensures var most := Most0(pa, pb, amount);
      (LiquidityForAmount0(pa, pb, amount) == if most < TWO_128 then Some(most) else None)
      <==> most < TWO_256 || most % TWO_256 >= TWO_128
  {
    LiquidityBought0(pa, pb, amount);
    SmallQuotient(Most0(pa, pb, amount));
    hide Most0, LiquidityForAmount0;
  }

  /** Below a price of 2^159 + 1, 2^34 of token0 buy 2^256 + 2^97 units down to 2^159; the code
      answers 2^97. */
  lemma Bought0IsCut()
    ensures var pa: U256 := 0x80000000_00000000_00000000_00000000_00000000;
      MIN_SQRT_RATIO < pa < pa + 1 < MAX_SQRT_RATIO && LiquidityForAmount0(pa, pa + 1, 0x4_00000000) == Some(0x2_00000000_00000000_00000000)
  {
    var pa: U256 := 0x80000000_00000000_00000000_00000000_00000000;
    var i := 0x40000000_00000000_00000000_00000000_00000000_80000000_00000000;
    DivModUnique(pa * (pa + 1), Q96, i, 0);
    DivModUnique(0x4_00000000 * i, 1, 0x4_00000000 * i, 0);
    DivModUnique(0x4_00000000 * i, TWO_256, 1, 0x2_00000000_00000000_00000000);
    LiquidityBought0(pa, pa + 1, 0x4_00000000);
  }

  /** Liquidity that a range takes no more of than both amounts buy: token0 from the price up,
      token1 from the price down. */
  predicate Affords(price: U256, lower: U256, upper: U256, desired0: U128, desired1: U128, l: nat)
    requires lower < upper
  {
    && (price < upper ==> l <= Most0(Upper(price, lower), upper, desired0))
    && (price > lower ==> l <= Most1(lower, Lower(price, upper), desired1))
  }

  /** What token0 buys fits the word it is computed in. */
  predicate Fits0(price: U256, lower: U256, upper: U256, desired0: U128)
    requires lower < upper
  {
    price < upper ==> Most0(Upper(price, lower), upper, desired0) < TWO_256
  }

  /** A deposit buys the most liquidity that its desired amounts afford, and fails only when one of
      them affords more than 128 bits. */
  lemma DepositIsMost(price: U256, lower: U256, upper: U256, desired0: U128, desired1: U128)
    requires 0 < lower < upper <= MAX_SQRT_RATIO && Fits0(price, lower, upper, desired0)
    ensures var r := MaxLiquidity(price, lower, upper, desired0, desired1);
      if r.Some? then forall l: nat :: Affords(price, lower, upper, desired0, desired1, l) <==> l <= r.value
      else || (price < upper && Most0(Upper(price, lower), upper, desired0) >= TWO_128)
           || (price > lower && Most1(lower, Lower(price, upper), desired1) >= TWO_128)
  {
    if price < upper {
      LiquidityBought0(Upper(price, lower), upper, desired0);
      SmallQuotient(Most0(Upper(price, lower), upper, desired0));
    }
    if price > lower {
      LiquidityBought1(lower, Lower(price, upper), desired1);
    }
    if desired0 == 0 && desired1 == 0 {
      if price < upper {
        NothingBuysNothing(Upper(price, lower), upper);
      } else {
        NothingBuysNothing(lower, Lower(price, upper));
      }
      if price > lower {
        NothingBuysNothing(lower, Lower(price, upper));
      }
    }
    hide Most0, Most1, LiquidityForAmount0, LiquidityForAmount1;
  }

  lemma NothingBuysNothing(pa: nat, pb: nat)
    requires pa < pb
    ensures Most0(pa, pb, 0) == 0 && Most1(pa, pb, 0) == 0
  {
    assert 0 * (pa * pb / Q96) == 0;
    DivModUnique(0, pb - pa, 0, 0);
  }

  /** In tokens: liquidity up to what is bought costs no more than the desired amounts, and a unit more
      exceeds one of them, but for the rounding of token0's product of prices. */
  lemma MoreCostsMore(price: U256, lower: U256, upper: U256, desired0: U128, desired1: U128, l: nat)
    requires 0 < lower < upper <= MAX_SQRT_RATIO && Fits0(price, lower, upper, desired0)
    ensures var r := MaxLiquidity(price, lower, upper, desired0, desired1);
      var from, to := Upper(price, lower), Lower(price, upper);
      r.Some? ==>
        && (l <= r.value ==>
              && (price < upper ==> Exact0(l * Q96, from, upper, true) <= desired0)
              && (price > lower ==> Exact1(l, lower, to, true) <= desired1))
        && (l > r.value + (if price < upper then CeilDiv(desired0, upper - from) else 0) ==>
              || (price < upper && Exact0(l * Q96, from, upper, true) > desired0)
              || (price > lower && Exact1(l, lower, to, true) > desired1))
  {
    hide Most0, Most1, MaxLiquidity, Exact0, Exact1;
    DepositIsMost(price, lower, upper, desired0, desired1);
    var r, from, to := MaxLiquidity(price, lower, upper, desired0, desired1), Upper(price, lower), Lower(price, upper);
    if r.Some? {
      var v: nat := r.value;
      assert Affords(price, lower, upper, desired0, desired1, v) && !Affords(price, lower, upper, desired0, desired1, v + 1);
      if price < upper {
        MostIsMost0(from, upper, desired0, l);
        CeilGalois(-1, desired0, upper - from);
      }
      if price > lower {
        MostIsMost1(lower, to, desired1, l);
      }
    }
  }
}
