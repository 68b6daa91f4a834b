/** Token amounts and prices along one liquidity segment
    (liquidity_pool_concentrated/src/math.rs): the Uniswap v3 Core whitepaper's
    section 6.2.3 formulas in Q96 fixed point, with the rounding the pool relies on. */
module PriceMath {
  import opened Words
  import opened U512

  const MIN_SQRT_RATIO: U256 := 4_295_128_739
  const MAX_SQRT_RATIO: U256 := 0xFFFD8963_EFD1FC6A_50648849_5D951D52_63988D26

  /** Pools keep their price below MAX_SQRT_RATIO < 2^160; nothing here needs more than 2^192. */
  const MAX_PRICE: U256 := 0x1_00000000_00000000_00000000_00000000_00000000_00000000

  const Q96: U256 := 0x1_00000000_00000000_00000000

  // ------------------------------------------------------------ amount deltas

  function Lower(a: U256, b: U256): U256 { if a > b then b else a }
  function Upper(a: U256, b: U256): U256 { if a > b then a else b }

  /** `amount0_delta_u256`: None only when the lower price is zero. */
  function Amount0DeltaU256(pa: U256, pb: U256, liquidity: U128, roundUp: bool): Option<U256>
  {
    if liquidity == 0 then Some(0)
    else
      var sa, sb := Lower(pa, pb), Upper(pa, pb);
      if sa == 0 then None
      else
        match MulDiv(liquidity * Q96, sb - sa, sb, roundUp)
        case None => None
        case Some(temp) =>
          FloorBelow(temp, sa);
          if roundUp then CeilBelow(temp, sa); Some(CeilDiv(temp, sa)) else Some(temp / sa)
  }

  lemma CeilBelow(n: U256, d: int)
    requires d > 0
    ensures 0 <= CeilDiv(n, d) < TWO_256
  {
    CeilGalois(n, n, d);
    MulMono(1, d, n);
  }

  function Amount1DeltaU256(pa: U256, pb: U256, liquidity: U128, roundUp: bool): Option<U256>
  {
    if liquidity == 0 then Some(0)
    else MulDiv(liquidity, Upper(pa, pb) - Lower(pa, pb), Q96, roundUp)
  }

  /** `to_u128`: the value when it fits. */
  function ToU128(v: U256): Option<U128>
  {
    if v < TWO_128 then Some(v) else None
  }

  function Saturate(v: U256): U128
  {
    if v < TWO_128 then v else U128_MAX
  }

  function TryAmount0Delta(pa: U256, pb: U256, liquidity: U128, roundUp: bool): Option<U128>
  {
    match Amount0DeltaU256(pa, pb, liquidity, roundUp)
    case Some(v) => ToU128(v)
    case None => None
  }

  function TryAmount1Delta(pa: U256, pb: U256, liquidity: U128, roundUp: bool): Option<U128>
  {
    match Amount1DeltaU256(pa, pb, liquidity, roundUp)
    case Some(v) => ToU128(v)
    case None => None
  }

  function Amount0Delta(pa: U256, pb: U256, liquidity: U128, roundUp: bool): Option<U128>
  {
    match Amount0DeltaU256(pa, pb, liquidity, roundUp)
    case Some(v) => Some(Saturate(v))
    case None => None
  }

  function Amount1Delta(pa: U256, pb: U256, liquidity: U128, roundUp: bool): Option<U128>
  {
    match Amount1DeltaU256(pa, pb, liquidity, roundUp)
    case Some(v) => Some(Saturate(v))
    case None => None
  }

  /** `n1/sa - n1/sb` rounded, with `n1 = L * Q96`. */
  function Exact0(n1: nat, sa: nat, sb: nat, up: bool): nat
    requires 0 < sa <= sb
  {
    assert sa * sb > 0;
    Rounded(n1 * (sb - sa), sa * sb, up)
  }

  function Exact1(liquidity: nat, sa: nat, sb: nat, up: bool): nat
    requires sa <= sb
  {
    Rounded(liquidity * (sb - sa), Q96, up)
  }

  lemma ExactGap0(n1: nat, sa: nat, sb: nat)
    requires 0 < sa <= sb
    ensures Exact0(n1, sa, sb, false) <= Exact0(n1, sa, sb, true) <= Exact0(n1, sa, sb, false) + 1
  {
    assert sa * sb > 0;
    RoundedGap(n1 * (sb - sa), sa * sb);
  }

  lemma ExactGap1(liquidity: nat, sa: nat, sb: nat)
    requires sa <= sb
    ensures Exact1(liquidity, sa, sb, false) <= Exact1(liquidity, sa, sb, true) <= Exact1(liquidity, sa, sb, false) + 1
  {
    RoundedGap(liquidity * (sb - sa), Q96);
  }

  /** Token0 between two prices is the single rounding of `L * Q96 * (sb - sa) / (sa * sb)`,
      although the code divides twice; it never fails for positive prices. */
  lemma Amount0IsSingleRounding(sa: U256, sb: U256, liquidity: U128, up: bool)
    requires 0 < sa <= sb
    ensures Amount0DeltaU256(sa, sb, liquidity, up) == Some(Exact0(liquidity * Q96, sa, sb, up))
    ensures Amount0DeltaU256(sb, sa, liquidity, up) == Amount0DeltaU256(sa, sb, liquidity, up)
  {
    var n1: U256 := liquidity * Q96;
    var n: nat := n1 * (sb - sa);
    assert sa * sb > 0;
    MulMono(sb - sa, sb, n1);
    RoundedAtMost(n, sb, up, n1);
    MulDivIs(n1, sb - sa, sb, up);
    NestedRounding(n, sb, sa, up);
    if liquidity == 0 {
      assert n == 0;
      DivModUnique(0, sa * sb, 0, 0);
    }
  }

  lemma NestedRounding(n: nat, d: nat, e: nat, up: bool)
    requires d > 0 && e > 0
    ensures e * d > 0
    ensures Rounded(Rounded(n, d, up), e, up) == Rounded(n, e * d, up)
  {
    assert e * d == d * e;
    FloorFloor(n, d, e);
    CeilCeil(n, d, e);
  }

  /** Token1 between two prices of a pool is the rounding of `L * (sb - sa) / Q96`. */
  lemma Amount1IsSingleRounding(sa: U256, sb: U256, liquidity: U128, up: bool)
    requires sa <= sb < MAX_PRICE
    ensures Amount1DeltaU256(sa, sb, liquidity, up) == Some(Exact1(liquidity, sa, sb, up))
    ensures Amount1DeltaU256(sb, sa, liquidity, up) == Amount1DeltaU256(sa, sb, liquidity, up)
  {
    Amount1Fits(sa, sb, liquidity, up);
    MulDivIs(liquidity, sb - sa, Q96, up);
  }

  /** Prices of a pool lie below 2^160, and then token1 amounts always fit. */
  lemma Amount1Fits(sa: U256, sb: U256, liquidity: U128, up: bool)
    requires sa <= sb < MAX_PRICE
    ensures Rounded(liquidity * (sb - sa), Q96, up) < TWO_256
  {
    var m := 0x1_00000000_00000000_00000000_00000000_00000000_00000000_00000000;
    MulMono(liquidity, TWO_128, sb - sa);
    assert m * Q96 == TWO_128 * MAX_PRICE;
    RoundedAtMost(liquidity * (sb - sa), Q96, up, m);
  }

  // ------------------------------------------------------- splitting a move

  lemma SplitExact0(n1: nat, sa: nat, sm: nat, sb: nat, up: bool)
    requires 0 < sa <= sm <= sb
    ensures var x, y, whole := Exact0(n1, sa, sm, up), Exact0(n1, sm, sb, up), Exact0(n1, sa, sb, up);
      if up then whole <= x + y else x + y <= whole
  {
    var x, y := Exact0(n1, sa, sm, up), Exact0(n1, sm, sb, up);
    var d1, d2, d := sa * sm, sm * sb, sa * sb;
    assert d1 > 0 && d2 > 0 && d > 0;
    var l1, l2, l := n1 * (sm - sa), n1 * (sb - sm), n1 * (sb - sa);
    SplitIdentity(n1, sa, sm, sb, x, y);
    if up {
      CeilBounds(l1, d1);
      CeilBounds(l2, d2);
      MulMono(l1, x * d1, sb);
      MulMono(l2, y * d2, sa);
      MulCancel(l, (x + y) * d, sm);
      CeilGalois(x + y, l, d);
    } else {
      FloorBounds(l1, d1);
      FloorBounds(l2, d2);
      MulMono(x * d1, l1, sb);
      MulMono(y * d2, l2, sa);
      MulCancel((x + y) * d, l, sm);
      FloorGalois(x + y, l, d);
    }
  }

  lemma SplitIdentity(n1: int, sa: int, sm: int, sb: int, x: int, y: int)
    ensures n1 * (sb - sa) * sm == n1 * (sm - sa) * sb + n1 * (sb - sm) * sa
    ensures (x + y) * (sa * sb) * sm == x * (sa * sm) * sb + y * (sm * sb) * sa
  {
  }

  lemma SplitExact1(liquidity: nat, sa: nat, sm: nat, sb: nat, up: bool)
    requires sa <= sm <= sb
    ensures var x, y, whole := Exact1(liquidity, sa, sm, up), Exact1(liquidity, sm, sb, up), Exact1(liquidity, sa, sb, up);
      if up then whole <= x + y else x + y <= whole
  {
    var l1, l2 := liquidity * (sm - sa), liquidity * (sb - sm);
    assert liquidity * (sb - sa) == l1 + l2;
    var x, y := Rounded(l1, Q96, up), Rounded(l2, Q96, up);
    if up {
      CeilBounds(l1, Q96);
      CeilBounds(l2, Q96);
      CeilGalois(x + y, l1 + l2, Q96);
    } else {
      FloorBounds(l1, Q96);
      FloorBounds(l2, Q96);
      FloorGalois(x + y, l1 + l2, Q96);
    }
  }

  /** Splitting a move at any price in between never lowers the total rounded up and never
      raises the total rounded down, for token0. */
  lemma SplitAmount0(sa: U256, sm: U256, sb: U256, liquidity: U128, up: bool)
    requires 0 < sa <= sm <= sb
    ensures var x, y := Amount0DeltaU256(sa, sm, liquidity, up), Amount0DeltaU256(sm, sb, liquidity, up);
      var whole := Amount0DeltaU256(sa, sb, liquidity, up);
      && x.Some? && y.Some? && whole.Some?
      && if up then whole.value <= x.value + y.value else x.value + y.value <= whole.value
  {
    var n1 := liquidity * Q96;
    Amount0IsSingleRounding(sa, sm, liquidity, up);
    Amount0IsSingleRounding(sm, sb, liquidity, up);
    Amount0IsSingleRounding(sa, sb, liquidity, up);
    SplitExact0(n1, sa, sm, sb, up);
  }

  /** The same for token1. */
  lemma SplitAmount1(sa: U256, sm: U256, sb: U256, liquidity: U128, up: bool)
    requires sa <= sm <= sb < MAX_PRICE
    ensures var x, y := Amount1DeltaU256(sa, sm, liquidity, up), Amount1DeltaU256(sm, sb, liquidity, up);
      var whole := Amount1DeltaU256(sa, sb, liquidity, up);
      && x.Some? && y.Some? && whole.Some?
      && if up then whole.value <= x.value + y.value else x.value + y.value <= whole.value
  {
    Amount1IsSingleRounding(sa, sm, liquidity, up);
    Amount1IsSingleRounding(sm, sb, liquidity, up);
    Amount1IsSingleRounding(sa, sb, liquidity, up);
    SplitExact1(liquidity, sa, sm, sb, up);
  }

  /** Rounding up costs at most one unit over rounding down, for both tokens. */
  lemma RoundingGap(sa: U256, sb: U256, liquidity: U128)
    requires 0 < sa <= sb < MAX_PRICE
    ensures var up, down := Amount0DeltaU256(sa, sb, liquidity, true), Amount0DeltaU256(sa, sb, liquidity, false);
      up.Some? && down.Some? && down.value <= up.value <= down.value + 1
    ensures var up, down := Amount1DeltaU256(sa, sb, liquidity, true), Amount1DeltaU256(sa, sb, liquidity, false);
      up.Some? && down.Some? && down.value <= up.value <= down.value + 1
  {
    Amount0IsSingleRounding(sa, sb, liquidity, true);
    Amount0IsSingleRounding(sa, sb, liquidity, false);
    Amount1IsSingleRounding(sa, sb, liquidity, true);
    Amount1IsSingleRounding(sa, sb, liquidity, false);
    ExactGap0(liquidity * Q96, sa, sb);
    ExactGap1(liquidity, sa, sb);
  }
}
