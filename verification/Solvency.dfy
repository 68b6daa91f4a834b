/** The concentrated pool's reserves against what its positions can take out: deposits,
    withdrawals, fee claims and swaps (liquidity_pool_concentrated/src/contract/internal.rs,
    extensions.rs). */
module Solvency {
  import opened Words
  import opened PriceMath
  import opened TickMath
  import opened TickAccuracy
  import opened ChunkStore
  import opened FeeGrowth
  import opened LiquidityLedger
  import opened LedgerInvariants
  import opened PositionWorth
  import opened SwapRounds
  import opened SwapDues
  import Minting
  import Steps = SwapStep
  import Runs = LedgerRuns

  // ------------------------------------------------------------- amounts and worth

  /** Tokens one unit of liquidity stands for: below its range all token0, above it all token1. */
  function Worth0(price: U256, sa: U256, sb: U256): real
    requires 0 < sa < sb && price > 0
  {
    if price >= sb then 0.0 else PriceScale(0, if price <= sa then sa else price) - PriceScale(0, sb)
  }

  function Worth1(price: U256, sa: U256, sb: U256): real
    requires 0 < sa < sb && price > 0
  {
    if price <= sa then 0.0 else PriceScale(1, if price >= sb then sb else price) - PriceScale(1, sa)
  }

  lemma PerUnitIs(lower: int, upper: int, price: U256)
    requires MIN_TICK <= lower < upper <= MAX_TICK && price > 0
    ensures var sa, sb := P(lower), P(upper);
      && 0 < sa < sb < MAX_PRICE
      && PerUnit(lower, upper, 0, price) == Worth0(price, sa, sb)
      && PerUnit(lower, upper, 1, price) == Worth1(price, sa, sb)
  {
    hide P, PriceScale;
    Positive(lower);
    Positive(upper);
    Rises(lower, upper);
  }

  /** What a deposit charges covers what its liquidity stands for. */
  lemma ChargedCovers(price: U256, lower: int, upper: int, desired0: U128, desired1: U128)
    requires MIN_TICK <= lower < upper <= MAX_TICK && 0 < price < MAX_PRICE
    requires Minting.MaxLiquidity(price, P(lower), P(upper), desired0, desired1).Some?
    ensures var l := Minting.MaxLiquidity(price, P(lower), P(upper), desired0, desired1).value;
      var charged := Minting.AmountsForLiquidity(price, P(lower), P(upper), l, true);
      && charged.Some?
      && l as real * PerUnit(lower, upper, 0, price) <= charged.value.0 as real
      && l as real * PerUnit(lower, upper, 1, price) <= charged.value.1 as real
  {
    hide P, PriceScale, PerUnit, Minting.MaxLiquidity, Minting.AmountsForLiquidity;
    PerUnitIs(lower, upper, price);
    ChargedInRange(price, P(lower), P(upper), desired0, desired1);
  }

  /** One unit of liquidity times l is within the charge, for both tokens. */
  ghost predicate CoveredBy(l: U128, price: U256, sa: U256, sb: U256, charged: Option<(U128, U128)>)
    requires 0 < sa < sb && price > 0
  {
    && charged.Some?
    && l as real * Worth0(price, sa, sb) <= charged.value.0 as real
    && l as real * Worth1(price, sa, sb) <= charged.value.1 as real
  }

  lemma ChargedInRange(price: U256, sa: U256, sb: U256, desired0: U128, desired1: U128)
    requires 0 < sa < sb < MAX_PRICE && 0 < price < MAX_PRICE
    requires Minting.MaxLiquidity(price, sa, sb, desired0, desired1).Some?
    ensures var l := Minting.MaxLiquidity(price, sa, sb, desired0, desired1).value;
      CoveredBy(l, price, sa, sb, Minting.AmountsForLiquidity(price, sa, sb, l, true))
  {
    var l := Minting.MaxLiquidity(price, sa, sb, desired0, desired1).value;
    if desired0 == 0 && desired1 == 0 {
      NoLiquidityIsFree(price, sa, sb);
    } else {
      LiquidityWithin(price, sa, sb, desired0, desired1);
      hide Minting.MaxLiquidity, Minting.AmountsForLiquidity, PriceScale, Worth0, Worth1;
      if price <= sa {
        ChargedBelow(price, sa, sb, desired0, l);
      } else if price >= sb {
        ChargedAbove(price, sa, sb, desired1, l);
      } else {
        ChargedInside(price, sa, sb, desired0, desired1, l);
      }
    }
  }

  ghost predicate Buys0(sa: U256, sb: U256, supplied: U128, l: U128)
  {
    var r := Minting.LiquidityForAmount0(sa, sb, supplied); r.Some? && l <= r.value
  }

  ghost predicate Buys1(sa: U256, sb: U256, supplied: U128, l: U128)
  {
    var r := Minting.LiquidityForAmount1(sa, sb, supplied); r.Some? && l <= r.value
  }

  lemma LiquidityWithin(price: U256, sa: U256, sb: U256, desired0: U128, desired1: U128)
    requires desired0 != 0 || desired1 != 0
    requires Minting.MaxLiquidity(price, sa, sb, desired0, desired1).Some?
    ensures var l := Minting.MaxLiquidity(price, sa, sb, desired0, desired1).value;
      if price <= sa then Buys0(sa, sb, desired0, l)
      else if price >= sb then Buys1(sa, sb, desired1, l)
      else Buys0(price, sb, desired0, l) && Buys1(sa, price, desired1, l)
  {
    hide Minting.LiquidityForAmount0, Minting.LiquidityForAmount1;
  }

  lemma ChargedBelow(price: U256, sa: U256, sb: U256, desired0: U128, l: U128)
    requires 0 < sa < sb < MAX_PRICE && 0 < price <= sa && Buys0(sa, sb, desired0, l)
    ensures CoveredBy(l, price, sa, sb, Minting.AmountsForLiquidity(price, sa, sb, l, true))
  {
    hide Amount0Delta, Amount1Delta, PriceScale, Worth0, Worth1, Minting.LiquidityForAmount0;
    Charged0(sa, sb, desired0, l);
    WorthBelow(price, sa, sb, l);
  }

  lemma ChargedAbove(price: U256, sa: U256, sb: U256, desired1: U128, l: U128)
    requires 0 < sa < sb < MAX_PRICE && sb <= price < MAX_PRICE && Buys1(sa, sb, desired1, l)
    ensures CoveredBy(l, price, sa, sb, Minting.AmountsForLiquidity(price, sa, sb, l, true))
  {
    hide Amount0Delta, Amount1Delta, PriceScale, Worth0, Worth1, Minting.LiquidityForAmount1;
    Charged1(sa, sb, desired1, l);
    WorthAbove(price, sa, sb, l);
  }

  lemma ChargedInside(price: U256, sa: U256, sb: U256, desired0: U128, desired1: U128, l: U128)
    requires 0 < sa < price < sb < MAX_PRICE && Buys0(price, sb, desired0, l) && Buys1(sa, price, desired1, l)
    ensures CoveredBy(l, price, sa, sb, Minting.AmountsForLiquidity(price, sa, sb, l, true))
  {
    hide Amount0Delta, Amount1Delta, PriceScale, Worth0, Worth1, Minting.LiquidityForAmount0, Minting.LiquidityForAmount1;
    Charged0(price, sb, desired0, l);
    Charged1(sa, price, desired1, l);
    WorthInside(price, sa, sb);
  }

  lemma WorthBelow(price: U256, sa: U256, sb: U256, l: U128)
    requires 0 < sa < sb && 0 < price <= sa
    ensures Worth0(price, sa, sb) == PriceScale(0, sa) - PriceScale(0, sb) && l as real * Worth1(price, sa, sb) == 0.0
  {
    hide PriceScale;
  }

  lemma WorthAbove(price: U256, sa: U256, sb: U256, l: U128)
    requires 0 < sa < sb <= price
    ensures l as real * Worth0(price, sa, sb) == 0.0 && Worth1(price, sa, sb) == PriceScale(1, sb) - PriceScale(1, sa)
  {
    hide PriceScale;
  }

  lemma WorthInside(price: U256, sa: U256, sb: U256)
    requires 0 < sa < price < sb
    ensures Worth0(price, sa, sb) == PriceScale(0, price) - PriceScale(0, sb)
    ensures Worth1(price, sa, sb) == PriceScale(1, price) - PriceScale(1, sa)
  {
    hide PriceScale;
  }

  lemma NoLiquidityIsFree(price: U256, sa: U256, sb: U256)
    requires 0 < sa < sb && price > 0
    ensures Minting.AmountsForLiquidity(price, sa, sb, 0, true) == Some((0, 0))
    ensures 0 as real * Worth0(price, sa, sb) == 0.0 && 0 as real * Worth1(price, sa, sb) == 0.0
  {
    hide Worth0, Worth1;
  }

  lemma Charged0(sa: U256, sb: U256, supplied: U128, l: U128)
    requires 0 < sa <= sb
    requires Minting.LiquidityForAmount0(sa, sb, supplied).Some? && l <= Minting.LiquidityForAmount0(sa, sb, supplied).value
    ensures var charged := Amount0Delta(sa, sb, l, true);
      charged.Some? && l as real * (PriceScale(0, sa) - PriceScale(0, sb)) <= charged.value as real
  {
    hide Minting.LiquidityForAmount0, Amount0Delta, Exact0, PriceScale;
    Minting.MintCovered0(sa, sb, supplied, l);
    Minting.Amount0Unsaturated(sa, sb, l, true, supplied);
    Amount0Real(l, sa, sb, true);
  }

  lemma Charged1(sa: U256, sb: U256, supplied: U128, l: U128)
    requires 0 < sa <= sb < MAX_PRICE
    requires Minting.LiquidityForAmount1(sa, sb, supplied).Some? && l <= Minting.LiquidityForAmount1(sa, sb, supplied).value
    ensures var charged := Amount1Delta(sa, sb, l, true);
      charged.Some? && l as real * (PriceScale(1, sb) - PriceScale(1, sa)) <= charged.value as real
  {
    hide Minting.LiquidityForAmount1, Amount1Delta, Exact1, PriceScale;
    Minting.MintCovered1(sa, sb, supplied, l);
    Minting.Amount1Unsaturated(sa, sb, l, true, supplied);
    Amount1Real(l, sa, sb, true);
  }

  /** A real number rounded up or down to an integer. */
  function RoundedWorth(x: real, up: bool): int
  {
    if up then -((-x).Floor) else x.Floor
  }

  /** The token amount for some liquidity: cut off at 128 bits. */
  function AmountOf(l: U128, unit: real, up: bool): U128
  {
    SatU128(RoundedAmount(l, unit, up))
  }

  /** What some liquidity stands for at so much a unit, rounded to whole tokens. */
  function RoundedAmount(l: U128, unit: real, up: bool): int
  {
    RoundedWorth(l as real * unit, up)
  }

  lemma AmountOfNothing(l: U128, up: bool)
    ensures AmountOf(l, 0.0, up) == 0
  {
    assert l as real * 0.0 == 0.0;
    RoundedWorthIs(0, 0.0, up);
  }

  lemma NothingStandsForNothing(unit: real)
    ensures AmountOf(0, unit, false) == 0
  {
    assert 0 as real * unit == 0.0;
    RoundedWorthIs(0, 0.0, false);
  }

  lemma RoundedWorthIs(n: int, x: real, up: bool)
    requires if up then n as real - 1.0 < x <= n as real else n as real <= x < n as real + 1.0
    ensures RoundedWorth(x, up) == n
  {
  }

  /** The amounts for some liquidity, charged or paid, are what it stands for, rounded up or down
      and cut off at 128 bits. */
  lemma AmountsAreWorth(price: U256, lower: int, upper: int, l: U128, up: bool)
    requires MIN_TICK <= lower < upper <= MAX_TICK && 0 < price < MAX_PRICE
    ensures var r := Minting.AmountsForLiquidity(price, P(lower), P(upper), l, up);
      && r.Some?
      && r.value.0 == AmountOf(l, PerUnit(lower, upper, 0, price), up)
      && r.value.1 == AmountOf(l, PerUnit(lower, upper, 1, price), up)
  {
    hide P, PriceScale, PerUnit, Minting.AmountsForLiquidity, AmountOf;
    PerUnitIs(lower, upper, price);
    AmountsInRange(price, P(lower), P(upper), l, up);
  }

  lemma AmountsInRange(price: U256, sa: U256, sb: U256, l: U128, up: bool)
    requires 0 < sa < sb < MAX_PRICE && 0 < price < MAX_PRICE
    ensures var r := Minting.AmountsForLiquidity(price, sa, sb, l, up);
      && r.Some?
      && r.value.0 == AmountOf(l, Worth0(price, sa, sb), up)
      && r.value.1 == AmountOf(l, Worth1(price, sa, sb), up)
  {
    hide PriceScale, Amount0Delta, Amount1Delta, AmountOf;
    AmountOfNothing(l, up);
    if price <= sa {
      AmountIs0(sa, sb, l, up);
    } else if price >= sb {
      AmountIs1(sa, sb, l, up);
    } else {
      AmountIs0(price, sb, l, up);
      AmountIs1(sa, price, l, up);
    }
  }

  lemma AmountIs0(sa: U256, sb: U256, l: U128, up: bool)
    requires 0 < sa <= sb
    ensures Amount0Delta(sa, sb, l, up) == Some(AmountOf(l, PriceScale(0, sa) - PriceScale(0, sb), up))
  {
    Amount0IsSingleRounding(sa, sb, l, up);
    hide Exact0, Amount0DeltaU256, PriceScale, RoundedWorth;
    Amount0Real(l, sa, sb, up);
    Amount0Near(l, sa, sb, up);
    RoundedWorthIs(Exact0(l * Q96, sa, sb, up), l as real * (PriceScale(0, sa) - PriceScale(0, sb)), up);
  }

  lemma AmountIs1(sa: U256, sb: U256, l: U128, up: bool)
    requires 0 < sa <= sb < MAX_PRICE
    ensures Amount1Delta(sa, sb, l, up) == Some(AmountOf(l, PriceScale(1, sb) - PriceScale(1, sa), up))
  {
    Amount1IsSingleRounding(sa, sb, l, up);
    hide Exact1, Amount1DeltaU256, PriceScale, RoundedWorth;
    Amount1Real(l, sa, sb, up);
    Amount1Near(l, sa, sb, up);
    RoundedWorthIs(Exact1(l, sa, sb, up), l as real * (PriceScale(1, sb) - PriceScale(1, sa)), up);
  }

  /** What a withdrawal pays, fees aside, is within what the liquidity stands for, and short of it by
      less than a unit of each token, unless it does not fit 128 bits. */
  lemma PaidWithin(price: U256, lower: int, upper: int, l: U128)
    requires MIN_TICK <= lower < upper <= MAX_TICK && 0 < price < MAX_PRICE
    ensures var paid := Minting.AmountsForLiquidity(price, P(lower), P(upper), l, false);
      && paid.Some?
      && PaidWorth(paid.value.0, l, PerUnit(lower, upper, 0, price))
      && PaidWorth(paid.value.1, l, PerUnit(lower, upper, 1, price))
  {
    hide P, PerUnit, Minting.AmountsForLiquidity, PaidWorth, AmountOf;
    AmountsAreWorth(price, lower, upper, l, false);
    Rises(lower, upper);
    PerUnitNonNegative(lower, upper, 0, price);
    PerUnitNonNegative(lower, upper, 1, price);
    FloorIsPaid(l, PerUnit(lower, upper, 0, price));
    FloorIsPaid(l, PerUnit(lower, upper, 1, price));
  }

  /** Paid within what is due, and less than a unit below it if that fits its word. */
  predicate PaidWorth(paid: U128, l: U128, unit: real)
  {
    var due := l as real * unit;
    && paid as real <= due
    && (due < TWO_128 as real ==> due - 1.0 < paid as real)
    && (due >= TWO_128 as real ==> paid == U128_MAX)
  }

  lemma FloorIsPaid(l: U128, unit: real)
    requires unit >= 0.0
    ensures PaidWorth(AmountOf(l, unit, false), l, unit)
  {
    RealMono(0.0, unit, l as real);
  }

  // --------------------------------------------------------------------- the books

  /** The ledger, the price, the reserves, the fees credited to each position but not paid, the
      tokens the contract holds, and the protocol's fees among them. */
  datatype Books = Books(ledger: Ledger, price: U256, reserves: Amounts, owed: seq<Amounts>, balances: Amounts, protocol: Amounts)

  /** Tokens held that belong neither to the reserves nor to the protocol. */
  function Excess(b: Books, k: nat): int
    requires k < 2
  {
    b.balances[k] as int - b.reserves[k] - b.protocol[k]
  }

  function SumOwed(owed: seq<Amounts>, k: nat): nat
    requires k < 2
  {
    if owed == [] then 0 else SumOwed(owed[..|owed| - 1], k) + owed[|owed| - 1][k]
  }

  /** All that positions can ask for: what their liquidity stands for, fees credited and not
      paid, and fees given to providers and not credited yet. */
  ghost function Needs(b: Books, k: nat): real
    requires k < 2
  {
    Worth(b.ledger.positions, k, b.price) + (b.ledger.fees[k] as real - b.ledger.credited[k] as real) + SumOwed(b.owed, k) as real
  }

  ghost predicate Solvent(b: Books)
  {
    && LedgerOk(b.ledger) && OnLadder(b.ledger.tick, b.price) && |b.owed| == |b.ledger.positions|
    && Needs(b, 0) <= b.reserves[0] as real && Needs(b, 1) <= b.reserves[1] as real
    && Excess(b, 0) >= 0 && Excess(b, 1) >= 0 && AreTokens(b.balances)
  }

  /** What a contract can hold of a token: balances are signed 128-bit numbers. */
  predicate AreTokens(balances: Amounts)
  {
    balances[0] <= I128_MAX && balances[1] <= I128_MAX
  }

  ghost predicate SameExcess(b: Books, b': Books)
  {
    Excess(b', 0) == Excess(b, 0) && Excess(b', 1) == Excess(b, 1)
  }

  lemma {:induction false} SumOwedUpdate(owed: seq<Amounts>, i: nat, a: Amounts, k: nat)
    requires k < 2 && i < |owed|
    ensures SumOwed(owed[i := a], k) == SumOwed(owed, k) - owed[i][k] + a[k]
  {
    var n := |owed| - 1;
    if i < n {
      SumOwedUpdate(owed[..n], i, a, k);
      assert owed[i := a][..n] == owed[..n][i := a];
    } else {
      assert owed[i := a][..n] == owed[..n];
    }
  }

  // ------------------------------------------------------------ changes of liquidity

  /** One position's liquidity changed; fees already given stay, credits may have grown. */
  ghost predicate Resized(s: Ledger, s': Ledger, i: nat, liquidity: U128)
    requires i < |s.positions|
  {
    && s'.tick == s.tick && s'.spacing == s.spacing && s'.fees == s.fees
    && SameHoldings(s.positions[i := s.positions[i].(liquidity := liquidity)], s'.positions)
    && s.credited[0] <= s'.credited[0] && s.credited[1] <= s'.credited[1]
  }

  lemma AccrueResizes(s: Ledger, i: nat)
    requires i < |s.positions| && Accrue(s, i).Some?
    ensures Resized(s, Accrue(s, i).value, i, s.positions[i].liquidity)
  {
    hide Earned, Inside;
  }

  lemma DepositResizes(s: Ledger, i: nat, amount: U128)
    requires s.spacing > 0 && i < |s.positions| && Deposit(s, i, amount).Some?
    requires s.positions[i].liquidity + amount <= U128_MAX
    ensures Resized(s, Deposit(s, i, amount).value, i, s.positions[i].liquidity + amount)
  {
    Runs.TicksOnly(s, s.positions[i], amount);
    AccrueResizes(ChangeBounds(s, s.positions[i], amount).value, i);
    hide Accrue, ChangeBounds;
  }

  lemma WithdrawResizes(s: Ledger, i: nat, amount: U128)
    requires s.spacing > 0 && i < |s.positions| && Withdraw(s, i, amount).Some? && amount <= s.positions[i].liquidity
    ensures Resized(s, Withdraw(s, i, amount).value, i, s.positions[i].liquidity - amount)
  {
    AccrueResizes(s, i);
    var s1 := Accrue(s, i).value;
    var p := s1.positions[i];
    var s2 := s1.(positions := s1.positions[i := p.(liquidity := p.liquidity - amount)]);
    Runs.TicksOnly(s2, p, -(amount as int));
    hide Accrue, ChangeBounds;
  }

  /** `tokens_owed` after a position's growth has been credited to it. */
  function Credit(owed: seq<Amounts>, i: nat, s: Ledger, s': Ledger): seq<Amounts>
    requires i < |owed|
  {
    owed[i := [SatU128(owed[i][0] as int + s'.credited[0] - s.credited[0]), SatU128(owed[i][1] as int + s'.credited[1] - s.credited[1])]]
  }

  /** Crediting moves no more than it adds, so needs change with the liquidity only. */
  lemma NeedsAfter(b: Books, s': Ledger, i: nat, liquidity: U128, k: nat)
    requires k < 2 && i < |b.ledger.positions| == |b.owed| && Resized(b.ledger, s', i, liquidity)
    ensures var p := b.ledger.positions[i];
      Needs(b.(ledger := s', owed := Credit(b.owed, i, b.ledger, s')), k)
        <= Needs(b, k) + (liquidity as real - p.liquidity as real) * PerUnit(p.lower, p.upper, k, b.price)
  {
    hide PerUnit, Worth, SumOwed, Credit, SameHoldings;
    var s, p := b.ledger, b.ledger.positions[i];
    assert s.credited[k] <= s'.credited[k] by { assert k == 0 || k == 1; }
    CreditWithin(b.owed, i, s, s', k);
    ResizedWorth(s, s', i, liquidity, k, b.price);
    var gain := (liquidity as real - p.liquidity as real) * PerUnit(p.lower, p.upper, k, b.price);
    AddUp(Worth(s.positions, k, b.price), Worth(s'.positions, k, b.price), gain, s.fees[k], s.credited[k], s'.credited[k],
          SumOwed(b.owed, k), SumOwed(Credit(b.owed, i, s, s'), k));
    assert s'.fees[k] == s.fees[k];
  }

  lemma AddUp(worth: real, worth': real, gain: real, fees: nat, credited: nat, credited': nat, owed: nat, owed': nat)
    requires worth' == worth + gain && owed' <= owed + credited' - credited
    ensures worth' + (fees as real - credited' as real) + owed' as real
         <= worth + (fees as real - credited as real) + owed as real + gain
  {
    assert owed' as real <= owed as real + credited' as real - credited as real;
  }

  lemma CreditWithin(owed: seq<Amounts>, i: nat, s: Ledger, s': Ledger, k: nat)
    requires k < 2 && i < |owed| && s.credited[k] <= s'.credited[k]
    ensures SumOwed(Credit(owed, i, s, s'), k) <= SumOwed(owed, k) + s'.credited[k] - s.credited[k]
  {
    SumOwedUpdate(owed, i, Credit(owed, i, s, s')[i], k);
    hide SumOwed;
  }

  lemma ResizedWorth(s: Ledger, s': Ledger, i: nat, liquidity: U128, k: nat, price: U256)
    requires k < 2 && i < |s.positions| && Resized(s, s', i, liquidity)
    ensures var p := s.positions[i];
      Worth(s'.positions, k, price)
        == Worth(s.positions, k, price) + (liquidity as real - p.liquidity as real) * PerUnit(p.lower, p.upper, k, price)
  {
    hide PerUnit, Worth;
    var p := s.positions[i];
    var p' := p.(liquidity := liquidity);
    WorthOfHoldings(s.positions[i := p'], s'.positions, k, price);
    WorthUpdate(s.positions, i, p', k, price);
    MinusTimes(liquidity as real, p.liquidity as real, PerUnit(p.lower, p.upper, k, price));
  }

  lemma MinusTimes(a: real, b: real, u: real)
    ensures (a - b) * u == a * u - b * u
  {
  }

  /** Needs are never negative, and cover what one position is owed. */
  lemma NeedsCoverOwed(b: Books, i: nat, k: nat)
    requires k < 2 && LedgerOk(b.ledger) && i < |b.owed| == |b.ledger.positions|
    ensures b.owed[i][k] as real <= Needs(b, k)
  {
    var ps := b.ledger.positions;
    forall j | 0 <= j < |ps|
      ensures P(ps[j].lower) <= P(ps[j].upper)
    {
      assert LegalTick(ps[j].lower, b.ledger.spacing) && LegalTick(ps[j].upper, b.ledger.spacing);
      hide P;
      Rises(ps[j].lower, ps[j].upper);
    }
    WorthNonNegative(ps, k, b.price);
    OwedIsPart(b.owed, i, k);
    CreditsWithinFees(b.ledger, k);
    hide Worth, SumOwed, P;
  }

  lemma {:induction false} OwedIsPart(owed: seq<Amounts>, i: nat, k: nat)
    requires k < 2 && i < |owed|
    ensures owed[i][k] <= SumOwed(owed, k)
  {
    if i < |owed| - 1 {
      OwedIsPart(owed[..|owed| - 1], i, k);
    }
  }

  lemma CreditsWithinFees(s: Ledger, k: nat)
    requires k < 2 && LedgerOk(s)
    ensures s.credited[k] <= s.fees[k]
  {
    SumNonNegative(s.positions, OwedPart(k));
    hide Sum, TicksAreSums;
    assert Covered(s, k);
  }

  /** Paying a position some of what it is owed lowers needs by as much. */
  lemma NeedsAfterPay(b: Books, i: nat, left: Amounts, k: nat)
    requires k < 2 && i < |b.owed|
    ensures Needs(b.(owed := b.owed[i := left]), k) == Needs(b, k) - b.owed[i][k] as real + left[k] as real
  {
    SumOwedUpdate(b.owed, i, left, k);
    hide Worth, SumOwed;
  }

  // -------------------------------------------------------------------- operations

  /** How an operation ends: done, refused by a check of its own, or short of reserves or of the
      tokens to pay them with. */
  datatype Ending = Done(books: Books) | Refused | ShortOfReserves

  /** `deposit_position`: the desired amounts come in whole, and what is not charged goes back. */
  function Deposited(b: Books, i: nat, desired0: U128, desired1: U128, minLiquidity: U128): Ending
    requires b.ledger.spacing > 0 && i < |b.ledger.positions| == |b.owed|
  {
    var p := b.ledger.positions[i];
    var bought := Minting.MaxLiquidity(b.price, P(p.lower), P(p.upper), desired0, desired1);
    if bought.None? || bought.value == 0 || bought.value < minLiquidity
      || b.balances[0] + desired0 > I128_MAX || b.balances[1] + desired1 > I128_MAX then Refused
    else
      var charged := Minting.AmountsForLiquidity(b.price, P(p.lower), P(p.upper), bought.value, true);
      var changed := Deposit(b.ledger, i, bought.value);
      if charged.None? || changed.None? then Refused
      else
        Done(PaidIn(b, (LowerOf(charged.value.0, desired0), LowerOf(charged.value.1, desired1)), changed.value,
                    Credit(b.owed, i, b.ledger, changed.value)))
  }

  /** Amounts that come in as tokens and as reserves. */
  function PaidIn(b: Books, amounts: (nat, nat), s': Ledger, owed: seq<Amounts>): Books
  {
    b.(ledger := s', owed := owed, reserves := [b.reserves[0] + amounts.0, b.reserves[1] + amounts.1],
       balances := [b.balances[0] + amounts.0, b.balances[1] + amounts.1])
  }

  function LowerOf(a: nat, b: nat): nat
  {
    if a <= b then a else b
  }

  /** Takes amounts out of the reserves and a position's unpaid fees. */
  function PaidOut(b: Books, i: nat, amounts: (nat, nat), left: Amounts): Ending
    requires i < |b.owed|
  {
    TakenOut(b.(owed := b.owed[i := left]), amounts)
  }

  /** Amounts that leave the reserves and the contract. */
  function TakenOut(b: Books, amounts: (nat, nat)): Ending
  {
    if b.reserves[0] < amounts.0 || b.reserves[1] < amounts.1 || b.balances[0] < amounts.0 || b.balances[1] < amounts.1 then
      ShortOfReserves
    else
      Done(b.(reserves := [b.reserves[0] - amounts.0, b.reserves[1] - amounts.1],
              balances := [b.balances[0] - amounts.0, b.balances[1] - amounts.1]))
  }

  /** What a withdrawal pays: the liquidity's tokens and all fees credited up to now. */
  function Payout(b: Books, i: nat, amount: U128): Option<(nat, nat)>
    requires b.ledger.spacing > 0 && i < |b.ledger.positions| == |b.owed|
  {
    var p := b.ledger.positions[i];
    var paid := Minting.AmountsForLiquidity(b.price, P(p.lower), P(p.upper), amount, false);
    var changed := Withdraw(b.ledger, i, amount);
    if paid.None? || changed.None? then None
    else
      var owed := Credit(b.owed, i, b.ledger, changed.value)[i];
      Some((paid.value.0 + owed[0], paid.value.1 + owed[1]))
  }

  /** `withdraw_position`: liquidity and all unpaid fees together. */
  function Withdrawn(b: Books, i: nat, amount: U128, min: (nat, nat)): Ending
    requires b.ledger.spacing > 0 && i < |b.ledger.positions| == |b.owed|
  {
    var total := Payout(b, i, amount);
    if amount == 0 || total.None? || total.value.0 >= TWO_128 || total.value.1 >= TWO_128 || total.value.0 < min.0 || total.value.1 < min.1 then
      Refused
    else
      var s' := Withdraw(b.ledger, i, amount).value;
      PaidOut(b.(ledger := s', owed := Credit(b.owed, i, b.ledger, s')), i, total.value, [0, 0])
  }

  /** `collect_internal`: as much of the unpaid fees as asked for. */
  function Claimed(b: Books, i: nat, wanted: (nat, nat)): Ending
    requires i < |b.ledger.positions| == |b.owed|
  {
    var settled := Accrue(b.ledger, i);
    if settled.None? then Refused
    else
      var owed := Credit(b.owed, i, b.ledger, settled.value);
      var pay := (LowerOf(owed[i][0], wanted.0), LowerOf(owed[i][1], wanted.1));
      PaidOut(b.(ledger := settled.value, owed := owed), i, pay, [owed[i][0] - pay.0, owed[i][1] - pay.1])
  }

  lemma PositionInRange(s: Ledger, i: nat)
    requires LedgerOk(s) && i < |s.positions|
    ensures var p := s.positions[i]; MIN_TICK <= p.lower < p.upper <= MAX_TICK
  {
    assert LegalTick(s.positions[i].lower, s.spacing) && LegalTick(s.positions[i].upper, s.spacing);
  }

  lemma PriceInRange(tick: int, price: U256)
    requires OnLadder(tick, price)
    ensures 0 < price < MAX_PRICE
  {
    Positive(tick);
    Positive(tick + 1);
    hide P;
  }

  /** What a solvent pool's reserves cover is a token amount, so few fees are outstanding. */
  lemma FewInSolvent(b: Books)
    requires Solvent(b)
    ensures FewOutstanding(b.ledger) && b.reserves[0] <= I128_MAX && b.reserves[1] <= I128_MAX
  {
    forall i | 0 <= i < |b.ledger.positions|
      ensures P(b.ledger.positions[i].lower) <= P(b.ledger.positions[i].upper)
    {
      PositionInRange(b.ledger, i);
      Rises(b.ledger.positions[i].lower, b.ledger.positions[i].upper);
    }
    WorthNonNegative(b.ledger.positions, 0, b.price);
    WorthNonNegative(b.ledger.positions, 1, b.price);
    hide LedgerOk, P, OnLadder, Worth, SumOwed;
  }

  lemma LowLedger(s: Ledger)
    requires LedgerOk(s)
    ensures s.spacing > 0
  {
  }

  /** Liquidity that came with enough tokens leaves the pool solvent. */
  lemma GrownBacked(b: Books, s': Ledger, i: nat, l: U128, charged: (U128, U128))
    requires Solvent(b) && i < |b.owed| && b.ledger.positions[i].liquidity + l <= U128_MAX
    requires Resized(b.ledger, s', i, b.ledger.positions[i].liquidity + l) && LedgerOk(s')
    requires var p := b.ledger.positions[i];
      && l as real * PerUnit(p.lower, p.upper, 0, b.price) <= charged.0 as real
      && l as real * PerUnit(p.lower, p.upper, 1, b.price) <= charged.1 as real
    requires b.balances[0] + charged.0 <= I128_MAX && b.balances[1] + charged.1 <= I128_MAX
    ensures Solvent(PaidIn(b, charged, s', Credit(b.owed, i, b.ledger, s')))
  {
    hide LedgerOk, P, OnLadder, Needs, PerUnit;
    var p := b.ledger.positions[i];
    NeedsAfter(b, s', i, p.liquidity + l, 0);
    NeedsAfter(b, s', i, p.liquidity + l, 1);
    AddedLiquidity(p.liquidity, l);
    var after := PaidIn(b, charged, s', Credit(b.owed, i, b.ledger, s'));
    NeedsOf(b.(ledger := s', owed := Credit(b.owed, i, b.ledger, s')), after);
  }

  lemma DepositCharge(b: Books, i: nat, desired0: U128, desired1: U128, l: U128)
    requires Solvent(b) && i < |b.owed|
    requires var p := b.ledger.positions[i];
      Minting.MaxLiquidity(b.price, P(p.lower), P(p.upper), desired0, desired1) == Some(l)
    ensures var p := b.ledger.positions[i];
      var charged := Minting.AmountsForLiquidity(b.price, P(p.lower), P(p.upper), l, true);
      && charged.Some? && charged.value.0 <= desired0 && charged.value.1 <= desired1
      && l as real * PerUnit(p.lower, p.upper, 0, b.price) <= charged.value.0 as real
      && l as real * PerUnit(p.lower, p.upper, 1, b.price) <= charged.value.1 as real
  {
    hide LedgerOk, P, OnLadder, Needs, PerUnit, Minting.MaxLiquidity, Minting.AmountsForLiquidity;
    var p := b.ledger.positions[i];
    PositionInRange(b.ledger, i);
    PriceInRange(b.ledger.tick, b.price);
    Positive(p.lower);
    Positive(p.upper);
    Rises(p.lower, p.upper);
    Minting.DepositCovered(b.price, P(p.lower), P(p.upper), desired0, desired1);
    ChargedCovers(b.price, p.lower, p.upper, desired0, desired1);
  }

  /** A deposit leaves the pool solvent. */
  lemma DepositSolvent(b: Books, i: nat, desired0: U128, desired1: U128, minLiquidity: U128)
    requires Solvent(b) && i < |b.owed|
    ensures b.ledger.spacing > 0
    ensures var r := Deposited(b, i, desired0, desired1, minLiquidity);
      !r.ShortOfReserves? && (r.Done? ==> Solvent(r.books))
  {
    LowLedger(b.ledger);
    var p := b.ledger.positions[i];
    var bought := Minting.MaxLiquidity(b.price, P(p.lower), P(p.upper), desired0, desired1);
    var r := Deposited(b, i, desired0, desired1, minLiquidity);
    if r.Done? {
      var l := bought.value;
      var s' := Deposit(b.ledger, i, l).value;
      hide LedgerOk, P, OnLadder, Needs, Deposit, Minting.MaxLiquidity, Minting.AmountsForLiquidity, Credit, PerUnit, Resized;
      DepositCharge(b, i, desired0, desired1, l);
      LedgerParts(b.ledger);
      Runs.DepositNeeds(b.ledger, i, l);
      DepositKeeps(b.ledger, i, l);
      DepositFits(b.ledger, i, l);
      DepositResizes(b.ledger, i, l);
      GrownBacked(b, s', i, l, Minting.AmountsForLiquidity(b.price, P(p.lower), P(p.upper), l, true).value);
    }
  }

  lemma AddedLiquidity(a: U128, l: U128)
    requires a + l <= U128_MAX
    ensures (a + l) as real - a as real == l as real
  {
  }

  /** Reserves play no part in what is needed. */
  lemma NeedsOf(b: Books, b': Books)
    requires b'.ledger == b.ledger && b'.price == b.price && b'.owed == b.owed
    ensures Needs(b', 0) == Needs(b, 0) && Needs(b', 1) == Needs(b, 1)
  {
  }

  lemma LedgerParts(s: Ledger)
    requires LedgerOk(s)
    ensures s.spacing > 0 && TicksAreSums(s) && PositionsLegal(s)
  {
  }

  /** Reserves that cover needs and an amount besides can pay that amount and any owed fees. */
  lemma PayBacked(b: Books, i: nat, base: (nat, nat), left: Amounts)
    requires LedgerOk(b.ledger) && OnLadder(b.ledger.tick, b.price) && i < |b.owed| == |b.ledger.positions|
    requires left[0] <= b.owed[i][0] && left[1] <= b.owed[i][1]
    requires Needs(b, 0) + base.0 as real <= b.reserves[0] as real && Needs(b, 1) + base.1 as real <= b.reserves[1] as real
    requires Excess(b, 0) >= 0 && Excess(b, 1) >= 0 && AreTokens(b.balances)
    ensures var r := PaidOut(b, i, (base.0 + b.owed[i][0] - left[0], base.1 + b.owed[i][1] - left[1]), left);
      r.Done? && Solvent(r.books)
  {
    hide LedgerOk, P, OnLadder, Needs;
    NeedsCoverOwed(b, i, 0);
    NeedsCoverOwed(b, i, 1);
    NeedsAfterPay(b, i, left, 0);
    NeedsAfterPay(b, i, left, 1);
    var r := PaidOut(b, i, (base.0 + b.owed[i][0] - left[0], base.1 + b.owed[i][1] - left[1]), left);
    if r.Done? {
      NeedsOf(b.(owed := b.owed[i := left]), r.books);
    }
  }

  lemma WithdrawPay(b: Books, i: nat, amount: U128)
    requires Solvent(b) && i < |b.owed|
    ensures var p := b.ledger.positions[i];
      var paid := Minting.AmountsForLiquidity(b.price, P(p.lower), P(p.upper), amount, false);
      && paid.Some?
      && paid.value.0 as real <= amount as real * PerUnit(p.lower, p.upper, 0, b.price)
      && paid.value.1 as real <= amount as real * PerUnit(p.lower, p.upper, 1, b.price)
  {
    hide LedgerOk, P, OnLadder, Needs, PerUnit, Minting.AmountsForLiquidity;
    PositionInRange(b.ledger, i);
    PriceInRange(b.ledger.tick, b.price);
    PaidWithin(b.price, b.ledger.positions[i].lower, b.ledger.positions[i].upper, amount);
  }

  /** After liquidity has gone, reserves cover the rest and what it pays. */
  lemma ShrunkBacked(b: Books, s': Ledger, i: nat, amount: U128, paid: (U128, U128))
    requires Solvent(b) && i < |b.owed| && amount <= b.ledger.positions[i].liquidity
    requires Resized(b.ledger, s', i, b.ledger.positions[i].liquidity - amount)
    requires var p := b.ledger.positions[i];
      && paid.0 as real <= amount as real * PerUnit(p.lower, p.upper, 0, b.price)
      && paid.1 as real <= amount as real * PerUnit(p.lower, p.upper, 1, b.price)
    ensures var after := b.(ledger := s', owed := Credit(b.owed, i, b.ledger, s'));
      Needs(after, 0) + paid.0 as real <= b.reserves[0] as real && Needs(after, 1) + paid.1 as real <= b.reserves[1] as real
  {
    hide LedgerOk, P, OnLadder, Needs, PerUnit;
    ShrunkNeeds(b, s', i, amount, paid.0, 0);
    ShrunkNeeds(b, s', i, amount, paid.1, 1);
  }

  lemma ShrunkNeeds(b: Books, s': Ledger, i: nat, amount: U128, paid: U128, k: nat)
    requires k < 2 && i < |b.ledger.positions| == |b.owed| && amount <= b.ledger.positions[i].liquidity
    requires Resized(b.ledger, s', i, b.ledger.positions[i].liquidity - amount)
    requires var p := b.ledger.positions[i]; paid as real <= amount as real * PerUnit(p.lower, p.upper, k, b.price)
    ensures Needs(b.(ledger := s', owed := Credit(b.owed, i, b.ledger, s')), k) + paid as real <= Needs(b, k)
  {
    hide Needs, PerUnit, Resized, Credit;
    var p := b.ledger.positions[i];
    NeedsAfter(b, s', i, p.liquidity - amount, k);
    RemovedLiquidity(p.liquidity, amount, PerUnit(p.lower, p.upper, k, b.price));
  }

  lemma RemovedLiquidity(a: U128, l: U128, u: real)
    requires l <= a
    ensures ((a - l) as real - a as real) * u == -(l as real * u)
  {
    assert (a - l) as real - a as real == -(l as real);
  }

  /** What a withdrawal is asked for: it takes something the position has, and its amounts reach the
      minimum. */
  predicate MayWithdraw(b: Books, i: nat, amount: U128, min: (nat, nat))
    requires b.ledger.spacing > 0 && i < |b.ledger.positions| == |b.owed|
  {
    var payout := Payout(b, i, amount);
    && 0 < amount <= I128_MAX && amount <= b.ledger.positions[i].liquidity
    && payout.Some? && min.0 <= payout.value.0 && min.1 <= payout.value.1
  }

  lemma WithdrawBacked(b: Books, i: nat, amount: U128, s': Ledger, paid: (U128, U128))
    requires Solvent(b) && i < |b.owed| && b.ledger.spacing > 0
    requires Withdraw(b.ledger, i, amount) == Some(s')
    requires var p := b.ledger.positions[i];
      Minting.AmountsForLiquidity(b.price, P(p.lower), P(p.upper), amount, false) == Some(paid)
    ensures amount <= I128_MAX && amount <= b.ledger.positions[i].liquidity
    ensures var owed := Credit(b.owed, i, b.ledger, s');
      && Payout(b, i, amount) == Some((paid.0 + owed[i][0], paid.1 + owed[i][1]))
      && var r := PaidOut(b.(ledger := s', owed := owed), i, Payout(b, i, amount).value, [0, 0]);
      r.Done? && Solvent(r.books) && Payout(b, i, amount).value.0 <= b.reserves[0] && Payout(b, i, amount).value.1 <= b.reserves[1]
  {
    hide LedgerOk, P, OnLadder, Needs, Withdraw, Minting.AmountsForLiquidity, Credit, PerUnit, Resized;
    Runs.WithdrawNeeds(b.ledger, i, amount);
    WithdrawKeeps(b.ledger, i, amount);
    WithdrawPay(b, i, amount);
    var owed := Credit(b.owed, i, b.ledger, s');
    WithdrawResizes(b.ledger, i, amount);
    ShrunkBacked(b, s', i, amount, paid);
    SettledOwed(b, s', i);
    PayBacked(b.(ledger := s', owed := owed), i, paid, [0, 0]);
  }

  lemma PayoutNeeds(b: Books, i: nat, amount: U128) returns (s': Ledger, paid: (U128, U128))
    requires b.ledger.spacing > 0 && i < |b.ledger.positions| == |b.owed| && Payout(b, i, amount).Some?
    ensures Withdraw(b.ledger, i, amount) == Some(s')
    ensures var p := b.ledger.positions[i];
      Minting.AmountsForLiquidity(b.price, P(p.lower), P(p.upper), amount, false) == Some(paid)
  {
    hide Withdraw, Minting.AmountsForLiquidity, P;
    var p := b.ledger.positions[i];
    s' := Withdraw(b.ledger, i, amount).value;
    paid := Minting.AmountsForLiquidity(b.price, P(p.lower), P(p.upper), amount, false).value;
  }

  lemma PayoutExists(b: Books, i: nat, amount: U128)
    requires Solvent(b) && i < |b.owed| && b.ledger.spacing > 0
    requires amount <= I128_MAX && amount <= b.ledger.positions[i].liquidity
    ensures Payout(b, i, amount).Some?
  {
    FewInSolvent(b);
    hide LedgerOk, P, OnLadder, Needs, Withdraw, Minting.AmountsForLiquidity, PerUnit, FewOutstanding;
    WithdrawKeeps(b.ledger, i, amount);
    WithdrawPay(b, i, amount);
  }

  /** A withdrawal that passes its own checks is paid, in full, and leaves the pool solvent. */
  lemma WithdrawIsPaid(b: Books, i: nat, amount: U128, min: (nat, nat))
    requires Solvent(b) && i < |b.owed|
    ensures b.ledger.spacing > 0
    ensures Payout(b, i, amount).Some? <==> amount <= I128_MAX && amount <= b.ledger.positions[i].liquidity
    ensures var r := Withdrawn(b, i, amount, min);
      && (r.Done? <==> MayWithdraw(b, i, amount, min)) && !r.ShortOfReserves?
      && (r.Done? ==> Solvent(r.books))
  {
    LowLedger(b.ledger);
    FewInSolvent(b);
    if amount <= I128_MAX && amount <= b.ledger.positions[i].liquidity {
      PayoutExists(b, i, amount);
    }
    hide LedgerOk, P, OnLadder, Needs, Withdraw, Payout, Minting.AmountsForLiquidity, Credit, PaidOut;
    if Payout(b, i, amount).Some? {
      var s', paid := PayoutNeeds(b, i, amount);
      WithdrawBacked(b, i, amount, s', paid);
    }
  }

  lemma SettledOwed(b: Books, s': Ledger, i: nat)
    requires i < |b.owed| == |b.ledger.positions|
    ensures |Credit(b.owed, i, b.ledger, s')| == |b.owed|
    ensures forall liquidity: U128 :: Resized(b.ledger, s', i, liquidity) ==> s'.tick == b.ledger.tick && |s'.positions| == |b.owed|
  {
  }

  /** A claim is always paid as far as it is owed, and leaves the pool solvent. */
  lemma ClaimIsPaid(b: Books, i: nat, wanted: (nat, nat))
    requires Solvent(b) && i < |b.owed|
    ensures var r := Claimed(b, i, wanted); r.Done? && Solvent(r.books)
  {
    hide Solvent, Accrue, Credit, Resized, PaidOut, LedgerOk;
    AccrueInSolvent(b, i);
    SettledSolvent(b, i);
    var s' := Accrue(b.ledger, i).value;
    var owed := Credit(b.owed, i, b.ledger, s');
    var pay := (LowerOf(owed[i][0], wanted.0), LowerOf(owed[i][1], wanted.1));
    PayOwed(b.(ledger := s', owed := owed), i, [owed[i][0] - pay.0, owed[i][1] - pay.1]);
  }

  /** Settling a position leaves the pool solvent. */
  lemma SettledSolvent(b: Books, i: nat)
    requires Solvent(b) && i < |b.owed| && Accrue(b.ledger, i).Some?
    ensures var s' := Accrue(b.ledger, i).value; Solvent(b.(ledger := s', owed := Credit(b.owed, i, b.ledger, s')))
  {
    AccrueInSolvent(b, i);
    hide LedgerOk, P, OnLadder, Needs, Accrue, Credit, PerUnit, Resized;
    ShrunkBacked(b, Accrue(b.ledger, i).value, i, 0, (0, 0));
  }

  /** A solvent pool can pay a position any part of what it is owed. */
  lemma PayOwed(b: Books, i: nat, left: Amounts)
    requires Solvent(b) && i < |b.owed| && left[0] <= b.owed[i][0] && left[1] <= b.owed[i][1]
    ensures var r := PaidOut(b, i, (b.owed[i][0] - left[0], b.owed[i][1] - left[1]), left);
      r.Done? && Solvent(r.books)
  {
    hide LedgerOk, P, OnLadder, Needs, PaidOut;
    PayBacked(b, i, (0, 0), left);
  }

  lemma AccrueInSolvent(b: Books, i: nat)
    requires Solvent(b) && i < |b.owed|
    ensures |b.owed| == |b.ledger.positions| && Accrue(b.ledger, i).Some?
    ensures var s' := Accrue(b.ledger, i).value;
      && LedgerOk(s') && Resized(b.ledger, s', i, b.ledger.positions[i].liquidity)
      && |Credit(b.owed, i, b.ledger, s')| == |b.owed| == |s'.positions| && s'.tick == b.ledger.tick
  {
    FewInSolvent(b);
    hide LedgerOk, OnLadder, Needs, Accrue, FewOutstanding;
    AccrueKeeps(b.ledger, i);
    AccrueResizes(b.ledger, i);
  }

  /** Settles the given positions one after another and takes all they are owed. */
  function TakeAll(b: Books, positions: seq<nat>): Option<(Books, (nat, nat))>
    requires |b.ledger.positions| == |b.owed|
    decreases |positions|
  {
    if positions == [] then Some((b, (0, 0)))
    else
      var i := positions[0];
      if i >= |b.owed| || Accrue(b.ledger, i).None? then None
      else
        AccrueResizes(b.ledger, i);
        var s' := Accrue(b.ledger, i).value;
        var owed := Credit(b.owed, i, b.ledger, s');
        match TakeAll(b.(ledger := s', owed := owed[i := [0, 0]]), positions[1..])
        case None => None
        case Some((rest, total)) => Some((rest, (owed[i][0] + total.0, owed[i][1] + total.1)))
  }

  /** `claim_all_position_fees`: the totals, capped like the code's sums, leave the reserves once. */
  function ClaimedAll(b: Books, positions: seq<nat>): Ending
    requires |b.ledger.positions| == |b.owed|
  {
    match TakeAll(b, positions)
    case None => Refused
    case Some((rest, total)) => TakenOut(rest, (LowerOf(total.0, U128_MAX), LowerOf(total.1, U128_MAX)))
  }

  /** `claim_protocol_fees`. */
  function ClaimedProtocol(b: Books): Ending
  {
    if b.balances[0] < b.protocol[0] || b.balances[1] < b.protocol[1] then ShortOfReserves
    else Done(b.(balances := [b.balances[0] - b.protocol[0], b.balances[1] - b.protocol[1]], protocol := [0, 0]))
  }

  /** Settling a position and taking what it is owed. */
  lemma TakeOneNeeds(b: Books, i: nat)
    requires LedgerOk(b.ledger) && |b.owed| == |b.ledger.positions| && i < |b.owed| && Accrue(b.ledger, i).Some?
    ensures var s' := Accrue(b.ledger, i).value;
      var owed := Credit(b.owed, i, b.ledger, s');
      var b' := b.(ledger := s', owed := owed[i := [0, 0]]);
      && LedgerOk(s') && |owed| == |s'.positions| == |b.owed|
      && s'.tick == b.ledger.tick && s'.spacing == b.ledger.spacing && s'.fees == b.ledger.fees
      && (FewOutstanding(b.ledger) ==> FewOutstanding(s'))
      && Needs(b', 0) + owed[i][0] as real <= Needs(b, 0) && Needs(b', 1) + owed[i][1] as real <= Needs(b, 1)
  {
    AccrueKeeps(b.ledger, i);
    AccrueResizes(b.ledger, i);
    var s' := Accrue(b.ledger, i).value;
    SettledOwed(b, s', i);
    FewerOutstanding(b.ledger, s', i);
    hide LedgerOk, Needs, Accrue, Credit, FewOutstanding;
    var b1 := b.(ledger := s', owed := Credit(b.owed, i, b.ledger, s'));
    AccrueNeeds(b, s', i, 0);
    AccrueNeeds(b, s', i, 1);
    NeedsAfterPay(b1, i, [0, 0], 0);
    NeedsAfterPay(b1, i, [0, 0], 1);
  }

  /** While few fees are outstanding any positions can be settled. */
  lemma {:induction false} TakeAllSucceeds(b: Books, positions: seq<nat>)
    requires LedgerOk(b.ledger) && |b.owed| == |b.ledger.positions| && FewOutstanding(b.ledger)
    ensures TakeAll(b, positions).Some? <==> forall j | 0 <= j < |positions| :: positions[j] < |b.owed|
    decreases |positions|
  {
    if positions != [] && positions[0] < |b.owed| {
      var i := positions[0];
      hide LedgerOk, Needs, Accrue, Credit, FewOutstanding;
      AccrueKeeps(b.ledger, i);
      TakeOneNeeds(b, i);
      var s' := Accrue(b.ledger, i).value;
      TakeAllSucceeds(b.(ledger := s', owed := Credit(b.owed, i, b.ledger, s')[i := [0, 0]]), positions[1..]);
    }
  }

  /** What is taken was needed before and is not any more. */
  lemma {:induction false} TakeAllNeeds(b: Books, positions: seq<nat>)
    requires LedgerOk(b.ledger) && |b.owed| == |b.ledger.positions| && TakeAll(b, positions).Some?
    ensures var (rest, total) := TakeAll(b, positions).value;
      && rest == b.(ledger := rest.ledger, owed := rest.owed) && LedgerOk(rest.ledger) && rest.ledger.tick == b.ledger.tick
      && |rest.owed| == |rest.ledger.positions| == |b.owed| && rest.ledger.spacing == b.ledger.spacing && rest.ledger.fees == b.ledger.fees
      && Needs(rest, 0) + total.0 as real <= Needs(b, 0) && Needs(rest, 1) + total.1 as real <= Needs(b, 1)
    decreases |positions|
  {
    if positions != [] {
      var i := positions[0];
      hide LedgerOk, Needs, Accrue, Credit, FewOutstanding;
      TakeOneNeeds(b, i);
      var s' := Accrue(b.ledger, i).value;
      TakeAllNeeds(b.(ledger := s', owed := Credit(b.owed, i, b.ledger, s')[i := [0, 0]]), positions[1..]);
    }
  }

  lemma FewerOutstanding(s: Ledger, s': Ledger, i: nat)
    requires i < |s.positions| && Resized(s, s', i, s.positions[i].liquidity)
    ensures FewOutstanding(s) ==> FewOutstanding(s')
  {
    hide SameHoldings;
  }

  /** Settling a position needs nothing more. */
  lemma AccrueNeeds(b: Books, s': Ledger, i: nat, k: nat)
    requires k < 2 && i < |b.owed| == |b.ledger.positions| && Resized(b.ledger, s', i, b.ledger.positions[i].liquidity)
    ensures Needs(b.(ledger := s', owed := Credit(b.owed, i, b.ledger, s')), k) <= Needs(b, k)
  {
    hide Needs, Credit, PerUnit, Resized;
    NeedsAfter(b, s', i, b.ledger.positions[i].liquidity, k);
  }

  /** Claiming the fees of any number of positions at once is always paid. */
  lemma ClaimAllIsPaid(b: Books, positions: seq<nat>)
    requires Solvent(b)
    ensures var r := ClaimedAll(b, positions);
      (r.Done? <==> forall j | 0 <= j < |positions| :: positions[j] < |b.owed|) && !r.ShortOfReserves? && (r.Done? ==> Solvent(r.books))
  {
    FewInSolvent(b);
    TakeAllSucceeds(b, positions);
    if TakeAll(b, positions).Some? {
      TakeAllNeeds(b, positions);
      var (rest, total) := TakeAll(b, positions).value;
      NeedsNonNegative(rest, 0);
      NeedsNonNegative(rest, 1);
      var r := ClaimedAll(b, positions);
      if r.Done? {
        NeedsOf(rest, r.books);
      }
    }
    hide LedgerOk, Needs, TakeAll, OnLadder;
  }

  // ------------------------------------------------------------------------- swaps

  /** A swap as it reaches `swap_internal`: the amount specified, the most the user pays in, the
      least the caller takes, and the stored ticks with the last initialized one ahead. */
  datatype SwapCall = SwapCall(chunks: map<int, Chunk>, bound: int, amount: U128, maxIn: U128, minOut: U128, o: Order)

  /** The pool's storage records the ledger, and the limit is ahead of the price. */
  ghost predicate IsSwap(b: Books, c: SwapCall)
  {
    MaySwap(c.chunks, b.ledger, b.price, c.o) && IsBound(c.chunks, c.bound, c.o)
  }

  ghost function EndOf(b: Books, c: SwapCall): Option<Cursor>
    requires IsSwap(b, c)
  {
    Swap(c.chunks, c.bound, b.ledger, b.price, c.amount, c.o)
  }

  /** What the user pays in and gets out. */
  function Flows(e: Cursor, c: SwapCall): (int, int)
  {
    var used := c.amount - e.w.remaining;
    if c.o.exactInput then (used, e.w.calculated) else (e.w.calculated, used)
  }

  /** The books after a swap with these totals: the contract gets input and fees, the reserves the
      input and the providers' part, the protocol the rest; reserves and contract pay the output. */
  function AfterSwap(b: Books, s': Ledger, price: U256, zeroForOne: bool, t: Totals): Books
    requires t.paidOut <= b.reserves[OutToken(zeroForOne)] && t.paidOut <= b.balances[OutToken(zeroForOne)]
  {
    var i, o := InToken(zeroForOne), OutToken(zeroForOne);
    Books(s', price, b.reserves[i := b.reserves[i] + t.paidIn + t.toProviders][o := b.reserves[o] - t.paidOut], b.owed,
          b.balances[i := b.balances[i] + t.paidIn + t.charged][o := b.balances[o] - t.paidOut],
          b.protocol[i := b.protocol[i] + LessOf(t.charged, t.toProviders)])
  }

  function LessOf(a: nat, b: nat): nat
  {
    if a >= b then a - b else 0
  }

  /** What the pool keeps of an exact input beyond what the loop used; an exact output is refunded. */
  function Unswapped(e: Cursor, c: SwapCall): nat
  {
    if c.o.exactInput then LessOf(c.maxIn, LessOf(c.amount, e.w.remaining)) else 0
  }

  /** The providers' part of it, once there has been liquidity to swap against. */
  function SurplusOf(e: Cursor, c: SwapCall): U128
  {
    if e.last.liquidity > 0 then LpPart(SatU128(Unswapped(e, c)), c.o.protocolFraction) else 0
  }

  /** The surplus goes to the contract, its parts to the protocol and to the reserves and, as
      growth, to positions. */
  function WithSurplus(b: Books, e: Cursor, c: SwapCall): Books
  {
    var k, unswapped, surplus := InToken(c.o.zeroForOne), Unswapped(e, c), SurplusOf(e, c);
    var held := b.(balances := b.balances[k := b.balances[k] + unswapped]);
    if unswapped == 0 || e.last.liquidity == 0 then held
    else
      held.(ledger := Spread(b.ledger, k, surplus, e.last, c.o.zeroForOne), reserves := b.reserves[k := b.reserves[k] + surplus],
            protocol := b.protocol[k := b.protocol[k] + LessOf(unswapped, surplus)])
  }

  /** `swap_internal` and its caller's check: refused when the loop fails, an exact input uses
      nothing, the user would pay more or get less than agreed, or a transfer cannot be made. */
  ghost function Swapped(b: Books, c: SwapCall): Ending
    requires IsSwap(b, c)
  {
    var end := EndOf(b, c);
    if end.None? then Refused
    else
      var e := end.value;
      var (paidIn, paidOut) := Flows(e, c);
      if (c.o.exactInput && e.w.remaining == c.amount) || paidIn > c.maxIn || paidOut < c.minOut
        || b.balances[InToken(c.o.zeroForOne)] + c.maxIn > I128_MAX || paidOut > I128_MAX then Refused
      else if b.reserves[OutToken(c.o.zeroForOne)] < e.t.paidOut || b.balances[OutToken(c.o.zeroForOne)] < e.t.paidOut then ShortOfReserves
      else Done(WithSurplus(AfterSwap(b, e.s, e.w.price, c.o.zeroForOne, e.t), e, c))
  }

  /** The surplus pays for what it credits: exactly what the rate of its spread decides. */
  ghost predicate SurplusPays(b: Books, c: SwapCall)
    requires IsSwap(b, c)
  {
    var end := EndOf(b, c);
    end.Some? ==> SpreadPays(end.value.s, SurplusOf(end.value, c), end.value.last, c.o.zeroForOne)
  }

  /** A swap that is not refused moves exactly the amounts the user sees: in, less the protocol's
      part of the fees, and out. */
  lemma SwapFlows(b: Books, c: SwapCall)
    requires IsSwap(b, c) && EndOf(b, c).Some? && Swapped(b, c) != Refused
    ensures var e := EndOf(b, c).value;
      Flows(e, c) == (e.t.paidIn + e.t.charged, e.t.paidOut) && e.t.toProviders <= e.t.charged && e.t.paidIn < U128_MAX
  {
    hide LedgerOk, OnLadder, LastOk, Steps.FeeCovers, FeesGrew, WorthMoves, Swap, SurplusOf, WithSurplus, AfterSwap;
    SwapEnds(c.chunks, c.bound, b.ledger, b.price, c.amount, c.o);
    hide MaySwap, IsBound;
  }

  /** A swap that is not refused gives the user what it takes from the positions and gives them what
      the user pays, up to units of rounding for each of its rounds: positions gave up no more
      than the user gets out, for an exact output up to one price unit before the end; and they
      gained all the user pays but the fee, or would have one price unit farther, where an
      exact input is used up. The protocol gets its fraction of the fee, and what positions can
      claim grows by the rest. */
  lemma SwapPaysInFull(b: Books, c: SwapCall)
    requires IsSwap(b, c) && EndOf(b, c).Some? && Swapped(b, c) != Refused
    ensures c.o.fee < Steps.FEE_DENOMINATOR
    ensures var e := EndOf(b, c).value;
      && Flows(e, c) == (e.t.paidIn + e.t.charged, e.t.paidOut)
      && 0 < e.w.price < MAX_PRICE && e.t.rounds <= Distance(b.ledger.tick, c.o.zeroForOne) + 1
      && Grown(b.ledger, b.price, e, PaidUpTo(e, c.o), OutToken(c.o.zeroForOne), -(e.t.paidOut as real), e.t.rounds)
      && PaysPositions(b.ledger, b.price, e, c.o, e.t.paidIn + e.t.charged)
      && ProtocolGets(e.t, c.o.protocolFraction)
      && FeesReach(b.ledger, e.s, InToken(c.o.zeroForOne), e.t.toProviders, e.t.rounds)
  {
    hide IsSwap, EndOf, Swapped, Grown, FeeAtMost, Flows, PaysPositions, ProtocolGets, FeesReach;
    SwapFlows(b, c);
    OutIsToken(b, c);
    DueAtEnd(b, c);
    DuePays(b.ledger, b.price, c.amount, EndOf(b, c).value, c.o);
  }

  lemma DueAtEnd(b: Books, c: SwapCall)
    requires IsSwap(b, c) && EndOf(b, c).Some?
    ensures c.o.fee < Steps.FEE_DENOMINATOR
    ensures var e := EndOf(b, c).value;
      && Due(b.ledger, b.price, c.amount, e, c.o) && e.t.rounds <= Distance(b.ledger.tick, c.o.zeroForOne) + 1
      && (c.o.exactInput ==> c.amount - e.w.remaining == e.t.paidIn + e.t.charged)
  {
    hide LedgerOk, OnLadder, LastOk, Steps.FeeCovers, Swap, Settled, Due;
    SwapEnds(c.chunks, c.bound, b.ledger, b.price, c.amount, c.o);
    SwapIsDue(c.chunks, c.bound, b.ledger, b.price, c.amount, c.o);
  }

  lemma OutIsToken(b: Books, c: SwapCall)
    requires IsSwap(b, c) && EndOf(b, c).Some? && Swapped(b, c) != Refused
    ensures Flows(EndOf(b, c).value, c).1 <= I128_MAX
  {
    hide IsSwap, EndOf, WithSurplus, AfterSwap, Flows;
  }

  /** A swap that is not refused takes something from the user, so that the last check of
      `swap_strict_receive` never fires, within the bounds agreed; an exact output is paid exactly. */
  lemma SwapKeepsTerms(b: Books, c: SwapCall)
    requires IsSwap(b, c) && EndOf(b, c).Some? && Swapped(b, c) != Refused
    ensures var (paidIn, paidOut) := Flows(EndOf(b, c).value, c);
      0 < paidIn <= c.maxIn && c.minOut <= paidOut && (!c.o.exactInput ==> paidOut == c.amount)
  {
    assert c.amount > 0;
    hide LedgerOk, OnLadder, LastOk, Steps.FeeCovers, FeesGrew, WorthMoves, Swap, SurplusOf, WithSurplus, AfterSwap;
    SwapEnds(c.chunks, c.bound, b.ledger, b.price, c.amount, c.o);
    hide MaySwap, IsBound;
  }

  /** A swap whose totals the loop has settled leaves the pool solvent, never finds too little to
      pay out, and every token it moves is accounted for. */
  lemma SwapSolvent(b: Books, s': Ledger, price: U256, zeroForOne: bool, t: Totals)
    requires Solvent(b) && LedgerOk(s') && OnLadder(s'.tick, price)
    requires Settled(b.ledger, b.price, s', price, zeroForOne, t) && t.paidIn < U128_MAX
    requires b.balances[InToken(zeroForOne)] + t.paidIn + t.charged <= I128_MAX
    ensures t.paidOut <= b.reserves[OutToken(zeroForOne)] && t.paidOut <= b.balances[OutToken(zeroForOne)]
    ensures Solvent(AfterSwap(b, s', price, zeroForOne, t)) && SameExcess(b, AfterSwap(b, s', price, zeroForOne, t))
  {
    hide LedgerOk, P, OnLadder, Worth, SumOwed;
    NeedsNonNegative(b.(ledger := s', price := price), OutToken(zeroForOne));
  }

  /** A surplus that pays for itself leaves the pool solvent; it is accounted for whenever there
      was liquidity to swap against. */
  lemma SurplusSolvent(b: Books, e: Cursor, c: SwapCall)
    requires Solvent(b) && b.ledger == e.s && LastOk(e.s, e.last, e.onTick, c.o.zeroForOne) && Unswapped(e, c) < TWO_128
    requires b.balances[InToken(c.o.zeroForOne)] + Unswapped(e, c) <= I128_MAX
    ensures SpreadPays(e.s, SurplusOf(e, c), e.last, c.o.zeroForOne) ==> Solvent(WithSurplus(b, e, c))
    ensures e.last.liquidity > 0 || Unswapped(e, c) == 0 ==> SameExcess(b, WithSurplus(b, e, c))
  {
    var k, unswapped, surplus, z := InToken(c.o.zeroForOne), Unswapped(e, c), SurplusOf(e, c), c.o.zeroForOne;
    PartOfTheFee(SatU128(unswapped), c.o.protocolFraction);
    hide LpPart, Unswapped;
    if unswapped > 0 && e.last.liquidity > 0 && SpreadPays(e.s, surplus, e.last, z) {
      SpreadKeeps(e.s, k, surplus, e.last, z);
      SpreadHoldings(e.s, k, surplus, e.last, z);
      hide LedgerOk, P, OnLadder, Spread, LastOk, SpreadPays;
      var ps := Spread(e.s, k, surplus, e.last, z).positions;
      WorthOfHoldings(b.ledger.positions, ps, 0, b.price);
      WorthOfHoldings(b.ledger.positions, ps, 1, b.price);
      hide Worth, SumOwed, SameHoldings;
    } else {
      NeedsOf(b, b.(balances := b.balances[k := b.balances[k] + unswapped]));
      hide Needs, LedgerOk, P, OnLadder, Spread, LastOk, SpreadPays;
    }
  }

  lemma SpreadHoldings(s: Ledger, k: nat, surplus: U128, last: Last, down: bool)
    requires k < 2
    ensures var s' := Spread(s, k, surplus, last, down);
      && SameHoldings(s.positions, s'.positions) && s'.tick == s.tick && s'.spacing == s.spacing && s'.credited == s.credited
      && s'.fees == s.fees[k := s.fees[k] + surplus]
  {
    hide FeeGrowthDelta, WrapAdd;
  }

  lemma SwapAccepted(b: Books, c: SwapCall)
    requires IsSwap(b, c) && EndOf(b, c).Some? && Swapped(b, c) != Refused
    ensures var e := EndOf(b, c).value;
      && !(c.o.exactInput && e.w.remaining == c.amount) && Flows(e, c).0 <= c.maxIn
      && b.balances[InToken(c.o.zeroForOne)] + c.maxIn <= I128_MAX
  {
    hide IsSwap, EndOf, WithSurplus, AfterSwap;
  }

  /** What the loop settles, where a swap ends. */
  lemma SettledAtEnd(b: Books, c: SwapCall)
    requires IsSwap(b, c) && EndOf(b, c).Some?
    ensures var e := EndOf(b, c).value;
      && LedgerOk(e.s) && OnLadder(e.s.tick, e.w.price) && Settled(b.ledger, b.price, e.s, e.w.price, c.o.zeroForOne, e.t)
      && LastOk(e.s, e.last, e.onTick, c.o.zeroForOne)
      && (e.t.paidIn + e.t.charged + e.t.paidOut > 0 ==> e.last.liquidity > 0)
  {
    hide LedgerOk, OnLadder, LastOk, Steps.FeeCovers, Settled, Swap;
    SwapEnds(c.chunks, c.bound, b.ledger, b.price, c.amount, c.o);
    hide MaySwap, IsBound;
  }

  /** What is known where a swap that is not refused ends. */
  lemma EndOfSwap(b: Books, c: SwapCall)
    requires IsSwap(b, c) && EndOf(b, c).Some? && Swapped(b, c) != Refused
    ensures var e := EndOf(b, c).value;
      && LedgerOk(e.s) && OnLadder(e.s.tick, e.w.price) && Settled(b.ledger, b.price, e.s, e.w.price, c.o.zeroForOne, e.t)
      && LastOk(e.s, e.last, e.onTick, c.o.zeroForOne) && e.t.paidIn < U128_MAX
      && Flows(e, c).0 == e.t.paidIn + e.t.charged <= c.maxIn && b.balances[InToken(c.o.zeroForOne)] + c.maxIn <= I128_MAX
      && Unswapped(e, c) < TWO_128 && (e.last.liquidity > 0 || Unswapped(e, c) == 0)
  {
    hide IsSwap, EndOf, Swapped, LedgerOk, OnLadder, LastOk, Settled, Unswapped, Flows;
    SwapFlows(b, c);
    SwapAccepted(b, c);
    SettledAtEnd(b, c);
    UsedHasRate(EndOf(b, c).value, c);
  }

  lemma SwappedAtEnd(b: Books, c: SwapCall)
    requires IsSwap(b, c) && Swapped(b, c) != Refused
    ensures EndOf(b, c).Some?
    ensures var e := EndOf(b, c).value;
      && (e.t.paidOut <= b.reserves[OutToken(c.o.zeroForOne)] && e.t.paidOut <= b.balances[OutToken(c.o.zeroForOne)] ==>
            Swapped(b, c) == Done(WithSurplus(AfterSwap(b, e.s, e.w.price, c.o.zeroForOne, e.t), e, c)))
      && (SurplusPays(b, c) ==> SpreadPays(e.s, SurplusOf(e, c), e.last, c.o.zeroForOne))
  {
    hide IsSwap, EndOf, WithSurplus, AfterSwap, SpreadPays, SurplusOf;
  }

  /** A swap never lacks reserves, leaves the pool solvent when its surplus pays for itself, and
      every token it moves is accounted for. */
  lemma SwapKeepsSolvent(b: Books, c: SwapCall)
    requires Solvent(b) && IsSwap(b, c)
    ensures !Swapped(b, c).ShortOfReserves?
    ensures Swapped(b, c).Done? && SurplusPays(b, c) ==> Solvent(Swapped(b, c).books)
    ensures Swapped(b, c).Done? ==> SameExcess(b, Swapped(b, c).books)
  {
    hide Solvent, Settled, LastOk, LedgerOk, OnLadder, SpreadPays, IsSwap, WithSurplus, AfterSwap, Excess, Unswapped, EndOf, Swapped, SurplusPays, SurplusOf;
    if Swapped(b, c) != Refused {
      SwappedAtEnd(b, c);
      EndOfSwap(b, c);
      var e := EndOf(b, c).value;
      SwapSolvent(b, e.s, e.w.price, c.o.zeroForOne, e.t);
      AfterSwapHolds(b, e, c);
      SurplusSolvent(AfterSwap(b, e.s, e.w.price, c.o.zeroForOne, e.t), e, c);
    }
  }

  /** A loop that used something had liquidity to use it on. */
  lemma UsedHasRate(e: Cursor, c: SwapCall)
    requires e.t.paidIn + e.t.charged + e.t.paidOut > 0 ==> e.last.liquidity > 0
    requires Flows(e, c) == (e.t.paidIn + e.t.charged, e.t.paidOut) && !(c.o.exactInput && e.w.remaining == c.amount)
    ensures Unswapped(e, c) < TWO_128 && (e.last.liquidity > 0 || Unswapped(e, c) == 0)
  {
  }

  lemma AfterSwapHolds(b: Books, e: Cursor, c: SwapCall)
    requires e.t.paidOut <= b.reserves[OutToken(c.o.zeroForOne)] && e.t.paidOut <= b.balances[OutToken(c.o.zeroForOne)]
    requires Flows(e, c).0 == e.t.paidIn + e.t.charged <= c.maxIn && b.balances[InToken(c.o.zeroForOne)] + c.maxIn <= I128_MAX
    ensures var after := AfterSwap(b, e.s, e.w.price, c.o.zeroForOne, e.t);
      after.ledger == e.s && after.balances[InToken(c.o.zeroForOne)] + Unswapped(e, c) <= I128_MAX
  {
  }

  /** The surplus of a swap pays for itself when nothing was crossed, when the swap ended on a
      crossing or without liquidity in range, and when there is at least as much liquidity where
      it ended as before its last crossing; a large enough surplus only then. */
  lemma SurplusPaysExactly(b: Books, c: SwapCall)
    requires IsSwap(b, c) && EndOf(b, c).Some?
    ensures var e := EndOf(b, c).value;
      var z, surplus := c.o.zeroForOne, SurplusOf(e, c);
      && (RatePays(e.s, e.last, e.onTick, z) ==> SurplusPays(b, c))
      && (surplus > 0 && surplus * TWO_128 >= FarLiquidity(e.s, e.last.tick, z) * e.last.liquidity ==>
            (SurplusPays(b, c) <==> RatePays(e.s, e.last, e.onTick, z)))
  {
    SwapEnds(c.chunks, c.bound, b.ledger, b.price, c.amount, c.o);
    var e := EndOf(b, c).value;
    hide IsSwap, Settled, LastOk, LedgerOk, OnLadder, SpreadPays, RatePays, Steps.FeeCovers, Swap;
    SurplusPaysIff(e.s, SurplusOf(e, c), e.last, e.onTick, c.o.zeroForOne);
  }

  /** The pool keeps of an exact input at most what the loop could not use. */
  predicate TakesItsAmount(c: SwapCall)
  {
    c.o.exactInput ==> c.maxIn == c.amount
  }

  /** With the default limit, a spacing that does not divide the last tick, and an exact input that
      takes no more than its amount, every surplus pays for itself. */
  lemma DefaultSurplusPays(b: Books, c: SwapCall)
    requires IsSwap(b, c) && DefaultLimit(c.o) && MAX_TICK % c.o.spacing != 0 && TakesItsAmount(c)
    ensures SurplusPays(b, c)
  {
    var end := EndOf(b, c);
    if end.Some? {
      SwapEnds(c.chunks, c.bound, b.ledger, b.price, c.amount, c.o);
      DefaultSwapPays(c.chunks, c.bound, b.ledger, b.price, c.amount, c.o);
      SurplusPaysExactly(b, c);
      NothingUnswapped(end.value, c);
      NoSurplusPays(end.value.s, end.value.last, c.o.zeroForOne);
    }
    hide Swap, MaySwap, IsBound, SpreadPays, RatePays, Settled, LedgerOk, LastOk, OnLadder, Unswapped, LpPart, Steps.FeeCovers;
  }

  lemma NothingUnswapped(e: Cursor, c: SwapCall)
    requires TakesItsAmount(c) && e.w.remaining <= c.amount
    ensures e.w.remaining == 0 ==> SurplusOf(e, c) == 0
  {
  }

  lemma NoSurplusPays(s: Ledger, last: Last, down: bool)
    ensures SpreadPays(s, 0, last, down)
  {
  }

  // ------------------------------------------------------------- public entry points

  /** The two public swaps: an amount in for at least some amount out, or an amount out for at most
      some amount in. */
  datatype Entry = SellExact(inAmount: U128, outMin: U128) | BuyExact(outAmount: U128, inMax: U128)

  /** `as i128`: the upper half of the unsigned numbers wraps to the negative ones. */
  function AsI128(x: U128): int
  {
    if x <= I128_MAX then x else x - TWO_128
  }

  /** The signed amount and the maximum an entry passes to `swap_internal`, and the minimum it checks
      afterwards: positive amounts are exact inputs, negative ones exact outputs. None is the
      overflow of a negation. */
  function Specified(e: Entry): Option<(int, U128, U128)>
  {
    match e
    case SellExact(inAmount, outMin) => Some((AsI128(inAmount), inAmount, outMin))
    case BuyExact(outAmount, inMax) =>
      if AsI128(outAmount) == I128_MIN then None else Some((-AsI128(outAmount), inMax, 0))
  }

  /** The swap an entry makes of a pool's settings and storage: always with the default limit. */
  function PublicCall(e: Entry, chunks: map<int, Chunk>, bound: int, fee: U128, spacing: int, zeroForOne: bool, protocolFraction: nat)
    : Option<SwapCall>
  {
    match Specified(e)
    case None => None
    case Some((amount, maxIn, minOut)) =>
      var limit := if zeroForOne then MIN_SQRT_RATIO + 1 else MAX_SQRT_RATIO - 1;
      Some(SwapCall(chunks, bound, if amount < 0 then -amount else amount, maxIn, minOut,
                    Order(fee, limit, spacing, zeroForOne, amount > 0, protocolFraction)))
  }

  ghost predicate IsPublic(c: SwapCall, e: Entry)
  {
    PublicCall(e, c.chunks, c.bound, c.o.fee, c.o.spacing, c.o.zeroForOne, c.o.protocolFraction) == Some(c)
  }

  /** An amount out that is a signed 128-bit number, as every token amount is. */
  predicate Representable(e: Entry)
  {
    e.BuyExact? ==> e.outAmount <= I128_MAX
  }

  /** A public swap takes no more than its amount exactly when its amount out is representable, or
      wraps to an exact input of just what may be taken. */
  lemma PublicTakesItsAmount(c: SwapCall, e: Entry)
    requires IsPublic(c, e)
    ensures DefaultLimit(c.o)
    ensures TakesItsAmount(c) <==> Representable(e) || e.inMax == TWO_128 - e.outAmount
  {
  }

  lemma NeedsNonNegative(b: Books, k: nat)
    requires k < 2 && LedgerOk(b.ledger) && |b.owed| == |b.ledger.positions|
    ensures Needs(b, k) >= 0.0
  {
    if b.owed != [] {
      NeedsCoverOwed(b, 0, k);
    } else {
      CreditsWithinFees(b.ledger, k);
      hide LedgerOk;
    }
  }
}
