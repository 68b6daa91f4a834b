/** What positions of the concentrated pool stand for in tokens, unrounded, and how a price
    move changes it (liquidity_pool_concentrated/src/math.rs, contract/internal.rs). Rounding
    is taken into account where amounts are charged or paid; the worth itself is a real number. */
module PositionWorth {
  import opened Words
  import opened PriceMath
  import opened TickAccuracy
  import opened LiquidityLedger
  import Steps = SwapStep

  /** Token k that one unit of liquidity gives up as the price falls to zero (token1), or
      rises without end (token0). */
  function PriceScale(k: nat, price: U256): real
    requires price > 0
  {
    if k == 0 then Q96 as real / price as real else price as real / Q96 as real
  }

  function Within(price: U256, lower: U256, upper: U256): U256
  {
    if price < lower then lower else if price > upper then upper else price
  }

  /** Token k that one unit of liquidity in a range stands for at a price. */
  function PerUnit(lower: int, upper: int, k: nat, price: U256): real
  {
    Positive(lower);
    Positive(upper);
    var at := Within(price, P(lower), P(upper));
    if k == 0 then PriceScale(0, at) - PriceScale(0, P(upper)) else PriceScale(1, at) - PriceScale(1, P(lower))
  }

  /** Token k a position stands for at a price. */
  function Part(p: Position, k: nat, price: U256): real
  {
    p.liquidity as real * PerUnit(p.lower, p.upper, k, price)
  }

  function Worth(ps: seq<Position>, k: nat, price: U256): real
  {
    if ps == [] then 0.0 else Worth(ps[..|ps| - 1], k, price) + Part(ps[|ps| - 1], k, price)
  }

  // ---------------------------------------------------------------- real arithmetic

  lemma RealMono(a: real, b: real, c: real)
    requires a <= b && c >= 0.0
    ensures a * c <= b * c
  {
  }

  lemma RealCancel(a: real, b: real, c: real)
    requires c > 0.0 && a * c <= b * c
    ensures a <= b
  {
    var gap := (a - b) * c;
    assert gap <= 0.0;
  }

  lemma QuotientTimes(a: real, b: real)
    requires b != 0.0
    ensures a / b * b == a
  {
  }

  /** Rounding a fraction up is at least the fraction, rounding down at most. */
  lemma RoundedReal(n: nat, d: nat, up: bool)
    requires d > 0
    ensures if up then Rounded(n, d, true) as real >= n as real / d as real else Rounded(n, d, false) as real <= n as real / d as real
  {
    var r := Rounded(n, d, up);
    CeilBounds(n, d);
    FloorBounds(n, d);
    RealProduct(r, d);
    QuotientTimes(n as real, d as real);
    var q := n as real / d as real;
    hide Rounded, CeilDiv;
    if up {
      assert (r * d) as real >= n as real;
      RealCancel(q, r as real, d as real);
    } else {
      assert (r * d) as real <= n as real;
      RealCancel(r as real, q, d as real);
    }
  }

  /** Rounding loses less than one unit, either way. */
  lemma RoundedNear(n: nat, d: nat, up: bool)
    requires d > 0
    ensures if up then Rounded(n, d, true) as real < n as real / d as real + 1.0 else n as real / d as real < Rounded(n, d, false) as real + 1.0
  {
    var q := n as real / d as real;
    CeilBounds(n, d);
    FloorBounds(n, d);
    QuotientTimes(n as real, d as real);
    if up {
      var r: int := CeilDiv(n, d);
      UnitLess(r, n, d);
      hide CeilDiv;
      if r as real >= q + 1.0 {
        RealMono(q, (r - 1) as real, d as real);
      }
    } else {
      var r := n / d + 1;
      UnitMore(n / d, n, d);
      if q >= r as real {
        RealMono(r as real, q, d as real);
      }
    }
  }

  lemma UnitLess(r: int, n: int, d: nat)
    requires r * d - d < n
    ensures (r - 1) as real * d as real < n as real
  {
    assert ((r - 1) * d) as real == (r - 1) as real * d as real;
  }

  lemma UnitMore(r: int, n: int, d: nat)
    requires n < r * d + d
    ensures n as real < (r + 1) as real * d as real
  {
    assert ((r + 1) * d) as real == (r + 1) as real * d as real;
  }

  /** The token0 formula of a price move is a difference of scales. */
  lemma Fraction0(l: nat, sa: nat, sb: nat)
    requires 0 < sa <= sb < TWO_256
    ensures sa * sb > 0
    ensures (l * Q96 * (sb - sa)) as real / (sa * sb) as real == l as real * (PriceScale(0, sa) - PriceScale(0, sb))
  {
    assert sa * sb > 0;
    var n, a, b, q := l as real, sa as real, sb as real, Q96 as real;
    assert (l * Q96 * (sb - sa)) as real == n * q * (b - a) by {
      assert (l * Q96) as real == n * q;
      assert (sb - sa) as real == b - a;
      RealProduct(l * Q96, sb - sa);
    }
    RealProduct(sa, sb);
    DifferenceOfInverses(n, q, a, b);
  }

  lemma RealProduct(a: nat, b: nat)
    ensures (a * b) as real == a as real * b as real
  {
  }

  lemma DifferenceOfInverses(n: real, q: real, a: real, b: real)
    requires a > 0.0 && b > 0.0
    ensures a * b > 0.0
    ensures n * q * (b - a) / (a * b) == n * (q / a - q / b)
  {
    var x, y, d := q / a, q / b, a * b;
    assert d > 0.0;
    QuotientTimes(q, a);
    QuotientTimes(q, b);
    assert x * d == q * b by { assert x * d == (x * a) * b; }
    assert y * d == q * a by { assert y * d == (y * b) * a; }
    assert (n * (x - y)) * d == n * q * (b - a) by {
      assert (x - y) * d == q * (b - a);
      assert (n * (x - y)) * d == n * ((x - y) * d);
    }
    QuotientIs(n * q * (b - a), d, n * (x - y));
  }

  lemma QuotientIs(n: real, d: real, q: real)
    requires d > 0.0 && q * d == n
    ensures n / d == q
  {
    QuotientTimes(n, d);
    RealCancel(n / d, q, d);
    RealCancel(q, n / d, d);
  }

  lemma Fraction1(l: nat, sa: nat, sb: nat)
    requires 0 < sa <= sb < TWO_256
    ensures (l * (sb - sa)) as real / Q96 as real == l as real * (PriceScale(1, sb) - PriceScale(1, sa))
  {
    var n, a, b, q := l as real, sa as real, sb as real, Q96 as real;
    assert (sb - sa) as real == b - a;
    RealProduct(l, sb - sa);
    QuotientTimes(a, q);
    QuotientTimes(b, q);
    assert (n * (b / q - a / q)) * q == n * (b / q * q - a / q * q);
    QuotientIs(n * (b - a), q, n * (b / q - a / q));
  }

  /** Rounded-up amounts are at least, rounded-down amounts at most, the change in scale. */
  lemma Amount0Real(l: nat, sa: U256, sb: U256, up: bool)
    requires 0 < sa <= sb
    ensures var worth := l as real * (PriceScale(0, sa) - PriceScale(0, sb));
      if up then Exact0(l * Q96, sa, sb, true) as real >= worth else Exact0(l * Q96, sa, sb, false) as real <= worth
  {
    Fraction0(l, sa, sb);
    RoundedReal(l * Q96 * (sb - sa), sa * sb, up);
  }

  lemma Amount1Real(l: nat, sa: U256, sb: U256, up: bool)
    requires 0 < sa <= sb
    ensures var worth := l as real * (PriceScale(1, sb) - PriceScale(1, sa));
      if up then Exact1(l, sa, sb, true) as real >= worth else Exact1(l, sa, sb, false) as real <= worth
  {
    Fraction1(l, sa, sb);
    RoundedReal(l * (sb - sa), Q96, up);
  }

  /** And they are within one unit of it. */
  lemma Amount0Near(l: nat, sa: U256, sb: U256, up: bool)
    requires 0 < sa <= sb
    ensures var worth := l as real * (PriceScale(0, sa) - PriceScale(0, sb));
      if up then Exact0(l * Q96, sa, sb, true) as real < worth + 1.0 else worth < Exact0(l * Q96, sa, sb, false) as real + 1.0
  {
    Fraction0(l, sa, sb);
    RoundedNear(l * Q96 * (sb - sa), sa * sb, up);
  }

  lemma Amount1Near(l: nat, sa: U256, sb: U256, up: bool)
    requires 0 < sa <= sb
    ensures var worth := l as real * (PriceScale(1, sb) - PriceScale(1, sa));
      if up then Exact1(l, sa, sb, true) as real < worth + 1.0 else worth < Exact1(l, sa, sb, false) as real + 1.0
  {
    Fraction1(l, sa, sb);
    RoundedNear(l * (sb - sa), Q96, up);
  }

  // ------------------------------------------------------------------- price moves

  /** The move from a to b stays on one side of each bound, or within the range, according to
      whether the range covers the tick. */
  ghost predicate Stays(p: Position, tick: int, a: U256, b: U256)
  {
    && P(p.lower) <= P(p.upper)
    && if Covers(p, tick) then P(p.lower) <= a <= P(p.upper) && P(p.lower) <= b <= P(p.upper)
       else (a <= P(p.lower) && b <= P(p.lower)) || (a >= P(p.upper) && b >= P(p.upper))
  }

  /** Then the worth of a position in range moves with the scale, and of another not at all. */
  lemma MoveOne(p: Position, k: nat, tick: int, a: U256, b: U256)
    requires a > 0 && b > 0 && k < 2 && (p.liquidity > 0 ==> Stays(p, tick, a, b))
    ensures Part(p, k, b) - Part(p, k, a) == ActivePart(tick)(p) as real * (PriceScale(k, b) - PriceScale(k, a))
  {
    hide PriceScale, PerUnit, Stays;
    if p.liquidity > 0 {
      PerUnitMoves(p, k, tick, a, b);
    }
    var d := PriceScale(k, b) - PriceScale(k, a);
    MoveShare(p.liquidity, PerUnit(p.lower, p.upper, k, b), PerUnit(p.lower, p.upper, k, a), if Covers(p, tick) then d else 0.0);
    ShareIs(ActivePart(tick)(p), p.liquidity, Covers(p, tick), d);
    hide *;
  }

  lemma ShareIs(part: int, l: U128, covers: bool, d: real)
    requires part == if covers then l else 0
    ensures part as real * d == l as real * (if covers then d else 0.0)
  {
  }

  lemma MoveShare(l: U128, u: real, v: real, d: real)
    requires l > 0 ==> u - v == d
    ensures l as real * u - l as real * v == l as real * d
  {
    MinusTimes(u, v, l as real);
    if l > 0 {
      assert u - v == d;
    } else {
      assert l as real == 0.0;
    }
  }

  /** In range one unit moves with the scale, out of range it stays. */
  lemma PerUnitMoves(p: Position, k: nat, tick: int, a: U256, b: U256)
    requires a > 0 && b > 0 && k < 2 && Stays(p, tick, a, b)
    ensures PerUnit(p.lower, p.upper, k, b) - PerUnit(p.lower, p.upper, k, a)
         == if Covers(p, tick) then PriceScale(k, b) - PriceScale(k, a) else 0.0
  {
    Positive(p.lower);
    Positive(p.upper);
    hide P, PriceScale;
  }

  lemma MinusTimes(x: real, y: real, l: real)
    ensures l * x - l * y == l * (x - y)
  {
  }

  /** All positions together: active liquidity times the change in scale. */
  lemma {:induction false} MoveAll(ps: seq<Position>, k: nat, tick: int, a: U256, b: U256)
    requires a > 0 && b > 0 && k < 2
    requires forall i | 0 <= i < |ps| :: ps[i].liquidity > 0 ==> Stays(ps[i], tick, a, b)
    ensures Worth(ps, k, b) - Worth(ps, k, a) == Sum(ps, ActivePart(tick)) as real * (PriceScale(k, b) - PriceScale(k, a))
  {
    hide PriceScale, Stays, Part, ActivePart;
    if ps != [] {
      var n := |ps| - 1;
      MoveAll(ps[..n], k, tick, a, b);
      MoveOne(ps[n], k, tick, a, b);
      AddTimes(Sum(ps[..n], ActivePart(tick)), ActivePart(tick)(ps[n]), PriceScale(k, b) - PriceScale(k, a));
    }
  }

  lemma AddTimes(m: int, n: int, x: real)
    ensures (m + n) as real * x == m as real * x + n as real * x
  {
    assert (m + n) as real == m as real + n as real;
  }

  // ----------------------------------------------------------- changes of positions

  /** Worth depends on ranges and liquidity only. */
  ghost predicate SameHoldings(ps: seq<Position>, qs: seq<Position>)
  {
    |ps| == |qs| && forall i | 0 <= i < |ps| ::
      ps[i].lower == qs[i].lower && ps[i].upper == qs[i].upper && ps[i].liquidity == qs[i].liquidity
  }

  lemma {:induction false} WorthOfHoldings(ps: seq<Position>, qs: seq<Position>, k: nat, price: U256)
    requires SameHoldings(ps, qs)
    ensures Worth(ps, k, price) == Worth(qs, k, price)
  {
    hide P, PriceScale;
    if ps != [] {
      WorthOfHoldings(ps[..|ps| - 1], qs[..|qs| - 1], k, price);
      assert Part(ps[|ps| - 1], k, price) == Part(qs[|ps| - 1], k, price);
    }
  }

  lemma {:induction false} WorthUpdate(ps: seq<Position>, i: nat, p: Position, k: nat, price: U256)
    requires i < |ps|
    ensures Worth(ps[i := p], k, price) == Worth(ps, k, price) - Part(ps[i], k, price) + Part(p, k, price)
  {
    hide Part;
    var n := |ps| - 1;
    if i < n {
      WorthUpdate(ps[..n], i, p, k, price);
      assert ps[i := p][..n] == ps[..n][i := p];
    } else {
      assert ps[i := p][..n] == ps[..n];
    }
  }

  /** Nobody's worth is negative. */
  lemma PartNonNegative(p: Position, k: nat, price: U256)
    requires k < 2 && P(p.lower) <= P(p.upper)
    ensures Part(p, k, price) >= 0.0
  {
    hide PerUnit, P;
    PerUnitNonNegative(p.lower, p.upper, k, price);
    RealMono(0.0, PerUnit(p.lower, p.upper, k, price), p.liquidity as real);
  }

  lemma PerUnitNonNegative(lower: int, upper: int, k: nat, price: U256)
    requires k < 2 && P(lower) <= P(upper)
    ensures PerUnit(lower, upper, k, price) >= 0.0
  {
    Positive(lower);
    Positive(upper);
    var at := Within(price, P(lower), P(upper));
    hide P;
    if k == 0 {
      ScaleFalls(at, P(upper));
    } else {
      ScaleRises(P(lower), at);
    }
    hide PriceScale;
  }

  lemma ScaleFalls(a: U256, b: U256)
    requires 0 < a <= b
    ensures PriceScale(0, a) >= PriceScale(0, b)
  {
    var q := Q96 as real;
    QuotientTimes(q, a as real);
    QuotientTimes(q, b as real);
    var x, y := q / a as real, q / b as real;
    assert y >= 0.0 by { RealCancel(0.0, y, b as real); }
    RealMono(a as real, b as real, y);
    RealCancel(y, x, a as real);
  }

  lemma ScaleRises(a: U256, b: U256)
    requires 0 < a <= b
    ensures PriceScale(1, a) <= PriceScale(1, b)
  {
    QuotientTimes(a as real, Q96 as real);
    QuotientTimes(b as real, Q96 as real);
    RealCancel(PriceScale(1, a), PriceScale(1, b), Q96 as real);
  }

  lemma {:induction false} WorthNonNegative(ps: seq<Position>, k: nat, price: U256)
    requires k < 2 && forall i | 0 <= i < |ps| :: P(ps[i].lower) <= P(ps[i].upper)
    ensures Worth(ps, k, price) >= 0.0
  {
    hide Part, P;
    if ps != [] {
      WorthNonNegative(ps[..|ps| - 1], k, price);
      PartNonNegative(ps[|ps| - 1], k, price);
    }
  }

  // --------------------------------------------------------------- amounts of a swap

  /** Token taken in and token paid out by a swap. */
  function InToken(zeroForOne: bool): nat
  {
    if zeroForOne then 0 else 1
  }

  function OutToken(zeroForOne: bool): nat
  {
    if zeroForOne then 1 else 0
  }

  /** A move's input covers what the active liquidity gains, its output what it gives up. */
  lemma MoveIsPaidFor(a: U256, b: U256, l: U128, zeroForOne: bool)
    requires Steps.Ahead(a, b, zeroForOne)
    ensures Steps.ExactIn(a, b, l, zeroForOne) as real
         >= l as real * (PriceScale(InToken(zeroForOne), b) - PriceScale(InToken(zeroForOne), a))
    ensures Steps.ExactOut(a, b, l, zeroForOne) as real
         <= l as real * (PriceScale(OutToken(zeroForOne), a) - PriceScale(OutToken(zeroForOne), b))
  {
    hide PriceScale, Exact0, Exact1;
    if zeroForOne {
      Amount0Real(l, b, a, true);
      Amount1Real(l, b, a, false);
    } else {
      Amount1Real(l, a, b, true);
      Amount0Real(l, a, b, false);
    }
  }

  /** What positions stand for after a move of the price with these amounts: no more than
      before, plus the input, less the output. */
  ghost predicate WorthMoves(ps: seq<Position>, a: U256, qs: seq<Position>, b: U256, zeroForOne: bool, paidIn: nat, paidOut: nat)
  {
    && Worth(qs, InToken(zeroForOne), b) <= Worth(ps, InToken(zeroForOne), a) + paidIn as real
    && Worth(qs, OutToken(zeroForOne), b) + paidOut as real <= Worth(ps, OutToken(zeroForOne), a)
  }

  lemma SegmentIsPaidFor(s: Ledger, qs: seq<Position>, a: U256, b: U256, zeroForOne: bool, paidIn: nat, paidOut: nat)
    requires LedgerOk(s) && Steps.Ahead(a, b, zeroForOne) && SameHoldings(s.positions, qs)
    requires forall i | 0 <= i < |s.positions| :: s.positions[i].liquidity > 0 ==> Stays(s.positions[i], s.tick, a, b)
    requires Steps.ExactIn(a, b, s.active, zeroForOne) <= paidIn && paidOut <= Steps.ExactOut(a, b, s.active, zeroForOne)
    ensures WorthMoves(s.positions, a, qs, b, zeroForOne, paidIn, paidOut)
  {
    hide PriceScale, Stays, Worth, Sum, Steps.ExactIn, Steps.ExactOut;
    var i, o := InToken(zeroForOne), OutToken(zeroForOne);
    MoveAll(s.positions, i, s.tick, a, b);
    MoveAll(s.positions, o, s.tick, a, b);
    WorthOfHoldings(s.positions, qs, i, b);
    WorthOfHoldings(s.positions, qs, o, b);
    MoveIsPaidFor(a, b, s.active, zeroForOne);
    assert s.active == Sum(s.positions, ActivePart(s.tick));
    Opposite(s.active as real, PriceScale(o, a), PriceScale(o, b));
  }

  /** Nor does an input exceed what the active liquidity gains, or what it gives up the output,
      by a whole unit. */
  lemma MoveIsTight(a: U256, b: U256, l: U128, zeroForOne: bool)
    requires Steps.Ahead(a, b, zeroForOne)
    ensures Steps.ExactIn(a, b, l, zeroForOne) as real
          < l as real * (PriceScale(InToken(zeroForOne), b) - PriceScale(InToken(zeroForOne), a)) + 1.0
    ensures l as real * (PriceScale(OutToken(zeroForOne), a) - PriceScale(OutToken(zeroForOne), b))
          < Steps.ExactOut(a, b, l, zeroForOne) as real + 1.0
  {
    hide PriceScale, Exact0, Exact1;
    if zeroForOne {
      Amount0Near(l, b, a, true);
      Amount1Near(l, b, a, false);
    } else {
      Amount1Near(l, a, b, true);
      Amount0Near(l, a, b, false);
    }
  }

  /** Token k of what positions stand for grows by `change` at least, up to `slack` units. */
  ghost predicate WorthGrows(ps: seq<Position>, a: U256, qs: seq<Position>, b: U256, k: nat, change: real, slack: nat)
  {
    Worth(ps, k, a) + change <= Worth(qs, k, b) + slack as real
  }

  lemma WorthGrowsOn(ps: seq<Position>, a: U256, qs: seq<Position>, b: U256, rs: seq<Position>, c: U256, k: nat,
                     change1: real, slack1: nat, change2: real, slack2: nat)
    requires WorthGrows(ps, a, qs, b, k, change1, slack1) && WorthGrows(qs, b, rs, c, k, change2, slack2)
    ensures WorthGrows(ps, a, rs, c, k, change1 + change2, slack1 + slack2)
  {
  }

  lemma SegmentIsTight(s: Ledger, qs: seq<Position>, a: U256, b: U256, zeroForOne: bool, paidIn: nat, paidOut: nat)
    requires LedgerOk(s) && Steps.Ahead(a, b, zeroForOne) && SameHoldings(s.positions, qs)
    requires forall i | 0 <= i < |s.positions| :: s.positions[i].liquidity > 0 ==> Stays(s.positions[i], s.tick, a, b)
    ensures paidIn <= Steps.ExactIn(a, b, s.active, zeroForOne) ==>
      WorthGrows(s.positions, a, qs, b, InToken(zeroForOne), paidIn as real, 1)
    ensures Steps.ExactOut(a, b, s.active, zeroForOne) <= paidOut ==>
      WorthGrows(s.positions, a, qs, b, OutToken(zeroForOne), -(paidOut as real), 1)
  {
    hide PriceScale, Stays, Worth, Sum, Steps.ExactIn, Steps.ExactOut;
    var i, o := InToken(zeroForOne), OutToken(zeroForOne);
    MoveAll(s.positions, i, s.tick, a, b);
    MoveAll(s.positions, o, s.tick, a, b);
    WorthOfHoldings(s.positions, qs, i, b);
    WorthOfHoldings(s.positions, qs, o, b);
    MoveIsTight(a, b, s.active, zeroForOne);
    assert s.active == Sum(s.positions, ActivePart(s.tick));
    Opposite(s.active as real, PriceScale(o, a), PriceScale(o, b));
  }

  lemma Opposite(l: real, x: real, y: real)
    ensures l * (x - y) == -(l * (y - x))
  {
  }

  lemma WorthMovesOn(ps: seq<Position>, a: U256, qs: seq<Position>, b: U256, rs: seq<Position>, c: U256,
                     zeroForOne: bool, in1: nat, out1: nat, in2: nat, out2: nat)
    requires WorthMoves(ps, a, qs, b, zeroForOne, in1, out1) && WorthMoves(qs, b, rs, c, zeroForOne, in2, out2)
    ensures WorthMoves(ps, a, rs, c, zeroForOne, in1 + in2, out1 + out2)
  {
  }
}
