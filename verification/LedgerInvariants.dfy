/** Every operation on the concentrated pool's ledger keeps its invariant
    (liquidity_pool_concentrated/src/contract/internal.rs, extensions.rs). */
module LedgerInvariants {
  import opened Words
  import opened TickMath
  import opened ChunkStore
  import opened TickUpdate
  import opened FeeGrowth
  import opened LiquidityLedger

  /** The chunks record the ledger's ticks. */
  ghost predicate Records(chunks: map<int, Chunk>, s: Ledger)
  {
    forall c: int :: TickAt(chunks, c).gross == TickOf(s, c * s.spacing).gross && TickAt(chunks, c).net == TickOf(s, c * s.spacing).net
  }

  // ---------------------------------------------------------------- sums that agree

  lemma {:induction false} SumAgree(ps: seq<Position>, qs: seq<Position>, f: Position -> int, g: Position -> int)
    requires |ps| == |qs| && forall i | 0 <= i < |ps| :: f(ps[i]) == g(qs[i])
    ensures Sum(ps, f) == Sum(qs, g)
  {
    if ps != [] {
      SumAgree(ps[..|ps| - 1], qs[..|qs| - 1], f, g);
    }
  }

  lemma {:induction false} SumAtMost(ps: seq<Position>, f: Position -> int, g: Position -> int)
    requires forall p :: f(p) <= g(p)
    ensures Sum(ps, f) <= Sum(ps, g)
  {
    if ps != [] {
      SumAtMost(ps[..|ps| - 1], f, g);
    }
  }

  lemma SumAppend(ps: seq<Position>, p: Position, f: Position -> int)
    ensures Sum(ps + [p], f) == Sum(ps, f) + f(p)
  {
    assert (ps + [p])[..|ps|] == ps;
  }

  // ----------------------------------------------------------- liquidity is bounded

  function LiquidityPart(): Position -> int
  {
    (p: Position) => p.liquidity
  }

  function LowerPart(t: int): Position -> int
  {
    (p: Position) => if p.lower == t then p.liquidity else 0
  }

  /** Liquidity of the positions that start at one of the ticks `a * spacing`, ..., `(b-1) * spacing`. */
  function LowerTotal(ps: seq<Position>, spacing: int, a: int, b: int): int
    decreases b - a
  {
    if a >= b then 0 else LowerTotal(ps, spacing, a, b - 1) + Sum(ps, LowerPart((b - 1) * spacing))
  }

  lemma {:induction false} LowerTotalAppend(ps: seq<Position>, p: Position, spacing: int, a: int, b: int, c: int)
    requires spacing > 0 && p.lower == c * spacing
    ensures LowerTotal(ps + [p], spacing, a, b) == LowerTotal(ps, spacing, a, b) + if a <= c < b then p.liquidity else 0
    decreases b - a
  {
    if a < b {
      LowerTotalAppend(ps, p, spacing, a, b - 1, c);
      SumAppend(ps, p, LowerPart((b - 1) * spacing));
      if c < b - 1 {
        MulMono(c + 1, b - 1, spacing);
      } else if c > b - 1 {
        MulMono(b, c, spacing);
      }
    }
  }

  /** All liquidity starts at some usable tick. */
  lemma {:induction false} LiquidityIsLowerTotal(ps: seq<Position>, spacing: int, a: int, b: int)
    requires spacing > 0
    requires forall i | 0 <= i < |ps| :: ps[i].lower % spacing == 0 && a <= ps[i].lower / spacing < b
    ensures Sum(ps, LiquidityPart()) == LowerTotal(ps, spacing, a, b)
  {
    if ps == [] {
      EmptyTotal(spacing, a, b);
    } else {
      var n := |ps| - 1;
      LiquidityIsLowerTotal(ps[..n], spacing, a, b);
      assert ps == ps[..n] + [ps[n]];
      assert ps[n].lower == (ps[n].lower / spacing) * spacing by {
        Remainder(ps[n].lower, spacing);
      }
      LowerTotalAppend(ps[..n], ps[n], spacing, a, b, ps[n].lower / spacing);
    }
  }

  lemma {:induction false} EmptyTotal(spacing: int, a: int, b: int)
    ensures LowerTotal([], spacing, a, b) == 0
    decreases b - a
  {
    if a < b {
      EmptyTotal(spacing, a, b - 1);
    }
  }

  lemma {:induction false} LowerTotalAtMost(ps: seq<Position>, spacing: int, a: int, b: int, cap: int)
    requires a <= b && forall t: int :: Sum(ps, GrossPart(t)) <= cap
    ensures LowerTotal(ps, spacing, a, b) <= (b - a) * cap
    decreases b - a
  {
    if a < b {
      LowerTotalAtMost(ps, spacing, a, b - 1, cap);
      SumAtMost(ps, LowerPart((b - 1) * spacing), GrossPart((b - 1) * spacing));
      assert Sum(ps, GrossPart((b - 1) * spacing)) <= cap;
      assert (b - a) * cap == (b - 1 - a) * cap + cap;
    }
  }

  /** The cap on each tick keeps the liquidity of all positions together within 128 bits:
      no sum of active liquidity ever saturates. */
  lemma TickCapBoundsLiquidity(ps: seq<Position>, spacing: int)
    requires spacing > 0
    requires forall i | 0 <= i < |ps| :: LegalTick(ps[i].lower, spacing)
    requires forall t: int :: Sum(ps, GrossPart(t)) <= MaxLiquidityPerTick(spacing)
    ensures Sum(ps, LiquidityPart()) <= U128_MAX
    ensures forall tick: int :: 0 <= Sum(ps, ActivePart(tick)) <= Sum(ps, LiquidityPart())
  {
    TotalWithinCap(ps, spacing);
    forall tick: int
      ensures 0 <= Sum(ps, ActivePart(tick)) <= Sum(ps, LiquidityPart())
    {
      SumAtMost(ps, ActivePart(tick), LiquidityPart());
      SumNonNegative(ps, ActivePart(tick));
    }
  }

  lemma TotalWithinCap(ps: seq<Position>, spacing: int)
    requires spacing > 0
    requires forall i | 0 <= i < |ps| :: LegalTick(ps[i].lower, spacing)
    requires forall t: int :: Sum(ps, GrossPart(t)) <= MaxLiquidityPerTick(spacing)
    ensures Sum(ps, LiquidityPart()) <= U128_MAX
  {
    hide LegalTick, Sum, MaxLiquidityPerTick, UsableTicks;
    var half := MAX_TICK / spacing;
    forall i | 0 <= i < |ps|
      ensures ps[i].lower % spacing == 0 && -half <= ps[i].lower / spacing < half + 1
    {
      LegalQuotient(ps[i].lower, spacing);
    }
    UsableCovers(spacing);
    TotalWithin(ps, spacing, half, UsableTicks(spacing), MaxLiquidityPerTick(spacing));
  }

  lemma TotalWithin(ps: seq<Position>, spacing: int, half: int, usable: int, cap: nat)
    requires spacing > 0 && half >= 0 && 2 * half + 1 <= usable && cap * usable <= U128_MAX
    requires forall i | 0 <= i < |ps| :: ps[i].lower % spacing == 0 && -half <= ps[i].lower / spacing < half + 1
    requires forall t: int :: Sum(ps, GrossPart(t)) <= cap
    ensures Sum(ps, LiquidityPart()) <= U128_MAX
  {
    LiquidityIsLowerTotal(ps, spacing, -half, half + 1);
    LowerTotalAtMost(ps, spacing, -half, half + 1, cap);
    hide Sum, LowerTotal;
    CapTimesTicks(half + 1 - -half, usable, cap);
  }

  lemma CapTimesTicks(n: int, usable: int, cap: nat)
    requires n <= usable && cap * usable <= U128_MAX
    ensures n * cap <= U128_MAX
  {
    MulMono(n, usable, cap);
  }

  lemma LegalQuotient(t: int, spacing: int)
    requires LegalTick(t, spacing)
    ensures t % spacing == 0 && -(MAX_TICK / spacing) <= t / spacing <= MAX_TICK / spacing
  {
    Remainder(t, spacing);
    FloorGalois(t / spacing, MAX_TICK, spacing);
    FloorGalois(-(t / spacing), MAX_TICK, spacing);
    assert -(t / spacing) * spacing == -t;
  }

  lemma UsableCovers(spacing: int)
    requires spacing > 0
    ensures 2 * (MAX_TICK / spacing) + 1 <= UsableTicks(spacing)
  {
    FloorBounds(MAX_TICK, spacing);
    FloorGalois(2 * (MAX_TICK / spacing), MAX_TICK - MIN_TICK, spacing);
  }

  /** Active liquidity is a 128-bit number at every tick. */
  lemma ActiveFits(s: Ledger, tick: int)
    requires s.spacing > 0 && TicksAreSums(s) && PositionsLegal(s)
    ensures 0 <= Sum(s.positions, ActivePart(tick)) <= U128_MAX
  {
    assert forall i | 0 <= i < |s.positions| :: LegalTick(s.positions[i].lower, s.spacing);
    TickCapBoundsLiquidity(s.positions, s.spacing);
  }

  // ----------------------------------------------------------------- a fee is paid

  lemma {:induction false} OwedGrows(ps: seq<Position>, tick: int, k: nat, delta: U256)
    requires k < 2
    ensures Sum(Grow(ps, tick, k, delta), OwedPart(k)) == Sum(ps, OwedPart(k)) + delta * Sum(ps, ActivePart(tick))
  {
    var n := |ps| - 1;
    if ps != [] {
      OwedGrows(ps[..n], tick, k, delta);
      assert Grow(ps, tick, k, delta)[..n] == Grow(ps[..n], tick, k, delta);
      OneOwedGrows(ps[n], tick, k, delta);
      Distribute(delta, Sum(ps[..n], ActivePart(tick)), ActivePart(tick)(ps[n]));
      hide OwedPart, ActivePart, GrowOne;
    }
  }

  lemma OneOwedGrows(p: Position, tick: int, k: nat, delta: U256)
    requires k < 2
    ensures OwedPart(k)(GrowOne(p, tick, k, delta)) == OwedPart(k)(p) + delta * ActivePart(tick)(p)
  {
    if Covers(p, tick) {
      Distribute(p.liquidity, p.grown[k], delta);
    }
  }

  lemma Distribute(a: int, b: int, c: int)
    ensures a * (b + c) == a * b + a * c
  {
  }

  lemma GrowKeepsSums(ps: seq<Position>, tick: int, k: nat, delta: U256)
    requires k < 2
    ensures forall t: int :: Sum(Grow(ps, tick, k, delta), GrossPart(t)) == Sum(ps, GrossPart(t))
    ensures forall t: int :: Sum(Grow(ps, tick, k, delta), NetPart(t)) == Sum(ps, NetPart(t))
    ensures forall t: int :: Sum(Grow(ps, tick, k, delta), ActivePart(t)) == Sum(ps, ActivePart(t))
    ensures Sum(Grow(ps, tick, k, delta), OwedPart(1 - k)) == Sum(ps, OwedPart(1 - k))
  {
    var qs := Grow(ps, tick, k, delta);
    forall t: int
      ensures Sum(qs, GrossPart(t)) == Sum(ps, GrossPart(t))
      ensures Sum(qs, NetPart(t)) == Sum(ps, NetPart(t))
      ensures Sum(qs, ActivePart(t)) == Sum(ps, ActivePart(t))
    {
      SumAgree(qs, ps, GrossPart(t), GrossPart(t));
      SumAgree(qs, ps, NetPart(t), NetPart(t));
      SumAgree(qs, ps, ActivePart(t), ActivePart(t));
    }
    SumAgree(qs, ps, OwedPart(1 - k), OwedPart(1 - k));
  }

  /** A fee's growth reaches exactly the positions in range, wrapped counters and all. */
  lemma GrowTracks(s: Ledger, k: nat, fee: U128, j: nat, p: Position)
    requires k < 2 && j < 2 && p.lower < p.upper && Tracks(s, p, j)
    ensures Tracks(AddFee(s, k, fee), GrowOne(p, s.tick, k, FeeGrowthDelta(fee, s.active)), j)
  {
    var delta := FeeGrowthDelta(fee, s.active);
    if j == k {
      GrowthReachesRange(s.growth[k], delta, Outside(TickOf(s, p.lower), k), Outside(TickOf(s, p.upper), k), p.lower, p.upper, s.tick);
      var before, after := Inside(s, p.lower, p.upper, k), Inside(AddFee(s, k, fee), p.lower, p.upper, k);
      hide GrowthInside;
      if Covers(p, s.tick) {
        AddedIsTracked(before, after, delta, p.last[k], p.grown[k]);
      }
    } else {
      assert Inside(AddFee(s, k, fee), p.lower, p.upper, j) == Inside(s, p.lower, p.upper, j);
    }
  }

  lemma AddedIsTracked(before: U256, after: U256, delta: U256, last: U256, grown: nat)
    requires after == WrapAdd(before, delta)
    ensures Same(before - last, grown) ==> Same(after - last, grown + delta)
  {
  }

  /** The growth a fee gives all positions in range together is within the fee. */
  lemma FeeCovers(s: Ledger, k: nat, fee: U128, j: nat)
    requires k < 2 && j < 2 && ActiveIsSum(s) && Covered(s, j)
    ensures Covered(AddFee(s, k, fee), j)
  {
    var delta := FeeGrowthDelta(fee, s.active);
    if j == k {
      OwedGrows(s.positions, s.tick, k, delta);
    } else {
      GrowKeepsSums(s.positions, s.tick, k, delta);
    }
    hide FeeGrowthDelta, Sum, Grow;
  }

  lemma AddFeeKeeps(s: Ledger, k: nat, fee: U128)
    requires k < 2 && LedgerOk(s)
    ensures LedgerOk(AddFee(s, k, fee))
  {
    var s' := AddFee(s, k, fee);
    GrowKeepsSums(s.positions, s.tick, k, FeeGrowthDelta(fee, s.active));
    FeeCovers(s, k, fee, 0);
    FeeCovers(s, k, fee, 1);
    forall j: nat, i | j < 2 && 0 <= i < |s'.positions|
      ensures Tracks(s', s'.positions[i], j)
    {
      assert Tracks(s, s.positions[i], j);
      GrowTracks(s, k, fee, j, s.positions[i]);
    }
    hide Tracks, FeeGrowthDelta, WrapAdd, Covered, Sum;
  }

  // ----------------------------------------------------------- a surplus is spread

  /** The liquidity a spread reaches. */
  function Reached(s: Ledger, last: Last, down: bool): int
  {
    Sum(s.positions, ActivePart(SpreadTick(s, last, down)))
  }

  /** What spreading a surplus credits, in 128 fractional bits, is within the surplus: the growth
      at the rate of one liquidity, times the liquidity it reaches. */
  ghost predicate SpreadPays(s: Ledger, surplus: U128, last: Last, down: bool)
  {
    FeeGrowthDelta(surplus, last.liquidity) * Reached(s, last, down) <= surplus * TWO_128
  }

  /** The growth reaches the positions on the far side of the last tick crossed, or in range when
      none was, wrapped counters and all. */
  lemma SpreadTracks(s: Ledger, k: nat, surplus: U128, last: Last, down: bool, j: nat, i: nat)
    requires s.spacing > 0 && TicksAreSums(s) && PositionsLegal(s) && (last.crossed ==> JustCrossed(s, last.tick, down))
    requires k < 2 && j < 2 && i < |s.positions| && Tracks(s, s.positions[i], j)
    ensures Tracks(Spread(s, k, surplus, last, down), Spread(s, k, surplus, last, down).positions[i], j)
  {
    var p, s', far := s.positions[i], Spread(s, k, surplus, last, down), SpreadTick(s, last, down);
    var delta := FeeGrowthDelta(surplus, last.liquidity);
    var before, after := Inside(s, p.lower, p.upper, j), Inside(s', p.lower, p.upper, j);
    assert s'.positions[i] == GrowOne(p, far, k, delta);
    if p.liquidity > 0 {
      SpreadInside(s, k, surplus, last, down, j, i);
      hide Inside, FeeGrowthDelta, Spread, SpreadTick, WrapAdd;
      if j == k && Covers(p, far) {
        AddedIsTracked(before, after, delta, p.last[k], p.grown[k]);
      }
    }
  }

  lemma SpreadInside(s: Ledger, k: nat, surplus: U128, last: Last, down: bool, j: nat, i: nat)
    requires s.spacing > 0 && TicksAreSums(s) && PositionsLegal(s) && (last.crossed ==> JustCrossed(s, last.tick, down))
    requires k < 2 && j < 2 && i < |s.positions| && s.positions[i].liquidity > 0
    ensures var p := s.positions[i];
      var before, after := Inside(s, p.lower, p.upper, j), Inside(Spread(s, k, surplus, last, down), p.lower, p.upper, j);
      after == if j == k && Covers(p, SpreadTick(s, last, down)) then WrapAdd(before, FeeGrowthDelta(surplus, last.liquidity)) else before
  {
    var p, s' := s.positions[i], Spread(s, k, surplus, last, down);
    var delta := FeeGrowthDelta(surplus, last.liquidity);
    BoundsInitialized(s, i);
    assert p.lower < p.upper && s'.tick == s.tick;
    var g, ol, ou := s.growth[k], Outside(TickOf(s, p.lower), k), Outside(TickOf(s, p.upper), k);
    assert s'.growth[k] == WrapAdd(g, delta) && s'.growth[1 - k] == s.growth[1 - k];
    hide FeeGrowthDelta, GrowthInside, TicksAreSums, PositionsLegal, WrapAdd;
    if j != k {
      SpreadOther(s, k, surplus, last, down, p.lower);
      SpreadOther(s, k, surplus, last, down, p.upper);
    } else if last.crossed {
      SpreadReachesFarSide(g, delta, ol, ou, p.lower, p.upper, s.tick, last.tick, down);
      SpreadOutside(s, k, surplus, last, down, p.lower);
      SpreadOutside(s, k, surplus, last, down, p.upper);
    } else {
      GrowthReachesRange(g, delta, ol, ou, p.lower, p.upper, s.tick);
    }
  }

  lemma SpreadOutside(s: Ledger, k: nat, surplus: U128, last: Last, down: bool, u: int)
    requires k < 2 && last.crossed
    ensures var o, delta := Outside(TickOf(s, u), k), FeeGrowthDelta(surplus, last.liquidity);
      Outside(TickOf(Spread(s, k, surplus, last, down), u), k) == if u == last.tick then WrapAdd(o, delta) else o
  {
    hide FeeGrowthDelta, Grow;
  }

  lemma SpreadOther(s: Ledger, k: nat, surplus: U128, last: Last, down: bool, u: int)
    requires k < 2
    ensures Outside(TickOf(Spread(s, k, surplus, last, down), u), 1 - k) == Outside(TickOf(s, u), 1 - k)
  {
    hide FeeGrowthDelta, Grow;
  }

  /** What a spread adds to what is owed, and to the fees given. */
  lemma SpreadOwes(s: Ledger, k: nat, surplus: U128, last: Last, down: bool)
    requires k < 2
    ensures var s' := Spread(s, k, surplus, last, down);
      && Sum(s'.positions, OwedPart(k)) == Sum(s.positions, OwedPart(k))
           + FeeGrowthDelta(surplus, last.liquidity) * Reached(s, last, down)
      && Sum(s'.positions, OwedPart(1 - k)) == Sum(s.positions, OwedPart(1 - k))
      && s'.fees == s.fees[k := s.fees[k] + surplus] && s'.credited == s.credited
  {
    var delta, far := FeeGrowthDelta(surplus, last.liquidity), SpreadTick(s, last, down);
    OwedGrows(s.positions, far, k, delta);
    GrowKeepsSums(s.positions, far, k, delta);
    hide FeeGrowthDelta, Sum, Grow;
  }

  /** The books stay covered on their own strength exactly when the spread pays for itself: what
      it adds to the debts is then within what it adds to the fees. */
  lemma SpreadPaysIff(s: Ledger, k: nat, surplus: U128, last: Last, down: bool)
    requires k < 2
    ensures var s' := Spread(s, k, surplus, last, down);
      SpreadPays(s, surplus, last, down) <==>
        Sum(s'.positions, OwedPart(k)) - Sum(s.positions, OwedPart(k)) <= (s'.fees[k] - s.fees[k]) * TWO_128
  {
    SpreadOwes(s, k, surplus, last, down);
    hide FeeGrowthDelta, Sum, Grow, Spread;
  }

  /** A spread that pays for itself keeps the books. */
  lemma SpreadKeeps(s: Ledger, k: nat, surplus: U128, last: Last, down: bool)
    requires LedgerOk(s) && k < 2 && (last.crossed ==> JustCrossed(s, last.tick, down)) && SpreadPays(s, surplus, last, down)
    ensures LedgerOk(Spread(s, k, surplus, last, down))
  {
    var s' := Spread(s, k, surplus, last, down);
    SpreadSums(s, k, surplus, last, down);
    SpreadCovers(s, k, surplus, last, down, k);
    SpreadCovers(s, k, surplus, last, down, 1 - k);
    forall j: nat, i | j < 2 && 0 <= i < |s'.positions|
      ensures Tracks(s', s'.positions[i], j)
    {
      assert Tracks(s, s.positions[i], j);
      SpreadTracks(s, k, surplus, last, down, j, i);
    }
    hide Tracks, Spread, Covered, Sum;
  }

  /** Spreading changes no liquidity anywhere. */
  lemma SpreadSums(s: Ledger, k: nat, surplus: U128, last: Last, down: bool)
    requires k < 2
    ensures var s' := Spread(s, k, surplus, last, down);
      && s'.spacing == s.spacing && s'.tick == s.tick && s'.active == s.active && |s'.positions| == |s.positions|
      && (s.spacing > 0 && TicksAreSums(s) ==> TicksAreSums(s'))
      && (PositionsLegal(s) ==> PositionsLegal(s'))
      && (ActiveIsSum(s) ==> ActiveIsSum(s'))
      && forall t: int :: TickOf(s', t).gross == TickOf(s, t).gross && TickOf(s', t).net == TickOf(s, t).net
  {
    var s' := Spread(s, k, surplus, last, down);
    GrowKeepsSums(s.positions, SpreadTick(s, last, down), k, FeeGrowthDelta(surplus, last.liquidity));
    hide FeeGrowthDelta, WrapAdd, Sum;
    assert forall t: int :: TickOf(s', t).gross == TickOf(s, t).gross && TickOf(s', t).net == TickOf(s, t).net;
  }

  lemma SpreadCovers(s: Ledger, k: nat, surplus: U128, last: Last, down: bool, j: nat)
    requires k < 2 && j < 2 && Covered(s, j) && SpreadPays(s, surplus, last, down)
    ensures Covered(Spread(s, k, surplus, last, down), j)
  {
    SpreadOwes(s, k, surplus, last, down);
    hide FeeGrowthDelta, Sum, Grow, Spread;
  }

  // ------------------------------------------------------------------ price moves

  /** The ticks of a position with liquidity are initialized. */
  lemma BoundsInitialized(s: Ledger, i: nat)
    requires s.spacing > 0 && TicksAreSums(s) && i < |s.positions| && s.positions[i].liquidity > 0
    ensures IsInitialized(s, s.positions[i].lower) && IsInitialized(s, s.positions[i].upper)
  {
    PartOfSum(s.positions, i, GrossPart(s.positions[i].lower));
    PartOfSum(s.positions, i, GrossPart(s.positions[i].upper));
  }

  lemma {:induction false} SumDifference(ps: seq<Position>, f: Position -> int, g: Position -> int, h: Position -> int)
    requires forall i | 0 <= i < |ps| :: f(ps[i]) == g(ps[i]) + h(ps[i])
    ensures Sum(ps, f) == Sum(ps, g) + Sum(ps, h)
  {
    if ps != [] {
      SumDifference(ps[..|ps| - 1], f, g, h);
    }
  }

  function TickAfter(t: int, down: bool): int
  {
    if down then t - 1 else t
  }

  /** Crossing the next tick changes which side of a bound the price is on exactly for bounds
      at that tick. */
  lemma SidesAfterCross(s: Ledger, t: int, down: bool, u: int)
    requires NextTick(s, t, down) && IsInitialized(s, u)
    ensures (u == t) == ((s.tick >= u) != (TickAfter(t, down) >= u))
  {
  }

  /** Active liquidity moves by the tick's net liquidity. */
  lemma ActiveAfterCross(s: Ledger, t: int, down: bool)
    requires s.spacing > 0 && TicksAreSums(s) && PositionsLegal(s) && NextTick(s, t, down)
    ensures var net := Sum(s.positions, NetPart(t));
      Sum(s.positions, ActivePart(TickAfter(t, down))) == Sum(s.positions, ActivePart(s.tick)) + if down then -net else net
  {
    var ps, t' := s.positions, TickAfter(t, down);
    forall i | 0 <= i < |ps|
      ensures ActivePart(t')(ps[i]) == ActivePart(s.tick)(ps[i]) + if down then -NetPart(t)(ps[i]) else NetPart(t)(ps[i])
    {
      if ps[i].liquidity > 0 {
        BoundsInitialized(s, i);
        SidesAfterCross(s, t, down, ps[i].lower);
        SidesAfterCross(s, t, down, ps[i].upper);
      }
    }
    if down {
      SumDifference(ps, ActivePart(s.tick), ActivePart(t'), NetPart(t));
    } else {
      SumDifference(ps, ActivePart(t'), ActivePart(s.tick), NetPart(t));
    }
  }

  /** Growth inside a position's range is the same on both sides of the crossing. */
  lemma CrossTracks(s: Ledger, t: int, down: bool, i: nat, k: nat)
    requires s.spacing > 0 && TicksAreSums(s) && PositionsLegal(s) && NextTick(s, t, down) && Cross(s, t, down).Some?
    requires k < 2 && i < |s.positions| && Tracks(s, s.positions[i], k)
    ensures Tracks(Cross(s, t, down).value, s.positions[i], k)
  {
    var p, s' := s.positions[i], Cross(s, t, down).value;
    if p.liquidity > 0 {
      BoundsInitialized(s, i);
      SidesAfterCross(s, t, down, p.lower);
      SidesAfterCross(s, t, down, p.upper);
      CrossingKeepsInside(s.growth[k], Outside(TickOf(s, p.lower), k), Outside(TickOf(s, p.upper), k), p.lower, p.upper,
                          s.tick, TickAfter(t, down), p.lower == t, p.upper == t);
      hide GrowthInside, WrapSub;
      assert Inside(s', p.lower, p.upper, k) == Inside(s, p.lower, p.upper, k);
    }
  }

  /** Crossing the next tick never underflows and never saturates, and keeps everything. */
  lemma CrossKeeps(s: Ledger, t: int, down: bool)
    requires LedgerOk(s) && NextTick(s, t, down)
    ensures Cross(s, t, down).Some? && LedgerOk(Cross(s, t, down).value)
  {
    ActiveAfterCross(s, t, down);
    ActiveFits(s, TickAfter(t, down));
    var s' := Cross(s, t, down).value;
    forall k: nat, i | k < 2 && 0 <= i < |s'.positions|
      ensures Tracks(s', s'.positions[i], k)
    {
      CrossTracks(s, t, down, i, k);
    }
    hide Tracks, NextTick, Sum;
    assert TicksAreSums(s');
  }

  function Moved(s: Ledger, tick: int): Ledger
  {
    s.(tick := tick)
  }

  /** Moving between initialized ticks keeps everything, active liquidity included. */
  lemma MoveKeeps(s: Ledger, tick: int)
    requires LedgerOk(s) && SameSide(s, tick)
    ensures LedgerOk(Moved(s, tick))
  {
    var s', ps := Moved(s, tick), s.positions;
    forall i | 0 <= i < |ps|
      ensures ActivePart(tick)(ps[i]) == ActivePart(s.tick)(ps[i])
      ensures Tracks(s', ps[i], 0) && Tracks(s', ps[i], 1)
    {
      if ps[i].liquidity > 0 {
        BoundsInitialized(s, i);
        assert Inside(s', ps[i].lower, ps[i].upper, 0) == Inside(s, ps[i].lower, ps[i].upper, 0);
        assert Inside(s', ps[i].lower, ps[i].upper, 1) == Inside(s, ps[i].lower, ps[i].upper, 1);
      }
      assert Tracks(s, ps[i], 0) && Tracks(s, ps[i], 1);
    }
    SumAgree(ps, ps, ActivePart(tick), ActivePart(s.tick));
    hide Tracks, SameSide, Sum;
    assert TicksAreSums(s');
  }

  // ---------------------------------------------- the rate of a surplus over a swap

  /** Liquidity on the far side of a tick. */
  function FarLiquidity(s: Ledger, t: int, down: bool): int
  {
    Sum(s.positions, ActivePart(Far(t, down)))
  }

  /** Two ticks with no initialized one between them have the same liquidity. */
  lemma SameActive(s: Ledger, a: int, b: int)
    requires s.spacing > 0 && TicksAreSums(s) && forall u: int | IsInitialized(s, u) :: u <= a <==> u <= b
    ensures Sum(s.positions, ActivePart(a)) == Sum(s.positions, ActivePart(b))
  {
    var ps := s.positions;
    forall i | 0 <= i < |ps|
      ensures ActivePart(a)(ps[i]) == ActivePart(b)(ps[i])
    {
      if ps[i].liquidity > 0 {
        BoundsInitialized(s, i);
      }
    }
    SumAgree(ps, ps, ActivePart(a), ActivePart(b));
  }

  /** What a swap remembers against the ledger it has reached: `onTick` says that its last round
      ended on the crossing. Without a crossing the rate is that of the liquidity in range; on a
      crossing it is that of the far side; later it is that of the near side, if there is any. */
  ghost predicate LastOk(s: Ledger, last: Last, onTick: bool, down: bool)
  {
    if !last.crossed then last.liquidity == s.active
    else
      && JustCrossed(s, last.tick, down)
      && var far := FarLiquidity(s, last.tick, down);
      if onTick then far > 0 ==> last.liquidity == far
      else last.liquidity == if s.active > 0 then s.active else far
  }

  /** A tick has liquidity on one side at least. */
  lemma SomeSideHasLiquidity(s: Ledger, t: int, down: bool)
    requires s.spacing > 0 && TicksAreSums(s) && PositionsLegal(s) && ActiveIsSum(s) && JustCrossed(s, t, down)
    ensures FarLiquidity(s, t, down) >= 0 && (s.active == 0 ==> FarLiquidity(s, t, down) > 0)
  {
    var ps, here, far := s.positions, TickAfter(t, down), Far(t, down);
    SameActive(s, s.tick, here);
    assert Sum(ps, GrossPart(t)) > 0;
    var i := BoundAt(ps, t);
    PartOfSum(ps, i, ActivePart(here));
    PartOfSum(ps, i, ActivePart(far));
    SumNonNegative(ps, ActivePart(far));
    assert ps[i].lower < ps[i].upper;
    hide Sum, TicksAreSums;
  }

  lemma {:induction false} BoundAt(ps: seq<Position>, t: int) returns (i: nat)
    requires Sum(ps, GrossPart(t)) > 0
    ensures i < |ps| && ps[i].liquidity > 0 && (ps[i].lower == t || ps[i].upper == t)
  {
    var n := |ps| - 1;
    if GrossPart(t)(ps[n]) > 0 {
      i := n;
    } else {
      i := BoundAt(ps[..n], t);
    }
  }

  /** Whether an unswapped input is credited at a rate its positions can be paid at: exactly not
      when the swap went on after its last crossing into less liquidity than before it. */
  ghost predicate RatePays(s: Ledger, last: Last, onTick: bool, down: bool)
  {
    last.crossed && !onTick && s.active > 0 ==> FarLiquidity(s, last.tick, down) <= s.active
  }

  /** Then any surplus pays for itself; otherwise no surplus does that is large against both
      liquidities. */
  lemma SurplusPaysIff(s: Ledger, surplus: U128, last: Last, onTick: bool, down: bool)
    requires LedgerOk(s) && LastOk(s, last, onTick, down)
    ensures RatePays(s, last, onTick, down) ==> SpreadPays(s, surplus, last, down)
    ensures surplus > 0 && surplus * TWO_128 >= FarLiquidity(s, last.tick, down) * last.liquidity ==>
      (RatePays(s, last, onTick, down) <==> SpreadPays(s, surplus, last, down))
  {
    var rate, reached := last.liquidity, Reached(s, last, down);
    RateAgainstReach(s, last, onTick, down);
    hide LedgerOk, LastOk, RatePays, Reached, FeeGrowthDelta;
    if RatePays(s, last, onTick, down) {
      MulMono(reached, rate, FeeGrowthDelta(surplus, rate));
    } else if surplus > 0 && surplus * TWO_128 >= reached * rate {
      TooMuch(surplus, rate, reached);
    }
  }

  lemma RateAgainstReach(s: Ledger, last: Last, onTick: bool, down: bool)
    requires LedgerOk(s) && LastOk(s, last, onTick, down)
    ensures RatePays(s, last, onTick, down) ==> Reached(s, last, down) <= last.liquidity
    ensures !RatePays(s, last, onTick, down) ==>
      Reached(s, last, down) == FarLiquidity(s, last.tick, down) > last.liquidity > 0
  {
    if last.crossed {
      SomeSideHasLiquidity(s, last.tick, down);
    }
    hide Sum, TicksAreSums, PositionsLegal, JustCrossed;
  }

  /** A rate for less liquidity than it reaches credits more than the surplus. */
  lemma TooMuch(surplus: U128, rate: U128, reached: int)
    requires 0 < rate < reached && surplus > 0 && surplus * TWO_128 >= reached * rate
    ensures FeeGrowthDelta(surplus, rate) * reached > surplus * TWO_128
  {
    var q, n := FeeGrowthDelta(surplus, rate), surplus * TWO_128;
    assert n < q * rate + rate;
    MulMono(rate + 1, reached, q);
    assert q * reached >= q * rate + q;
    hide FeeGrowthDelta;
    if q < rate {
      MulMono(q, rate - 1, rate);
      MulMono(rate + 1, reached, rate);
    }
  }

  /** Spreading a surplus after a crossing writes what paying it as a fee just before the crossing
      would have written, exactly when the rate is that of the liquidity before the crossing. */
  lemma SurplusIsFeeBeforeCrossing(s: Ledger, t: int, down: bool, k: nat, surplus: U128, last: Last)
    requires k < 2 && t in s.ticks && Cross(s, t, down).Some? && last.crossed && last.tick == t
    ensures Cross(AddFee(s, k, surplus), t, down).Some?
    ensures var paid, spread := Cross(AddFee(s, k, surplus), t, down).value, Spread(Cross(s, t, down).value, k, surplus, last, down);
      (spread.growth, spread.ticks) == (paid.growth, paid.ticks)
      <==> FeeGrowthDelta(surplus, last.liquidity) == FeeGrowthDelta(surplus, s.active)
  {
    var delta, delta' := FeeGrowthDelta(surplus, s.active), FeeGrowthDelta(surplus, last.liquidity);
    ShiftBoth(s.growth[k], Outside(TickOf(s, t), k), delta);
    AddIsInjective(s.growth[k], delta, delta');
    AddZero(WrapSub(s.growth[k], Outside(TickOf(s, t), k)));
    hide FeeGrowthDelta, Grow, WrapAdd, WrapSub;
    var paid, spread := Cross(AddFee(s, k, surplus), t, down).value, Spread(Cross(s, t, down).value, k, surplus, last, down);
    assert paid.growth[k] == WrapAdd(s.growth[k], delta) && spread.growth[k] == WrapAdd(s.growth[k], delta');
    if delta == delta' {
      assert spread.growth == paid.growth;
      assert spread.ticks[t] == paid.ticks[t];
      assert spread.ticks == paid.ticks;
    }
  }

  lemma AddZero(x: U256)
    ensures WrapAdd(x, 0) == x
  {
  }

  lemma AddIsInjective(g: U256, a: U256, b: U256)
    ensures WrapAdd(g, a) == WrapAdd(g, b) <==> a == b
  {
  }

  // ------------------------------------------------------------- positions change

  lemma OpenKeeps(s: Ledger, lower: int, upper: int)
    requires LedgerOk(s) && Open(s, lower, upper).Some?
    ensures LedgerOk(Open(s, lower, upper).value)
  {
    var p := Position(lower, upper, 0, [0, 0], [0, 0]);
    EmptyPositionSums(s.positions, p);
    var s' := s.(positions := s.positions + [p]);
    hide Sum, Inside, MaxLiquidityPerTick;
    AppendedTracks(s, p, 0);
    AppendedTracks(s, p, 1);
    hide Tracks, CountersTrack, LegalTick;
    assert TicksAreSums(s');
  }

  lemma AppendedTracks(s: Ledger, p: Position, k: nat)
    requires k < 2 && CountersTrack(s, k) && p.liquidity == 0
    ensures CountersTrack(s.(positions := s.positions + [p]), k)
  {
    var s' := s.(positions := s.positions + [p]);
    forall i | 0 <= i < |s'.positions|
      ensures Tracks(s', s'.positions[i], k)
    {
      if i < |s.positions| {
        assert Tracks(s, s.positions[i], k);
      }
    }
  }

  lemma EmptyPositionSums(ps: seq<Position>, p: Position)
    requires p.liquidity == 0
    ensures forall t: int :: Sum(ps + [p], GrossPart(t)) == Sum(ps, GrossPart(t))
    ensures forall t: int :: Sum(ps + [p], NetPart(t)) == Sum(ps, NetPart(t))
    ensures forall t: int :: Sum(ps + [p], ActivePart(t)) == Sum(ps, ActivePart(t))
    ensures Sum(ps + [p], OwedPart(0)) == Sum(ps, OwedPart(0)) && Sum(ps + [p], OwedPart(1)) == Sum(ps, OwedPart(1))
  {
    forall t: int
      ensures Sum(ps + [p], GrossPart(t)) == Sum(ps, GrossPart(t))
      ensures Sum(ps + [p], NetPart(t)) == Sum(ps, NetPart(t))
      ensures Sum(ps + [p], ActivePart(t)) == Sum(ps, ActivePart(t))
    {
      SumAppend(ps, p, GrossPart(t));
      SumAppend(ps, p, NetPart(t));
      SumAppend(ps, p, ActivePart(t));
    }
    SumAppend(ps, p, OwedPart(0));
    SumAppend(ps, p, OwedPart(1));
  }

  /** What is owed to one position is within what has been paid in fees. */
  lemma OwedWithinFees(s: Ledger, i: nat, k: nat)
    requires k < 2 && i < |s.positions| && Covered(s, k)
    ensures s.positions[i].grown[k] * s.positions[i].liquidity + s.credited[k] * TWO_128 <= s.fees[k] * TWO_128
  {
    PartOfSum(s.positions, i, OwedPart(k));
  }

  /** What a position is credited is exactly its true growth times its liquidity, rounded down, if
      and only if that product is below 2^256, however often the counters have wrapped; it is
      never more. */
  lemma EarnedIsTrue(s: Ledger, i: nat, k: nat)
    requires k < 2 && i < |s.positions| && Tracks(s, s.positions[i], k)
    ensures var p := s.positions[i];
      && (Earned(s, p, k) == Some(p.grown[k] * p.liquidity / TWO_128) <==> p.grown[k] * p.liquidity < TWO_256)
      && (Earned(s, p, k).Some? ==> Earned(s, p, k).value <= p.grown[k] * p.liquidity / TWO_128)
  {
    var p := s.positions[i];
    if p.liquidity > 0 {
      hide Inside, MulDivFeeGrowth;
      WordIsAtMost(Inside(s, p.lower, p.upper, k), p.last[k], p.grown[k]);
      EarnedFromWord(WrapSub(Inside(s, p.lower, p.upper, k), p.last[k]), p.grown[k], p.liquidity);
    } else {
      assert p.grown[k] * p.liquidity == 0;
    }
  }

  lemma EarnedFromWord(word: U256, grown: nat, liquidity: U128)
    requires word <= grown && (grown < TWO_256 ==> word == grown) && liquidity > 0
    ensures var earned := MulDivFeeGrowth(word, liquidity);
      && (earned == Some(grown * liquidity / TWO_128) <==> grown * liquidity < TWO_256)
      && (earned.Some? ==> earned.value <= grown * liquidity / TWO_128)
  {
    FloorGalois(TWO_128, grown * liquidity, TWO_128);
    MulMono(word, grown, liquidity);
    FloorMono(word * liquidity, grown * liquidity, TWO_128);
    MulMono(1, liquidity, grown);
  }

  lemma FloorMono(a: nat, b: nat, d: nat)
    requires a <= b && d > 0
    ensures a / d <= b / d
  {
    FloorBounds(a, d);
    FloorGalois(a / d, b, d);
  }

  /** The word that counters show never exceeds the true growth, and is it below 2^256. */
  lemma WordIsAtMost(inside: U256, last: U256, grown: nat)
    requires Same(inside - last, grown)
    ensures WrapSub(inside, last) <= grown && (grown < TWO_256 ==> WrapSub(inside, last) == grown)
  {
  }

  /** Fees given and not credited yet are below 2^128, for each token. */
  predicate FewOutstanding(s: Ledger)
  {
    s.fees[0] - s.credited[0] < TWO_128 && s.fees[1] - s.credited[1] < TWO_128
  }

  /** Then a position earns its true growth. */
  lemma EarnedWhenFew(s: Ledger, i: nat, k: nat)
    requires k < 2 && i < |s.positions| && Tracks(s, s.positions[i], k) && Covered(s, k) && FewOutstanding(s)
    ensures var p := s.positions[i];
      Earned(s, p, k) == Some(p.grown[k] * p.liquidity / TWO_128)
  {
    OwedWithinFees(s, i, k);
    EarnedIsTrue(s, i, k);
  }

  /** Crediting a position's earnings keeps the counters tracked and the books covered, whatever has
      wrapped. It never fails while outstanding fees are below 2^128. */
  lemma AccrueCovers(s: Ledger, i: nat)
    requires i < |s.positions|
    requires CountersTrack(s, 0) && CountersTrack(s, 1) && Covered(s, 0) && Covered(s, 1)
    ensures FewOutstanding(s) ==> Accrue(s, i).Some?
    ensures Accrue(s, i).Some? ==>
      var s' := Accrue(s, i).value;
      CountersTrack(s', 0) && CountersTrack(s', 1) && Covered(s', 0) && Covered(s', 1)
  {
    assert Tracks(s, s.positions[i], 0) && Tracks(s, s.positions[i], 1);
    EarnedIsTrue(s, i, 0);
    EarnedIsTrue(s, i, 1);
    hide Tracks, Sum, Earned, Covered;
    if FewOutstanding(s) {
      EarnedWhenFew(s, i, 0);
      EarnedWhenFew(s, i, 1);
    }
    if Accrue(s, i).Some? {
      var s' := Accrue(s, i).value;
      SeenSums(s, i, s'.positions[i]);
      forall k: nat, j | k < 2 && 0 <= j < |s'.positions|
        ensures Tracks(s', s'.positions[j], k)
      {
        assert Tracks(s, s.positions[j], k);
        SeenTracks(s, s', i, j, k);
      }
      CreditCovered(s, s', i, 0);
      CreditCovered(s, s', i, 1);
    }
  }

  lemma AccrueKeeps(s: Ledger, i: nat)
    requires LedgerOk(s) && i < |s.positions|
    ensures FewOutstanding(s) ==> Accrue(s, i).Some?
    ensures Accrue(s, i).Some? ==> LedgerOk(Accrue(s, i).value)
  {
    AccrueCovers(s, i);
    hide CountersTrack, Covered, Sum, Earned;
    if Accrue(s, i).Some? {
      SeenSums(s, i, Accrue(s, i).value.positions[i]);
    }
  }

  /** Settling a position's growth changes no sum but what is owed to it. */
  lemma SeenSums(s: Ledger, i: nat, p': Position)
    requires i < |s.positions| && p'.grown == [0, 0]
    requires var p := s.positions[i]; p'.lower == p.lower && p'.upper == p.upper && p'.liquidity == p.liquidity
    ensures var ps, ps' := s.positions, s.positions[i := p'];
      && (forall t: int :: Sum(ps', GrossPart(t)) == Sum(ps, GrossPart(t)))
      && (forall t: int :: Sum(ps', NetPart(t)) == Sum(ps, NetPart(t)))
      && (forall t: int :: Sum(ps', ActivePart(t)) == Sum(ps, ActivePart(t)))
      && Sum(ps', OwedPart(0)) == Sum(ps, OwedPart(0)) - ps[i].grown[0] * ps[i].liquidity
      && Sum(ps', OwedPart(1)) == Sum(ps, OwedPart(1)) - ps[i].grown[1] * ps[i].liquidity
  {
    var ps, ps' := s.positions, s.positions[i := p'];
    forall t: int
      ensures Sum(ps', GrossPart(t)) == Sum(ps, GrossPart(t))
      ensures Sum(ps', NetPart(t)) == Sum(ps, NetPart(t))
      ensures Sum(ps', ActivePart(t)) == Sum(ps, ActivePart(t))
    {
      SumUpdate(ps, i, p', GrossPart(t));
      SumUpdate(ps, i, p', NetPart(t));
      SumUpdate(ps, i, p', ActivePart(t));
    }
    SumUpdate(ps, i, p', OwedPart(0));
    SumUpdate(ps, i, p', OwedPart(1));
  }

  lemma SeenTracks(s: Ledger, s': Ledger, i: nat, j: nat, k: nat)
    requires k < 2 && i < |s.positions| && j < |s.positions| && Accrue(s, i) == Some(s') && Tracks(s, s.positions[j], k)
    ensures Tracks(s', s'.positions[j], k)
  {
    hide GrowthInside, Earned;
    var p := s.positions[j];
    assert Inside(s', p.lower, p.upper, k) == Inside(s, p.lower, p.upper, k);
  }

  lemma CreditCovered(s: Ledger, s': Ledger, i: nat, k: nat)
    requires k < 2 && i < |s.positions| && Covered(s, k) && s'.fees == s.fees
    requires var p := s.positions[i];
      && Sum(s'.positions, OwedPart(k)) == Sum(s.positions, OwedPart(k)) - p.grown[k] * p.liquidity
      && s'.credited[k] <= s.credited[k] + p.grown[k] * p.liquidity / TWO_128
    ensures Covered(s', k)
  {
    var owed := s.positions[i].grown[k] * s.positions[i].liquidity;
    FloorBounds(owed, TWO_128);
  }

  // ---------------------------------------------------------- liquidity comes and goes

  function DeltaAt(p: Position, t: int, delta: int): int
  {
    if p.lower == t || p.upper == t then delta else 0
  }

  function NetDeltaAt(p: Position, t: int, delta: int): int
  {
    if p.lower == t then delta else if p.upper == t then -delta else 0
  }

  /** The fee counters of a tick that is initialized before and after stay as they are. */
  ghost predicate SameOutside(s: Ledger, s': Ledger, t: int)
  {
    TickOf(s, t).gross > 0 && TickOf(s', t).gross > 0 ==>
      TickOf(s', t).feeOutside0 == TickOf(s, t).feeOutside0 && TickOf(s', t).feeOutside1 == TickOf(s, t).feeOutside1
  }

  /** What changing liquidity at both bounds does to the ticks, and to nothing else. */
  lemma BoundsChanged(s: Ledger, p: Position, delta: int)
    requires s.spacing > 0 && p.lower < p.upper && ChangeBounds(s, p, delta).Some?
    ensures var s' := ChangeBounds(s, p, delta).value;
      && s' == s.(ticks := s'.ticks)
      && forall t: int ::
           && TickOf(s', t).gross == TickOf(s, t).gross + DeltaAt(p, t, delta)
           && TickOf(s', t).net == TickOf(s, t).net + NetDeltaAt(p, t, delta)
           && SameOutside(s, s', t)
           && (delta >= 0 && (p.lower == t || p.upper == t) ==> TickOf(s', t).gross <= MaxLiquidityPerTick(s.spacing))
  {
    hide MaxLiquidityPerTick;
  }

  /** The sums once position i is settled and has its new liquidity. */
  lemma LiquidityChanged(ps: seq<Position>, i: nat, p': Position, delta: int)
    requires i < |ps| && p'.grown == [0, 0] && ps[i].lower < ps[i].upper
    requires p'.lower == ps[i].lower && p'.upper == ps[i].upper && p'.liquidity == ps[i].liquidity + delta
    ensures var ps' := ps[i := p'];
      && (forall t: int :: Sum(ps', GrossPart(t)) == Sum(ps, GrossPart(t)) + DeltaAt(ps[i], t, delta))
      && (forall t: int :: Sum(ps', NetPart(t)) == Sum(ps, NetPart(t)) + NetDeltaAt(ps[i], t, delta))
      && (forall t: int :: Sum(ps', ActivePart(t)) == Sum(ps, ActivePart(t)) + if Covers(ps[i], t) then delta else 0)
  {
    var ps' := ps[i := p'];
    forall t: int
      ensures Sum(ps', GrossPart(t)) == Sum(ps, GrossPart(t)) + DeltaAt(ps[i], t, delta)
      ensures Sum(ps', NetPart(t)) == Sum(ps, NetPart(t)) + NetDeltaAt(ps[i], t, delta)
      ensures Sum(ps', ActivePart(t)) == Sum(ps, ActivePart(t)) + if Covers(ps[i], t) then delta else 0
    {
      SumUpdate(ps, i, p', GrossPart(t));
      SumUpdate(ps, i, p', NetPart(t));
      SumUpdate(ps, i, p', ActivePart(t));
    }
  }

  /** Ticks and positions that changed by the same liquidity still agree. */
  lemma SumsShift(s: Ledger, s': Ledger, i: nat, p': Position, delta: int)
    requires s.spacing > 0 && s'.spacing == s.spacing && TicksAreSums(s) && i < |s.positions|
    requires s'.positions == s.positions[i := p'] && p'.grown == [0, 0] && s.positions[i].lower < s.positions[i].upper
    requires p'.lower == s.positions[i].lower && p'.upper == s.positions[i].upper && p'.liquidity == s.positions[i].liquidity + delta
    requires forall t: int ::
      && TickOf(s', t).gross == TickOf(s, t).gross + DeltaAt(s.positions[i], t, delta)
      && TickOf(s', t).net == TickOf(s, t).net + NetDeltaAt(s.positions[i], t, delta)
      && (delta >= 0 && (s.positions[i].lower == t || s.positions[i].upper == t) ==> TickOf(s', t).gross <= MaxLiquidityPerTick(s.spacing))
    ensures TicksAreSums(s')
    ensures forall t: int :: Sum(s'.positions, ActivePart(t)) == Sum(s.positions, ActivePart(t)) + if Covers(s.positions[i], t) then delta else 0
  {
    LiquidityChanged(s.positions, i, p', delta);
    hide Sum, MaxLiquidityPerTick;
    forall t: int
      ensures TickOf(s', t).gross == Sum(s'.positions, GrossPart(t)) <= MaxLiquidityPerTick(s.spacing)
      ensures TickOf(s', t).net == Sum(s'.positions, NetPart(t))
    {
      assert TickOf(s, t).gross == Sum(s.positions, GrossPart(t));
    }
  }

  /** A position goes on tracking when its ticks stay initialized with the same counters. */
  lemma TracksStay(s: Ledger, s': Ledger, p: Position, k: nat)
    requires k < 2 && s'.growth == s.growth && s'.tick == s.tick && Tracks(s, p, k)
    requires p.liquidity > 0 ==>
      && IsInitialized(s, p.lower) && IsInitialized(s', p.lower) && SameOutside(s, s', p.lower)
      && IsInitialized(s, p.upper) && IsInitialized(s', p.upper) && SameOutside(s, s', p.upper)
    ensures Tracks(s', p, k)
  {
    if p.liquidity > 0 {
      assert Inside(s', p.lower, p.upper, k) == Inside(s, p.lower, p.upper, k);
    }
  }

  /** Adding liquidity at two ticks disturbs no position. */
  lemma AddedBoundsTrack(s: Ledger, i: nat, amount: U128, k: nat)
    requires LedgerOk(s) && i < |s.positions| && k < 2 && ChangeBounds(s, s.positions[i], amount).Some?
    ensures CountersTrack(ChangeBounds(s, s.positions[i], amount).value, k)
  {
    var s' := ChangeBounds(s, s.positions[i], amount).value;
    BoundsChanged(s, s.positions[i], amount);
    hide ChangeBounds, SameOutside, TickOf;
    forall j | 0 <= j < |s'.positions|
      ensures Tracks(s', s'.positions[j], k)
    {
      assert Tracks(s, s.positions[j], k);
      if s.positions[j].liquidity > 0 {
        BoundsInitialized(s, j);
      }
      TracksStay(s, s', s.positions[j], k);
    }
  }

  /** The state after a deposit, by its parts. */
  lemma DepositParts(s: Ledger, i: nat, amount: U128)
    requires LedgerOk(s) && i < |s.positions|
    requires amount <= I128_MAX && ChangeBounds(s, s.positions[i], amount).Some?
    ensures FewOutstanding(s) ==> Deposit(s, i, amount).Some?
    ensures Deposit(s, i, amount).Some? ==>
      var s1 := ChangeBounds(s, s.positions[i], amount).value;
      Accrue(s1, i).Some? && CountersTrack(Accrue(s1, i).value, 0) && CountersTrack(Accrue(s1, i).value, 1)
      && Covered(Accrue(s1, i).value, 0) && Covered(Accrue(s1, i).value, 1)
  {
    AddedBoundsTrack(s, i, amount, 0);
    AddedBoundsTrack(s, i, amount, 1);
    BoundsChanged(s, s.positions[i], amount);
    var s1 := ChangeBounds(s, s.positions[i], amount).value;
    assert Covered(s1, 0) && Covered(s1, 1);
    hide ChangeBounds, Covered, CountersTrack, Accrue;
    AccrueCovers(s1, i);
  }

  /** Position i has been credited its true growth times its liquidity, rounded down, and the others
      nothing. */
  ghost predicate Settles(s: Ledger, s': Ledger, i: nat)
    requires i < |s.positions|
  {
    && |s'.positions| == |s.positions| && (forall j | 0 <= j < |s.positions| :: j != i ==> s'.positions[j] == s.positions[j])
    && s'.positions[i].grown == [0, 0]
    && forall k: nat | k < 2 :: s'.credited[k] == s.credited[k] + s.positions[i].grown[k] * s.positions[i].liquidity / TWO_128
  }

  /** While few fees are outstanding. */
  lemma AccrueSettles(s: Ledger, i: nat)
    requires i < |s.positions| && CountersTrack(s, 0) && CountersTrack(s, 1) && Covered(s, 0) && Covered(s, 1) && FewOutstanding(s)
    ensures Accrue(s, i).Some? && Settles(s, Accrue(s, i).value, i)
  {
    assert Tracks(s, s.positions[i], 0) && Tracks(s, s.positions[i], 1);
    hide Tracks, Covered, CountersTrack, Earned, Inside;
    EarnedWhenFew(s, i, 0);
    EarnedWhenFew(s, i, 1);
  }

  /** A deposit settles the position and adds its liquidity. */
  lemma DepositSettles(s: Ledger, i: nat, amount: U128)
    requires LedgerOk(s) && i < |s.positions| && FewOutstanding(s) && Deposit(s, i, amount).Some?
    ensures Settles(s, Deposit(s, i, amount).value, i) && |Deposit(s, i, amount).value.positions| == |s.positions|
    ensures Deposit(s, i, amount).value.positions[i].liquidity == s.positions[i].liquidity + amount
  {
    AddedBoundsTrack(s, i, amount, 0);
    AddedBoundsTrack(s, i, amount, 1);
    BoundsChanged(s, s.positions[i], amount);
    DepositFits(s, i, amount);
    var s1 := ChangeBounds(s, s.positions[i], amount).value;
    assert Covered(s1, 0) && Covered(s1, 1);
    hide LedgerOk, ChangeBounds, Covered, CountersTrack, Accrue, Settles;
    AccrueSettles(s1, i);
    DepositShape(s, i, amount);
    ResizedSettles(s, s1, Accrue(s1, i).value, Deposit(s, i, amount).value, i);
  }

  lemma ResizedSettles(s: Ledger, s1: Ledger, s2: Ledger, s': Ledger, i: nat)
    requires i < |s.positions| && s1.positions == s.positions && s1.credited == s.credited && Settles(s1, s2, i)
    requires |s'.positions| == |s.positions| && s'.credited == s2.credited
    requires s'.positions == s2.positions[i := s2.positions[i].(liquidity := s'.positions[i].liquidity)]
    ensures Settles(s, s', i)
  {
  }

  /** So does a withdrawal, which takes it away. */
  lemma WithdrawSettles(s: Ledger, i: nat, amount: U128)
    requires LedgerOk(s) && i < |s.positions| && FewOutstanding(s) && Withdraw(s, i, amount).Some?
    ensures Settles(s, Withdraw(s, i, amount).value, i)
    ensures Withdraw(s, i, amount).value.positions[i].liquidity == s.positions[i].liquidity - amount
  {
    AccrueSettles(s, i);
    hide LedgerOk, Accrue, Covered, CountersTrack, Settles, Inside;
    AccrueShape(s, i);
    WithdrawnShape(s, i, amount);
    ResizedSettles(s, s, Accrue(s, i).value, Withdraw(s, i, amount).value, i);
  }

  lemma WithdrawnShape(s: Ledger, i: nat, amount: U128)
    requires s.spacing > 0 && i < |s.positions| && Withdraw(s, i, amount).Some? && Accrue(s, i).Some?
    requires |Accrue(s, i).value.positions| == |s.positions|
    ensures var s1, s' := Accrue(s, i).value, Withdraw(s, i, amount).value;
      && s'.credited == s1.credited && |s'.positions| == |s.positions| && amount <= s1.positions[i].liquidity
      && s'.positions == s1.positions[i := s1.positions[i].(liquidity := s1.positions[i].liquidity - amount)]
  {
    hide Accrue;
  }

  /** A position's liquidity is part of its ticks'. */
  lemma WithinTick(s: Ledger, i: nat)
    requires s.spacing > 0 && TicksAreSums(s) && i < |s.positions|
    ensures s.positions[i].liquidity <= TickOf(s, s.positions[i].lower).gross
    ensures s.positions[i].liquidity <= TickOf(s, s.positions[i].upper).gross
  {
    PartOfSum(s.positions, i, GrossPart(s.positions[i].lower));
    PartOfSum(s.positions, i, GrossPart(s.positions[i].upper));
  }

  /** The result of settling position i. */
  lemma AccrueShape(s: Ledger, i: nat)
    requires i < |s.positions| && Accrue(s, i).Some?
    ensures var s' := Accrue(s, i).value;
      var p, p' := s.positions[i], s'.positions[i];
      && s' == s.(positions := s.positions[i := p'], credited := s'.credited)
      && p' == p.(last := p'.last, grown := [0, 0])
      && forall k: nat | k < 2 :: p'.last[k] == Inside(s', p.lower, p.upper, k)
  {
    hide GrowthInside, Earned;
  }

  /** The result of a deposit, in terms of the settled state it ends from. */
  lemma DepositShape(s: Ledger, i: nat, amount: U128)
    requires s.spacing > 0 && i < |s.positions| && amount <= I128_MAX && ChangeBounds(s, s.positions[i], amount).Some?
    requires Accrue(ChangeBounds(s, s.positions[i], amount).value, i).Some?
    requires s.positions[i].liquidity + amount <= U128_MAX
    ensures var s2 := Accrue(ChangeBounds(s, s.positions[i], amount).value, i).value;
      Deposit(s, i, amount) ==
        Some(s2.(positions := s2.positions[i := s2.positions[i].(liquidity := s.positions[i].liquidity + amount)],
                 active := if Covers(s.positions[i], s.tick) then SatU128(s.active + amount) else s.active))
  {
    AccrueShape(ChangeBounds(s, s.positions[i], amount).value, i);
    assert ChangeBounds(s, s.positions[i], amount).value.active == s.active;
    hide Accrue, ChangeBounds;
  }

  lemma ShiftOverSettled(s: Ledger, s1: Ledger, s2: Ledger, s': Ledger, i: nat, delta: int)
    requires s.spacing > 0 && TicksAreSums(s) && i < |s.positions| && s.positions[i].lower < s.positions[i].upper
    requires s1 == s.(ticks := s1.ticks)
    requires forall t: int ::
      && TickOf(s1, t).gross == TickOf(s, t).gross + DeltaAt(s.positions[i], t, delta)
      && TickOf(s1, t).net == TickOf(s, t).net + NetDeltaAt(s.positions[i], t, delta)
      && (delta >= 0 && (s.positions[i].lower == t || s.positions[i].upper == t) ==> TickOf(s1, t).gross <= MaxLiquidityPerTick(s.spacing))
    requires |s2.positions| == |s.positions| && s2.positions == s.positions[i := s2.positions[i]] && s2.positions[i].grown == [0, 0]
    requires s2.positions[i].lower == s.positions[i].lower && s2.positions[i].upper == s.positions[i].upper
    requires 0 <= s.positions[i].liquidity + delta <= U128_MAX && s'.ticks == s1.ticks && s'.spacing == s.spacing
    requires s'.positions == s2.positions[i := s2.positions[i].(liquidity := s.positions[i].liquidity + delta)]
    ensures TicksAreSums(s')
    ensures forall t: int :: Sum(s'.positions, ActivePart(t)) == Sum(s.positions, ActivePart(t)) + if Covers(s.positions[i], t) then delta else 0
  {
    hide Sum, MaxLiquidityPerTick, Covers;
    var p' := s2.positions[i].(liquidity := s.positions[i].liquidity + delta);
    assert s'.positions == s.positions[i := p'];
    forall t: int
      ensures TickOf(s', t) == TickOf(s1, t)
    {
    }
    SumsShift(s, s', i, p', delta);
  }

  /** A deposit keeps the books, and nothing in it saturates. While outstanding fees are below
      2^128 only its ticks can refuse it. */
  lemma DepositKeeps(s: Ledger, i: nat, amount: U128)
    requires LedgerOk(s) && i < |s.positions|
    requires amount <= I128_MAX && ChangeBounds(s, s.positions[i], amount).Some?
    ensures FewOutstanding(s) ==> Deposit(s, i, amount).Some?
    ensures Deposit(s, i, amount).Some? ==>
      var s' := Deposit(s, i, amount).value;
      LedgerOk(s') && s'.positions[i].liquidity == s.positions[i].liquidity + amount
  {
    hide ChangeBounds, Accrue, Deposit, SameOutside, Sum, CountersTrack, Covered, MaxLiquidityPerTick, TickOf, DeltaAt, NetDeltaAt, Inside;
    DepositParts(s, i, amount);
    if Deposit(s, i, amount).Some? {
      BoundsChanged(s, s.positions[i], amount);
      DepositFits(s, i, amount);
      var s1 := ChangeBounds(s, s.positions[i], amount).value;
      AccrueShape(s1, i);
      DepositShape(s, i, amount);
      var s2 := Accrue(s1, i).value;
      var s' := Deposit(s, i, amount).value;
      ShiftOverSettled(s, s1, s2, s', i, amount);
      ActiveFits(s', s'.tick);
      SettledResize(s2, s', i, s.positions[i].liquidity + amount);
    }
  }

  lemma DepositFits(s: Ledger, i: nat, amount: U128)
    requires s.spacing > 0 && TicksAreSums(s) && PositionsLegal(s) && i < |s.positions|
    requires ChangeBounds(s, s.positions[i], amount).Some?
    ensures s.positions[i].liquidity + amount <= U128_MAX
  {
    BoundsChanged(s, s.positions[i], amount);
    WithinTick(s, i);
    var s1 := ChangeBounds(s, s.positions[i], amount).value;
    hide ChangeBounds, Sum;
    assert s.positions[i].liquidity + amount <= TickOf(s1, s.positions[i].lower).gross;
  }

  /** Changing the liquidity of a position whose growth is settled owes nobody anything. */
  lemma SettledResize(s: Ledger, s': Ledger, i: nat, liquidity: U128)
    requires i < |s.positions| && s.positions[i].grown == [0, 0]
    requires CountersTrack(s, 0) && CountersTrack(s, 1) && Covered(s, 0) && Covered(s, 1)
    requires s' == s.(positions := s.positions[i := s.positions[i].(liquidity := liquidity)], active := s'.active)
    requires forall k: nat | k < 2 :: s.positions[i].last[k] == Inside(s, s.positions[i].lower, s.positions[i].upper, k)
    ensures CountersTrack(s', 0) && CountersTrack(s', 1) && Covered(s', 0) && Covered(s', 1)
  {
    var p' := s.positions[i].(liquidity := liquidity);
    SumUpdate(s.positions, i, p', OwedPart(0));
    SumUpdate(s.positions, i, p', OwedPart(1));
    assert Covered(s', 0) && Covered(s', 1);
    hide Sum, Inside, Covered;
    ResizeTracks(s, s', i, liquidity, 0);
    ResizeTracks(s, s', i, liquidity, 1);
  }

  lemma ResizeTracks(s: Ledger, s': Ledger, i: nat, liquidity: U128, k: nat)
    requires k < 2 && i < |s.positions| && s.positions[i].grown == [0, 0] && CountersTrack(s, k)
    requires s' == s.(positions := s.positions[i := s.positions[i].(liquidity := liquidity)], active := s'.active)
    requires s.positions[i].last[k] == Inside(s, s.positions[i].lower, s.positions[i].upper, k)
    ensures CountersTrack(s', k)
  {
    hide GrowthInside;
    forall j | 0 <= j < |s'.positions|
      ensures Tracks(s', s'.positions[j], k)
    {
      assert Tracks(s, s.positions[j], k);
      var p := s'.positions[j];
      assert Inside(s', p.lower, p.upper, k) == Inside(s, p.lower, p.upper, k);
    }
  }

  // -------------------------------------------------------------------- withdrawals

  lemma {:induction false} NetWithinGross(ps: seq<Position>, t: int)
    ensures -Sum(ps, GrossPart(t)) <= Sum(ps, NetPart(t)) <= Sum(ps, GrossPart(t))
  {
    if ps != [] {
      NetWithinGross(ps[..|ps| - 1], t);
    }
  }

  /** Two usable ticks are enough for the cap to keep net liquidity within signed 128 bits. */
  lemma CapIsSigned(p: Position, spacing: int)
    requires p.lower < p.upper && LegalTick(p.lower, spacing) && LegalTick(p.upper, spacing)
    ensures MaxLiquidityPerTick(spacing) <= I128_MAX
  {
    Remainder(p.lower, spacing);
    Remainder(p.upper, spacing);
    MulCancelStrict(p.lower / spacing, p.upper / spacing, spacing);
    MulMono(p.lower / spacing + 1, p.upper / spacing, spacing);
    TwoTicksHalve(spacing);
  }

  lemma MulCancelStrict(a: int, b: int, c: int)
    requires c > 0 && a * c < b * c
    ensures a < b
  {
    if b <= a {
      MulMono(b, a, c);
    }
  }

  lemma TwoTicksHalve(spacing: int)
    requires 0 < spacing <= MAX_TICK - MIN_TICK
    ensures MaxLiquidityPerTick(spacing) <= I128_MAX
  {
    FloorGalois(1, MAX_TICK - MIN_TICK, spacing);
    HalfOfWord(MaxLiquidityPerTick(spacing), UsableTicks(spacing));
  }

  lemma HalfOfWord(cap: nat, n: int)
    requires n >= 2 && cap * n <= U128_MAX
    ensures cap <= I128_MAX
  {
    MulMono(2, n, cap);
  }

  /** Removing liquidity a position has is never refused by its ticks. */
  lemma BoundsShrink(s: Ledger, p: Position, amount: U128)
    requires s.spacing > 0 && p.lower < p.upper
    requires amount <= TickOf(s, p.lower).gross <= MaxLiquidityPerTick(s.spacing)
    requires amount <= TickOf(s, p.upper).gross <= MaxLiquidityPerTick(s.spacing)
    requires I128_MIN <= TickOf(s, p.lower).net - amount <= I128_MAX
    requires I128_MIN <= TickOf(s, p.upper).net + amount <= I128_MAX
    ensures ChangeBounds(s, p, -(amount as int)).Some?
  {
    hide MaxLiquidityPerTick;
  }

  /** The state after a withdrawal, up to the order of its parts. */
  lemma WithdrawShape(s: Ledger, i: nat, amount: U128)
    requires s.spacing > 0 && i < |s.positions| && amount <= I128_MAX && Accrue(s, i).Some? && amount <= s.positions[i].liquidity
    ensures var s1 := Accrue(s, i).value;
      var p := s1.positions[i];
      var s2 := s1.(positions := s1.positions[i := p.(liquidity := p.liquidity - amount)]);
      var changed := ChangeBounds(s2, p, -(amount as int));
      p.liquidity == s.positions[i].liquidity && s1.active == s.active && s1.tick == s.tick
      && (changed.Some? && (Covers(p, s.tick) ==> s.active >= amount) ==>
            Withdraw(s, i, amount) == Some(changed.value.(active := if Covers(p, s.tick) then s.active - amount else changed.value.active)))
  {
    AccrueShape(s, i);
    hide Accrue, ChangeBounds;
  }

  /** Sums over the positions once i has given some liquidity back. */
  lemma ShrunkSums(s: Ledger, i: nat, amount: U128)
    requires s.spacing > 0 && TicksAreSums(s) && PositionsLegal(s) && i < |s.positions| && s.positions[i].grown == [0, 0]
    requires amount <= s.positions[i].liquidity
    ensures ChangeBounds(s.(positions := s.positions[i := s.positions[i].(liquidity := s.positions[i].liquidity - amount)]),
                         s.positions[i], -(amount as int)).Some?
  {
    var p := s.positions[i];
    var p' := p.(liquidity := p.liquidity - amount);
    var s2 := s.(positions := s.positions[i := p']);
    WithinTick(s, i);
    CapIsSigned(p, s.spacing);
    LiquidityChanged(s.positions, i, p', -(amount as int));
    NetWithinGross(s2.positions, p.lower);
    NetWithinGross(s2.positions, p.upper);
    hide Sum, MaxLiquidityPerTick, ChangeBounds;
    assert TickOf(s2, p.lower) == TickOf(s, p.lower) && TickOf(s2, p.upper) == TickOf(s, p.upper);
    BoundsShrink(s2, p, amount);
  }

  /** Ticks that give liquidity back disturb no position that still has some. */
  lemma ShrunkTracks(s2: Ledger, s3: Ledger, s': Ledger, k: nat)
    requires k < 2 && s3 == s2.(ticks := s3.ticks) && s' == s3.(active := s'.active) && CountersTrack(s2, k)
    requires s'.spacing > 0 && TicksAreSums(s')
    requires forall t: int :: SameOutside(s2, s3, t) && TickOf(s2, t).gross >= TickOf(s3, t).gross
    ensures CountersTrack(s', k)
  {
    hide TicksAreSums, SameOutside;
    forall j | 0 <= j < |s'.positions|
      ensures Tracks(s', s'.positions[j], k)
    {
      var p := s'.positions[j];
      assert Tracks(s2, p, k);
      if p.liquidity > 0 {
        WithinTick(s', j);
      }
      assert TickOf(s3, p.lower) == TickOf(s', p.lower) && TickOf(s3, p.upper) == TickOf(s', p.upper);
      TracksStay(s2, s3, p, k);
      assert Inside(s', p.lower, p.upper, k) == Inside(s3, p.lower, p.upper, k);
    }
  }

  /** Any part of a position's liquidity can be withdrawn once its fees are settled, which outstanding
      fees below 2^128 ensure, and the books stay right. */
  lemma WithdrawKeeps(s: Ledger, i: nat, amount: U128)
    requires LedgerOk(s) && i < |s.positions|
    requires amount <= I128_MAX && amount <= s.positions[i].liquidity
    ensures Withdraw(s, i, amount).Some? <==> Accrue(s, i).Some?
    ensures FewOutstanding(s) ==> Withdraw(s, i, amount).Some?
    ensures Withdraw(s, i, amount).Some? ==>
      var s' := Withdraw(s, i, amount).value;
      LedgerOk(s') && s'.positions[i].liquidity == s.positions[i].liquidity - amount
  {
    hide ChangeBounds, Accrue, Withdraw, Sum, TicksAreSums, ActiveIsSum, CountersTrack, Covered, SameOutside, TickOf, Inside;
    AccrueKeeps(s, i);
    NoSettlingNoWithdrawal(s, i, amount);
    if Accrue(s, i).Some? {
      AccrueShape(s, i);
      WithdrawShape(s, i, amount);
      var s1 := Accrue(s, i).value;
      var p := s1.positions[i];
      var p' := p.(liquidity := p.liquidity - amount);
      var s2 := s1.(positions := s1.positions[i := p']);
      ShrunkSums(s1, i, amount);
      BoundsChanged(s2, p, -(amount as int));
      SettledResize(s1, s2, i, p.liquidity - amount);
      var s3 := ChangeBounds(s2, p, -(amount as int)).value;
      WithdrawEnds(s1, s2, s3, i, amount);
    }
  }

  lemma NoSettlingNoWithdrawal(s: Ledger, i: nat, amount: U128)
    requires s.spacing > 0 && i < |s.positions|
    ensures Accrue(s, i).None? ==> Withdraw(s, i, amount).None?
  {
    hide Accrue;
  }

  lemma WithdrawEnds(s1: Ledger, s2: Ledger, s3: Ledger, i: nat, amount: U128)
    requires LedgerOk(s1) && i < |s1.positions| && s1.positions[i].grown == [0, 0] && amount <= s1.positions[i].liquidity
    requires s2 == s1.(positions := s1.positions[i := s1.positions[i].(liquidity := s1.positions[i].liquidity - amount)])
    requires CountersTrack(s2, 0) && CountersTrack(s2, 1) && Covered(s2, 0) && Covered(s2, 1)
    requires s3 == s2.(ticks := s3.ticks)
    requires forall t: int ::
      && TickOf(s3, t).gross == TickOf(s2, t).gross + DeltaAt(s1.positions[i], t, -(amount as int))
      && TickOf(s3, t).net == TickOf(s2, t).net + NetDeltaAt(s1.positions[i], t, -(amount as int))
      && SameOutside(s2, s3, t)
    ensures Covers(s1.positions[i], s1.tick) ==> s1.active >= amount
    ensures LedgerOk(s3.(active := if Covers(s1.positions[i], s1.tick) then s1.active - amount else s1.active))
  {
    var p' := s2.positions[i];
    hide Sum, CountersTrack, Covered, MaxLiquidityPerTick, SameOutside;
    forall t: int
      ensures TickOf(s2, t) == TickOf(s1, t)
    {
    }
    SumsShift(s1, s3, i, p', -(amount as int));
    ActiveFits(s3, s3.tick);
    var s' := s3.(active := if Covers(s1.positions[i], s1.tick) then s1.active - amount else s1.active);
    assert TicksAreSums(s') by {
      forall t: int
        ensures TickOf(s', t) == TickOf(s3, t)
      {
      }
    }
    ShrunkTracks(s2, s3, s', 0);
    ShrunkTracks(s2, s3, s', 1);
    SameBooks(s2, s', 0);
    SameBooks(s2, s', 1);
  }

  lemma SameBooks(s: Ledger, s': Ledger, k: nat)
    requires k < 2 && Covered(s, k) && s'.positions == s.positions && s'.credited == s.credited && s'.fees == s.fees
    ensures Covered(s', k)
  {
  }
}
