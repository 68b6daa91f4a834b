/** The depth walk sees the pool's own liquidity: folding adjusted nets along the path gives,
    at every tick, the liquidity of the positions in range other than full-range ones
    (liquidity_pool_concentrated/src/plane.rs against contract/internal.rs). */
module DepthLiquidity {
  import opened Words
  import opened TickMath
  import opened Bitmap
  import opened ChunkStore
  import opened TickIndex
  import opened TickUpdate
  import Walk = StepWalk
  import Depth = StepDepth
  import opened LiquidityLedger
  import opened LedgerInvariants
  import SwapRounds

  /** The widest legal range of a spacing. */
  predicate IsFullRange(p: Position, spacing: int)
  {
    Walk.FullRangeTicks(spacing) == Some((p.lower, p.upper))
  }

  function FullRangePart(spacing: int): Position -> int
  {
    (p: Position) => if IsFullRange(p, spacing) then p.liquidity else 0
  }

  /** What the other positions contribute to a tick's net liquidity. */
  function RestNetPart(spacing: int, t: int): Position -> int
  {
    (p: Position) =>
      if IsFullRange(p, spacing) then 0
      else if p.lower == t then p.liquidity as int
      else if p.upper == t then -(p.liquidity as int)
      else 0
  }

  /** Liquidity of the other positions whose range holds the ticks of compressed tick `c`. */
  function RestActivePart(spacing: int, c: int): Position -> int
    requires spacing > 0
  {
    (p: Position) => if !IsFullRange(p, spacing) && p.lower / spacing <= c < p.upper / spacing then p.liquidity else 0
  }

  function RestActive(s: Ledger, c: int): int
    requires s.spacing > 0
  {
    Sum(s.positions, RestActivePart(s.spacing, c))
  }

  /** The scene of a walk over a pool in good order. */
  ghost predicate SceneOf(v: Walk.Scene, s: Ledger)
  {
    && LedgerOk(s) && v.spacing == s.spacing && Records(v.chunks, s) && InRange(v.chunks, v.spacing)
    && v.fullRange == Sum(s.positions, FullRangePart(s.spacing)) && Walk.FullRangeTicks(s.spacing).Some?
  }

  lemma FullRangeIsLegal(spacing: int)
    requires spacing > 0 && Walk.FullRangeTicks(spacing).Some?
    ensures var (lower, upper) := Walk.FullRangeTicks(spacing).value;
      && LegalTick(lower, spacing) && LegalTick(upper, spacing) && lower < upper
      && lower == -(MAX_TICK / spacing) * spacing && upper == MAX_TICK / spacing * spacing
  {
    var half := MAX_TICK / spacing;
    FloorBounds(MAX_TICK, spacing);
    DivModUnique(half * spacing, spacing, half, 0);
    DivModUnique(-half * spacing, spacing, -half, 0);
    assert -half * spacing == -(half * spacing);
  }

  /** Full-range positions touch net liquidity at their two ticks only. */
  function FullNetPart(spacing: int, t: int): Position -> int
  {
    (p: Position) =>
      if !IsFullRange(p, spacing) then 0
      else if p.lower == t then p.liquidity as int
      else if p.upper == t then -(p.liquidity as int)
      else 0
  }

  lemma NetSplits(ps: seq<Position>, spacing: int, t: int)
    ensures Sum(ps, NetPart(t)) == Sum(ps, RestNetPart(spacing, t)) + Sum(ps, FullNetPart(spacing, t))
  {
    SumDifference(ps, NetPart(t), RestNetPart(spacing, t), FullNetPart(spacing, t));
  }

  lemma {:induction false} FullNetIs(ps: seq<Position>, spacing: int, t: int)
    requires Walk.FullRangeTicks(spacing).Some?
    ensures var (lower, upper) := Walk.FullRangeTicks(spacing).value;
      Sum(ps, FullNetPart(spacing, t)) ==
        if t == lower then Sum(ps, FullRangePart(spacing))
        else if t == upper then -Sum(ps, FullRangePart(spacing))
        else 0
  {
    hide Walk.FullRangeTicks;
    if ps != [] {
      FullNetIs(ps[..|ps| - 1], spacing, t);
    }
  }

  lemma {:induction false} RestWithinGross(ps: seq<Position>, spacing: int, t: int)
    ensures -Sum(ps, GrossPart(t)) <= Sum(ps, RestNetPart(spacing, t)) <= Sum(ps, GrossPart(t))
  {
    hide IsFullRange;
    if ps != [] {
      RestWithinGross(ps[..|ps| - 1], spacing, t);
    }
  }

  /** The full-range adjustment leaves exactly what the other positions contribute. */
  lemma AdjustmentLeavesRest(v: Walk.Scene, s: Ledger, c: int)
    requires SceneOf(v, s) && MIN_TICK <= c * s.spacing <= MAX_TICK
    ensures Walk.NetAt(v, c) == Sum(s.positions, RestNetPart(s.spacing, c * s.spacing))
  {
    var t, spacing := c * s.spacing, s.spacing;
    var (lower, upper) := Walk.FullRangeTicks(spacing).value;
    FullRangeIsLegal(spacing);
    NetSplits(s.positions, spacing, t);
    FullNetIs(s.positions, spacing, t);
    RestWithinGross(s.positions, spacing, t);
    CapIsSigned(Position(lower, upper, 0, [0, 0], [0, 0]), spacing);
    assert TickOf(s, t).gross == Sum(s.positions, GrossPart(t)) <= MaxLiquidityPerTick(spacing);
    AdjustmentIs(c, spacing, lower, upper, v.fullRange);
    assert TickAt(v.chunks, c).net == Sum(s.positions, NetPart(t));
    hide Sum, MaxLiquidityPerTick, Walk.FullRangeTicks, TickAt, Walk.FullRangeAdjustment, CompressedToTick, LedgerOk;
  }

  lemma AdjustmentIs(c: int, spacing: int, lower: int, upper: int, fullRange: int)
    requires spacing > 0 && MIN_TICK <= c * spacing <= MAX_TICK && lower < upper
    requires LegalTick(lower, spacing) && LegalTick(upper, spacing)
    ensures Walk.FullRangeAdjustment(CompressedToTick(c, spacing), spacing, lower, upper, fullRange)
      == if c * spacing == lower then -fullRange else if c * spacing == upper then fullRange else 0
  {
    CompressRoundTrip(c, spacing);
    CompressIsFloor(lower, spacing);
    CompressIsFloor(upper, spacing);
    Remainder(lower, spacing);
    Remainder(upper, spacing);
    SameQuotient(c, lower, spacing);
    SameQuotient(c, upper, spacing);
    hide CompressTick, CompressedToTick;
  }

  lemma SameQuotient(c: int, t: int, spacing: int)
    requires spacing > 0 && t % spacing == 0
    ensures c == t / spacing <==> c * spacing == t
  {
    Remainder(t, spacing);
    if c * spacing == t {
      DivModUnique(t, spacing, c, 0);
    }
  }

  // ----------------------------------------------------------- liquidity along a path

  /** Going down past a tick takes away its net liquidity, whether or not it is initialized. */
  lemma RestActiveStep(s: Ledger, c: int)
    requires s.spacing > 0 && PositionsLegal(s)
    ensures RestActive(s, c - 1) == RestActive(s, c) - Sum(s.positions, RestNetPart(s.spacing, c * s.spacing))
  {
    var ps, spacing := s.positions, s.spacing;
    forall i | 0 <= i < |ps|
      ensures RestActivePart(spacing, c)(ps[i]) == RestActivePart(spacing, c - 1)(ps[i]) + RestNetPart(spacing, c * spacing)(ps[i])
    {
      StepOfOne(ps[i], spacing, c);
    }
    SumDifference(ps, RestActivePart(spacing, c), RestActivePart(spacing, c - 1), RestNetPart(spacing, c * spacing));
  }

  lemma StepOfOne(p: Position, spacing: int, c: int)
    requires p.lower < p.upper && LegalTick(p.lower, spacing) && LegalTick(p.upper, spacing)
    ensures RestActivePart(spacing, c)(p) == RestActivePart(spacing, c - 1)(p) + RestNetPart(spacing, c * spacing)(p)
  {
    var a, b := p.lower / spacing, p.upper / spacing;
    SameQuotient(c, p.lower, spacing);
    SameQuotient(c, p.upper, spacing);
    Remainder(p.lower, spacing);
    Remainder(p.upper, spacing);
    MulCancelStrict(a, b, spacing);
    hide IsFullRange, LegalTick;
  }

  /** An uninitialized tick changes nothing. */
  lemma NothingAtUninitialized(v: Walk.Scene, s: Ledger, c: int)
    requires SceneOf(v, s) && !Initialized(v.chunks, c)
    ensures Sum(s.positions, RestNetPart(s.spacing, c * s.spacing)) == 0
  {
    RestWithinGross(s.positions, s.spacing, c * s.spacing);
    assert TickOf(s, c * s.spacing).gross == Sum(s.positions, GrossPart(c * s.spacing));
  }

  lemma RestActiveFits(s: Ledger, c: int)
    requires s.spacing > 0 && TicksAreSums(s) && PositionsLegal(s)
    ensures 0 <= RestActive(s, c) <= U128_MAX
  {
    assert forall i | 0 <= i < |s.positions| :: LegalTick(s.positions[i].lower, s.spacing);
    TickCapBoundsLiquidity(s.positions, s.spacing);
    SumNonNegative(s.positions, RestActivePart(s.spacing, c));
    SumAtMost(s.positions, RestActivePart(s.spacing, c), LiquidityPart());
  }

  /** The step over one compressed tick, initialized or not. */
  lemma StepOver(v: Walk.Scene, s: Ledger, c: int)
    requires SceneOf(v, s)
    ensures 0 <= RestActive(s, c) <= U128_MAX && 0 <= RestActive(s, c - 1) <= U128_MAX
    ensures if Initialized(v.chunks, c) then RestActive(s, c - 1) == RestActive(s, c) - Walk.NetAt(v, c)
            else RestActive(s, c - 1) == RestActive(s, c)
  {
    RestActiveStep(s, c);
    RestActiveFits(s, c);
    RestActiveFits(s, c - 1);
    if Initialized(v.chunks, c) {
      AdjustmentLeavesRest(v, s, c);
    } else {
      NothingAtUninitialized(v, s, c);
    }
  }

  lemma {:induction false} LiquidityDown(v: Walk.Scene, s: Ledger, from: int, limit: int)
    requires SceneOf(v, s) && v.zeroForOne && limit <= from + 1
    ensures Depth.LiquidityFits(v, RestActive(s, from), Walk.Visited(v, from, limit))
    ensures Depth.LiquidityAfter(v, RestActive(s, from), Walk.Visited(v, from, limit)) == RestActive(s, limit - 1)
    decreases from - limit + 1
  {
    hide SceneOf, RestActive, Walk.NetAt, Initialized;
    StepOver(v, s, from);
    if from >= limit {
      LiquidityDown(v, s, from - 1, limit);
      var rest := Walk.Visited(v, from - 1, limit);
      assert ([from] + rest)[1..] == rest && [] + rest == rest;
    }
  }

  lemma {:induction false} LiquidityUp(v: Walk.Scene, s: Ledger, from: int, limit: int)
    requires SceneOf(v, s) && !v.zeroForOne && from <= limit + 1
    ensures Depth.LiquidityFits(v, RestActive(s, from - 1), Walk.Visited(v, from, limit))
    ensures Depth.LiquidityAfter(v, RestActive(s, from - 1), Walk.Visited(v, from, limit)) == RestActive(s, limit)
    decreases limit - from + 1
  {
    hide SceneOf, RestActive, Walk.NetAt, Initialized;
    StepOver(v, s, from);
    StepOver(v, s, from - 1);
    if from <= limit {
      LiquidityUp(v, s, from + 1, limit);
      var rest := Walk.Visited(v, from + 1, limit);
      assert ([from] + rest)[1..] == rest && [] + rest == rest;
    }
  }

  /** Active liquidity, split into full-range positions and the others. */
  lemma ActiveSplits(s: Ledger)
    requires LedgerOk(s) && Walk.FullRangeTicks(s.spacing).Some?
    requires InFullRange(s)
    ensures s.active == Sum(s.positions, FullRangePart(s.spacing)) + RestActive(s, s.tick / s.spacing)
  {
    var ps, spacing, c := s.positions, s.spacing, s.tick / s.spacing;
    forall i | 0 <= i < |ps|
      ensures ActivePart(s.tick)(ps[i]) == FullRangePart(spacing)(ps[i]) + RestActivePart(spacing, c)(ps[i])
    {
      FloorCovers(ps[i], spacing, s.tick);
      hide Walk.FullRangeTicks;
    }
    SumDifference(ps, ActivePart(s.tick), FullRangePart(spacing), RestActivePart(spacing, c));
  }

  lemma FloorCovers(p: Position, spacing: int, tick: int)
    requires LegalTick(p.lower, spacing) && LegalTick(p.upper, spacing)
    ensures p.lower <= tick < p.upper <==> p.lower / spacing <= tick / spacing < p.upper / spacing
  {
    Remainder(p.lower, spacing);
    Remainder(p.upper, spacing);
    FloorGalois(p.lower / spacing, tick, spacing);
    FloorGalois(p.upper / spacing, tick, spacing);
  }

  /** Where the walk starts: active liquidity less full-range liquidity, or nothing. */
  function Base(v: Walk.Scene, s: Ledger): U128
  {
    SatU128(s.active - v.fullRange)
  }

  /** Starting from the active liquidity without full-range positions, the walk has at every
      step boundary of its path the liquidity of the other positions in range there: no fold
      leaves 128 bits, and no position is missed or counted twice, even while the price is
      outside the full range. */
  lemma WalkSeesPoolLiquidity(v: Walk.Scene, s: Ledger, k: nat)
    requires SceneOf(v, s) && k > 0
    ensures var start := s.tick / s.spacing;
      var ticks := Depth.TicksOnPath(v, start, k);
      var end := Walk.TargetCompressed(start, k - 1, v.zeroForOne);
      && Depth.LiquidityFits(v, Base(v, s), ticks)
      && Depth.LiquidityAfter(v, Base(v, s), ticks) == RestActive(s, if v.zeroForOne then end - 1 else end)
  {
    var start := s.tick / s.spacing;
    BaseIsRestActive(v, s);
    PathIs(v, start, k);
    Depth.StepsAdvance(start, k - 1, v.zeroForOne);
    hide *;
    PathLiquidity(v, s, start, Walk.TargetCompressed(start, k - 1, v.zeroForOne));
  }

  lemma PathLiquidity(v: Walk.Scene, s: Ledger, start: int, end: int)
    requires SceneOf(v, s) && if v.zeroForOne then end < start else end > start
    ensures var ticks := Walk.Visited(v, if v.zeroForOne then start else start + 1, end);
      && Depth.LiquidityFits(v, RestActive(s, start), ticks)
      && Depth.LiquidityAfter(v, RestActive(s, start), ticks) == RestActive(s, if v.zeroForOne then end - 1 else end)
  {
    hide *;
    if v.zeroForOne {
      LiquidityDown(v, s, start, end);
    } else {
      LiquidityUp(v, s, start + 1, end);
    }
  }

  ghost predicate InFullRange(s: Ledger)
    requires Walk.FullRangeTicks(s.spacing).Some?
  {
    var (lower, upper) := Walk.FullRangeTicks(s.spacing).value; lower <= s.tick < upper
  }

  /** The base is the liquidity of the other positions in range: inside the full range what is left
      without full-range positions, and outside it, where no position reaches, nothing. */
  lemma BaseIsRestActive(v: Walk.Scene, s: Ledger)
    requires SceneOf(v, s)
    ensures Base(v, s) == RestActive(s, s.tick / s.spacing)
    ensures !InFullRange(s) ==> s.active == 0 == Base(v, s)
  {
    if InFullRange(s) {
      ActiveSplits(s);
      RestActiveFits(s, s.tick / s.spacing);
    } else {
      NobodyOutside(s);
    }
  }

  lemma NobodyOutside(s: Ledger)
    requires LedgerOk(s) && Walk.FullRangeTicks(s.spacing).Some? && !InFullRange(s)
    ensures s.active == 0 && RestActive(s, s.tick / s.spacing) == 0
  {
    var ps, spacing, c := s.positions, s.spacing, s.tick / s.spacing;
    forall i | 0 <= i < |ps|
      ensures ActivePart(s.tick)(ps[i]) == 0 && RestActivePart(spacing, c)(ps[i]) == 0
    {
      assert LegalTick(ps[i].lower, spacing) && LegalTick(ps[i].upper, spacing);
      FullRangeIsLegal(spacing);
      WithinHalf(ps[i].lower, spacing);
      WithinHalf(ps[i].upper, spacing);
      FloorCovers(ps[i], spacing, s.tick);
      hide Walk.FullRangeTicks, IsFullRange, LegalTick;
    }
    SwapRounds.AllZero(ps, ActivePart(s.tick));
    SwapRounds.AllZero(ps, RestActivePart(spacing, c));
    hide Sum;
  }

  /** Legal ticks lie within the full range. */
  lemma WithinHalf(t: int, spacing: int)
    requires LegalTick(t, spacing)
    ensures -(MAX_TICK / spacing) * spacing <= t <= MAX_TICK / spacing * spacing
  {
    Remainder(t, spacing);
    FloorGalois(t / spacing, MAX_TICK, spacing);
    FloorGalois(-(t / spacing), MAX_TICK, spacing);
    MulMono(t / spacing, MAX_TICK / spacing, spacing);
    MulMono(-(t / spacing), MAX_TICK / spacing, spacing);
  }

  lemma PathIs(v: Walk.Scene, start: int, k: nat)
    requires k > 0
    ensures Depth.TicksOnPath(v, start, k)
      == Walk.Visited(v, if v.zeroForOne then start else start + 1, Walk.TargetCompressed(start, k - 1, v.zeroForOne))
  {
  }
}
