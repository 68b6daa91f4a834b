/** A public swap that leaves the pool unable to pay: an amount out above the signed range wraps to
    an exact input that takes far more than it swaps
    (liquidity_pool_concentrated/src/contract/liquidity_pool_interface.rs, internal.rs). */
module WrappedCall {
  import opened Words
  import opened U512
  import opened PriceMath
  import opened TickMath
  import opened TickAccuracy
  import opened ChunkStore
  import opened TickIndex
  import opened TickMaintenance
  import opened TickUpdate
  import opened FeeGrowth
  import opened LiquidityLedger
  import opened LedgerInvariants
  import opened PositionWorth
  import opened SwapRounds
  import opened Solvency
  import opened SolvencyRuns
  import Search = SwapSearch
  import Steps = SwapStep
  import Runs = LedgerRuns
  import Minting

  // ---------------------------------------------------------------------- the pool

  const SURPLUS: U128 := 1_000_000
  const FAR: int := 300_000
  const BOTH: Position := Position(-FAR, FAR, 1, [0, 0], [0, 0])
  const UPPER: Position := Position(0, FAR, 1000, [0, 0], [0, 0])

  /** Spacing 60, the price at tick 0: one unit of liquidity on both sides of the price and a
      thousand units above it, without any fees so far. */
  function Before(): Ledger
  {
    var ticks := map[-FAR := TickData(0, 0, 1, 1), 0 := TickData(0, 0, 1000, 1000), FAR := TickData(0, 0, 1001, -1001)];
    Ledger(60, ticks, 0, [0, 0], 1001, [BOTH, UPPER], [0, 0], [0, 0])
  }

  function Stored(): map<int, Chunk>
  {
    map[-313 := EMPTY_CHUNK[8 := TickData(0, 0, 1, 1)], 0 := EMPTY_CHUNK[0 := TickData(0, 0, 1000, 1000)],
        312 := EMPTY_CHUNK[8 := TickData(0, 0, 1001, -1001)]]
  }

  function Pool(held: Amounts): Books
  {
    Books(Before(), Q96, held, [[0, 0], [0, 0]], held, [0, 0])
  }

  function DownWithFee(): Order
  {
    Order(30, MIN_SQRT_RATIO + 1, 60, true, true, 0)
  }

  /** Asks for 2^128 - 1 of token1 out, for at most 1000001 of token0. */
  function Wrapped(): Entry
  {
    BuyExact(U128_MAX, SURPLUS + 1)
  }

  function WrappedSwap(): SwapCall
  {
    SwapCall(Stored(), -FAR, 1, SURPLUS + 1, 0, DownWithFee())
  }

  lemma WrappedIsPublic()
    ensures IsPublic(WrappedSwap(), Wrapped()) && !Representable(Wrapped()) && !TakesItsAmount(WrappedSwap())
  {
  }

  lemma SumOfTwo(a: Position, b: Position, f: Position -> int)
    ensures Sum([a, b], f) == f(a) + f(b)
  {
    assert [a, b][..1] == [a] && [a][..0] == [];
    assert Sum([a], f) == f(a);
  }

  lemma LedgerInOrder()
    ensures LedgerOk(Before())
  {
    var s := Before();
    CapOfSpacing60();
    hide Sum, MaxLiquidityPerTick;
    forall t: int
      ensures TickOf(s, t).gross == Sum(s.positions, GrossPart(t)) <= MaxLiquidityPerTick(s.spacing)
      ensures TickOf(s, t).net == Sum(s.positions, NetPart(t))
    {
      SumOfTwo(BOTH, UPPER, GrossPart(t));
      SumOfTwo(BOTH, UPPER, NetPart(t));
    }
    SumOfTwo(BOTH, UPPER, ActivePart(0));
    SumOfTwo(BOTH, UPPER, OwedPart(0));
    SumOfTwo(BOTH, UPPER, OwedPart(1));
    forall i, k: nat | 0 <= i < 2 && k < 2
      ensures Tracks(s, s.positions[i], k)
    {
      assert Inside(s, s.positions[i].lower, s.positions[i].upper, k) == 0;
    }
  }

  lemma {:induction false} FullRatio(i: nat)
    requires i <= 20
    ensures RatioAfter(0, i) == TWO_128
  {
    if i > 0 {
      FullRatio(i - 1);
    }
    hide TICK_MULTIPLIERS;
  }

  lemma PriceAtZero()
    ensures P(0) == Q96 && OnLadder(0, Q96)
  {
    FullRatio(20);
    hide RatioAfter;
    assert SqrtRatioAtTick(0) == Q96;
    hide SqrtRatioAtTick;
    Rises(0, 1);
  }

  lemma StorageInOrder()
    ensures Records(Stored(), Before()) && InRange(Stored(), 60) && LowestIs(Stored(), 60, -FAR)
  {
    forall c: int
      ensures TickAt(Stored(), c) == TickOf(Before(), c * 60)
    {
    }
    assert Initialized(Stored(), -5000);
  }

  lemma IsWrappedSwap(held: Amounts)
    ensures IsSwap(Pool(held), WrappedSwap())
  {
    LedgerInOrder();
    PriceAtZero();
    StorageInOrder();
    hide LedgerOk, OnLadder, Records, InRange, LowestIs, P, Stored;
  }

  // ---------------------------------------------------------------------- the swap

  /** With the target at the price itself a step stands still. */
  lemma StandsStill(liquidity: U128)
    requires liquidity > 0
    ensures Steps.ComputeSwapStep(Q96, Q96, liquidity, 1, 30, true, true) == Some(Steps.Step(Q96, 0, 0, 0))
  {
    Steps.MoveAmounts(Q96, Q96, liquidity, true);
    hide PriceMath.TryAmount0Delta, PriceMath.TryAmount1Delta, PriceMath.Amount0Delta, PriceMath.Amount1Delta;
  }

  lemma StopsAtOnce(target: U256)
    requires 0 < target < Q96
    ensures Steps.ExactInputStop(Q96, target, 1, 0, true) == Some(Q96)
  {
    Steps.MoveAmounts(Q96, target, 1, true);
    Steps.InputStop(Q96, target, 1, 0, true);
    hide PriceMath.TryAmount0Delta, PriceMath.TryAmount1Delta, PriceMath.Amount0Delta, PriceMath.Amount1Delta;
  }

  /** A single token pays for no move: it goes whole to the fee. */
  lemma SpentAsFee(target: U256)
    requires 0 < target < Q96
    ensures Steps.ComputeSwapStep(Q96, target, 1, 1, 30, true, true) == Some(Steps.Step(Q96, 0, 0, 1))
  {
    StopsAtOnce(target);
    Steps.MoveAmounts(Q96, Q96, 1, true);
    hide Steps.ExactInputStop, Steps.Input, Steps.Output;
  }

  /** The price has crossed tick 0 and left the narrow position behind. */
  function Crossed(): Cursor
  {
    var s := Before().(tick := -1, active := 1);
    Cursor(SwapState(Q96, -1, 1, 1, 0), s, Totals(0, 0, 0, 0, 1), Last(1001, 0, true), true)
  }

  /** The fee of one token has gone to the wide position. */
  function Charged(): Cursor
  {
    var s := Crossed().s.(growth := [TWO_128, 0], fees := [1, 0], positions := [BOTH.(grown := [TWO_128, 0]), UPPER]);
    Cursor(SwapState(Q96, -1, 1, 0, 0), s, Totals(0, 1, 0, 1, 2), Last(1, 0, true), false)
  }

  lemma TargetFrom(next: int)
    requires MIN_TICK <= next <= 0
    ensures var target := Target(next, MIN_SQRT_RATIO + 1, true);
      if next == 0 then target == Q96 == P(next) else 0 < target < Q96 && P(next) < Q96
  {
    PriceAtZero();
    Rises(next, 0);
    hide P;
  }

  lemma FirstRound(c: Cursor)
    requires c == Start(Before(), Q96, 1) && Ready(Stored(), c, DownWithFee())
    ensures Round(Stored(), c, DownWithFee()) == Some(Crossed())
  {
    var o := DownWithFee();
    hide Ready, Search.SearchAnswer, Steps.ComputeSwapStep, Steps.FeeCovers, PaidFor, P, Stored, Target, FairStep;
    RoundStep(Stored(), c, o);
    PriceAtZero();
    var (next, initialized) := Search.SearchAnswer(Stored(), c.w.tick, o.spacing, o.zeroForOne);
    assert IsInitialized(Before(), 0);
    assert next == 0 && initialized;
    TargetFrom(0);
    StandsStill(1001);
    NothingMoves();
    hide AfterStep;
  }

  lemma NothingMoves()
    ensures LpPart(0, 0) == 0 && AfterStep(Before(), 0, 0, true, true, -1) == Crossed().s
  {
    var s := Before();
    var s1 := AddFee(s, 0, 0);
    assert BOTH.grown[0 := 0] == BOTH.grown && UPPER.grown[0 := 0] == UPPER.grown;
    assert s1.positions == s.positions && s1.growth == s.growth && s1.fees == s.fees;
    assert s1 == s;
    assert s.ticks[0 := TickOf(s, 0)] == s.ticks;
  }

  lemma SecondRound()
    requires Ready(Stored(), Crossed(), DownWithFee())
    ensures Round(Stored(), Crossed(), DownWithFee()) == Some(Charged())
  {
    var c, o := Crossed(), DownWithFee();
    hide Ready, Search.SearchAnswer, Steps.ComputeSwapStep, Steps.FeeCovers, PaidFor, P, Stored, Target, FairStep;
    RoundStep(Stored(), c, o);
    var (next, initialized) := Search.SearchAnswer(Stored(), c.w.tick, o.spacing, o.zeroForOne);
    PriceAtZero();
    TargetFrom(next);
    SpentAsFee(Target(next, o.limit, true));
    FeeGoesToWide();
    hide AfterStep;
  }

  lemma FeeGoesToWide()
    ensures LpPart(1, 0) == 1 && forall next: int :: AfterStep(Crossed().s, 1, next, false, true, -1) == Charged().s
  {
    var s := Crossed().s;
    assert FeeGrowthDelta(1, 1) == TWO_128;
    assert BOTH.grown[0 := TWO_128] == [TWO_128, 0];
    assert AddFee(s, 0, 1).positions == Charged().s.positions;
    assert AddFee(s, 0, 1) == Charged().s;
  }

  lemma LoopOnce(c: Cursor, c': Cursor)
    requires Ready(Stored(), c, DownWithFee()) && !Over(c.w, -FAR, DownWithFee()) && Round(Stored(), c, DownWithFee()) == Some(c')
    ensures Ready(Stored(), c', DownWithFee()) && Loop(Stored(), -FAR, c, DownWithFee()) == Loop(Stored(), -FAR, c', DownWithFee())
  {
    hide Ready, Round, Stored;
    RoundGoesOn(Stored(), c, DownWithFee());
  }

  lemma LoopStops(c: Cursor)
    requires Ready(Stored(), c, DownWithFee()) && c.w.remaining == 0
    ensures Loop(Stored(), -FAR, c, DownWithFee()) == Some(c)
  {
    hide Ready, Round, Stored;
  }

  lemma WrappedLoopEnds(c: Cursor)
    requires c == Start(Before(), Q96, 1) && Ready(Stored(), c, DownWithFee())
    ensures Loop(Stored(), -FAR, c, DownWithFee()) == Some(Charged())
  {
    hide Ready, Round, Loop, Stored;
    FirstRound(c);
    LoopOnce(c, Crossed());
    SecondRound();
    LoopOnce(Crossed(), Charged());
    LoopStops(Charged());
  }

  /** The wrapped call is an exact input of one token, which is used up. */
  lemma WrappedSwapEnds(held: Amounts)
    ensures IsSwap(Pool(held), WrappedSwap()) && EndOf(Pool(held), WrappedSwap()) == Some(Charged())
  {
    IsWrappedSwap(held);
    hide Ready, Loop, Stored, MaySwap, IsBound, Before, Charged;
    StartReady(Stored(), Before(), Q96, 1, DownWithFee());
    WrappedLoopEnds(Start(Before(), Q96, 1));
    ChargedAll();
  }

  lemma ChargedAll()
    ensures Charged().w.remaining == 0
  {
  }

  // ------------------------------------------------------------------- what it leaves

  /** The surplus is credited at the rate of one unit of liquidity to a thousand and one. */
  function Overcredited(): Ledger
  {
    var s := Charged().s;
    s.(growth := [TWO_128 + SURPLUS * TWO_128, 0], fees := [SURPLUS + 1, 0],
       ticks := s.ticks[0 := TickData(SURPLUS * TWO_128, 0, 1000, 1000)],
       positions := [BOTH.(grown := [TWO_128 + SURPLUS * TWO_128, 0]), UPPER.(grown := [SURPLUS * TWO_128, 0])])
  }

  lemma SurplusSpreads()
    ensures Spread(Charged().s, 0, SURPLUS, Last(1, 0, true), true) == Overcredited()
    ensures !SpreadPays(Charged().s, SURPLUS, Last(1, 0, true), true) && !RatePays(Charged().s, Last(1, 0, true), false, true)
  {
    var s, last := Charged().s, Last(1, 0, true);
    assert FeeGrowthDelta(SURPLUS, 1) == SURPLUS * TWO_128;
    assert s.positions[0].grown[0 := TWO_128 + SURPLUS * TWO_128] == Overcredited().positions[0].grown;
    assert s.positions[1].grown[0 := 0 + SURPLUS * TWO_128] == Overcredited().positions[1].grown;
    assert Spread(s, 0, SURPLUS, last, true).positions == Overcredited().positions;
    assert Spread(s, 0, SURPLUS, last, true) == Overcredited();
    SumOfTwo(s.positions[0], s.positions[1], ActivePart(0));
  }

  function BooksAfter(held: Amounts): Books
  {
    var k := [held[0] + 1 + SURPLUS, held[1]];
    Books(Overcredited(), Q96, k, [[0, 0], [0, 0]], k, [0, 0])
  }

  /** The pool holds no more than the deposits brought. */
  predicate HoldsDeposits(held: Amounts)
  {
    held[0] <= 1001 && held[1] <= 1
  }

  lemma WrappedSwapDone(held: Amounts)
    requires HoldsDeposits(held)
    ensures IsSwap(Pool(held), WrappedSwap()) && Swapped(Pool(held), WrappedSwap()) == Done(BooksAfter(held))
    ensures !SurplusPays(Pool(held), WrappedSwap())
  {
    WrappedSwapEnds(held);
    SurplusSpreads();
    hide IsSwap, EndOf, Spread, SpreadPays, Overcredited, RatePays;
    var b, k := Pool(held), [held[0] + 1, held[1]];
    assert held[0 := held[0] + 1][1 := held[1]] == k;
    assert AfterSwap(b, Charged().s, Q96, true, Charged().t) == Books(Charged().s, Q96, k, b.owed, k, [0, 0]);
    assert SurplusOf(Charged(), WrappedSwap()) == SURPLUS == Unswapped(Charged(), WrappedSwap());
    assert k[0 := k[0] + SURPLUS] == BooksAfter(held).reserves;
  }

  lemma UpperIsOwed()
    ensures Accrue(Overcredited(), 1).Some?
    ensures Accrue(Overcredited(), 1).value.credited == [1000 * SURPLUS, 0]
  {
    var s, p := Overcredited(), Overcredited().positions[1];
    assert Inside(s, 0, FAR, 0) == SURPLUS * TWO_128 && Inside(s, 0, FAR, 1) == 0;
    assert Earned(s, p, 0) == Some(1000 * SURPLUS) && Earned(s, p, 1) == Some(0);
    hide Inside, Earned;
  }

  lemma UpperIsUnpaid(held: Amounts)
    requires HoldsDeposits(held)
    ensures Claimed(BooksAfter(held), 1, (U128_MAX, U128_MAX)).ShortOfReserves?
  {
    UpperIsOwed();
    hide Accrue;
  }

  // ---------------------------------------------------------------- how it gets there

  function Empty(): Books
  {
    Books(Ledger(60, map[], 0, [0, 0], 0, [], [0, 0], [0, 0]), Q96, [0, 0], [], [0, 0], [0, 0])
  }

  function Opening(): seq<Event>
  {
    [OpenPosition(-FAR, FAR), AddLiquidity(0, 1, 1, 1), OpenPosition(0, FAR), AddLiquidity(1, 1000, 0, 1000)]
  }

  /** A tick whose only multiplier is the last but one. */
  lemma RatioOfBit18()
    ensures RatioAfter(0x4_0000, 20) == 0x0002216e584f5fa1ea926041bedfe98
  {
    hide RatioAfter, Pow;
    RatioStart(0x4_0000);
    RatioRound(0x4_0000, 0, 0x1, TWO_128, TWO_128);
    RatioRound(0x4_0000, 1, 0x2, TWO_128, TWO_128);
    RatioRound(0x4_0000, 2, 0x4, TWO_128, TWO_128);
    RatioRound(0x4_0000, 3, 0x8, TWO_128, TWO_128);
    RatioRound(0x4_0000, 4, 0x10, TWO_128, TWO_128);
    RatioRound(0x4_0000, 5, 0x20, TWO_128, TWO_128);
    RatioRound(0x4_0000, 6, 0x40, TWO_128, TWO_128);
    RatioRound(0x4_0000, 7, 0x80, TWO_128, TWO_128);
    RatioRound(0x4_0000, 8, 0x100, TWO_128, TWO_128);
    RatioRound(0x4_0000, 9, 0x200, TWO_128, TWO_128);
    RatioRound(0x4_0000, 10, 0x400, TWO_128, TWO_128);
    RatioRound(0x4_0000, 11, 0x800, TWO_128, TWO_128);
    RatioRound(0x4_0000, 12, 0x1000, TWO_128, TWO_128);
    RatioRound(0x4_0000, 13, 0x2000, TWO_128, TWO_128);
    RatioRound(0x4_0000, 14, 0x4000, TWO_128, TWO_128);
    RatioRound(0x4_0000, 15, 0x8000, TWO_128, TWO_128);
    RatioRound(0x4_0000, 16, 0x10000, TWO_128, TWO_128);
    RatioRound(0x4_0000, 17, 0x20000, TWO_128, TWO_128);
    RatioRound(0x4_0000, 18, 0x4_0000, TWO_128, 0x0002216e584f5fa1ea926041bedfe98);
    RatioRound(0x4_0000, 19, 0x8_0000, 0x0002216e584f5fa1ea926041bedfe98, 0x0002216e584f5fa1ea926041bedfe98);
  }

  /** The outer ticks' prices are more than a thousandfold apart from one. */
  lemma FarPrices()
    ensures P(FAR) > 1001 * Q96 && 2 * P(-FAR) < Q96
  {
    RatioOfBit18();
    hide RatioAfter;
    assert SqrtRatioAtTick(0x4_0000) > 1001 * Q96 && 2 * SqrtRatioAtTick(-0x4_0000) < Q96;
    hide SqrtRatioAtTick;
    Rises(0x4_0000, FAR);
    Rises(-FAR, -0x4_0000);
  }

  /** Far above the price, token0 buys one unit of liquidity a token. */
  lemma BuysOneEach(sb: U256, desired: U128)
    requires 1001 * Q96 < sb < MAX_PRICE && 0 < desired <= 1000
    ensures Minting.LiquidityForAmount0(Q96, sb, desired) == Some(desired)
  {
    DivModUnique(Q96 * sb, Q96, sb, 0);
    DivModUnique(desired * sb, sb - Q96, desired, desired * Q96);
  }

  lemma Bought()
    ensures Minting.MaxLiquidity(Q96, P(-FAR), P(FAR), 1, 1) == Some(1)
    ensures Minting.MaxLiquidity(Q96, P(0), P(FAR), 1000, 0) == Some(1000)
  {
    FarPrices();
    PriceAtZero();
    Positive(-FAR);
    Positive(FAR);
    hide P;
    BuysOneEach(P(FAR), 1);
    BuysOneEach(P(FAR), 1000);
    DivModUnique(Q96, Q96 - P(-FAR), 1, P(-FAR));
    assert Minting.LiquidityForAmount1(P(-FAR), Q96, 1) == Some(1);
    hide Minting.LiquidityForAmount0, Minting.LiquidityForAmount1;
  }

  function OneDeposit(): Ledger
  {
    Ledger(60, map[-FAR := TickData(0, 0, 1, 1), FAR := TickData(0, 0, 1, -1)], 0, [0, 0], 1, [BOTH], [0, 0], [0, 0])
  }

  lemma CapOfSpacing60()
    ensures MaxLiquidityPerTick(60) >= 1001
  {
    assert UsableTicks(60) <= 0x10_0000;
    FloorGalois(1001, U128_MAX, UsableTicks(60));
  }

  lemma FirstDeposit()
    ensures var s := Empty().ledger.(positions := [BOTH.(liquidity := 0)]);
      Open(Empty().ledger, -FAR, FAR) == Some(s) && Deposit(s, 0, 1) == Some(OneDeposit())
  {
    var p := BOTH.(liquidity := 0);
    assert [] + [p] == [p];
    var s := Empty().ledger.(positions := [p]);
    CapOfSpacing60();
    hide MaxLiquidityPerTick;
    var changed := s.(ticks := OneDeposit().ticks);
    assert ChangeBounds(s, p, 1) == Some(changed);
    hide ChangeBounds;
    Runs.NothingToSettle(changed, 0);
    hide Accrue;
    assert changed.positions[0 := p.(liquidity := 1)] == OneDeposit().positions;
  }

  lemma SecondDeposit()
    ensures var s := OneDeposit().(positions := [BOTH, UPPER.(liquidity := 0)]);
      Open(OneDeposit(), 0, FAR) == Some(s) && Deposit(s, 1, 1000) == Some(Before())
  {
    var p := UPPER.(liquidity := 0);
    assert [BOTH] + [p] == [BOTH, p];
    var s := OneDeposit().(positions := [BOTH, p]);
    CapOfSpacing60();
    hide MaxLiquidityPerTick;
    var changed := s.(ticks := Before().ticks);
    var lower, upper := TickData(0, 0, 1000, 1000), TickData(0, 0, 1001, -1001);
    assert ChangeTick(s, 0, 1000, false) == Some(s.(ticks := s.ticks[0 := lower]));
    assert ChangeTick(s.(ticks := s.ticks[0 := lower]), FAR, 1000, true) == Some(s.(ticks := s.ticks[0 := lower][FAR := upper]));
    assert s.ticks[0 := lower][FAR := upper] == Before().ticks;
    assert ChangeBounds(s, p, 1000) == Some(changed);
    hide ChangeBounds;
    Runs.NothingToSettle(changed, 1);
    hide Accrue;
    assert changed.positions[1 := p.(liquidity := 1000)] == Before().positions;
  }

  // ------------------------------------------------------------------------ the run

  /** States that follow each other through the events of a run. */
  ghost predicate Follows(path: seq<Books>, events: seq<Event>)
  {
    && |path| == |events| + 1
    && forall i | 0 <= i < |events| :: Shaped(path[i]) && Outcome(path[i], events[i]) == Done(path[i + 1])
  }

  lemma {:induction false} RunOfPath(path: seq<Books>, events: seq<Event>)
    requires Follows(path, events) && Shaped(path[0])
    ensures Run(path[0], events) == path[|events|]
    decreases |events|
  {
    hide Outcome;
    if events != [] {
      ShapeStays(path[0], events[0]);
      assert Follows(path[1..], events[1..]);
      RunOfPath(path[1..], events[1..]);
    }
  }

  /** A deposit where nothing has been earned yet: reserves grow by no more than desired. */
  lemma PlainDeposit(b: Books, i: nat, desired: (U128, U128), bought: U128, s': Ledger) returns (held: Amounts)
    requires b.ledger.spacing > 0 && i < |b.ledger.positions| == |b.owed| && b.price == Q96 && b.reserves == b.balances
    requires var p := b.ledger.positions[i];
      && MIN_TICK <= p.lower < p.upper <= MAX_TICK
      && Minting.MaxLiquidity(Q96, P(p.lower), P(p.upper), desired.0, desired.1) == Some(bought)
    requires b.balances[0] <= 1 && b.balances[1] <= 1 && desired.0 <= 1000 && desired.1 <= 1000
    requires bought > 0 && Deposit(b.ledger, i, bought) == Some(s') && s'.credited == b.ledger.credited && b.owed[i] == [0, 0]
    ensures Deposited(b, i, desired.0, desired.1, bought) == Done(b.(ledger := s', reserves := held, balances := held))
    ensures held[0] <= b.reserves[0] + desired.0 && held[1] <= b.reserves[1] + desired.1
  {
    hide Minting.MaxLiquidity, Minting.AmountsForLiquidity, Deposit, P, PerUnit, Credit;
    var p := b.ledger.positions[i];
    ChargedCovers(Q96, p.lower, p.upper, desired.0, desired.1);
    CreditsNothing(b, i, s');
    var charged := Minting.AmountsForLiquidity(Q96, P(p.lower), P(p.upper), bought, true).value;
    held := [b.reserves[0] + LowerOf(charged.0, desired.0), b.reserves[1] + LowerOf(charged.1, desired.1)];
  }

  lemma CreditsNothing(b: Books, i: nat, s': Ledger)
    requires i < |b.owed| && s'.credited == b.ledger.credited && b.owed[i] == [0, 0]
    ensures Credit(b.owed, i, b.ledger, s') == b.owed
  {
  }

  function PlainBooks(s: Ledger, held: Amounts, owed: seq<Amounts>): Books
  {
    Books(s, Q96, held, owed, held, [0, 0])
  }

  lemma FirstPosition() returns (b: Books, held: Amounts)
    ensures |Opening()| == 4 && Shaped(Empty()) && Outcome(Empty(), Opening()[0]) == Done(b)
    ensures Shaped(b) && Outcome(b, Opening()[1]) == Done(PlainBooks(OneDeposit(), held, [[0, 0]])) && held[0] <= 1 && held[1] <= 1
  {
    FirstDeposit();
    Bought();
    hide Minting.MaxLiquidity, Deposit, P, Deposited;
    var s := Empty().ledger.(positions := [BOTH.(liquidity := 0)]);
    b := PlainBooks(s, [0, 0], [[0, 0]]);
    assert [] + [[0, 0]] == b.owed;
    held := PlainDeposit(b, 0, (1, 1), 1, OneDeposit());
  }

  lemma SecondPosition(held: Amounts) returns (b: Books, held': Amounts)
    requires held[0] <= 1 && held[1] <= 1
    ensures |Opening()| == 4 && Shaped(PlainBooks(OneDeposit(), held, [[0, 0]]))
    ensures Outcome(PlainBooks(OneDeposit(), held, [[0, 0]]), Opening()[2]) == Done(b)
    ensures Shaped(b) && Outcome(b, Opening()[3]) == Done(Pool(held')) && HoldsDeposits(held')
  {
    SecondDeposit();
    Bought();
    hide Minting.MaxLiquidity, Deposit, P, Deposited;
    var s := OneDeposit().(positions := [BOTH, UPPER.(liquidity := 0)]);
    b := PlainBooks(s, held, [[0, 0], [0, 0]]);
    assert [[0, 0]] + [[0, 0]] == b.owed;
    held' := PlainDeposit(b, 1, (1000, 0), 1000, Before());
  }

  /** The two deposits and the swap, from the empty pool on. */
  function WrappedRun(): seq<Event>
  {
    Opening() + [SwapTokens(WrappedSwap())]
  }

  lemma PoolIsShaped(held: Amounts)
    ensures Shaped(Pool(held))
  {
  }

  lemma SwapHappens(held: Amounts)
    requires HoldsDeposits(held)
    ensures Shaped(Pool(held)) && Outcome(Pool(held), SwapTokens(WrappedSwap())) == Done(BooksAfter(held))
  {
    hide *;
    PoolIsShaped(held);
    WrappedSwapDone(held);
    OutcomeOfSwap(Pool(held), WrappedSwap());
  }

  lemma WrappedRunEnds() returns (held: Amounts)
    ensures Shaped(Empty()) && Run(Empty(), WrappedRun()) == BooksAfter(held) && HoldsDeposits(held)
  {
    hide Outcome, Run, Opening, IsSwap, Shaped, Pool, BooksAfter, Empty, OneDeposit, PlainBooks, WrappedSwap;
    var b1, held1 := FirstPosition();
    var b3, held3 := SecondPosition(held1);
    held := held3;
    SwapHappens(held);
    var path := [Empty(), b1, PlainBooks(OneDeposit(), held1, [[0, 0]]), b3, Pool(held), BooksAfter(held)];
    RunOfPath(path, WrappedRun());
  }

  lemma PoolStartsEmpty()
    ensures IsEmptyPool(Empty())
  {
    PriceAtZero();
  }

  lemma UpperCannotClaim(held: Amounts)
    requires HoldsDeposits(held)
    ensures Shaped(BooksAfter(held)) && Outcome(BooksAfter(held), ClaimFees(1, (U128_MAX, U128_MAX))).ShortOfReserves?
  {
    UpperIsUnpaid(held);
    hide Claimed;
  }

  lemma AllPublic()
    ensures forall i | 0 <= i < |WrappedRun()| && WrappedRun()[i].SwapTokens? :: IsPublic(WrappedRun()[i].call, Wrapped())
  {
    WrappedIsPublic();
    hide IsPublic, WrappedSwap, Wrapped;
  }

  /** From an empty pool with spacing 60: two deposits and one public swap with the default limit,
      and the fees credited to the position above the price cannot be paid to its owner. */
  lemma WrappedCallBreaksSolvency()
    ensures IsEmptyPool(Empty()) && Empty().ledger.spacing == 60 && MAX_TICK % 60 != 0 && Shaped(Empty())
    ensures forall i | 0 <= i < |WrappedRun()| && WrappedRun()[i].SwapTokens? :: IsPublic(WrappedRun()[i].call, Wrapped())
    ensures var b := Run(Empty(), WrappedRun());
      && Shaped(b) && Outcome(b, ClaimFees(1, (U128_MAX, U128_MAX))).ShortOfReserves?
  {
    hide Run, IsEmptyPool, IsPublic, Outcome, Shaped, WrappedSwap, Wrapped, WrappedRun;
    PoolStartsEmpty();
    AllPublic();
    var held := WrappedRunEnds();
    UpperCannotClaim(held);
  }
}
