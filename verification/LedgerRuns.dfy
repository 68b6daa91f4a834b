/** Whole runs of the concentrated pool's ledger: solvency of swap fees, exactness of active
    liquidity (liquidity_pool_concentrated/src/contract/internal.rs, extensions.rs). */
module LedgerRuns {
  import opened Words
  import opened TickMath
  import opened ChunkStore
  import opened TickUpdate
  import opened FeeGrowth
  import opened LiquidityLedger
  import opened LedgerInvariants

  /** What can happen to the pool: fees paid by swaps, price moves across or between
      initialized ticks, unswapped input spread at the end of a swap, and liquidity coming and
      going. */
  datatype Event =
    | Fee(token: nat, amount: U128)
    | CrossTick(t: int, down: bool)
    | Move(tick: int)
    | Surplus(token: nat, amount: U128, last: Last, down: bool)
    | OpenPosition(lower: int, upper: int)
    | AddLiquidity(i: nat, amount: U128)
    | RemoveLiquidity(i: nat, amount: U128)
    | Collect(i: nat)

  /** The ledger after an event; one that panics, or cannot happen, leaves no result. */
  ghost function Outcome(s: Ledger, e: Event): Option<Ledger>
    requires s.spacing > 0
  {
    match e
    case Fee(k, amount) => if k < 2 then Some(AddFee(s, k, amount)) else None
    case CrossTick(t, down) => if NextTick(s, t, down) then Cross(s, t, down) else None
    case Move(tick) => if SameSide(s, tick) then Some(Moved(s, tick)) else None
    case Surplus(k, amount, last, down) => if k < 2 && AfterLast(s, last, down) then Some(Spread(s, k, amount, last, down)) else None
    case OpenPosition(lower, upper) => Open(s, lower, upper)
    case AddLiquidity(i, amount) => if i < |s.positions| then Deposit(s, i, amount) else None
    case RemoveLiquidity(i, amount) => if i < |s.positions| then Withdraw(s, i, amount) else None
    case Collect(i) => if i < |s.positions| then Accrue(s, i) else None
  }

  /** The last tick a swap crossed is still the last one when its surplus is spread. */
  ghost predicate AfterLast(s: Ledger, last: Last, down: bool)
  {
    last.crossed ==> JustCrossed(s, last.tick, down)
  }

  /** A surplus credits no more than itself; other events always pay for what they credit. */
  ghost predicate Pays(s: Ledger, e: Event)
  {
    match e
    case Surplus(k, amount, last, down) => AfterLast(s, last, down) ==> SpreadPays(s, amount, last, down)
    case _ => true
  }

  ghost function Apply(s: Ledger, e: Event): Ledger
    requires s.spacing > 0
  {
    var r := Outcome(s, e);
    if r.Some? then r.value else s
  }

  lemma SpacingStays(s: Ledger, e: Event)
    requires s.spacing > 0
    ensures Apply(s, e).spacing == s.spacing
    ensures forall k: nat | k < 2 :: Apply(s, e).fees[k] >= s.fees[k]
  {
    match e {
      case AddLiquidity(i, amount) =>
        if Outcome(s, e).Some? && ChangeBounds(s, s.positions[i], amount).Some? {
          TicksOnly(s, s.positions[i], amount);
        }
      case RemoveLiquidity(i, amount) =>
        if Outcome(s, e).Some? && Accrue(s, i).Some? {
          var s1 := Accrue(s, i).value;
          var p := s1.positions[i];
          var s2 := s1.(positions := s1.positions[i := p.(liquidity := SatU128(p.liquidity - amount))]);
          TicksOnly(s2, p, -(amount as int));
        }
      case _ =>
    }
    hide ChangeBounds, Earned, NextTick, SameSide;
  }

  lemma TicksOnly(s: Ledger, p: Position, delta: int)
    requires s.spacing > 0
    ensures var r := ChangeBounds(s, p, delta); r.Some? ==> r.value == s.(ticks := r.value.ticks)
  {
  }

  ghost function Run(s: Ledger, events: seq<Event>): Ledger
    requires s.spacing > 0
    decreases |events|
  {
    if events == [] then s
    else
      SpacingStays(s, events[0]);
      Run(Apply(s, events[0]), events[1..])
  }

  /** Every surplus of the run pays for itself when it is spread. */
  ghost predicate AllPay(s: Ledger, events: seq<Event>)
    requires s.spacing > 0
    decreases |events|
  {
    events == [] || (SpacingStays(s, events[0]); Pays(s, events[0]) && AllPay(Apply(s, events[0]), events[1..]))
  }

  /** A ledger before the first position. */
  ghost predicate IsEmpty(s: Ledger)
  {
    s.spacing > 0 && s.ticks == map[] && s.positions == [] && s.active == 0 && s.fees == [0, 0] && s.credited == [0, 0]
  }

  lemma EmptyIsOk(s: Ledger)
    requires IsEmpty(s)
    ensures LedgerOk(s)
  {
  }

  lemma StepKeeps(s: Ledger, e: Event)
    requires Pays(s, e) && LedgerOk(s)
    ensures LedgerOk(Apply(s, e))
  {
    if Outcome(s, e).Some? {
      match e {
        case Fee(k, amount) => AddFeeKeeps(s, k, amount);
        case CrossTick(t, down) => CrossKeeps(s, t, down);
        case Move(tick) => MoveKeeps(s, tick);
        case Surplus(k, amount, last, down) => SpreadKeeps(s, k, amount, last, down);
        case OpenPosition(lower, upper) => OpenKeeps(s, lower, upper);
        case AddLiquidity(i, amount) =>
          DepositNeeds(s, i, amount);
          DepositKeeps(s, i, amount);
        case RemoveLiquidity(i, amount) =>
          WithdrawNeeds(s, i, amount);
          WithdrawKeeps(s, i, amount);
        case Collect(i) => AccrueKeeps(s, i);
      }
    }
    hide LedgerOk;
  }

  lemma DepositNeeds(s: Ledger, i: nat, amount: U128)
    requires s.spacing > 0 && i < |s.positions| && Deposit(s, i, amount).Some?
    ensures amount <= I128_MAX && ChangeBounds(s, s.positions[i], amount).Some?
  {
    hide ChangeBounds, Accrue;
  }

  lemma WithdrawNeeds(s: Ledger, i: nat, amount: U128)
    requires s.spacing > 0 && i < |s.positions| && Withdraw(s, i, amount).Some?
    ensures amount <= I128_MAX && amount <= s.positions[i].liquidity
  {
    hide ChangeBounds, Earned;
  }

  /** Over every run whose surpluses pay for themselves, ticks, active liquidity and the books of
      both tokens stay right, however much is paid in fees and however often counters wrap. */
  lemma {:induction false} RunKeeps(s: Ledger, events: seq<Event>)
    requires LedgerOk(s) && AllPay(s, events)
    ensures LedgerOk(Run(s, events))
    decreases |events|
  {
    assert s.spacing > 0;
    hide LedgerOk, Apply;
    if events != [] {
      SpacingStays(s, events[0]);
      StepKeeps(s, events[0]);
      RunKeeps(Apply(s, events[0]), events[1..]);
    }
  }

  /** Fees credited to positions never exceed the fees paid, over any run from an empty pool,
      however ranges overlap, ticks are crossed and counters wrap. */
  lemma FeesCoverCredits(s: Ledger, events: seq<Event>, k: nat)
    requires IsEmpty(s) && AllPay(s, events) && k < 2
    ensures Run(s, events).credited[k] <= Run(s, events).fees[k]
  {
    EmptyIsOk(s);
    RunKeeps(s, events);
    var s' := Run(s, events);
    SumNonNegative(s'.positions, OwedPart(k));
    hide Run, Sum;
    assert Covered(s', k);
  }

  /** In every reachable state the pool's active liquidity is exactly the liquidity of the
      positions whose range holds the current tick, and a position is credited exactly its
      share of the growth that reached its range if and only if that share is below 2^256, which
      outstanding fees below 2^128 ensure; it is never credited more. */
  lemma ReachableIsExact(s: Ledger, events: seq<Event>, i: nat, k: nat)
    requires IsEmpty(s) && AllPay(s, events) && k < 2 && i < |Run(s, events).positions|
    ensures var s' := Run(s, events);
      var p, earned := s'.positions[i], Earned(s', s'.positions[i], k);
      && s'.active == Sum(s'.positions, ActivePart(s'.tick))
      && (earned == Some(p.grown[k] * p.liquidity / TWO_128) <==> p.grown[k] * p.liquidity < TWO_256)
      && (FewOutstanding(s') ==> p.grown[k] * p.liquidity < TWO_256)
      && (earned.Some? ==> earned.value <= p.grown[k] * p.liquidity / TWO_128)
  {
    EmptyIsOk(s);
    RunKeeps(s, events);
    var s' := Run(s, events);
    hide Run;
    assert Tracks(s', s'.positions[i], k) && Covered(s', k);
    EarnedIsTrue(s', i, k);
    OwedWithinFees(s', i, k);
    hide LedgerOk, Earned;
  }

  lemma BoundsGrowBelowCap(s: Ledger, p: Position, amount: U128)
    requires s.spacing > 0 && p.lower < p.upper && MaxLiquidityPerTick(s.spacing) <= I128_MAX
    requires TickOf(s, p.lower).net <= TickOf(s, p.lower).gross && 0 <= TickOf(s, p.lower).gross + TickOf(s, p.lower).net
    requires TickOf(s, p.upper).net <= TickOf(s, p.upper).gross && 0 <= TickOf(s, p.upper).gross + TickOf(s, p.upper).net
    ensures var cap := MaxLiquidityPerTick(s.spacing);
      ChangeBounds(s, p, amount).Some? <==> TickOf(s, p.lower).gross + amount <= cap && TickOf(s, p.upper).gross + amount <= cap
  {
    hide MaxLiquidityPerTick;
  }

  /** While outstanding fees are below 2^128 a deposit is refused only for its size: the checks on net liquidity
      never refuse what the cap on a tick admits. */
  lemma DepositRefusedOnlyAtCap(s: Ledger, i: nat, amount: U128)
    requires LedgerOk(s) && i < |s.positions| && FewOutstanding(s)
    ensures var p, cap := s.positions[i], MaxLiquidityPerTick(s.spacing);
      Deposit(s, i, amount).Some? <==>
        amount <= I128_MAX && TickOf(s, p.lower).gross + amount <= cap && TickOf(s, p.upper).gross + amount <= cap
  {
    var p := s.positions[i];
    CapIsSigned(p, s.spacing);
    NetWithinGross(s.positions, p.lower);
    NetWithinGross(s.positions, p.upper);
    assert TickOf(s, p.lower).gross == Sum(s.positions, GrossPart(p.lower));
    assert TickOf(s, p.upper).gross == Sum(s.positions, GrossPart(p.upper));
    BoundsGrowBelowCap(s, p, amount);
    hide Sum, MaxLiquidityPerTick, Accrue, TicksAreSums, ChangeBounds;
    if amount <= I128_MAX && ChangeBounds(s, p, amount).Some? {
      DepositKeeps(s, i, amount);
    }
  }

  // ------------------------------------------------------- a surplus that overpays

  /** Two positions, one over the whole range with liquidity 1 and one above tick 0 with
      liquidity 1000, after the price has fallen through tick 0. */
  function TwoPositions(): Ledger
  {
    var wide, narrow := Position(MIN_TICK, MAX_TICK, 1, [0, 0], [0, 0]), Position(0, 10, 1000, [0, 0], [0, 0]);
    var ticks := map[
      MIN_TICK := TickData(0, 0, 1, 1), MAX_TICK := TickData(0, 0, 1, -1),
      0 := TickData(0, 0, 1000, 1000), 10 := TickData(0, 0, 1000, -1000)];
    Ledger(1, ticks, -1, [0, 0], 1, [wide, narrow], [0, 0], [0, 0])
  }

  lemma TwoPositionsOk()
    ensures LedgerOk(TwoPositions()) && LastOk(TwoPositions(), Last(1, 0, true), false, true)
    ensures !RatePays(TwoPositions(), Last(1, 0, true), false, true)
  {
    var s := TwoPositions();
    TicksOfTwo();
    SumOfTwo(ActivePart(-1));
    SumOfTwo(ActivePart(0));
    SumOfTwo(OwedPart(0));
    SumOfTwo(OwedPart(1));
    hide Sum, TicksAreSums, MaxLiquidityPerTick;
    TwoTracked();
    assert PositionsLegal(s) && ActiveIsSum(s);
    hide CountersTrack;
    assert Covered(s, 0) && Covered(s, 1);
    assert JustCrossed(s, 0, true);
  }

  lemma TwoTracked()
    ensures CountersTrack(TwoPositions(), 0) && CountersTrack(TwoPositions(), 1)
  {
    var s := TwoPositions();
    forall k: nat, i | k < 2 && 0 <= i < 2
      ensures Tracks(s, s.positions[i], k)
    {
      var p := s.positions[i];
      NoGrowthInside(p.lower, p.upper, s.tick);
      hide GrowthInside;
      assert s.growth[k] == 0 && Outside(TickOf(s, p.lower), k) == 0 && Outside(TickOf(s, p.upper), k) == 0;
      assert p.last[k] == 0 && p.grown[k] == 0 && Inside(s, p.lower, p.upper, k) == 0;
    }
  }

  lemma NoGrowthInside(lower: int, upper: int, tick: int)
    ensures GrowthInside(0, 0, 0, lower, upper, tick) == 0
  {
  }

  lemma SumOfTwo(f: Position -> int)
    ensures var ps := TwoPositions().positions; Sum(ps, f) == f(ps[0]) + f(ps[1])
  {
    var ps := TwoPositions().positions;
    assert ps[..1] == [ps[0]] && ps[..1][..0] == [];
    assert Sum(ps[..1], f) == f(ps[0]);
  }

  lemma TicksOfTwo()
    ensures TicksAreSums(TwoPositions())
  {
    var s := TwoPositions();
    CapOfSpacingOne();
    hide Sum, MaxLiquidityPerTick;
    forall t: int
      ensures TickOf(s, t).gross == Sum(s.positions, GrossPart(t)) <= MaxLiquidityPerTick(s.spacing)
      ensures TickOf(s, t).net == Sum(s.positions, NetPart(t))
    {
      SumOfTwo(GrossPart(t));
      SumOfTwo(NetPart(t));
    }
  }

  lemma CapOfSpacingOne()
    ensures MaxLiquidityPerTick(1) >= 1000
  {
    assert UsableTicks(1) <= 0x20_0000;
    FloorGalois(1000, U128_MAX, UsableTicks(1));
  }

  /** An unswapped input of 1000000 spread there credits it in full to the wide position, and a
      thousand times as much to the narrow one, which the price has left. */
  lemma SurplusOverpays()
    ensures var s := Spread(TwoPositions(), 0, 1_000_000, Last(1, 0, true), true);
      && Earned(s, s.positions[0], 0) == Some(1_000_000)
      && Earned(s, s.positions[1], 0) == Some(1_000_000_000)
  {
    var s := Spread(TwoPositions(), 0, 1_000_000, Last(1, 0, true), true);
    var delta := 1_000_000 * TWO_128;
    assert FeeGrowthDelta(1_000_000, 1) == delta;
    assert Inside(s, MIN_TICK, MAX_TICK, 0) == delta && Inside(s, 0, 10, 0) == delta;
  }

  /** How a pool of spacing 1 gets there: two deposits at tick 0 and a swap down through it. */
  function Opening(): seq<Event>
  {
    [OpenPosition(MIN_TICK, MAX_TICK), AddLiquidity(0, 1), OpenPosition(0, 10), AddLiquidity(1, 1000), CrossTick(0, true)]
  }

  function EmptyAtZero(): Ledger
  {
    Ledger(1, map[], 0, [0, 0], 0, [], [0, 0], [0, 0])
  }

  function OneWide(): Ledger
  {
    var ticks := map[MIN_TICK := TickData(0, 0, 1, 1), MAX_TICK := TickData(0, 0, 1, -1)];
    Ledger(1, ticks, 0, [0, 0], 1, [Position(MIN_TICK, MAX_TICK, 1, [0, 0], [0, 0])], [0, 0], [0, 0])
  }

  function WideAndNarrow(): Ledger
  {
    TwoPositions().(tick := 0, active := 1001)
  }

  /** Settling in a pool without fees changes nothing. */
  lemma NothingToSettle(s: Ledger, i: nat)
    requires i < |s.positions| && s.growth == [0, 0] && s.positions[i].last == [0, 0] && s.positions[i].grown == [0, 0]
    requires forall t: int :: TickOf(s, t).feeOutside0 == 0 && TickOf(s, t).feeOutside1 == 0
    ensures Accrue(s, i) == Some(s)
  {
    var p := s.positions[i];
    assert Inside(s, p.lower, p.upper, 0) == 0 && Inside(s, p.lower, p.upper, 1) == 0;
    assert Earned(s, p, 0) == Some(0) && Earned(s, p, 1) == Some(0);
    hide Earned, Inside;
    assert p.(last := [0, 0], grown := [0, 0]) == p;
    assert s.positions[i := p] == s.positions;
    assert [s.credited[0] + 0, s.credited[1] + 0] == s.credited;
  }

  lemma FirstDeposit()
    ensures var s := EmptyAtZero().(positions := [Position(MIN_TICK, MAX_TICK, 0, [0, 0], [0, 0])]);
      Open(EmptyAtZero(), MIN_TICK, MAX_TICK) == Some(s) && Deposit(s, 0, 1) == Some(OneWide())
  {
    var p := Position(MIN_TICK, MAX_TICK, 0, [0, 0], [0, 0]);
    assert [] + [p] == [p];
    var s := EmptyAtZero().(positions := [p]);
    CapOfSpacingOne();
    hide MaxLiquidityPerTick;
    var changed := s.(ticks := OneWide().ticks);
    assert ChangeBounds(s, p, 1) == Some(changed);
    hide ChangeBounds;
    NothingToSettle(changed, 0);
    hide Accrue;
    assert changed.positions[0 := p.(liquidity := 1)] == OneWide().positions;
  }

  lemma SecondDeposit()
    ensures var s := OneWide().(positions := OneWide().positions + [Position(0, 10, 0, [0, 0], [0, 0])]);
      Open(OneWide(), 0, 10) == Some(s) && Deposit(s, 1, 1000) == Some(WideAndNarrow())
  {
    var p := Position(0, 10, 0, [0, 0], [0, 0]);
    var s := OneWide().(positions := OneWide().positions + [p]);
    CapOfSpacingOne();
    hide MaxLiquidityPerTick;
    var changed := s.(ticks := WideAndNarrow().ticks);
    assert ChangeBounds(s, p, 1000) == Some(changed);
    hide ChangeBounds;
    NothingToSettle(changed, 1);
    hide Accrue;
    assert changed.positions[1 := p.(liquidity := 1000)] == WideAndNarrow().positions;
  }

  lemma SwapDown()
    ensures NextTick(WideAndNarrow(), 0, true) && Cross(WideAndNarrow(), 0, true) == Some(TwoPositions())
  {
    var s := WideAndNarrow();
    assert s.ticks[0 := TickOf(s, 0)] == s.ticks;
  }

  /** Settling one position credits it what it has earned. */
  lemma CreditIs(s: Ledger, i: nat, e0: U128, e1: U128)
    requires i < |s.positions| && Earned(s, s.positions[i], 0) == Some(e0) && Earned(s, s.positions[i], 1) == Some(e1)
    ensures Accrue(s, i).Some?
    ensures var s' := Accrue(s, i).value;
      && s'.credited == [s.credited[0] + e0, s.credited[1] + e1] && s'.fees == s.fees && s'.spacing == s.spacing
      && |s'.positions| == |s.positions|
      && forall j: nat, k: nat | j < |s.positions| && j != i && k < 2 ::
           s'.positions[j] == s.positions[j] && Earned(s', s.positions[j], k) == Earned(s, s.positions[j], k)
  {
    hide MulDivFeeGrowth, GrowthInside;
  }

  lemma RunOne(s: Ledger, e: Event, rest: seq<Event>, s': Ledger)
    requires s.spacing > 0 && Outcome(s, e) == Some(s')
    ensures s'.spacing > 0 && Run(s, [e] + rest) == Run(s', rest)
  {
    SpacingStays(s, e);
    assert ([e] + rest)[1..] == rest;
    hide Outcome;
  }

  /** Two events in a row. */
  lemma RunTwo(s: Ledger, e: Event, e': Event, rest: seq<Event>, s1: Ledger, s2: Ledger)
    requires s.spacing > 0 && Outcome(s, e) == Some(s1) && s1.spacing > 0 && Outcome(s1, e') == Some(s2)
    ensures s2.spacing > 0 && Run(s, [e, e'] + rest) == Run(s2, rest)
  {
    hide Outcome, Run;
    RunOne(s, e, [e'] + rest, s1);
    RunOne(s1, e', rest, s2);
    assert [e] + ([e'] + rest) == [e, e'] + rest;
  }

  lemma OpeningRuns(rest: seq<Event>)
    ensures EmptyAtZero().spacing > 0 && TwoPositions().spacing > 0
    ensures Run(EmptyAtZero(), Opening() + rest) == Run(TwoPositions(), rest)
  {
    hide *;
    var s1, s3 := OpeningSteps();
    var o := Opening();
    OpeningIs(rest);
    RunTwo(EmptyAtZero(), o[0], o[1], [o[2], o[3]] + ([o[4]] + rest), s1, OneWide());
    RunTwo(OneWide(), o[2], o[3], [o[4]] + rest, s3, WideAndNarrow());
    RunOne(WideAndNarrow(), o[4], rest, TwoPositions());
  }

  lemma OpeningIs(rest: seq<Event>)
    ensures var o := Opening();
      |o| == 5 && o + rest == [o[0], o[1]] + ([o[2], o[3]] + ([o[4]] + rest))
  {
  }

  lemma OpeningSteps() returns (s1: Ledger, s3: Ledger)
    ensures |Opening()| == 5
    ensures var o, e := Opening(), EmptyAtZero();
      && e.spacing > 0 && Outcome(e, o[0]) == Some(s1)
      && s1.spacing > 0 && Outcome(s1, o[1]) == Some(OneWide())
      && OneWide().spacing > 0 && Outcome(OneWide(), o[2]) == Some(s3)
      && s3.spacing > 0 && Outcome(s3, o[3]) == Some(WideAndNarrow())
      && WideAndNarrow().spacing > 0 && Outcome(WideAndNarrow(), o[4]) == Some(TwoPositions())
  {
    FirstDeposit();
    SecondDeposit();
    SwapDown();
    hide Deposit, Cross, NextTick;
    s1, s3 := Open(EmptyAtZero(), MIN_TICK, MAX_TICK).value, Open(OneWide(), 0, 10).value;
  }

  lemma Settlements() returns (s1: Ledger, s2: Ledger, s3: Ledger)
    ensures s1 == Spread(TwoPositions(), 0, 1_000_000, Last(1, 0, true), true) && AfterLast(TwoPositions(), Last(1, 0, true), true)
    ensures |s1.positions| == 2 && Accrue(s1, 0) == Some(s2) && |s2.positions| == 2 && Accrue(s2, 1) == Some(s3)
    ensures TwoPositions().spacing > 0 && s1.spacing > 0 && s2.spacing > 0 && s3.spacing > 0
    ensures s3.fees == [1_000_000, 0] && s3.credited == [1_001_000_000, 0]
  {
    SurplusOverpays();
    NothingElseEarned();
    assert AfterLast(TwoPositions(), Last(1, 0, true), true);
    s1 := Spread(TwoPositions(), 0, 1_000_000, Last(1, 0, true), true);
    assert s1.fees == [1_000_000, 0] && s1.credited == [0, 0] && |s1.positions| == 2 && s1.spacing == 1;
    hide Spread, Earned, AfterLast, Accrue;
    CreditIs(s1, 0, 1_000_000, 0);
    s2 := Accrue(s1, 0).value;
    CreditIs(s2, 1, 1_000_000_000, 0);
    s3 := Accrue(s2, 1).value;
  }

  /** From an empty pool: a run whose one surplus credits positions with more than a thousand
      times what was paid. */
  lemma RunOvercredits()
    ensures IsEmpty(EmptyAtZero())
    ensures var s := Run(EmptyAtZero(), Opening() + [Surplus(0, 1_000_000, Last(1, 0, true), true), Collect(0), Collect(1)]);
      s.fees == [1_000_000, 0] && s.credited == [1_001_000_000, 0]
  {
    var surplus: Event := Surplus(0, 1_000_000, Last(1, 0, true), true);
    var end := [surplus, Collect(0), Collect(1)];
    assert IsEmpty(EmptyAtZero());
    hide Run, Accrue, Spread, Earned, AfterLast, TwoPositions, EmptyAtZero, Opening;
    OpeningRuns(end);
    var s1, s2, s3 := Settlements();
    RunTwo(TwoPositions(), end[0], end[1], [end[2]] + [], s1, s2);
    RunOne(s2, end[2], [], s3);
    RunNone(s3);
    assert end == [end[0], end[1]] + ([end[2]] + []);
  }

  lemma RunNone(s: Ledger)
    requires s.spacing > 0
    ensures Run(s, []) == s
  {
  }

  lemma NothingElseEarned()
    ensures var s := Spread(TwoPositions(), 0, 1_000_000, Last(1, 0, true), true);
      Earned(s, s.positions[0], 1) == Some(0) && Earned(s, s.positions[1], 1) == Some(0)
  {
  }

  // -------------------------------------------------------- a counter that wraps

  const HALF: U128 := 0x80000000_00000000_00000000_00000000

  /** One unit of liquidity over the whole range, and twice a fee of 2^127 that is collected. */
  function Wrapping(): seq<Event>
  {
    [OpenPosition(MIN_TICK, MAX_TICK), AddLiquidity(0, 1), Fee(0, HALF), Collect(0), Fee(0, HALF), Collect(0)]
  }

  function Wide(last: U256, grown: nat): Position
  {
    Position(MIN_TICK, MAX_TICK, 1, [last, 0], [grown, 0])
  }

  /** The pool of one position between its fees. */
  function Paid(growth: U256, fees: nat, credited: nat, p: Position): Ledger
  {
    OneWide().(growth := [growth, 0], fees := [fees, 0], credited := [credited, 0], positions := [p])
  }

  const TOP: U256 := 0x80000000_00000000_00000000_00000000_00000000_00000000_00000000_00000000

  lemma FeeGrows(growth: U256, fees: nat, credited: nat, last: U256, growth': U256)
    requires growth' == WrapAdd(growth, TOP)
    ensures AddFee(Paid(growth, fees, credited, Wide(last, 0)), 0, HALF) == Paid(growth', fees + HALF, credited, Wide(last, TOP))
  {
    var s, s' := Paid(growth, fees, credited, Wide(last, 0)), Paid(growth', fees + HALF, credited, Wide(last, TOP));
    assert FeeGrowthDelta(HALF, 1) == TOP;
    assert [0, 0][0 := TOP] == [TOP, 0] && [growth, 0][0 := growth'] == [growth', 0] && [fees, 0][0 := fees + HALF] == [fees + HALF, 0];
    assert AddFee(s, 0, HALF).positions == s'.positions;
  }

  lemma FeeCollected(growth: U256, fees: nat, credited: nat, last: U256)
    requires WrapSub(growth, last) == TOP
    ensures Accrue(Paid(growth, fees, credited, Wide(last, TOP)), 0) == Some(Paid(growth, fees, credited + HALF, Wide(growth, 0)))
  {
    var s := Paid(growth, fees, credited, Wide(last, TOP));
    var p := s.positions[0];
    assert Inside(s, MIN_TICK, MAX_TICK, 0) == growth && Inside(s, MIN_TICK, MAX_TICK, 1) == 0;
    assert Earned(s, p, 0) == Some(HALF) && Earned(s, p, 1) == Some(0);
    hide Earned, Inside;
    var seen: Counters := [growth, 0];
    assert p.(last := seen, grown := [0, 0]) == Wide(growth, 0);
    assert s.positions[0 := Wide(growth, 0)] == [Wide(growth, 0)];
    assert [s.credited[0] + HALF, s.credited[1] + 0] == [credited + HALF, 0];
  }

  lemma WrappingSteps() returns (s1: Ledger)
    ensures var e, empty := Wrapping(), EmptyAtZero();
      var a, b, c, d := Paid(TOP, HALF, 0, Wide(0, TOP)), Paid(TOP, HALF, HALF, Wide(TOP, 0)),
                        Paid(0, TWO_128, HALF, Wide(TOP, TOP)), Paid(0, TWO_128, TWO_128, Wide(0, 0));
      && |e| == 6 && empty.spacing > 0 && Outcome(empty, e[0]) == Some(s1)
      && s1.spacing > 0 && Outcome(s1, e[1]) == Some(OneWide())
      && OneWide().spacing > 0 && Outcome(OneWide(), e[2]) == Some(a)
      && a.spacing > 0 && Outcome(a, e[3]) == Some(b)
      && b.spacing > 0 && Outcome(b, e[4]) == Some(c)
      && c.spacing > 0 && Outcome(c, e[5]) == Some(d) && d.spacing > 0
  {
    hide Deposit, AddFee, Accrue, OneWide, Paid;
    FirstDeposit();
    s1 := Open(EmptyAtZero(), MIN_TICK, MAX_TICK).value;
    StartsPaid();
    FeeGrows(0, 0, 0, 0, TOP);
    FeeCollected(TOP, HALF, 0, 0);
    FeeGrows(TOP, HALF, HALF, TOP, 0);
    FeeCollected(0, TWO_128, HALF, TOP);
    PaidOnce();
  }

  lemma StartsPaid()
    ensures Paid(0, 0, 0, Wide(0, 0)) == OneWide()
  {
  }

  lemma PaidOnce()
    ensures forall growth: U256, fees: nat, credited: nat, p: Position ::
      |Paid(growth, fees, credited, p).positions| == 1 && Paid(growth, fees, credited, p).spacing > 0
  {
  }

  /** Ledgers that follow each other through the events of a run without surpluses. */
  ghost predicate Follows(path: seq<Ledger>, events: seq<Event>)
  {
    && |path| == |events| + 1
    && forall i | 0 <= i < |events| :: path[i].spacing > 0 && Outcome(path[i], events[i]) == Some(path[i + 1]) && !events[i].Surplus?
  }

  lemma {:induction false} RunOfPath(path: seq<Ledger>, events: seq<Event>)
    requires Follows(path, events) && path[0].spacing > 0
    ensures Run(path[0], events) == path[|events|] && AllPay(path[0], events)
    decreases |events|
  {
    hide Outcome;
    if events != [] {
      SpacingStays(path[0], events[0]);
      assert Follows(path[1..], events[1..]);
      RunOfPath(path[1..], events[1..]);
    }
  }

  /** From an empty pool with both counters at zero: the global counter passes 2^256 and is zero
      again, and the position is credited exactly all that was paid. */
  lemma RunWraps()
    ensures IsEmpty(EmptyAtZero()) && EmptyAtZero().growth == [0, 0] && |Wrapping()| == 6 && AllPay(EmptyAtZero(), Wrapping())
    ensures var s, before := Run(EmptyAtZero(), Wrapping()), Run(EmptyAtZero(), Wrapping()[..4]);
      before.growth[0] == TOP && s.growth[0] == 0 && s.fees == [TWO_128, 0] && s.credited == [TWO_128, 0]
  {
    EmptyIs();
    hide Outcome, Run, Wrapping, EmptyAtZero, AllPay;
    var s1 := WrappingSteps();
    var path := [EmptyAtZero(), s1, OneWide(), Paid(TOP, HALF, 0, Wide(0, TOP)), Paid(TOP, HALF, HALF, Wide(TOP, 0)),
                 Paid(0, TWO_128, HALF, Wide(TOP, TOP)), Paid(0, TWO_128, TWO_128, Wide(0, 0))];
    NoSurpluses();
    RunOfPath(path, Wrapping());
    RunOfPath(path[..5], Wrapping()[..4]);
  }

  lemma EmptyIs()
    ensures IsEmpty(EmptyAtZero()) && EmptyAtZero().growth == [0, 0] && |Wrapping()| == 6
  {
  }

  lemma NoSurpluses()
    ensures forall i | 0 <= i < |Wrapping()| :: !Wrapping()[i].Surplus?
  {
  }
}
