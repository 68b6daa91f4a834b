/** Storage of the concentrated pool against its ledger: what changes of ticks, positions and
    counters write (liquidity_pool_concentrated/src/contract/internal.rs, extensions.rs). */
module StoredLedger {
  import opened Words
  import opened TickAccuracy
  import opened Bitmap
  import opened ChunkStore
  import opened TickIndex
  import opened TickMaintenance
  import opened TickUpdate
  import opened FeeGrowth
  import opened LiquidityLedger
  import opened PositionWorth
  import opened SwapRounds
  import opened SwapLoop
  import opened Solvency
  import Runs = LedgerRuns
  import Steps = SwapStep

  /** A position in storage: what the ledger says of it, without the history, and its unpaid fees. */
  datatype StoredPosition = StoredPosition(lower: int, upper: int, liquidity: U128, last: Counters, owed: Amounts)

  function StoredOne(p: Position, owed: Amounts): StoredPosition
  {
    StoredPosition(p.lower, p.upper, p.liquidity, p.last, owed)
  }

  function StoredAll(ps: seq<Position>, owed: seq<Amounts>): (r: seq<StoredPosition>)
    requires |ps| == |owed|
    ensures |r| == |ps|
  {
    seq(|ps|, i requires 0 <= i < |ps| => StoredOne(ps[i], owed[i]))
  }

  // ----------------------------------------------------------------------- ticks

  /** What an update of one tick in storage means for the ledger. */
  lemma TickMirrored(before: map<int, Chunk>, after: map<int, Chunk>, s: Ledger, t: int, delta: int, isUpper: bool)
    requires s.spacing > 0 && Mirrors(before, s) && t % s.spacing == 0
    requires var updated := UpdatedTick(TickAt(before, t / s.spacing), t, delta, isUpper, s.spacing, Globals(s.tick, s.growth[0], s.growth[1]));
      && updated.Some?
      && forall k: int :: TickAt(after, k) == if k == t / s.spacing then updated.value else TickAt(before, k)
    ensures var changed := ChangeTick(s, t, delta, isUpper); changed.Some? && Mirrors(after, changed.value)
  {
    QuotientIs(t / s.spacing, t, s.spacing);
    assert TickAt(before, t / s.spacing) == TickOf(s, t);
    hide UpdatedTick, TickAt;
    forall c: int
      ensures TickAt(after, c) == TickOf(ChangeTick(s, t, delta, isUpper).value, c * s.spacing)
    {
      QuotientIs(c, t, s.spacing);
    }
  }

  lemma QuotientIs(c: int, t: int, spacing: int)
    requires spacing > 0 && t % spacing == 0
    ensures c * spacing == t <==> c == t / spacing
  {
    Remainder(t, spacing);
    if c * spacing == t {
      DivModUnique(t, spacing, c, 0);
    }
  }

  /** One tick of storage changes as the ledger's does. */
  method ChangeStoredTick(store: TickStorage, t: int, delta: int, isUpper: bool, spacing: int, g: Globals, ghost s: Ledger)
    returns (ok: bool)
    requires TicksOk(store, spacing) && Mirrors(store.chunks, s) && s.spacing == spacing && LegalTick(t, spacing)
    requires g == Globals(s.tick, s.growth[0], s.growth[1])
    modifies store
    ensures TicksOk(store, spacing) && (ok <==> ChangeTick(s, t, delta, isUpper).Some?)
    ensures if ok then Mirrors(store.chunks, ChangeTick(s, t, delta, isUpper).value) else unchanged(store)
  {
    ghost var before := store.chunks;
    Remainder(t, spacing);
    assert TickAt(before, t / spacing) == TickOf(s, t);
    hide IndexOk, LowestIs, HighestIs, UpdatedTick, TickAt, TickOf, Mirrors;
    ok := UpdateTickLiquidity(store, t, delta, isUpper, spacing, g);
    if ok {
      TickMirrored(before, store.chunks, s, t, delta, isUpper);
    }
  }

  /** Everything a failed call may have written to tick storage. */
  datatype TickSnapshot = TickSnapshot(chunks: map<int, Chunk>, chunkBitmap: map<int, Word>, wordBitmap: map<int, Word>, low: int, high: int)

  function Snapshot(store: TickStorage): TickSnapshot
    reads store
  {
    TickSnapshot(store.chunks, store.chunkBitmap, store.wordBitmap, store.minInitTick, store.maxInitTick)
  }

  /** A panic undoes what the call has written. */
  method Restore(store: TickStorage, saved: TickSnapshot)
    modifies store
    ensures Snapshot(store) == saved
  {
    store.chunks, store.chunkBitmap, store.wordBitmap := saved.chunks, saved.chunkBitmap, saved.wordBitmap;
    store.minInitTick, store.maxInitTick := saved.low, saved.high;
  }

  lemma ChangeTickKeeps(s: Ledger, t: int, delta: int, isUpper: bool)
    requires s.spacing > 0 && ChangeTick(s, t, delta, isUpper).Some?
    ensures var s' := ChangeTick(s, t, delta, isUpper).value;
      s' == s.(ticks := s'.ticks)
  {
  }

  /** Both ends of a position change, or neither. */
  method ChangeStoredBounds(store: TickStorage, lower: int, upper: int, delta: int, spacing: int, g: Globals, ghost s: Ledger, ghost p: Position)
    returns (ok: bool)
    requires TicksOk(store, spacing) && Mirrors(store.chunks, s) && s.spacing == spacing
    requires LegalTick(lower, spacing) && LegalTick(upper, spacing) && p.lower == lower && p.upper == upper
    requires g == Globals(s.tick, s.growth[0], s.growth[1])
    modifies store
    ensures ok <==> ChangeBounds(s, p, delta).Some?
    ensures if ok then TicksOk(store, spacing) && Mirrors(store.chunks, ChangeBounds(s, p, delta).value)
      else Snapshot(store) == old(Snapshot(store))
  {
    hide TicksOk, Mirrors, ChangeTick;
    var saved := Snapshot(store);
    ok := ChangeStoredTick(store, lower, delta, false, spacing, g, s);
    if ok {
      ghost var s1 := ChangeTick(s, lower, delta, false).value;
      ChangeTickKeeps(s, lower, delta, false);
      ok := ChangeStoredTick(store, upper, delta, true, spacing, g, s1);
      if !ok {
        Restore(store, saved);
      }
    }
  }

  // ------------------------------------------------------------------------ fees

  /** `compute_fee_growth_inside` reads the ticks of storage. */
  method StoredInside(store: TickStorage, lower: int, upper: int, spacing: int, tick: int, growth: Counters, ghost s: Ledger)
    returns (inside: Counters)
    requires Mirrors(store.chunks, s) && s.spacing == spacing && LegalTick(lower, spacing) && LegalTick(upper, spacing)
    requires tick == s.tick && growth == s.growth
    ensures inside == [Inside(s, lower, upper, 0), Inside(s, lower, upper, 1)]
  {
    Remainder(lower, spacing);
    Remainder(upper, spacing);
    var a, b := TickAt(store.chunks, lower / spacing), TickAt(store.chunks, upper / spacing);
    assert a == TickOf(s, lower) && b == TickOf(s, upper);
    hide TickAt, TickOf, GrowthInside;
    inside := [GrowthInside(growth[0], a.feeOutside0, b.feeOutside0, lower, upper, tick),
               GrowthInside(growth[1], a.feeOutside1, b.feeOutside1, lower, upper, tick)];
  }

  /** `accrue_position_fees`; None is a panic. */
  method AccrueStored(store: TickStorage, p: StoredPosition, spacing: int, tick: int, growth: Counters,
                      ghost s: Ledger, ghost owed: seq<Amounts>, ghost i: nat)
    returns (r: Option<StoredPosition>)
    requires Mirrors(store.chunks, s) && s.spacing == spacing && tick == s.tick && growth == s.growth
    requires i < |s.positions| == |owed| && p == StoredOne(s.positions[i], owed[i])
    requires LegalTick(p.lower, spacing) && LegalTick(p.upper, spacing)
    ensures r.Some? <==> Accrue(s, i).Some?
    ensures r.Some? ==> var s' := Accrue(s, i).value; r.value == StoredOne(s'.positions[i], Credit(owed, i, s, s')[i])
  {
    hide Mirrors, Inside;
    var inside := StoredInside(store, p.lower, p.upper, spacing, tick, growth, s);
    var earned0 := MulDivFeeGrowth(WrapSub(inside[0], p.last[0]), p.liquidity);
    var earned1 := MulDivFeeGrowth(WrapSub(inside[1], p.last[1]), p.liquidity);
    assert earned0 == Earned(s, s.positions[i], 0) && earned1 == Earned(s, s.positions[i], 1);
    hide Earned;
    if earned0.None? || earned1.None? {
      return None;
    }
    return Some(p.(last := inside, owed := [SatU128(p.owed[0] + earned0.value), SatU128(p.owed[1] + earned1.value)]));
  }

  // ------------------------------------------------------------------- positions

  lemma StoredUpdate(ps: seq<Position>, owed: seq<Amounts>, i: nat, p: Position, a: Amounts)
    requires i < |ps| == |owed|
    ensures StoredAll(ps[i := p], owed[i := a]) == StoredAll(ps, owed)[i := StoredOne(p, a)]
  {
  }

  lemma StoredAt(ps: seq<Position>, owed: seq<Amounts>, i: nat)
    requires i < |ps| == |owed|
    ensures StoredAll(ps, owed)[i] == StoredOne(ps[i], owed[i])
  {
  }

  /** A ledger whose position and unpaid fees at one index are new. */
  lemma StoredCredit(s: Ledger, s': Ledger, owed: seq<Amounts>, i: nat, p: Position, a: Amounts)
    requires i < |s.positions| == |owed| && s'.positions == s.positions[i := p] && Credit(owed, i, s, s')[i] == a
    ensures StoredAll(s'.positions, Credit(owed, i, s, s')) == StoredAll(s.positions, owed)[i := StoredOne(p, a)]
  {
    StoredUpdate(s.positions, owed, i, p, a);
  }

  lemma AccrueHoldings(s: Ledger, i: nat)
    requires i < |s.positions| && Accrue(s, i).Some?
    ensures var p, s' := s.positions[i], Accrue(s, i).value;
      && |s'.positions| == |s.positions| && s'.positions[i].liquidity == p.liquidity
      && s'.positions[i].lower == p.lower && s'.positions[i].upper == p.upper
  {
    hide Earned, Inside;
  }

  lemma MirrorsTicks(chunks: map<int, Chunk>, s: Ledger, s': Ledger)
    requires Mirrors(chunks, s) && s'.ticks == s.ticks && s'.spacing == s.spacing
    ensures Mirrors(chunks, s')
  {
    hide TickAt;
  }

  /** One position's fees, liquidity or unpaid fees changed, the books of the others did not. */
  ghost predicate ChangesOne(s: Ledger, s': Ledger, i: nat)
  {
    && i < |s.positions| == |s'.positions| && s'.positions == s.positions[i := s'.positions[i]]
    && s'.tick == s.tick && s'.growth == s.growth && s'.spacing == s.spacing
  }

  lemma AccrueChangesOne(s: Ledger, i: nat)
    requires i < |s.positions| && Accrue(s, i).Some?
    ensures ChangesOne(s, Accrue(s, i).value, i) && Accrue(s, i).value.ticks == s.ticks && Accrue(s, i).value.active == s.active
  {
    hide Earned, Inside;
  }

  lemma ShownOne(s: Ledger, s': Ledger, owed: seq<Amounts>, i: nat)
    requires i < |owed| == |s.positions| && ChangesOne(s, s', i)
    ensures |Credit(owed, i, s, s')| == |owed| == |s'.positions|
    ensures StoredAll(s'.positions, Credit(owed, i, s, s'))
         == StoredAll(s.positions, owed)[i := StoredOne(s'.positions[i], Credit(owed, i, s, s')[i])]
  {
    StoredCredit(s, s', owed, i, s'.positions[i], Credit(owed, i, s, s')[i]);
  }

  /** Paid out, a position's unpaid fees are what is left. */
  lemma ShownPaid(ps: seq<Position>, owed: seq<Amounts>, i: nat, left: Amounts)
    requires i < |ps| == |owed|
    ensures StoredAll(ps, owed[i := left]) == StoredAll(ps, owed)[i := StoredAll(ps, owed)[i].(owed := left)]
  {
    assert ps[i := ps[i]] == ps;
    StoredUpdate(ps, owed, i, ps[i], left);
  }

  /** One position settled, and paid all but what is left. */
  lemma ShownSettled(s: Ledger, s': Ledger, owed: seq<Amounts>, i: nat, left: Amounts)
    requires i < |owed| == |s.positions| && ChangesOne(s, s', i)
    ensures |Credit(owed, i, s, s')| == |owed| == |s'.positions|
    ensures StoredAll(s'.positions, Credit(owed, i, s, s')[i := left])
         == StoredAll(s.positions, owed)[i := StoredOne(s'.positions[i], Credit(owed, i, s, s')[i]).(owed := left)]
  {
    hide StoredAll, Credit;
    ShownOne(s, s', owed, i);
    var credit := Credit(owed, i, s, s');
    ShownPaid(s'.positions, credit, i, left);
    assert StoredAll(s'.positions, credit)[i] == StoredOne(s'.positions[i], credit[i]);
  }

  /** What a deposit writes, as the ledger has it. */
  lemma DepositWrites(s: Ledger, i: nat, amount: U128)
    requires s.spacing > 0 && i < |s.positions| && amount <= I128_MAX
    requires var changed := ChangeBounds(s, s.positions[i], amount);
      changed.Some? && i < |changed.value.positions| && Accrue(changed.value, i).Some?
    ensures var p, s1, d := s.positions[i], ChangeBounds(s, s.positions[i], amount).value, Deposit(s, i, amount);
      var s2 := Accrue(s1, i).value;
      && d.Some? && ChangesOne(s, d.value, i) && d.value.ticks == s1.ticks && s1.credited == s.credited && i < |s2.positions|
      && d.value.positions[i] == s2.positions[i].(liquidity := SatU128(p.liquidity + amount)) && d.value.credited == s2.credited
      && d.value.active == if Covers(p, s.tick) then SatU128(s.active + amount) else s.active
  {
    var s1 := ChangeBounds(s, s.positions[i], amount).value;
    Runs.TicksOnly(s, s.positions[i], amount);
    AccrueHoldings(s1, i);
    hide ChangeBounds, Earned, Inside;
  }

  /** The liquidity part of `deposit_position`: the position and the liquidity in range. */
  method StoredDeposit(store: TickStorage, p: StoredPosition, amount: U128, liquidity: U128, spacing: int, tick: int, growth: Counters,
                       ghost s: Ledger, ghost owed: seq<Amounts>, ghost i: nat)
    returns (ok: bool, p': StoredPosition, liquidity': U128)
    requires TicksOk(store, spacing) && Mirrors(store.chunks, s) && s.spacing == spacing && tick == s.tick && growth == s.growth
    requires i < |s.positions| == |owed| && p == StoredOne(s.positions[i], owed[i]) && liquidity == s.active
    requires LegalTick(p.lower, spacing) && LegalTick(p.upper, spacing)
    modifies store
    ensures ok <==> Deposit(s, i, amount).Some?
    ensures ok ==>
      var s' := Deposit(s, i, amount).value;
      && TicksOk(store, spacing) && Mirrors(store.chunks, s') && ChangesOne(s, s', i)
      && p' == StoredOne(s'.positions[i], Credit(owed, i, s, s')[i]) && liquidity' == s'.active
    ensures !ok ==> Snapshot(store) == old(Snapshot(store))
  {
    hide TicksOk, Mirrors, ChangeBounds, Accrue;
    ok, p', liquidity' := false, p, liquidity;
    if amount > I128_MAX {
      return;
    }
    var saved := Snapshot(store);
    ok := ChangeStoredBounds(store, p.lower, p.upper, amount, spacing, Globals(tick, growth[0], growth[1]), s, s.positions[i]);
    if !ok {
      return;
    }
    Runs.TicksOnly(s, s.positions[i], amount);
    ghost var s1 := ChangeBounds(s, s.positions[i], amount).value;
    var settled := AccrueStored(store, p, spacing, tick, growth, s1, owed, i);
    if settled.None? {
      Restore(store, saved);
      ok := false;
      return;
    }
    p' := settled.value.(liquidity := SatU128(p.liquidity + amount));
    if p.lower <= tick < p.upper {
      liquidity' := SatU128(liquidity + amount);
    }
    DepositWrites(s, i, amount);
    MirrorsTicks(store.chunks, s1, Deposit(s, i, amount).value);
  }

  /** A ledger after its fees at one position are settled and some liquidity is taken off it. */
  function Reduced(s: Ledger, i: nat, amount: U128): Ledger
    requires i < |s.positions| && Accrue(s, i).Some? && amount <= s.positions[i].liquidity
  {
    var s1 := Accrue(s, i).value;
    s1.(positions := s1.positions[i := s1.positions[i].(liquidity := s.positions[i].liquidity - amount)])
  }

  lemma ReducedTicks(s: Ledger, i: nat, amount: U128)
    requires i < |s.positions| && Accrue(s, i).Some? && amount <= s.positions[i].liquidity
    ensures var s2 := Reduced(s, i, amount); s2.ticks == s.ticks && s2.spacing == s.spacing && s2.tick == s.tick && s2.growth == s.growth
  {
    hide Earned, Inside;
  }

  lemma BoundsOnly(s: Ledger, p: Position, q: Position, delta: int)
    requires s.spacing > 0 && p.lower == q.lower && p.upper == q.upper
    ensures ChangeBounds(s, p, delta) == ChangeBounds(s, q, delta)
  {
  }

  /** When a withdrawal succeeds, once its fees are settled. */
  lemma WithdrawSucceeds(s: Ledger, i: nat, amount: U128)
    requires s.spacing > 0 && i < |s.positions| && amount <= I128_MAX && Accrue(s, i).Some? && amount <= s.positions[i].liquidity
    ensures var p, changed := s.positions[i], ChangeBounds(Reduced(s, i, amount), s.positions[i], -(amount as int));
      Withdraw(s, i, amount).Some? <==> changed.Some? && (Covers(p, s.tick) ==> s.active >= amount)
  {
    var p, s1, s2 := s.positions[i], Accrue(s, i).value, Reduced(s, i, amount);
    hide ChangeBounds, Earned, Inside;
    Runs.TicksOnly(s2, p, -(amount as int));
    AccrueHoldings(s, i);
    BoundsOnly(s2, p, s1.positions[i], -(amount as int));
  }

  /** What a withdrawal writes, as the ledger has it. */
  lemma WithdrawWrites(s: Ledger, i: nat, amount: U128)
    requires s.spacing > 0 && i < |s.positions| && amount <= I128_MAX && Accrue(s, i).Some? && amount <= s.positions[i].liquidity
    requires Withdraw(s, i, amount).Some?
    ensures var p, s1, w := s.positions[i], Accrue(s, i).value, Withdraw(s, i, amount).value;
      var changed := ChangeBounds(Reduced(s, i, amount), p, -(amount as int));
      && i < |s1.positions| && changed.Some? && ChangesOne(s, w, i) && w.ticks == changed.value.ticks && w.credited == s1.credited
      && w.positions[i] == s1.positions[i].(liquidity := p.liquidity - amount)
      && w.active == if Covers(p, s.tick) then s.active - amount else s.active
  {
    var p, s1, s2 := s.positions[i], Accrue(s, i).value, Reduced(s, i, amount);
    hide ChangeBounds, Earned, Inside;
    Runs.TicksOnly(s2, p, -(amount as int));
    AccrueHoldings(s, i);
    BoundsOnly(s2, p, s1.positions[i], -(amount as int));
  }

  lemma WithdrawSettles(s: Ledger, i: nat, amount: U128)
    requires s.spacing > 0 && i < |s.positions| && Withdraw(s, i, amount).Some?
    ensures Accrue(s, i).Some? && Withdraw(s, i, amount).value.credited == Accrue(s, i).value.credited
  {
    Runs.WithdrawNeeds(s, i, amount);
    WithdrawWrites(s, i, amount);
    hide ChangeBounds, Earned, Inside;
  }

  /** The liquidity part of `withdraw_position`, once the position's fees are settled. */
  method StoredWithdraw(store: TickStorage, settled: StoredPosition, amount: U128, liquidity: U128, spacing: int, tick: int, growth: Counters,
                        ghost s: Ledger, ghost owed: seq<Amounts>, ghost i: nat)
    returns (ok: bool, p': StoredPosition, liquidity': U128)
    requires TicksOk(store, spacing) && Mirrors(store.chunks, s) && s.spacing == spacing && tick == s.tick && growth == s.growth
    requires i < |s.positions| == |owed| && Accrue(s, i).Some? && |Accrue(s, i).value.positions| == |owed| && liquidity == s.active
    requires settled == StoredOne(Accrue(s, i).value.positions[i], Credit(owed, i, s, Accrue(s, i).value)[i])
    requires LegalTick(settled.lower, spacing) && LegalTick(settled.upper, spacing) && amount <= I128_MAX && amount <= settled.liquidity
    modifies store
    ensures ok <==> Withdraw(s, i, amount).Some?
    ensures ok ==>
      var s' := Withdraw(s, i, amount).value;
      && TicksOk(store, spacing) && Mirrors(store.chunks, s') && ChangesOne(s, s', i)
      && p' == StoredOne(s'.positions[i], Credit(owed, i, s, s')[i]) && liquidity' == s'.active
    ensures !ok ==> Snapshot(store) == old(Snapshot(store))
  {
    hide TicksOk, Mirrors, ChangeBounds, Accrue, Withdraw, Reduced;
    ok, p', liquidity' := false, settled.(liquidity := settled.liquidity - amount), liquidity;
    var saved := Snapshot(store);
    AccrueHoldings(s, i);
    WithdrawSucceeds(s, i, amount);
    ghost var p, s2 := s.positions[i], Reduced(s, i, amount);
    ReducedTicks(s, i, amount);
    MirrorsTicks(store.chunks, s, s2);
    ok := ChangeStoredBounds(store, settled.lower, settled.upper, -(amount as int), spacing, Globals(tick, growth[0], growth[1]), s2, p);
    if !ok {
      return;
    }
    if settled.lower <= tick < settled.upper {
      if liquidity < amount {
        Restore(store, saved);
        ok := false;
        return;
      }
      liquidity' := liquidity - amount;
    }
    WithdrawWrites(s, i, amount);
    Runs.TicksOnly(s2, p, -(amount as int));
    MirrorsTicks(store.chunks, ChangeBounds(s2, p, -(amount as int)).value, Withdraw(s, i, amount).value);
  }

  // ----------------------------------------------------------------------- swaps

  /** Only the histories of positions differ. */
  ghost predicate SameStored(ps: seq<Position>, qs: seq<Position>)
  {
    |ps| == |qs| && forall i | 0 <= i < |ps| :: qs[i] == ps[i].(grown := qs[i].grown)
  }

  lemma StepKeepsStored(s: Ledger, lpFee: U128, next: int, crossing: bool, zeroForOne: bool, tick: int)
    ensures SameStored(s.positions, AfterStep(s, lpFee, next, crossing, zeroForOne, tick).positions)
  {
    hide FeeGrowthDelta, TickOf;
  }

  lemma RoundKeepsStored(chunks: map<int, Chunk>, c: Cursor, o: Order)
    requires o.fee < Steps.FEE_DENOMINATOR && o.spacing > 0 && Round(chunks, c, o).Some?
    ensures SameStored(c.s.positions, Round(chunks, c, o).value.s.positions)
  {
    hide AfterStep, P, StepOf, NewTick, LpPart, SameStored;
    forall lpFee: U128, next: int, crossing: bool, z: bool, tick: int
      ensures SameStored(c.s.positions, AfterStep(c.s, lpFee, next, crossing, z, tick).positions)
    {
      StepKeepsStored(c.s, lpFee, next, crossing, z, tick);
    }
  }

  /** A swap changes nothing of a position in storage. */
  lemma {:induction false} LoopKeepsStored(chunks: map<int, Chunk>, bound: int, c: Cursor, o: Order)
    requires Ready(chunks, c, o)
    ensures var end := Loop(chunks, bound, c, o); end.Some? ==> SameStored(c.s.positions, end.value.s.positions)
    decreases Live(c.w, o.limit), Distance(c.w.tick, o.zeroForOne)
  {
    ReadyIsSpaced(chunks, c, o);
    if !Over(c.w, bound, o) && Round(chunks, c, o).Some? {
      var c' := Round(chunks, c, o).value;
      RoundKeepsStored(chunks, c, o);
      RoundGoesOn(chunks, c, o);
      hide Ready, Round;
      LoopKeepsStored(chunks, bound, c', o);
    }
  }

  lemma SpreadKeepsStored(s: Ledger, k: nat, surplus: U128, last: Last, down: bool)
    requires k < 2
    ensures var s' := Spread(s, k, surplus, last, down);
      SameStored(s.positions, s'.positions) && s'.active == s.active && s'.tick == s.tick && s'.spacing == s.spacing
  {
    hide FeeGrowthDelta, WrapAdd;
  }

  lemma SameStoredShown(ps: seq<Position>, qs: seq<Position>, owed: seq<Amounts>)
    requires SameStored(ps, qs) && |owed| == |ps|
    ensures StoredAll(ps, owed) == StoredAll(qs, owed)
  {
  }

  lemma SpreadMirrored(before: map<int, Chunk>, after: map<int, Chunk>, s: Ledger, surplus: U128, last: Last, zeroForOne: bool)
    requires Mirrors(before, s) && LegalTick(last.tick, s.spacing) && last.crossed && FeeGrowthDelta(surplus, last.liquidity) != 0
    requires var data, delta := TickAt(before, last.tick / s.spacing), FeeGrowthDelta(surplus, last.liquidity);
      var written := if InToken(zeroForOne) == 0 then data.(feeOutside0 := WrapAdd(data.feeOutside0, delta))
                     else data.(feeOutside1 := WrapAdd(data.feeOutside1, delta));
      forall k: int :: TickAt(after, k) == if k == last.tick / s.spacing then written else TickAt(before, k)
    ensures Mirrors(after, Spread(s, InToken(zeroForOne), surplus, last, zeroForOne)) && SameNets(before, after)
  {
    QuotientIs(last.tick / s.spacing, last.tick, s.spacing);
    assert TickAt(before, last.tick / s.spacing) == TickOf(s, last.tick);
    hide TickAt, FeeGrowthDelta, WrapAdd, Grow;
    var s' := Spread(s, InToken(zeroForOne), surplus, last, zeroForOne);
    forall c: int
      ensures TickAt(after, c) == TickOf(s', c * s.spacing)
    {
      QuotientIs(c, last.tick, s.spacing);
    }
  }

  /** The growth of a surplus and its second write, at the last tick crossed. */
  method SpreadStored(store: TickStorage, surplus: U128, last: Last, zeroForOne: bool, growth: Counters, spacing: int, ghost s: Ledger)
    returns (growth': Counters)
    requires TicksOk(store, spacing) && Mirrors(store.chunks, s) && s.spacing == spacing && growth == s.growth
    requires last.crossed ==> LegalTick(last.tick, spacing)
    modifies store`chunks
    ensures var s' := Spread(s, InToken(zeroForOne), surplus, last, zeroForOne);
      TicksOk(store, spacing) && Mirrors(store.chunks, s') && growth' == s'.growth
  {
    var k := InToken(zeroForOne);
    var delta := FeeGrowthDelta(surplus, last.liquidity);
    growth' := growth[k := WrapAdd(growth[k], delta)];
    ghost var before := store.chunks;
    hide IndexOk, LowestIs, HighestIs, FeeGrowthDelta, WrapAdd;
    if last.crossed && delta != 0 {
      QuotientIs(last.tick / spacing, last.tick, spacing);
      var c := last.tick / spacing;
      var data := TickAt(store.chunks, c);
      var written := if k == 0 then data.(feeOutside0 := WrapAdd(data.feeOutside0, delta))
                     else data.(feeOutside1 := WrapAdd(data.feeOutside1, delta));
      var (pos, slot) := ChunkAddress(c);
      store.chunks := store.chunks[pos := ChunkAt(store.chunks, pos)[slot := written]];
      OneTickWritten(before, c, written);
      SpreadMirrored(before, store.chunks, s, surplus, last, zeroForOne);
      SameIndex(before, store.chunks, store.chunkBitmap, store.wordBitmap, spacing);
      SameBounds(before, store.chunks, spacing, store.minInitTick, store.maxInitTick);
    } else {
      MirrorsTicks(store.chunks, s, Spread(s, k, surplus, last, zeroForOne));
    }
  }
}
