/** The swap loop of the concentrated pool as it runs over storage: tick search, step computation
    and tick crossings through the write-back cache, for a simulation and for a real swap
    (liquidity_pool_concentrated/src/contract/internal.rs). */
module SwapLoop {
  import opened Words
  import opened PriceMath
  import opened TickMath
  import opened TickAccuracy
  import opened Bitmap
  import opened ChunkStore
  import opened TickIndex
  import opened TickSearch
  import opened TickMaintenance
  import opened TickUpdate
  import opened FeeGrowth
  import Search = SwapSearch
  import Steps = SwapStep
  import opened LiquidityLedger
  import opened LedgerInvariants
  import opened PositionWorth
  import opened SwapRounds

  // ------------------------------------------------------- storage and the ledger

  /** Two stores that differ in fee counters at most. */
  ghost predicate SameNets(a: map<int, Chunk>, b: map<int, Chunk>)
  {
    forall c: int :: TickAt(a, c).gross == TickAt(b, c).gross && TickAt(a, c).net == TickAt(b, c).net
  }

  /** The chunks are the ledger's ticks, fee counters included. */
  ghost predicate Mirrors(chunks: map<int, Chunk>, s: Ledger)
  {
    forall c: int :: TickAt(chunks, c) == TickOf(s, c * s.spacing)
  }

  /** During a swap: the cache is coherent and shows the stored liquidity; in a real swap it also
      shows the fee counters of the ledger the swap has reached. */
  ghost predicate Stored(store: TickStorage, cc: ChunkCache, s: Ledger, dryRun: bool)
    reads store, cc
  {
    && Coherent(cc.State(store)) && SameNets(View(store, cc), store.chunks) && Records(store.chunks, s)
    && IndexOk(store.chunks, store.chunkBitmap, store.wordBitmap, s.spacing)
    && (!dryRun ==> Mirrors(View(store, cc), s))
  }

  /** The index only depends on which ticks are initialized. */
  lemma SameIndex(a: map<int, Chunk>, b: map<int, Chunk>, level1: map<int, Word>, level2: map<int, Word>, spacing: int)
    requires IndexOk(a, level1, level2, spacing) && SameNets(a, b)
    ensures IndexOk(b, level1, level2, spacing) && Search.SameTicks(a, b)
  {
    hide BitAt, Level2Ok;
    assert forall c: int :: Initialized(a, c) == Initialized(b, c);
    forall pos: int
      ensures ChunkUsed(a, pos) == ChunkUsed(b, pos)
    {
      SameUse(a, b, pos);
    }
    hide ChunkUsed, TickAt;
  }

  lemma SameUse(a: map<int, Chunk>, b: map<int, Chunk>, pos: int)
    requires SameNets(a, b)
    ensures ChunkUsed(a, pos) == ChunkUsed(b, pos)
  {
    forall s | 0 <= s < 16
      ensures ChunkAt(a, pos)[s].gross == ChunkAt(b, pos)[s].gross
    {
      SlotsAreTicks(a, pos, s);
      SlotsAreTicks(b, pos, s);
    }
  }

  lemma SearchReady(store: TickStorage, cc: ChunkCache, s: Ledger, dryRun: bool)
    requires Stored(store, cc, s, dryRun)
    ensures StoreOk(store, cc, s.spacing) && Search.SameTicks(View(store, cc), store.chunks)
  {
    SameIndex(store.chunks, View(store, cc), store.chunkBitmap, store.wordBitmap, s.spacing);
  }

  /** A read through the cache leaves it coherent. */
  lemma ReadCoherent(stored: map<int, Chunk>, cache: map<int, Chunk>, cache': map<int, Chunk>, dirty: map<int, bool>)
    requires Coherent(CacheState(stored, cache, dirty)) && stored + cache == stored + cache' && cache.Keys <= cache'.Keys
    ensures Coherent(CacheState(stored, cache', dirty))
  {
    forall pos | pos in cache' && pos !in dirty
      ensures cache'[pos] == ChunkAt(stored, pos)
    {
      assert (stored + cache')[pos] == cache'[pos];
      assert pos in stored + cache;
      if pos in cache {
        assert (stored + cache)[pos] == cache[pos];
      }
    }
  }

  // -------------------------------------------------------------------- crossing

  /** `liquidity_net` of the tick being crossed, as a simulation reads it. */
  method ReadNet(store: TickStorage, cc: ChunkCache, tick: int, spacing: int) returns (net: int)
    requires spacing > 0
    modifies cc
    ensures View(store, cc) == old(View(store, cc)) && cc.dirty == old(cc.dirty) && old(cc.cache.Keys) <= cc.cache.Keys
    ensures net == TickAt(View(store, cc), tick / spacing).net
  {
    CompressIsFloor(tick, spacing);
    var data := cc.GetTick(store, tick, spacing);
    net := data.net;
  }

  /** A tick with its outside counters flipped against the global ones. */
  function Flipped(t: TickData, growth: Counters): TickData
  {
    t.(feeOutside0 := WrapSub(growth[0], t.feeOutside0), feeOutside1 := WrapSub(growth[1], t.feeOutside1))
  }

  /** What the cache shows. */
  function Shown(s: CacheState): map<int, Chunk>
  {
    s.stored + s.cache
  }

  /** Writing one slot through the cache changes one tick of what it shows. */
  lemma CacheWrites(s: CacheState, c: int, t: TickData)
    requires Coherent(s)
    ensures var (pos, slot) := ChunkAddress(c);
      var chunk := OrEmpty(Lookup(s, pos));
      var s' := AfterSet(AfterGetOrCreate(s, pos), pos, chunk[slot := t]);
      && chunk[slot] == TickAt(Shown(s), c) && Coherent(s')
      && forall k: int :: TickAt(Shown(s'), k) == if k == c then t else TickAt(Shown(s), k)
  {
    var (pos, slot) := ChunkAddress(c);
    var chunk := OrEmpty(Lookup(s, pos));
    ChunkWritten(s, pos, chunk[slot := t]);
    hide Coherent, AfterGetOrCreate, AfterSet, Lookup, OrEmpty, Shown;
    OneTickWritten(Shown(s), c, t);
  }

  lemma ChunkWritten(s: CacheState, pos: int, chunk: Chunk)
    requires Coherent(s)
    ensures var s' := AfterSet(AfterGetOrCreate(s, pos), pos, chunk);
      Coherent(s') && OrEmpty(Lookup(s, pos)) == ChunkAt(Shown(s), pos) && Shown(s') == Shown(s)[pos := chunk]
  {
    var s1 := AfterGetOrCreate(s, pos);
    CreatedShows(s, pos, chunk);
    SetShows(s1, pos, chunk);
    hide AfterGetOrCreate, AfterSet, Shown, Lookup, OrEmpty;
    ReadKeeps(s, s1, pos);
    SetIsDirect(s1, pos, chunk);
    hide *;
  }

  lemma CreatedShows(s: CacheState, pos: int, chunk: Chunk)
    ensures OrEmpty(Lookup(s, pos)) == ChunkAt(Shown(s), pos)
    ensures Shown(AfterGetOrCreate(s, pos))[pos := chunk] == Shown(s)[pos := chunk]
  {
    assert (s.stored + s.cache[pos := ChunkAt(s.stored, pos)])[pos := chunk] == (s.stored + s.cache)[pos := chunk];
  }

  lemma SetShows(s: CacheState, pos: int, chunk: Chunk)
    ensures Shown(AfterSet(s, pos, chunk)) == Shown(s)[pos := chunk]
  {
    assert s.stored + s.cache[pos := chunk] == (s.stored + s.cache)[pos := chunk];
  }

  /** `cross_tick`: flips the tick's counters in the cache and returns its net liquidity. */
  method CrossTick(store: TickStorage, cc: ChunkCache, tick: int, spacing: int, growth: Counters) returns (net: int)
    requires spacing > 0 && Coherent(cc.State(store))
    modifies cc
    ensures Coherent(cc.State(store)) && net == old(TickAt(View(store, cc), tick / spacing).net)
    ensures forall c: int :: (TickAt(View(store, cc), c)
      == if c == tick / spacing then Flipped(old(TickAt(View(store, cc), c)), growth) else old(TickAt(View(store, cc), c)))
  {
    CompressIsFloor(tick, spacing);
    ghost var c, s := tick / spacing, cc.State(store);
    var (pos, slot) := ChunkAddress(CompressTick(tick, spacing));
    hide Coherent, AfterGetOrCreate, AfterSet, ChunkAddress, CompressTick, TickAt;
    var chunk := cc.GetOrCreateChunk(store, pos);
    var crossed := Flipped(chunk[slot], growth);
    assert chunk == OrEmpty(Lookup(s, pos));
    cc.SetChunk(store, pos, chunk[slot := crossed]);
    CacheWrites(s, c, crossed);
    net := chunk[slot].net;
  }

  // ------------------------------------------------------------------- one round

  /** Flipping the crossed tick in the cache follows the ledger. */
  lemma MirrorsCrossing(before: map<int, Chunk>, after: map<int, Chunk>, s: Ledger, s': Ledger, next: int)
    requires s.spacing > 0 && s'.spacing == s.spacing && next % s.spacing == 0 && Mirrors(before, s)
    requires forall t: int :: TickOf(s', t) == if t == next then Flipped(TickOf(s, t), s'.growth) else TickOf(s, t)
    requires forall c: int ::
      TickAt(after, c) == if c == next / s.spacing then Flipped(TickAt(before, c), s'.growth) else TickAt(before, c)
    ensures Mirrors(after, s')
  {
    hide TickAt, TickOf;
    forall c: int
      ensures TickAt(after, c) == TickOf(s', c * s.spacing)
    {
      SameMultiple(c, next, s.spacing);
    }
  }

  lemma SameMultiple(c: int, t: int, spacing: int)
    requires spacing > 0 && t % spacing == 0
    ensures c == t / spacing <==> c * spacing == t
  {
    Remainder(t, spacing);
    if c * spacing == t {
      DivModUnique(t, spacing, c, 0);
    }
  }

  /** The ledger's ticks and counters after a step. */
  lemma StepTicks(s: Ledger, lpFee: U128, next: int, crossing: bool, zeroForOne: bool, tick: int)
    requires LedgerOk(s) && (crossing ==> NextTick(s, next, zeroForOne))
    ensures var s' := AfterStep(s, lpFee, next, crossing, zeroForOne, tick);
      var k := if zeroForOne then 0 else 1;
      && s'.growth == s.growth[k := WrapAdd(s.growth[k], FeeGrowthDelta(lpFee, s.active))]
      && forall t: int :: TickOf(s', t) == if crossing && t == next then Flipped(TickOf(s, t), s'.growth) else TickOf(s, t)
  {
    var k := if zeroForOne then 0 else 1;
    AddFeeKeeps(s, k, lpFee);
    FeeKeepsTicks(s, k, lpFee, next, zeroForOne, tick);
    if crossing {
      CrossKeeps(AddFee(s, k, lpFee), next, zeroForOne);
    }
    hide LedgerOk, FeeGrowthDelta, WrapAdd, Grow, NextTick, SameSide;
  }

  /** `add_fee_growth_global` on the pair of counters. */
  function GrowthAfter(growth: Counters, zeroForOne: bool, lpFee: U128, liquidity: U128): Counters
  {
    var k := if zeroForOne then 0 else 1;
    growth[k := WrapAdd(growth[k], FeeGrowthDelta(lpFee, liquidity))]
  }

  /** What the cache and the ledger agree on goes on through a round that crosses no tick. */
  lemma StoredUncrossed(store: TickStorage, cc: ChunkCache, s: Ledger, s': Ledger, dryRun: bool)
    requires Stored(store, cc, s, dryRun) && s'.spacing == s.spacing && SameLiquidity(s, s')
    requires forall t: int :: TickOf(s', t) == TickOf(s, t)
    ensures Stored(store, cc, s', dryRun)
  {
    hide IndexOk, TickAt, TickOf, Coherent, SameNets;
  }

  /** Crossing or not: the price moves to where the step stopped, and the cursor with it. */
  method MovePrice(store: TickStorage, cc: ChunkCache, w: SwapState, next: int, initialized: bool, stepPrice: U256, growth: Counters,
                   lpFee: U128, o: Order, dryRun: bool, ghost s: Ledger)
    returns (tick: int, liquidity: U128, ghost s': Ledger)
    requires LedgerOk(s) && s.spacing == o.spacing && w.liquidity == s.active && w.tick == s.tick && Stored(store, cc, s, dryRun)
    requires MIN_TICK <= next <= MAX_TICK && MIN_TICK <= w.tick < MAX_TICK
    requires dryRun || growth == GrowthAfter(s.growth, o.zeroForOne, lpFee, s.active)
    requires var newTick := NewTick(w.tick, w.price, next, stepPrice, o.zeroForOne);
      && MIN_TICK <= newTick < MAX_TICK
      && if stepPrice == P(next) && initialized then NextTick(s, next, o.zeroForOne) && newTick == TickAfter(next, o.zeroForOne)
         else SameSide(s, newTick)
    requires stepPrice != w.price && stepPrice != P(next) ==> TickOfPrice(stepPrice).Some?
    modifies cc
    ensures tick == NewTick(w.tick, w.price, next, stepPrice, o.zeroForOne)
    ensures s' == AfterStep(s, lpFee, next, stepPrice == P(next) && initialized, o.zeroForOne, tick)
    ensures s'.tick == tick && s'.active == liquidity && Stored(store, cc, s', dryRun)
    ensures dryRun || growth == s'.growth
  {
    var nextPrice := SqrtRatioAtTick(next);
    PriceIs(next);
    ghost var newTick, crossing := NewTick(w.tick, w.price, next, stepPrice, o.zeroForOne), stepPrice == nextPrice && initialized;
    s' := AfterStep(s, lpFee, next, crossing, o.zeroForOne, newTick);
    assert s.spacing > 0;
    hide P, SqrtRatioAtTick, TickOfPrice, LedgerOk, AfterStep, NextTick, SameSide, CrossLiquidity, SameHoldings, FeesGrew, Stored;
    AfterStepKeeps(s, lpFee, next, crossing, o.zeroForOne, newTick);
    StepTicks(s, lpFee, next, crossing, o.zeroForOne, newTick);
    tick, liquidity := w.tick, w.liquidity;
    if stepPrice == nextPrice {
      if initialized {
        var net := CrossStored(store, cc, next, growth, o, dryRun, s, s');
        CrossingSucceeds(s, lpFee, next, o.zeroForOne);
        var crossed := CrossLiquidity(liquidity, net, o.zeroForOne);
        assert crossed.Some?;
        liquidity := crossed.value;
      } else {
        StoredUncrossed(store, cc, s, s', dryRun);
      }
      tick := if o.zeroForOne then (if next - 1 < MIN_TICK then MIN_TICK else next - 1) else if next > MAX_TICK then MAX_TICK else next;
    } else {
      StoredUncrossed(store, cc, s, s', dryRun);
      if stepPrice != w.price {
        tick := TickOfPrice(stepPrice).value;
      }
    }
  }

  /** The crossed tick's net liquidity: read by a simulation, flipped and read by a real swap. */
  method CrossStored(store: TickStorage, cc: ChunkCache, next: int, growth: Counters, o: Order, dryRun: bool, ghost s: Ledger, ghost s': Ledger)
    returns (net: int)
    requires LedgerOk(s) && s.spacing == o.spacing && Stored(store, cc, s, dryRun) && IsInitialized(s, next)
    requires s'.spacing == s.spacing && SameLiquidity(s, s')
    requires forall t: int :: TickOf(s', t) == if t == next then Flipped(TickOf(s, t), s'.growth) else TickOf(s, t)
    requires dryRun || growth == s'.growth
    modifies cc
    ensures Stored(store, cc, s', dryRun) && net == TickOf(s, next).net
  {
    InitializedIsLegal(s, next);
    StoredNet(store.chunks, s, next);
    RecordsStay(store.chunks, s, s');
    ghost var before, cached := View(store, cc), cc.cache;
    hide LedgerOk, TickOf, TickAt, IndexOk, Records;
    if dryRun {
      net := ReadNet(store, cc, next, o.spacing);
      ReadCoherent(store.chunks, cached, cc.cache, cc.dirty);
    } else {
      net := CrossTick(store, cc, next, o.spacing, growth);
      MirrorsCrossing(before, View(store, cc), s, s', next);
    }
  }

  /** What the loop does with a step: accounts, fees, and the move of the price. */
  method TakeStep(store: TickStorage, cc: ChunkCache, w: SwapState, last: Last, growth: Counters, o: Order, dryRun: bool,
                  next: int, initialized: bool, step: Steps.Step, ghost c: Cursor)
    returns (w': SwapState, last': Last, growth': Counters, cut: U128, ghost c': Cursor)
    requires Ready(store.chunks, c, o) && c.w == w && c.last == last && w.price != o.limit && o.protocolFraction <= Steps.FEE_DENOMINATOR
    requires Stored(store, cc, c.s, dryRun) && (dryRun || growth == c.s.growth) && MIN_TICK <= next <= MAX_TICK
    requires o.spacing > 0 && (next, initialized) == Search.SearchAnswer(store.chunks, w.tick, o.spacing, o.zeroForOne)
    requires FairStep(step, w, Target(next, o.limit, o.zeroForOne), o.fee, o.zeroForOne, o.exactInput)
    modifies cc
    ensures c' == AfterRound(c, next, initialized, step, o) && c'.w == w' && c'.last == last' && Stored(store, cc, c'.s, dryRun)
    ensures growth' == if dryRun then growth else c'.s.growth
    ensures cut as int == if dryRun then 0 else step.feeAmount - LpPart(step.feeAmount, o.protocolFraction)
  {
    hide P, SqrtRatioAtTick, TickOfPrice, LedgerOk, Records, InRange, OnLadder, LastOk, FairStep, AfterStep, NewTick, Stored,
      LpPart, NextTick, SameSide, Search.SearchAnswer, Target, GrowthAfter;
    ReadyIsSpaced(store.chunks, c, o);
    FairDirection(step, w, Target(next, o.limit, o.zeroForOne), o);
    RoundLeads(store.chunks, c, o, step.sqrtNext);
    NewTickFound(store.chunks, c, o, next, step.sqrtNext);
    growth', cut := growth, 0;
    var lpFee := LpFee(step.feeAmount, o);
    if !dryRun {
      cut := step.feeAmount - lpFee;
      growth' := GrowthAfter(growth, o.zeroForOne, lpFee, w.liquidity);
    }
    var (remaining, calculated) := Account(w, step, o.exactInput);
    var nextPrice := SqrtRatioAtTick(next);
    PriceIs(next);
    c' := AfterRound(c, next, initialized, step, o);
    var rate := if w.liquidity > 0 then w.liquidity else last.liquidity;
    var crossing := step.sqrtNext == nextPrice && initialized;
    last' := Last(rate, if crossing then next else last.tick, last.crossed || crossing);
    var tick, liquidity;
    ghost var s';
    tick, liquidity, s' := MovePrice(store, cc, w, next, initialized, step.sqrtNext, growth', lpFee, o, dryRun, c.s);
    w' := SwapState(step.sqrtNext, tick, liquidity, remaining, calculated);
  }

  /** One round of the loop is one round of the recursion, panics included; `last` is what the
      code keeps in `last_nonzero_liquidity`, `last_crossed_tick` and `had_crossing`. */
  method SwapRound(store: TickStorage, cc: ChunkCache, w: SwapState, last: Last, growth: Counters, o: Order, dryRun: bool, ghost c: Cursor)
    returns (r: Option<SwapState>, last': Last, growth': Counters, cut: U128, ghost c': Cursor)
    requires Ready(store.chunks, c, o) && c.w == w && c.last == last && w.price != o.limit && o.protocolFraction <= Steps.FEE_DENOMINATOR
    requires Stored(store, cc, c.s, dryRun) && (dryRun || growth == c.s.growth)
    modifies cc
    ensures Round(store.chunks, c, o) == if r.Some? then Some(c') else None
    ensures r.Some? ==> c'.w == r.value && c'.last == last' && Stored(store, cc, c'.s, dryRun)
    ensures r.Some? ==> growth' == if dryRun then growth else c'.s.growth
    ensures r.Some? ==> cut as int == if dryRun then 0 else (c'.t.charged - c'.t.toProviders) - (c.t.charged - c.t.toProviders)
  {
    ReadyIsSpaced(store.chunks, c, o);
    hide P, SqrtRatioAtTick, SkipsNothing, FairStep, PaidFor, Steps.ComputeSwapStep, LedgerAfter, Stored, LpPart, Search.SearchAnswer;
    last', growth', cut, c' := last, growth, 0, c;
    var next, initialized := FindNext(store, cc, w.tick, o, dryRun, c.s);
    RoundStep(store.chunks, c, o);
    NextIsTick(c.s, next, initialized, o.zeroForOne);
    var nextPrice := SqrtRatioAtTick(next);
    PriceIs(next);
    var target := if o.zeroForOne then (if nextPrice < o.limit then o.limit else nextPrice) else if nextPrice > o.limit then o.limit else nextPrice;
    assert target == Target(next, o.limit, o.zeroForOne);
    var computed := Steps.ComputeSwapStep(w.price, target, w.liquidity, w.remaining, o.fee, o.zeroForOne, o.exactInput);
    hide Ready;
    match computed {
      case None =>
        return None, last, growth, 0, c;
      case Some(step) =>
        var w';
        w', last', growth', cut, c' := TakeStep(store, cc, w, last, growth, o, dryRun, next, initialized, step, c);
        return Some(w'), last', growth', cut, c';
    }
  }

  /** The share of a fee that goes to liquidity providers. */
  method LpFee(fee: U128, o: Order) returns (lpFee: U128)
    requires o.protocolFraction <= Steps.FEE_DENOMINATOR
    ensures lpFee == LpPart(fee, o.protocolFraction) <= fee
  {
    MulMono(o.protocolFraction, Steps.FEE_DENOMINATOR, fee);
    RoundedAtMost(fee * o.protocolFraction, Steps.FEE_DENOMINATOR, false, fee);
    FloorGalois(0, fee * o.protocolFraction, Steps.FEE_DENOMINATOR);
    var cut: U128 := fee * o.protocolFraction / Steps.FEE_DENOMINATOR;
    lpFee := Steps.SaturatingSub(fee, cut);
  }

  /** The search of a round leaves the cache as coherent as it was. */
  method FindNext(store: TickStorage, cc: ChunkCache, tick: int, o: Order, dryRun: bool, ghost s: Ledger)
    returns (next: int, initialized: bool)
    requires Stored(store, cc, s, dryRun) && s.spacing == o.spacing && MIN_TICK <= tick < MAX_TICK
    modifies cc
    ensures Stored(store, cc, s, dryRun) && o.spacing > 0
    ensures (next, initialized) == Search.SearchAnswer(store.chunks, tick, o.spacing, o.zeroForOne)
  {
    SearchReady(store, cc, s, dryRun);
    ghost var cached := cc.cache;
    hide TickAt, TickOf, Mirrors, SameNets;
    next, initialized := Search.FindInitializedTickInWord(store, cc, tick, o.spacing, o.zeroForOne);
    ReadCoherent(store.chunks, cached, cc.cache, cc.dirty);
  }

  /** A price between two ticks of the ladder has a tick. */
  lemma NewTickFound(chunks: map<int, Chunk>, c: Cursor, o: Order, next: int, stepPrice: U256)
    requires Ready(chunks, c, o) && OnLadder(NewTick(c.w.tick, c.w.price, next, stepPrice, o.zeroForOne), stepPrice)
    requires if o.zeroForOne then o.limit <= stepPrice <= c.w.price else c.w.price <= stepPrice <= o.limit
    ensures var tick := NewTick(c.w.tick, c.w.price, next, stepPrice, o.zeroForOne);
      && MIN_TICK <= tick < MAX_TICK
      && (stepPrice != c.w.price && stepPrice != P(next) ==> TickOfPrice(stepPrice).Some?)
  {
    var t := c.w.tick;
    hide P, TickOfPrice, LedgerOk, NewTick;
    Ends();
    Rises(MIN_TICK, t);
    Rises(t + 1, MAX_TICK);
    if MIN_SQRT_RATIO <= stepPrice < MAX_SQRT_RATIO {
      TickOfLegalPrice(stepPrice);
    }
  }

  // ------------------------------------------------------------------------ the loop

  /** What the loop reports: amount of the specified side used, the other side's amount, where
      the pool ends up, the protocol's share of the fees, and what it remembers of its way. */
  datatype SwapResult = SwapResult(used: U128, calculated: U128, price: U256, tick: int, liquidity: U128, protocolCut: nat, last: Last)

  /** The report of a swap that ends at a cursor; a simulation takes no protocol fees. */
  function Report(e: Cursor, amount: U128, dryRun: bool): SwapResult
    requires e.w.remaining <= amount && e.t.toProviders <= e.t.charged
  {
    SwapResult(amount - e.w.remaining, e.w.calculated, e.w.price, e.w.tick, e.w.liquidity,
               if dryRun then 0 else e.t.charged - e.t.toProviders, e.last)
  }

  /** After a flush storage holds what the cache showed. */
  lemma Flushed(s: CacheState)
    requires Coherent(s)
    ensures forall c: int :: TickAt(AfterFlush(s).stored, c) == TickAt(Shown(s), c)
  {
    forall c: int
      ensures TickAt(AfterFlush(s).stored, c) == TickAt(Shown(s), c)
    {
      var pos := ChunkAddress(c).0;
      LookupIsDirect(s, pos);
      assert ChunkAt(Shown(s), pos) == OrEmpty(Lookup(s, pos));
      hide Coherent, Lookup, OrEmpty, Written;
    }
  }

  /** Index and bounds only depend on which ticks are initialized. */
  lemma SameBounds(a: map<int, Chunk>, b: map<int, Chunk>, spacing: int, low: int, high: int)
    requires Search.SameTicks(a, b) && LowestIs(a, spacing, low) && HighestIs(a, spacing, high)
    ensures LowestIs(b, spacing, low) && HighestIs(b, spacing, high)
  {
    assert OnlyAt(a, b, 0) && Initialized(a, 0) == Initialized(b, 0);
    BoundsSame(a, b, spacing, 0, low, high);
  }

  /** The loop itself: the recursion over rounds, from its first cursor. */
  method RunRounds(store: TickStorage, cc: ChunkCache, w0: SwapState, last0: Last, growth0: Counters, bound: int, o: Order, dryRun: bool,
                   ghost c0: Cursor)
    returns (ok: bool, w: SwapState, last: Last, growth: Counters, protocolCut: nat, ghost c: Cursor)
    requires Ready(store.chunks, c0, o) && c0.w == w0 && c0.last == last0 && o.protocolFraction <= Steps.FEE_DENOMINATOR
    requires c0.t.charged == c0.t.toProviders == 0
    requires Stored(store, cc, c0.s, dryRun) && (dryRun || growth0 == c0.s.growth)
    modifies cc
    ensures Loop(store.chunks, bound, c0, o) == if ok then Some(c) else None
    ensures ok ==> c.w == w && c.last == last && Stored(store, cc, c.s, dryRun)
    ensures ok ==> growth == if dryRun then growth0 else c.s.growth
    ensures ok ==> protocolCut as int == if dryRun then 0 else c.t.charged - c.t.toProviders
  {
    hide Ready, Stored, Round;
    w, last, growth, protocolCut, c := w0, last0, growth0, 0, c0;
    while w.remaining > 0 && w.price != o.limit
      invariant Ready(store.chunks, c, o) && c.w == w && c.last == last
      invariant Loop(store.chunks, bound, c, o) == Loop(store.chunks, bound, c0, o)
      invariant Stored(store, cc, c.s, dryRun)
      invariant growth == if dryRun then growth0 else c.s.growth
      invariant protocolCut as int == if dryRun then 0 else c.t.charged - c.t.toProviders
      decreases Live(w, o.limit), Distance(w.tick, o.zeroForOne)
    {
      ReadyIsSpaced(store.chunks, c, o);
      if (o.zeroForOne && w.tick < bound) || (!o.zeroForOne && w.tick >= bound) {
        return true, w, last, growth, protocolCut, c;
      }
      var round, last', growth', cut;
      ghost var c';
      round, last', growth', cut, c' := SwapRound(store, cc, w, last, growth, o, dryRun, c);
      if round.None? {
        return false, w, last, growth, protocolCut, c;
      }
      RoundGoesOn(store.chunks, c, o);
      w, last, growth, protocolCut, c := round.value, last', growth', protocolCut + cut, c';
    }
    ok := true;
  }

  /** A new cache shows storage as it is. */
  lemma StartStored(store: TickStorage, cc: ChunkCache, s: Ledger, dryRun: bool)
    requires cc.State(store) == CacheState(store.chunks, map[], map[]) && Records(store.chunks, s)
    requires IndexOk(store.chunks, store.chunkBitmap, store.wordBitmap, s.spacing) && (!dryRun ==> Mirrors(store.chunks, s))
    ensures Stored(store, cc, s, dryRun)
  {
    assert View(store, cc) == store.chunks;
    hide TickAt, TickOf, Records, IndexOk, Mirrors;
  }

  /** The end of a real swap: storage then mirrors the ledger, index and bounds stay right. */
  method FlushSwap(store: TickStorage, cc: ChunkCache, spacing: int, ghost s: Ledger)
    requires Stored(store, cc, s, false) && TicksOk(store, spacing) && s.spacing == spacing
    modifies store`chunks
    ensures Mirrors(store.chunks, s) && TicksOk(store, spacing)
  {
    ghost var before, shown := store.chunks, cc.State(store);
    hide TickAt, TickOf, IndexOk, LowestIs, HighestIs, Records;
    cc.Flush(store);
    Flushed(shown);
    SameIndex(before, store.chunks, store.chunkBitmap, store.wordBitmap, spacing);
    SameBounds(before, store.chunks, spacing, store.minInitTick, store.maxInitTick);
  }

  /** The loop over a new cache. */
  method RunSwap(store: TickStorage, w: SwapState, growth0: Counters, bound: int, o: Order, dryRun: bool, ghost s: Ledger)
    returns (cc: ChunkCache, ok: bool, w': SwapState, last: Last, growth: Counters, protocolCut: nat, ghost e: Cursor)
    requires MaySwap(store.chunks, s, w.price, o) && IndexOk(store.chunks, store.chunkBitmap, store.wordBitmap, o.spacing)
    requires w == SwapState(w.price, s.tick, s.active, w.remaining, 0)
    requires !dryRun ==> Mirrors(store.chunks, s) && growth0 == s.growth
    ensures fresh(cc) && Ready(store.chunks, Start(s, w.price, w.remaining), o)
    ensures Loop(store.chunks, bound, Start(s, w.price, w.remaining), o) == if ok then Some(e) else None
    ensures ok ==> e.w == w' && e.last == last && e.s.spacing == o.spacing && Stored(store, cc, e.s, dryRun)
    ensures ok ==> growth == (if dryRun then growth0 else e.s.growth) && w'.remaining <= w.remaining
    ensures ok ==> e.t.toProviders <= e.t.charged && protocolCut as int == if dryRun then 0 else e.t.charged - e.t.toProviders
  {
    SwapAccounts(store.chunks, bound, s, w.price, w.remaining, o);
    cc := new ChunkCache(store);
    StartStored(store, cc, s, dryRun);
    hide LedgerOk, P, OnLadder, Records, InRange, Mirrors, IndexOk, Ready, Loop, Stored;
    ok, w', last, growth, protocolCut, e := RunRounds(store, cc, w, Last(w.liquidity, w.tick, false), growth0, bound, o, dryRun, Start(s, w.price, w.remaining));
    if ok {
      ReadySpacing(store.chunks, e, o);
    }
  }

  /** `swap_loop`, as a simulation or for real. Its outcome is that of the recursion over rounds,
      failures included, and the same in both cases; a simulation and a failed swap write
      nothing, a real swap leaves every stored tick and both counters as the ledger has them. */
  method SwapLoop(store: TickStorage, slotPrice: U256, slotTick: int, poolLiquidity: U128, amount: U128, growth0: Counters, o: Order,
                  dryRun: bool, ghost s0: Ledger)
    returns (r: Option<SwapResult>, growth: Counters)
    requires MaySwap(store.chunks, s0, slotPrice, o) && TicksOk(store, o.spacing) && slotTick == s0.tick && poolLiquidity == s0.active
    requires !dryRun ==> Mirrors(store.chunks, s0) && growth0 == s0.growth
    modifies store`chunks
    ensures var end := Swap(old(store.chunks), if o.zeroForOne then store.minInitTick else store.maxInitTick, s0, slotPrice, amount, o);
      match end
      case None => r == None && store.chunks == old(store.chunks)
      case Some(e) =>
        && e.w.remaining <= amount && e.t.toProviders <= e.t.charged && r == Some(Report(e, amount, dryRun))
        && TicksOk(store, o.spacing)
        && if dryRun then store.chunks == old(store.chunks) && growth == growth0
           else Mirrors(store.chunks, e.s) && growth == e.s.growth
  {
    hide MaySwap, LedgerOk, Mirrors, Ready, Loop, Stored, IndexOk, LowestIs, HighestIs;
    growth := growth0;
    if amount == 0 {
      return None, growth;
    }
    var bound := if o.zeroForOne then store.minInitTick else store.maxInitTick;
    var cc, ok, w, last, protocolCut;
    ghost var e;
    cc, ok, w, last, growth, protocolCut, e :=
      RunSwap(store, SwapState(slotPrice, slotTick, poolLiquidity, amount, 0), growth0, bound, o, dryRun, s0);
    if !ok || (!o.exactInput && w.remaining > 0) {
      return None, growth;
    }
    if !dryRun {
      FlushSwap(store, cc, o.spacing, e.s);
    }
    r := Some(SwapResult(amount - w.remaining, w.calculated, w.price, w.tick, w.liquidity, protocolCut, last));
  }

  /** What the recursion's end says about amounts. */
  lemma SwapAccounts(chunks: map<int, Chunk>, bound: int, s: Ledger, price: U256, amount: U128, o: Order)
    requires MaySwap(chunks, s, price, o)
    ensures Ready(chunks, Start(s, price, amount), o)
    ensures var end := Loop(chunks, bound, Start(s, price, amount), o);
      end.Some? ==>
        Ready(chunks, end.value, o) && end.value.t.toProviders <= end.value.t.charged && end.value.w.remaining <= amount
  {
    StartReady(chunks, s, price, amount, o);
    NothingSettled(s, price, o.zeroForOne);
    StartsFair(o.fee);
    hide LedgerOk, OnLadder, Records, InRange, LastOk, Loop, Ready, Steps.FeeCovers, FeesGrew;
    LoopKeeps(chunks, bound, Start(s, price, amount), o, s, price, amount);
  }
}
