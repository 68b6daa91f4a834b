/** Adding and removing liquidity at one tick: `update_tick_liquidity`
    (liquidity_pool_concentrated/src/contract/internal.rs, constants.rs). */
module TickUpdate {
  import opened Words
  import opened TickMath
  import opened Bitmap
  import opened ChunkStore
  import opened TickIndex
  import opened TickMaintenance

  /** What the update reads besides the tick: the current tick and both fee counters. */
  datatype Globals = Globals(tick: int, feeGrowth0: U256, feeGrowth1: U256)

  /** Usable ticks times this cap fit 128 bits. */
  function MaxLiquidityPerTick(spacing: int): (m: U128)
    requires spacing > 0
    ensures m * UsableTicks(spacing) <= U128_MAX < (m + 1) * UsableTicks(spacing)
  {
    var ticks := UsableTicks(spacing);
    FloorBounds(U128_MAX, ticks);
    Remainder(U128_MAX, ticks);
    MulMono(1, ticks, U128_MAX / ticks);
    U128_MAX / ticks
  }

  function UsableTicks(spacing: int): (n: int)
    requires spacing > 0
    ensures n >= 1
  {
    (MAX_TICK - MIN_TICK) / spacing + 1
  }

  /** The tick after the update; no result when a check fails. */
  function UpdatedTick(t: TickData, tickIdx: int, delta: int, isUpper: bool, spacing: int, g: Globals): Option<TickData>
    requires spacing > 0
  {
    var gross := t.gross + delta;
    var net := if isUpper then t.net - delta else t.net + delta;
    if gross < 0 || (delta >= 0 && gross > MaxLiquidityPerTick(spacing)) || gross > U128_MAX || !(I128_MIN <= net <= I128_MAX) then
      None
    else if t.gross == 0 && gross > 0 && tickIdx <= g.tick then
      Some(TickData(g.feeGrowth0, g.feeGrowth1, gross, net))
    else if t.gross > 0 && gross == 0 then
      Some(TickData(0, 0, gross, net))
    else
      Some(TickData(t.feeOutside0, t.feeOutside1, gross, net))
  }

  method ChunkHasInitialized(chunk: Chunk) returns (r: bool)
    ensures r <==> exists s | 0 <= s < 16 :: chunk[s].gross > 0
  {
    for i := 0 to 16
      invariant forall s | 0 <= s < i :: chunk[s].gross == 0
    {
      if chunk[i].gross > 0 {
        return true;
      }
    }
    return false;
  }

  /** Writing one slot changes one tick. */
  lemma OneTickWritten(chunks: map<int, Chunk>, c: int, t: TickData)
    ensures var (pos, slot) := ChunkAddress(c);
      var chunks' := chunks[pos := ChunkAt(chunks, pos)[slot := t]];
      forall k: int :: TickAt(chunks', k) == if k == c then t else TickAt(chunks, k)
  {
    var (pos, slot) := ChunkAddress(c);
    var chunks' := chunks[pos := ChunkAt(chunks, pos)[slot := t]];
    forall k: int
      ensures TickAt(chunks', k) == if k == c then t else TickAt(chunks, k)
    {
      var (p, s) := ChunkAddress(k);
      assert p == pos && s == slot <==> k == c;
    }
  }

  /** Level 1 stays right when the bit of the written chunk says whether it is used. */
  lemma Level1Follows(chunks: map<int, Chunk>, level1: map<int, Word>, pos: int, chunk: Chunk, level1': map<int, Word>)
    requires Level1Ok(chunks, level1)
    requires forall q: int :: BitAt(level1', q) <==>
      if q == pos then exists s | 0 <= s < 16 :: chunk[s].gross > 0 else BitAt(level1, q)
    ensures Level1Ok(chunks[pos := chunk], level1')
  {
    hide BitAt;
    var chunks' := chunks[pos := chunk];
    forall q: int
      ensures BitAt(level1', q) <==> ChunkUsed(chunks', q)
    {
      assert ChunkAt(chunks', q) == if q == pos then chunk else ChunkAt(chunks, q);
      assert BitAt(level1, q) <==> ChunkUsed(chunks, q);
    }
  }

  /** The only tick that differs between two stores. */
  ghost predicate OnlyAt(before: map<int, Chunk>, after: map<int, Chunk>, c: int)
  {
    forall k: int | k != c :: Initialized(after, k) == Initialized(before, k)
  }

  lemma InRangeFollows(before: map<int, Chunk>, after: map<int, Chunk>, spacing: int, c: int)
    requires InRange(before, spacing) && OnlyAt(before, after, c) && MIN_TICK <= c * spacing <= MAX_TICK
    ensures InRange(after, spacing)
  {
    forall k: int | Initialized(after, k)
      ensures MIN_TICK <= k * spacing <= MAX_TICK
    {
      assert k == c || Initialized(before, k);
    }
  }

  /** The tick of a compressed tick. */
  predicate TickIs(c: int, spacing: int, t: int)
  {
    c * spacing == t
  }

  lemma BoundsGrow(before: map<int, Chunk>, after: map<int, Chunk>, spacing: int, c: int, t: int, low: int, high: int)
    requires OnlyAt(before, after, c) && Initialized(after, c) && TickIs(c, spacing, t) && MIN_TICK <= t <= MAX_TICK
    requires LowestIs(before, spacing, low) && HighestIs(before, spacing, high)
    ensures LowestIs(after, spacing, if t < low then t else low)
    ensures HighestIs(after, spacing, if t > high then t else high)
  {
    hide Initialized;
    if k: int :| Initialized(before, k) && k * spacing == low {
      assert k != c ==> Initialized(after, k);
    }
    if k: int :| Initialized(before, k) && k * spacing == high {
      assert k != c ==> Initialized(after, k);
    }
  }

  lemma BoundsStay(before: map<int, Chunk>, after: map<int, Chunk>, spacing: int, c: int, t: int, low: int, high: int)
    requires OnlyAt(before, after, c) && Initialized(before, c) && TickIs(c, spacing, t)
    requires LowestIs(before, spacing, low) && HighestIs(before, spacing, high)
    requires !Initialized(after, c)
    ensures t != low ==> LowestIs(after, spacing, low)
    ensures t != high ==> HighestIs(after, spacing, high)
    ensures NoneBelow(after, spacing, low) && NoneAbove(after, spacing, high)
  {
    hide Initialized;
    var k: int :| Initialized(before, k) && k * spacing == low;
    var m: int :| Initialized(before, m) && m * spacing == high;
    assert k != c ==> Initialized(after, k);
    assert m != c ==> Initialized(after, m);
  }

  lemma BoundsSame(before: map<int, Chunk>, after: map<int, Chunk>, spacing: int, c: int, low: int, high: int)
    requires OnlyAt(before, after, c) && Initialized(before, c) == Initialized(after, c)
    requires LowestIs(before, spacing, low) && HighestIs(before, spacing, high)
    ensures LowestIs(after, spacing, low) && HighestIs(after, spacing, high)
  {
    hide Initialized;
    assert forall k: int :: Initialized(after, k) == Initialized(before, k);
  }

  /** Storage whose index and tick bounds are right. */
  ghost predicate TicksOk(store: TickStorage, spacing: int)
    reads store
  {
    && IndexOk(store.chunks, store.chunkBitmap, store.wordBitmap, spacing)
    && LowestIs(store.chunks, spacing, store.minInitTick)
    && HighestIs(store.chunks, spacing, store.maxInitTick)
  }

  /** Writes one tick into its chunk and brings both bitmap levels in step. */
  method WriteTick(store: TickStorage, c: int, t: TickData, spacing: int)
    requires IndexOk(store.chunks, store.chunkBitmap, store.wordBitmap, spacing)
    requires MIN_TICK <= c * spacing <= MAX_TICK
    modifies store`chunks, store`chunkBitmap, store`wordBitmap
    ensures IndexOk(store.chunks, store.chunkBitmap, store.wordBitmap, spacing)
    ensures forall k: int :: TickAt(store.chunks, k) == if k == c then t else TickAt(old(store.chunks), k)
    ensures OnlyAt(old(store.chunks), store.chunks, c)
  {
    hide InRange, Level2Ok, Level1Ok, BitAt;
    ghost var chunks, level1 := store.chunks, store.chunkBitmap;
    var (pos, slot) := ChunkAddress(c);
    var chunk := ChunkAt(store.chunks, pos);
    var wasInitialized := chunk[slot].gross > 0;
    chunk := chunk[slot := t];
    store.chunks := store.chunks[pos := chunk];
    OneTickWritten(chunks, c, t);
    InRangeFollows(chunks, store.chunks, spacing, c);
    BitsToSet(chunks, level1, pos, slot, chunk);
    if !wasInitialized && t.gross > 0 {
      UpdateChunkBitmapBit(store, pos, true);
    } else if wasInitialized && t.gross == 0 {
      var anyInit := ChunkHasInitialized(chunk);
      if !anyInit {
        UpdateChunkBitmapBit(store, pos, false);
      }
    }
    Level1Follows(chunks, level1, pos, chunk, store.chunkBitmap);
  }

  /** When the level-1 bit of a chunk needs no change. */
  lemma BitsToSet(chunks: map<int, Chunk>, level1: map<int, Word>, pos: int, slot: nat, chunk: Chunk)
    requires Level1Ok(chunks, level1) && slot < 16
    requires forall s | 0 <= s < 16 && s != slot :: chunk[s] == ChunkAt(chunks, pos)[s]
    ensures ChunkAt(chunks, pos)[slot].gross > 0 ==> BitAt(level1, pos)
    ensures chunk[slot].gross > 0 ==> exists s | 0 <= s < 16 :: chunk[s].gross > 0
    ensures (ChunkAt(chunks, pos)[slot].gross > 0) == (chunk[slot].gross > 0) ==>
      (BitAt(level1, pos) <==> exists s | 0 <= s < 16 :: chunk[s].gross > 0)
    ensures (exists s | 0 <= s < 16 && s != slot :: chunk[s].gross > 0) ==> BitAt(level1, pos)
  {
    hide BitAt;
    assert BitAt(level1, pos) <==> ChunkUsed(chunks, pos);
  }

  /** Moves the bounds of the initialized ticks when one tick has appeared or gone. */
  method UpdateBounds(store: TickStorage, ghost before: map<int, Chunk>, tickIdx: int, ghost c: int, spacing: int,
                      wasInitialized: bool, isInitialized: bool)
    requires IndexOk(store.chunks, store.chunkBitmap, store.wordBitmap, spacing)
    requires LowestIs(before, spacing, store.minInitTick) && HighestIs(before, spacing, store.maxInitTick)
    requires OnlyAt(before, store.chunks, c) && TickIs(c, spacing, tickIdx) && MIN_TICK <= tickIdx <= MAX_TICK && tickIdx % spacing == 0
    requires wasInitialized == Initialized(before, c) && isInitialized == Initialized(store.chunks, c)
    modifies store`minInitTick, store`maxInitTick
    ensures LowestIs(store.chunks, spacing, store.minInitTick) && HighestIs(store.chunks, spacing, store.maxInitTick)
  {
    hide IndexOk, LowestIs, HighestIs, OnlyAt, Initialized, TickIs, NoneAbove, NoneBelow;
    if !wasInitialized && isInitialized {
      BoundsGrow(before, store.chunks, spacing, c, tickIdx, store.minInitTick, store.maxInitTick);
      if tickIdx < store.minInitTick {
        store.minInitTick := tickIdx;
      }
      if tickIdx > store.maxInitTick {
        store.maxInitTick := tickIdx;
      }
    } else if wasInitialized && !isInitialized {
      BoundsStay(before, store.chunks, spacing, c, tickIdx, store.minInitTick, store.maxInitTick);
      if tickIdx == store.minInitTick {
        store.minInitTick := FindNextGlobalTick(store, tickIdx, spacing, false);
      }
      if tickIdx == store.maxInitTick {
        store.maxInitTick := FindNextGlobalTick(store, tickIdx, spacing, true);
      }
    } else {
      BoundsSame(before, store.chunks, spacing, c, store.minInitTick, store.maxInitTick);
    }
  }

  /** `update_tick_liquidity`: changes one tick and nothing else that a reader of ticks can
      see, and keeps the three-level index and both tick bounds exact. A failed check leaves
      storage as it was. */
  method UpdateTickLiquidity(store: TickStorage, tickIdx: int, delta: int, isUpper: bool, spacing: int, g: Globals)
    returns (ok: bool)
    requires TicksOk(store, spacing)
    requires MIN_TICK <= tickIdx <= MAX_TICK && tickIdx % spacing == 0
    modifies store
    ensures TicksOk(store, spacing)
    ensures var after := UpdatedTick(TickAt(old(store.chunks), tickIdx / spacing), tickIdx, delta, isUpper, spacing, g);
      && (ok <==> after.Some?)
      && forall k: int :: TickAt(store.chunks, k)
           == if ok && k == tickIdx / spacing then after.value else TickAt(old(store.chunks), k)
    ensures !ok ==> unchanged(store)
  {
    assert spacing > 0;
    hide IndexOk, LowestIs, HighestIs, OnlyAt, UpdatedTick, TickAt;
    var compressed := CompressTick(tickIdx, spacing);
    CompressIsFloor(tickIdx, spacing);
    ghost var chunks := store.chunks;
    var tick := TickAt(store.chunks, compressed);
    var after := UpdatedTick(tick, tickIdx, delta, isUpper, spacing, g);
    if after.None? {
      return false;
    }
    var wasInitialized := tick.gross > 0;
    var isInitialized := after.value.gross > 0;
    assert compressed * spacing == tickIdx;
    WriteTick(store, compressed, after.value, spacing);
    UpdateBounds(store, chunks, tickIdx, compressed, spacing, wasInitialized, isInitialized);
    return true;
  }
}
