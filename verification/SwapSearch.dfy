/** The swap loop's search for the next tick: `find_initialized_tick_in_word`
    (liquidity_pool_concentrated/src/contract/internal.rs). */
module SwapSearch {
  import opened Words
  import opened TickMath
  import opened Bitmap
  import opened ChunkStore
  import opened TickIndex
  import opened TickSearch
  import opened TickMaintenance

  /** Bounds beyond every legal compressed tick. */
  const LOW: int := -0x100000
  const HIGH: int := 0x100000

  /** Two stores with the same initialized ticks; they may differ in fee counters. */
  ghost predicate SameTicks(a: map<int, Chunk>, b: map<int, Chunk>)
  {
    forall c: int :: Initialized(a, c) == Initialized(b, c)
  }

  lemma {:induction false} SameScans(a: map<int, Chunk>, b: map<int, Chunk>, from: int, limit: int)
    requires SameTicks(a, b)
    ensures from >= limit ==> ScanDown(a, from, limit) == ScanDown(b, from, limit)
    ensures limit >= from ==> ScanUp(a, from, limit) == ScanUp(b, from, limit)
    decreases if from >= limit then from - limit else limit - from
  {
    hide Initialized;
    if from > limit {
      SameScans(a, b, from - 1, limit);
    } else if limit > from {
      SameScans(a, b, from + 1, limit);
    } else {
      assert ScanDown(a, from - 1, limit) == ScanDown(b, from - 1, limit) == None;
      assert ScanUp(a, from + 1, limit) == ScanUp(b, from + 1, limit) == None;
    }
  }

  /** The level-1 word of a compressed tick. */
  function WordOf(c: int): int
  {
    c / 16 / 256
  }

  /** Where the search starts: at the cursor downward, after it upward. */
  function Start(compressed: int, lte: bool): int
  {
    if lte then compressed else compressed + 1
  }

  /** The last compressed tick of the starting word in the search direction. */
  function WordEnd(compressed: int, lte: bool): int
  {
    var w := WordOf(Start(compressed, lte));
    if lte then w * 4096 else w * 4096 + 4095
  }

  /** The nearest initialized tick in the search direction, over all ticks. */
  function NearestAny(chunks: map<int, Chunk>, compressed: int, lte: bool): Option<int>
  {
    Nearest(chunks, compressed, if lte then LOW else HIGH, lte)
  }

  /** A nearest tick outside the starting word that is MIN_TICK or MAX_TICK itself: the
      search takes it for the sentinel that means an empty word. */
  predicate TakenForSentinel(c: int, from: int, spacing: int, lte: bool)
  {
    WordOf(c) != WordOf(from) && c * spacing == if lte then MIN_TICK else MAX_TICK
  }

  /** The tick the search makes of the nearest initialized compressed tick. */
  function SwapTick(c: Option<int>, from: int, spacing: int, lte: bool): Option<int>
  {
    if c.Some? && !TakenForSentinel(c.value, from, spacing, lte) then Some(c.value * spacing) else None
  }

  /** Downward: with no word marked in level 2's reach there is no tick left. */
  lemma NothingFurtherDown(chunks: map<int, Chunk>, level1: map<int, Word>, level2: map<int, Word>, spacing: int, from: int)
    requires IndexOk(chunks, level1, level2, spacing) && LOW <= from < HIGH
    requires NoneWithin(chunks, Max(LOW, from / 16 / 256 * 4096), from)
    requires PrevMarked(level2, from / 16 / 256, (from / 16 / 256 / 256 - 1) * 256, None)
    ensures ScanDown(chunks, from, LOW) == None
  {
    assert spacing > 0 && InRange(chunks, spacing);
    var word := from / 16 / 256;
    hide NoneWithin, InRange, Level1Ok, Level2Ok, BitAt, ScanDown;
    ScanDownNone(chunks, from, LOW);
    GapBelow(chunks, level1, level2, word);
    JoinDown(chunks, from, word);
    NothingBelow(chunks, spacing, from, LOW);
  }

  lemma GapBelow(chunks: map<int, Chunk>, level1: map<int, Word>, level2: map<int, Word>, word: int)
    requires Level1Ok(chunks, level1) && Level2Ok(level1, level2)
    requires PrevMarked(level2, word, (word / 256 - 1) * 256, None)
    ensures NoneWithin(chunks, (word / 256 - 1) * 256 * 4096, word * 4096 - 1)
  {
    hide NoneWithin, Level1Ok, Level2Ok, BitAt;
    GapOfWords(chunks, level1, level2, (word / 256 - 1) * 256, word);
  }

  lemma JoinDown(chunks: map<int, Chunk>, from: int, word: int)
    requires NoneWithin(chunks, Max(LOW, word * 4096), from)
    requires NoneWithin(chunks, (word / 256 - 1) * 256 * 4096, word * 4096 - 1)
    ensures NoneWithin(chunks, Max(LOW, (word / 256 - 1) * 256 * 4096), from)
  {
  }

  /** Otherwise the tick a linear scan finds is the top of the word level 2 leads to. */
  lemma NearestBelow(chunks: map<int, Chunk>, level1: map<int, Word>, level2: map<int, Word>, spacing: int, from: int, w: int)
    requires IndexOk(chunks, level1, level2, spacing) && LOW <= from < HIGH
    requires NoneWithin(chunks, Max(LOW, from / 16 / 256 * 4096), from)
    requires PrevMarked(level2, from / 16 / 256, (from / 16 / 256 / 256 - 1) * 256, Some(w))
    ensures TopIn(chunks, w).Some? && ScanDown(chunks, from, LOW) == TopIn(chunks, w)
    ensures WordOf(TopIn(chunks, w).value) == w < WordOf(from)
  {
    assert spacing > 0 && InRange(chunks, spacing);
    hide NoneWithin, InRange, Level1Ok, Level2Ok, BitAt, ScanDown;
    GapOfWords(chunks, level1, level2, w + 1, from / 16 / 256);
    WordHasTop(chunks, level1, level2, w);
    TopIsNearest(chunks, spacing, from, w);
  }

  lemma TopIsNearest(chunks: map<int, Chunk>, spacing: int, from: int, w: int)
    requires spacing > 0 && InRange(chunks, spacing) && LOW <= from && w < from / 16 / 256
    requires NoneWithin(chunks, Max(LOW, from / 16 / 256 * 4096), from)
    requires NoneWithin(chunks, (w + 1) * 4096, from / 16 / 256 * 4096 - 1)
    requires TopIn(chunks, w).Some?
    ensures ScanDown(chunks, from, LOW) == TopIn(chunks, w)
    ensures WordOf(TopIn(chunks, w).value) == w
  {
    var top := TopIn(chunks, w).value;
    ScanDownIsInitialized(chunks, w * 4096 + 4095, w * 4096);
    ScanDownHighest(chunks, w * 4096 + 4095, w * 4096);
    CompressedRange(top, spacing);
    ScanDownFinds(chunks, from, LOW, top);
  }

  lemma NothingFurtherUp(chunks: map<int, Chunk>, level1: map<int, Word>, level2: map<int, Word>, spacing: int, from: int)
    requires IndexOk(chunks, level1, level2, spacing) && LOW <= from < HIGH
    requires NoneWithin(chunks, from, Min(HIGH, from / 16 / 256 * 4096 + 4095))
    requires NextMarked(level2, from / 16 / 256, (from / 16 / 256 / 256 + 1) * 256 + 255, None)
    ensures ScanUp(chunks, from, HIGH) == None
  {
    assert spacing > 0 && InRange(chunks, spacing);
    var word := from / 16 / 256;
    hide NoneWithin, InRange, Level1Ok, Level2Ok, BitAt, ScanUp;
    ScanUpNone(chunks, from, HIGH);
    GapAbove(chunks, level1, level2, word);
    JoinUp(chunks, from, word);
    NothingAbove(chunks, spacing, from, HIGH);
  }

  lemma GapAbove(chunks: map<int, Chunk>, level1: map<int, Word>, level2: map<int, Word>, word: int)
    requires Level1Ok(chunks, level1) && Level2Ok(level1, level2)
    requires NextMarked(level2, word, (word / 256 + 1) * 256 + 255, None)
    ensures NoneWithin(chunks, (word + 1) * 4096, (word / 256 + 2) * 256 * 4096 - 1)
  {
    hide NoneWithin, Level1Ok, Level2Ok, BitAt;
    GapOfWords(chunks, level1, level2, word + 1, (word / 256 + 2) * 256);
  }

  lemma JoinUp(chunks: map<int, Chunk>, from: int, word: int)
    requires NoneWithin(chunks, from, Min(HIGH, word * 4096 + 4095))
    requires NoneWithin(chunks, (word + 1) * 4096, (word / 256 + 2) * 256 * 4096 - 1)
    ensures NoneWithin(chunks, from, Min(HIGH, (word / 256 + 2) * 256 * 4096 - 1))
  {
  }

  lemma NearestAbove(chunks: map<int, Chunk>, level1: map<int, Word>, level2: map<int, Word>, spacing: int, from: int, w: int)
    requires IndexOk(chunks, level1, level2, spacing) && LOW <= from < HIGH
    requires NoneWithin(chunks, from, Min(HIGH, from / 16 / 256 * 4096 + 4095))
    requires NextMarked(level2, from / 16 / 256, (from / 16 / 256 / 256 + 1) * 256 + 255, Some(w))
    ensures BottomIn(chunks, w).Some? && ScanUp(chunks, from, HIGH) == BottomIn(chunks, w)
    ensures WordOf(BottomIn(chunks, w).value) == w > WordOf(from)
  {
    assert spacing > 0 && InRange(chunks, spacing);
    hide NoneWithin, InRange, Level1Ok, Level2Ok, BitAt, ScanUp;
    GapOfWords(chunks, level1, level2, from / 16 / 256 + 1, w);
    WordHasTop(chunks, level1, level2, w);
    BottomIsNearest(chunks, spacing, from, w);
  }

  lemma BottomIsNearest(chunks: map<int, Chunk>, spacing: int, from: int, w: int)
    requires spacing > 0 && InRange(chunks, spacing) && from < HIGH && w > from / 16 / 256
    requires NoneWithin(chunks, from, Min(HIGH, from / 16 / 256 * 4096 + 4095))
    requires NoneWithin(chunks, (from / 16 / 256 + 1) * 4096, w * 4096 - 1)
    requires BottomIn(chunks, w).Some?
    ensures ScanUp(chunks, from, HIGH) == BottomIn(chunks, w)
    ensures WordOf(BottomIn(chunks, w).value) == w
  {
    var bottom := BottomIn(chunks, w).value;
    ScanUpIsInitialized(chunks, w * 4096, w * 4096 + 4095);
    ScanUpLowest(chunks, w * 4096, w * 4096 + 4095);
    CompressedRange(bottom, spacing);
    ScanUpFinds(chunks, from, HIGH, bottom);
  }

  /** What the search answers: the nearest initialized tick, except one taken for the
      sentinel; then, and when there is none, the end of the starting word. */
  function SearchAnswer(chunks: map<int, Chunk>, tick: int, spacing: int, lte: bool): (int, bool)
    requires spacing > 0
  {
    var compressed := tick / spacing;
    var t := SwapTick(NearestAny(chunks, compressed, lte), Start(compressed, lte), spacing, lte);
    (if t.Some? then t.value else CompressedToTick(WordEnd(compressed, lte), spacing), t.Some?)
  }

  ghost predicate Answer(chunks: map<int, Chunk>, tick: int, spacing: int, lte: bool, next: int, initialized: bool)
    requires spacing > 0
  {
    (next, initialized) == SearchAnswer(chunks, tick, spacing, lte)
  }

  /** The downward search of the swap loop, as a tick. */
  method SwapDown(store: TickStorage, cc: ChunkCache, from: int, spacing: int) returns (t: Option<int>)
    requires StoreOk(store, cc, spacing) && SameTicks(View(store, cc), store.chunks)
    requires IndexOk(store.chunks, store.chunkBitmap, store.wordBitmap, spacing)
    requires LOW <= from < HIGH
    modifies cc
    ensures View(store, cc) == old(View(store, cc)) && cc.dirty == old(cc.dirty) && old(cc.cache.Keys) <= cc.cache.Keys
    ensures t == SwapTick(ScanDown(store.chunks, from, LOW), from, spacing, true)
  {
    ghost var chunks := store.chunks;
    assert spacing > 0 && InRange(chunks, spacing);
    hide IndexOk, ScanDown, InRange, SameTicks, NoneWithin, WordOf, Initialized;
    SameScans(View(store, cc), chunks, from, LOW);
    SameGap(View(store, cc), chunks, Max(LOW, from / 16 / 256 * 4096), from);
    var c := FindDownInWord(store, cc, from, LOW, spacing);
    if c.None? {
      t := SwapDownBeyond(store, from, spacing);
    } else {
      ScanDownIsInitialized(chunks, from, LOW);
      InOwnWord(from, c.value);
      LegalTick(chunks, spacing, c.value);
      t := Some(CompressedToTick(c.value, spacing));
    }
  }

  method SwapDownBeyond(store: TickStorage, from: int, spacing: int) returns (t: Option<int>)
    requires IndexOk(store.chunks, store.chunkBitmap, store.wordBitmap, spacing)
    requires LOW <= from < HIGH
    requires NoneWithin(store.chunks, Max(LOW, from / 16 / 256 * 4096), from)
    ensures t == SwapTick(ScanDown(store.chunks, from, LOW), from, spacing, true)
  {
    hide IndexOk, ScanDown, TopIn, NoneWithin, PrevMarked, WordOf;
    var w := AdjacentWord(store.wordBitmap, from / 16 / 256, true);
    match w {
      case None =>
        NothingFurtherDown(store.chunks, store.chunkBitmap, store.wordBitmap, spacing, from);
        return None;
      case Some(word) =>
        NearestBelow(store.chunks, store.chunkBitmap, store.wordBitmap, spacing, from, word);
        var tick := ExtremeTickInBitmapWord(store, word, spacing, true);
        return if tick != MIN_TICK then Some(tick) else None;
    }
  }

  method SwapUp(store: TickStorage, cc: ChunkCache, from: int, spacing: int) returns (t: Option<int>)
    requires StoreOk(store, cc, spacing) && SameTicks(View(store, cc), store.chunks)
    requires IndexOk(store.chunks, store.chunkBitmap, store.wordBitmap, spacing)
    requires LOW <= from < HIGH
    modifies cc
    ensures View(store, cc) == old(View(store, cc)) && cc.dirty == old(cc.dirty) && old(cc.cache.Keys) <= cc.cache.Keys
    ensures t == SwapTick(ScanUp(store.chunks, from, HIGH), from, spacing, false)
  {
    ghost var chunks := store.chunks;
    assert spacing > 0 && InRange(chunks, spacing);
    hide IndexOk, ScanUp, InRange, SameTicks, NoneWithin, WordOf, Initialized;
    SameScans(View(store, cc), chunks, from, HIGH);
    SameGap(View(store, cc), chunks, from, Min(HIGH, from / 16 / 256 * 4096 + 4095));
    var c := FindUpInWord(store, cc, from, HIGH, spacing);
    if c.None? {
      t := SwapUpBeyond(store, from, spacing);
    } else {
      ScanUpIsInitialized(chunks, from, HIGH);
      InOwnWord(from, c.value);
      LegalTick(chunks, spacing, c.value);
      t := Some(CompressedToTick(c.value, spacing));
    }
  }

  method SwapUpBeyond(store: TickStorage, from: int, spacing: int) returns (t: Option<int>)
    requires IndexOk(store.chunks, store.chunkBitmap, store.wordBitmap, spacing)
    requires LOW <= from < HIGH
    requires NoneWithin(store.chunks, from, Min(HIGH, from / 16 / 256 * 4096 + 4095))
    ensures t == SwapTick(ScanUp(store.chunks, from, HIGH), from, spacing, false)
  {
    hide IndexOk, ScanUp, BottomIn, NoneWithin, NextMarked, WordOf;
    var w := AdjacentWord(store.wordBitmap, from / 16 / 256, false);
    match w {
      case None =>
        NothingFurtherUp(store.chunks, store.chunkBitmap, store.wordBitmap, spacing, from);
        return None;
      case Some(word) =>
        NearestAbove(store.chunks, store.chunkBitmap, store.wordBitmap, spacing, from, word);
        var tick := ExtremeTickInBitmapWord(store, word, spacing, false);
        return if tick != MAX_TICK then Some(tick) else None;
    }
  }

  lemma SameGap(a: map<int, Chunk>, b: map<int, Chunk>, low: int, high: int)
    requires SameTicks(a, b)
    ensures NoneWithin(a, low, high) == NoneWithin(b, low, high)
  {
  }

  lemma InOwnWord(from: int, c: int)
    requires from / 16 / 256 * 4096 <= c <= from || from <= c <= from / 16 / 256 * 4096 + 4095
    ensures WordOf(c) == WordOf(from)
  {
  }

  lemma LegalTick(chunks: map<int, Chunk>, spacing: int, c: int)
    requires spacing > 0 && InRange(chunks, spacing) && Initialized(chunks, c)
    ensures CompressedToTick(c, spacing) == c * spacing
  {
    CompressRoundTrip(c, spacing);
  }

  /** `find_initialized_tick_in_word`. Chunks already in the cache are read there, the ones
      level 2 leads to in storage. */
  method FindInitializedTickInWord(store: TickStorage, cc: ChunkCache, tick: int, spacing: int, lte: bool)
    returns (next: int, initialized: bool)
    requires StoreOk(store, cc, spacing) && SameTicks(View(store, cc), store.chunks)
    requires IndexOk(store.chunks, store.chunkBitmap, store.wordBitmap, spacing)
    requires MIN_TICK <= tick <= MAX_TICK
    modifies cc
    ensures View(store, cc) == old(View(store, cc)) && cc.dirty == old(cc.dirty) && old(cc.cache.Keys) <= cc.cache.Keys
    ensures Answer(store.chunks, tick, spacing, lte, next, initialized)
  {
    assert spacing > 0;
    hide IndexOk, SameTicks;
    var compressed := CompressTick(tick, spacing);
    CompressIsFloor(tick, spacing);
    FloorInBounds(tick, spacing);
    var t: Option<int>;
    if lte {
      t := SwapDown(store, cc, compressed, spacing);
    } else {
      t := SwapUp(store, cc, SatI32(compressed + 1), spacing);
    }
    match t {
      case Some(found) =>
        return found, true;
      case None =>
        var word := Start(compressed, lte) / 16 / 256;
        return CompressedToTick(if lte then word * 4096 else word * 4096 + 4095, spacing), false;
    }
  }

  lemma FloorInBounds(tick: int, spacing: int)
    requires spacing > 0 && MIN_TICK <= tick <= MAX_TICK
    ensures MIN_TICK <= tick / spacing <= MAX_TICK
  {
    FloorGalois(MIN_TICK, tick, spacing);
    FloorGalois(MAX_TICK + 1, tick, spacing);
    MulMono(1, spacing, MAX_TICK + 1);
    assert MIN_TICK * spacing <= MIN_TICK;
  }

  // ------------------------------------------------------- against the plain search

  /** The search answers the tick a linear scan finds, and says it is initialized, exactly
      unless that tick is taken for the sentinel. */
  lemma DisagreesOnlyAtSentinel(chunks: map<int, Chunk>, tick: int, spacing: int, lte: bool, next: int, initialized: bool)
    requires spacing > 0 && Answer(chunks, tick, spacing, lte, next, initialized)
    ensures var compressed := tick / spacing;
      var c := NearestAny(chunks, compressed, lte);
      (if c.Some? then initialized && next == c.value * spacing else !initialized)
        <==> !(c.Some? && TakenForSentinel(c.value, Start(compressed, lte), spacing, lte))
  {
  }

  /** The end of the starting word, as a tick within the bounds, lies in the search direction
      and stays on the cursor's side of every tick beyond the word. */
  lemma EndOfWord(tick: int, spacing: int, lte: bool)
    requires spacing > 0 && MIN_TICK <= tick <= MAX_TICK
    ensures var end := CompressedToTick(WordEnd(tick / spacing, lte), spacing);
      && MIN_TICK <= end <= MAX_TICK
      && if lte then end <= tick else end > tick || tick == MAX_TICK
  {
    var compressed := tick / spacing;
    var e := WordEnd(compressed, lte);
    FloorInBounds(tick, spacing);
    FloorBounds(tick, spacing);
    if lte {
      MulMono(e, compressed, spacing);
    } else {
      MulMono(compressed + 1, e, spacing);
      Remainder(tick, spacing);
    }
  }

  /** The end of the starting word falls short of a tick taken for the sentinel. */
  lemma SentinelIsBeyond(c: int, tick: int, spacing: int, lte: bool)
    requires spacing > 0 && MIN_TICK <= tick <= MAX_TICK
    requires var from := Start(tick / spacing, lte);
      TakenForSentinel(c, from, spacing, lte) && if lte then c <= from else c >= from
    ensures var end := CompressedToTick(WordEnd(tick / spacing, lte), spacing);
      if lte then end > MIN_TICK else end < MAX_TICK
  {
    hide WordEnd, WordOf, CompressedToTick;
    var e := WordEnd(tick / spacing, lte);
    PastWordEnd(c, tick / spacing, lte);
    ClampKeepsSide(e, spacing);
    if lte {
      MulMono(c + 1, e, spacing);
    } else {
      MulMono(e + 1, c, spacing);
    }
  }

  lemma ClampKeepsSide(c: int, spacing: int)
    ensures c * spacing > MIN_TICK ==> CompressedToTick(c, spacing) > MIN_TICK
    ensures c * spacing < MAX_TICK ==> CompressedToTick(c, spacing) < MAX_TICK
  {
  }

  lemma PastWordEnd(c: int, compressed: int, lte: bool)
    requires WordOf(c) != WordOf(Start(compressed, lte))
    requires if lte then c <= compressed else c >= compressed + 1
    ensures if lte then c < WordEnd(compressed, lte) else c > WordEnd(compressed, lte)
  {
  }

  /** Whatever the search answers, no initialized tick lies between the cursor and the
      answer, and the answer is initialized only if it says so. */
  lemma SkipsNothingDown(chunks: map<int, Chunk>, tick: int, spacing: int, next: int, initialized: bool)
    requires spacing > 0 && MIN_TICK <= tick <= MAX_TICK && InRange(chunks, spacing)
    requires Answer(chunks, tick, spacing, true, next, initialized)
    ensures MIN_TICK <= next <= tick
    ensures initialized ==> exists c: int :: Initialized(chunks, c) && c * spacing == next
    ensures forall c: int | Initialized(chunks, c) && c * spacing <= tick :: c * spacing <= next && (c * spacing == next ==> initialized)
  {
    hide NearestAny, TakenForSentinel, CompressedToTick, WordEnd, Initialized, InRange;
    EndOfWord(tick, spacing, true);
    NearestBounds(chunks, tick, spacing, true);
    var nearest := NearestAny(chunks, tick / spacing, true);
    forall c: int | Initialized(chunks, c) && c * spacing <= tick
      ensures c * spacing <= next && (c * spacing == next ==> initialized)
    {
      NearestCovers(chunks, tick, spacing, c, true);
      if !initialized {
        SentinelIsBeyond(nearest.value, tick, spacing, true);
        SentinelTick(nearest.value, tick / spacing, spacing, true);
      }
    }
  }

  lemma SkipsNothingUp(chunks: map<int, Chunk>, tick: int, spacing: int, next: int, initialized: bool)
    requires spacing > 0 && MIN_TICK <= tick < MAX_TICK && InRange(chunks, spacing)
    requires Answer(chunks, tick, spacing, false, next, initialized)
    ensures tick < next <= MAX_TICK
    ensures initialized ==> exists c: int :: Initialized(chunks, c) && c * spacing == next
    ensures forall c: int | Initialized(chunks, c) && c * spacing > tick :: c * spacing >= next && (c * spacing == next ==> initialized)
  {
    hide NearestAny, TakenForSentinel, CompressedToTick, WordEnd, Initialized, InRange;
    EndOfWord(tick, spacing, false);
    NearestBounds(chunks, tick, spacing, false);
    var nearest := NearestAny(chunks, tick / spacing, false);
    forall c: int | Initialized(chunks, c) && c * spacing > tick
      ensures c * spacing >= next && (c * spacing == next ==> initialized)
    {
      NearestCovers(chunks, tick, spacing, c, false);
      if !initialized {
        SentinelIsBeyond(nearest.value, tick, spacing, false);
        SentinelTick(nearest.value, tick / spacing + 1, spacing, false);
      }
    }
  }

  lemma SentinelTick(c: int, from: int, spacing: int, lte: bool)
    requires TakenForSentinel(c, from, spacing, lte)
    ensures c * spacing == if lte then MIN_TICK else MAX_TICK
  {
  }

  lemma NearestBounds(chunks: map<int, Chunk>, tick: int, spacing: int, lte: bool)
    requires spacing > 0 && InRange(chunks, spacing)
    ensures var c := NearestAny(chunks, tick / spacing, lte);
      c.Some? ==>
        && Initialized(chunks, c.value) && MIN_TICK <= c.value * spacing <= MAX_TICK
        && (if lte then c.value <= tick / spacing else c.value > tick / spacing)
        && if lte then c.value * spacing <= tick else c.value * spacing > tick
  {
    var c := NearestAny(chunks, tick / spacing, lte);
    NearestIsInitialized(chunks, tick / spacing, if lte then LOW else HIGH, lte);
    if c.Some? {
      FloorGalois(c.value, tick, spacing);
    }
  }

  lemma NearestCovers(chunks: map<int, Chunk>, tick: int, spacing: int, c: int, lte: bool)
    requires spacing > 0 && InRange(chunks, spacing) && Initialized(chunks, c)
    requires if lte then c * spacing <= tick else c * spacing > tick
    ensures var nearest := NearestAny(chunks, tick / spacing, lte);
      nearest.Some? && if lte then c * spacing <= nearest.value * spacing else c * spacing >= nearest.value * spacing
  {
    var compressed := tick / spacing;
    FloorGalois(c, tick, spacing);
    CompressedRange(c, spacing);
    var nearest := NearestAny(chunks, compressed, lte);
    if lte {
      ScanDownNone(chunks, compressed, LOW);
      ScanDownHighest(chunks, compressed, LOW);
      MulMono(c, nearest.value, spacing);
    } else {
      ScanUpNone(chunks, compressed + 1, HIGH);
      ScanUpLowest(chunks, compressed + 1, HIGH);
      MulMono(nearest.value, c, spacing);
    }
  }
}
