/** Updates of the tick index when liquidity is added or removed, and the search for the bounds
    of the initialized ticks (liquidity_pool_concentrated/src/contract/internal.rs). */
module TickMaintenance {
  import opened Words
  import opened TickMath
  import opened Bitmap
  import opened ChunkStore
  import opened TickIndex
  import opened TickSearch

  // ------------------------------------------------------------ one bitmap bit

  /** `update_chunk_bitmap_bit`: sets one level-1 bit and keeps level 2 in step. */
  method UpdateChunkBitmapBit(store: TickStorage, pos: int, hasInitialized: bool)
    requires Level2Ok(store.chunkBitmap, store.wordBitmap)
    modifies store`chunkBitmap, store`wordBitmap
    ensures Level2Ok(store.chunkBitmap, store.wordBitmap)
    ensures forall q: int :: BitAt(store.chunkBitmap, q) <==>
      if q == pos then hasInitialized else BitAt(old(store.chunkBitmap), q)
  {
    hide BitAt, Level2Ok, WithBit;
    var (w, bit) := (pos / 256, pos % 256);
    ghost var level1, level2 := store.chunkBitmap, store.wordBitmap;
    var before := WordAt(store.chunkBitmap, w);
    var after := FlipBit(before, bit, hasInitialized);
    store.chunkBitmap := store.chunkBitmap[w := after];
    OneBitChanged(level1, pos, hasInitialized);
    if (before == ZERO_WORD) != (after == ZERO_WORD) {
      var (w2, bit2) := (w / 256, w % 256);
      var word2 := FlipBit(WordAt(store.wordBitmap, w2), bit2, after != ZERO_WORD);
      store.wordBitmap := store.wordBitmap[w2 := word2];
      OneBitChanged(level2, w, after != ZERO_WORD);
    }
    Level2Follows(level1, level2, w, after, store.chunkBitmap, store.wordBitmap);
  }

  /** One bit of a word, through the in-place operation on a byte array. */
  method FlipBit(word: Word, bit: nat, value: bool) returns (r: Word)
    requires bit < 256
    ensures r == WithBit(word, bit, value)
  {
    var bytes := new bv8[32](i requires 0 <= i < 32 => word[i]);
    assert bytes[..] == word;
    SetBit(bytes, bit, value);
    r := bytes[..];
  }

  lemma OneBitChanged(words: map<int, Word>, pos: int, value: bool)
    ensures var words' := words[pos / 256 := WithBit(WordAt(words, pos / 256), pos % 256, value)];
      forall q: int :: BitAt(words', q) <==> if q == pos then value else BitAt(words, q)
  {
    var words' := words[pos / 256 := WithBit(WordAt(words, pos / 256), pos % 256, value)];
    forall q: int
      ensures BitAt(words', q) <==> if q == pos then value else BitAt(words, q)
    {
      if q / 256 == pos / 256 {
        WithBitSetsOne(WordAt(words, pos / 256), pos % 256, value, q % 256);
        assert q == pos <==> q % 256 == pos % 256;
      }
    }
  }

  lemma Level2Follows(level1: map<int, Word>, level2: map<int, Word>, w: int, after: Word,
                      level1': map<int, Word>, level2': map<int, Word>)
    requires Level2Ok(level1, level2) && level1' == level1[w := after]
    requires var before := WordAt(level1, w);
      if (before == ZERO_WORD) == (after == ZERO_WORD) then level2' == level2
      else forall q: int :: BitAt(level2', q) <==> if q == w then after != ZERO_WORD else BitAt(level2, q)
    ensures Level2Ok(level1', level2')
  {
    hide BitAt;
    forall q: int
      ensures BitAt(level2', q) <==> WordAt(level1', q) != ZERO_WORD
    {
      assert BitAt(level2, q) <==> WordAt(level1, q) != ZERO_WORD;
    }
  }

  // ----------------------------------------------------------- extreme of a word

  /** `scan_chunk_highest_init`: no limit applies, whatever the chunk's place. */
  method ScanChunkHighestInit(chunk: Chunk, ghost base: int, ghost limit: int) returns (r: Option<nat>)
    requires limit <= base
    ensures TopSlot(chunk, base, 15, limit, r)
  {
    r := ScanSlotsDown(chunk, 0, 15, 0);
  }

  method ScanChunkLowestInit(chunk: Chunk, ghost base: int, ghost limit: int) returns (r: Option<nat>)
    requires limit >= base + 15
    ensures BottomSlot(chunk, base, 0, limit, r)
  {
    r := ScanSlotsUp(chunk, 0, 0, 15);
  }

  /** `extreme_tick_in_bitmap_word`: the highest or lowest initialized tick of a level-1
      word, or a sentinel. */
  method ExtremeTickInBitmapWord(store: TickStorage, w: int, spacing: int, highest: bool) returns (tick: int)
    requires IndexOk(store.chunks, store.chunkBitmap, store.wordBitmap, spacing)
    ensures highest ==> tick == TickOr(TopIn(store.chunks, w), spacing, MIN_TICK)
    ensures !highest ==> tick == TickOr(BottomIn(store.chunks, w), spacing, MAX_TICK)
  {
    var c: Option<int>;
    if highest {
      c := HighestInWord(store, w, spacing);
      ScanDownIsInitialized(store.chunks, w * 4096 + 4095, w * 4096);
    } else {
      c := LowestInWord(store, w, spacing);
      ScanUpIsInitialized(store.chunks, w * 4096, w * 4096 + 4095);
    }
    match c {
      case Some(compressed) =>
        CompressRoundTrip(compressed, spacing);
        return CompressedToTick(compressed, spacing);
      case None =>
        return if highest then MIN_TICK else MAX_TICK;
    }
  }

  /** Highest and lowest initialized compressed tick that a level-1 word covers. */
  function TopIn(chunks: map<int, Chunk>, w: int): Option<int>
  {
    ScanDown(chunks, w * 4096 + 4095, w * 4096)
  }

  function BottomIn(chunks: map<int, Chunk>, w: int): Option<int>
  {
    ScanUp(chunks, w * 4096, w * 4096 + 4095)
  }

  /** The tick of a compressed tick, or a sentinel. */
  function TickOr(c: Option<int>, spacing: int, sentinel: int): int
  {
    match c
    case Some(compressed) => compressed * spacing
    case None => sentinel
  }

  /** The highest used chunk of a level-1 word; nothing above it is initialized. */
  method HighestUsedChunk(store: TickStorage, w: int, spacing: int) returns (p: Option<int>)
    requires IndexOk(store.chunks, store.chunkBitmap, store.wordBitmap, spacing)
    ensures p.Some? ==> w * 256 <= p.value < w * 256 + 256 && ChunkUsed(store.chunks, p.value)
    ensures NoneWithin(store.chunks, if p.Some? then p.value * 16 + 16 else w * 4096, w * 4096 + 4095)
  {
    p := HighestMarked(store.chunkBitmap, w);
    var low := if p.Some? then p.value + 1 else w * 256;
    GapUnused(store.chunks, store.chunkBitmap, low, w * 256 + 256);
    hide NoneWithin;
    Narrow(store.chunks, low * 16, (w * 256 + 256) * 16 - 1, low * 16, w * 4096 + 4095);
    if p.Some? {
      Narrow(store.chunks, low * 16, w * 4096 + 4095, p.value * 16 + 16, w * 4096 + 4095);
      MarkedIsUsed(store.chunks, store.chunkBitmap, p.value);
    } else {
      Narrow(store.chunks, low * 16, w * 4096 + 4095, w * 4096, w * 4096 + 4095);
    }
  }

  method LowestUsedChunk(store: TickStorage, w: int, spacing: int) returns (p: Option<int>)
    requires IndexOk(store.chunks, store.chunkBitmap, store.wordBitmap, spacing)
    ensures p.Some? ==> w * 256 <= p.value < w * 256 + 256 && ChunkUsed(store.chunks, p.value)
    ensures NoneWithin(store.chunks, w * 4096, if p.Some? then p.value * 16 - 1 else w * 4096 + 4095)
  {
    p := LowestMarked(store.chunkBitmap, w);
    var high := if p.Some? then p.value else w * 256 + 256;
    GapUnused(store.chunks, store.chunkBitmap, w * 256, high);
    hide NoneWithin;
    Narrow(store.chunks, w * 256 * 16, high * 16 - 1, w * 4096, high * 16 - 1);
    if p.Some? {
      MarkedIsUsed(store.chunks, store.chunkBitmap, p.value);
    } else {
      Narrow(store.chunks, w * 4096, high * 16 - 1, w * 4096, w * 4096 + 4095);
    }
  }

  method HighestInWord(store: TickStorage, w: int, spacing: int) returns (c: Option<int>)
    requires IndexOk(store.chunks, store.chunkBitmap, store.wordBitmap, spacing)
    ensures c == TopIn(store.chunks, w)
  {
    hide NoneWithin, IndexOk, ScanDown, ChunkUsed, TopSlot, ChunkAt;
    ghost var chunks, from, limit := store.chunks, w * 4096 + 4095, w * 4096;
    ScanDownNone(chunks, from, limit);
    var p := HighestUsedChunk(store, w, spacing);
    if p.None? {
      return None;
    }
    var pos := p.value;
    var s := ScanChunkHighestInit(ChunkAt(store.chunks, pos), pos * 16, limit);
    Narrow(chunks, pos * 16 + 16, from, Max(limit, pos * 16 + 16), from);
    DownInChunk(chunks, from, limit, pos, 15, s);
    return if s.Some? then Some(pos * 16 + s.value) else None;
  }

  method LowestInWord(store: TickStorage, w: int, spacing: int) returns (c: Option<int>)
    requires IndexOk(store.chunks, store.chunkBitmap, store.wordBitmap, spacing)
    ensures c == BottomIn(store.chunks, w)
  {
    hide NoneWithin, IndexOk, ScanUp, ChunkUsed, BottomSlot, ChunkAt;
    ghost var chunks, from, limit := store.chunks, w * 4096, w * 4096 + 4095;
    ScanUpNone(chunks, from, limit);
    var p := LowestUsedChunk(store, w, spacing);
    if p.None? {
      return None;
    }
    var pos := p.value;
    var s := ScanChunkLowestInit(ChunkAt(store.chunks, pos), pos * 16, limit);
    Narrow(chunks, from, pos * 16 - 1, from, Min(limit, pos * 16 - 1));
    UpInChunk(chunks, from, limit, pos, 0, s);
    return if s.Some? then Some(pos * 16 + s.value) else None;
  }

  lemma ScanDownIsInitialized(chunks: map<int, Chunk>, from: int, limit: int)
    ensures var c := ScanDown(chunks, from, limit);
      c.Some? ==> Initialized(chunks, c.value) && limit <= c.value <= from
  {
    NearestIsInitialized(chunks, from, limit, true);
  }

  lemma ScanUpIsInitialized(chunks: map<int, Chunk>, from: int, limit: int)
    ensures var c := ScanUp(chunks, from, limit);
      c.Some? ==> Initialized(chunks, c.value) && from <= c.value <= limit
  {
    NearestIsInitialized(chunks, from - 1, limit, false);
  }

  // --------------------------------------------------- lowest and highest tick

  /** `t` is the highest initialized tick, or the sentinel MIN_TICK when there is none. */
  ghost predicate HighestIs(chunks: map<int, Chunk>, spacing: int, t: int)
  {
    && (forall c: int | Initialized(chunks, c) :: c * spacing <= t)
    && ((exists c: int :: Initialized(chunks, c) && c * spacing == t)
        || (t == MIN_TICK && forall c: int :: !Initialized(chunks, c)))
  }

  /** `t` is the lowest initialized tick, or the sentinel MAX_TICK when there is none. */
  ghost predicate LowestIs(chunks: map<int, Chunk>, spacing: int, t: int)
  {
    && (forall c: int | Initialized(chunks, c) :: t <= c * spacing)
    && ((exists c: int :: Initialized(chunks, c) && c * spacing == t)
        || (t == MAX_TICK && forall c: int :: !Initialized(chunks, c)))
  }

  ghost predicate AllAtMost(chunks: map<int, Chunk>, x: int)
  {
    forall c: int | Initialized(chunks, c) :: c <= x
  }

  ghost predicate AllAtLeast(chunks: map<int, Chunk>, x: int)
  {
    forall c: int | Initialized(chunks, c) :: c >= x
  }

  lemma HighestFound(chunks: map<int, Chunk>, spacing: int, from: int, limit: int)
    requires spacing > 0 && AllAtMost(chunks, from) && ScanDown(chunks, from, limit).Some?
    ensures HighestIs(chunks, spacing, ScanDown(chunks, from, limit).value * spacing)
    ensures AllAtMost(chunks, ScanDown(chunks, from, limit).value)
  {
    ScanDownHighest(chunks, from, limit);
    ScanDownIsInitialized(chunks, from, limit);
    var top := ScanDown(chunks, from, limit).value;
    forall c: int | Initialized(chunks, c)
      ensures c <= top && c * spacing <= top * spacing
    {
      MulMono(c, top, spacing);
    }
  }

  lemma LowestFound(chunks: map<int, Chunk>, spacing: int, from: int, limit: int)
    requires spacing > 0 && AllAtLeast(chunks, from) && ScanUp(chunks, from, limit).Some?
    ensures LowestIs(chunks, spacing, ScanUp(chunks, from, limit).value * spacing)
    ensures AllAtLeast(chunks, ScanUp(chunks, from, limit).value)
  {
    ScanUpLowest(chunks, from, limit);
    ScanUpIsInitialized(chunks, from, limit);
    var low := ScanUp(chunks, from, limit).value;
    forall c: int | Initialized(chunks, c)
      ensures low <= c && low * spacing <= c * spacing
    {
      MulMono(low, c, spacing);
    }
  }

  lemma {:induction false} ScanDownHighest(chunks: map<int, Chunk>, from: int, limit: int)
    ensures var c := ScanDown(chunks, from, limit);
      c.Some? ==> NoneWithin(chunks, c.value + 1, from)
    decreases from - limit
  {
    if from >= limit && !Initialized(chunks, from) {
      ScanDownHighest(chunks, from - 1, limit);
    }
  }

  lemma {:induction false} ScanUpLowest(chunks: map<int, Chunk>, from: int, limit: int)
    ensures var c := ScanUp(chunks, from, limit);
      c.Some? ==> NoneWithin(chunks, from, c.value - 1)
    decreases limit - from
  {
    if from <= limit && !Initialized(chunks, from) {
      ScanUpLowest(chunks, from + 1, limit);
    }
  }

  /** The tick at a sentinel is the last one: nothing is initialized beyond it. */
  lemma NothingPastMin(chunks: map<int, Chunk>, spacing: int, c: int)
    requires spacing > 0 && InRange(chunks, spacing) && c * spacing == MIN_TICK
    ensures AllAtLeast(chunks, c)
  {
    forall k: int | Initialized(chunks, k)
      ensures k >= c
    {
      if k < c {
        MulMono(k + 1, c, spacing);
      }
    }
  }

  lemma NothingPastMax(chunks: map<int, Chunk>, spacing: int, c: int)
    requires spacing > 0 && InRange(chunks, spacing) && c * spacing == MAX_TICK
    ensures AllAtMost(chunks, c)
  {
    forall k: int | Initialized(chunks, k)
      ensures k <= c
    {
      if k > c {
        MulMono(c + 1, k, spacing);
      }
    }
  }

  /** A word's highest tick, when it is not the sentinel, is the highest of all. */
  lemma TopOfWord(chunks: map<int, Chunk>, spacing: int, from: int, w: int, tick: int)
    requires spacing > 0 && AllAtMost(chunks, from) && from <= w * 4096 + 4095
    requires tick == TickOr(TopIn(chunks, w), spacing, MIN_TICK)
    ensures TopIn(chunks, w).Some? || tick != MIN_TICK ==> HighestIs(chunks, spacing, tick)
  {
    hide AllAtMost, HighestIs, ScanDown;
    WidenTop(chunks, from, w * 4096 + 4095);
    if TopIn(chunks, w).Some? {
      HighestFound(chunks, spacing, w * 4096 + 4095, w * 4096);
    }
  }

  lemma BottomOfWord(chunks: map<int, Chunk>, spacing: int, from: int, w: int, tick: int)
    requires spacing > 0 && AllAtLeast(chunks, from) && from >= w * 4096
    requires tick == TickOr(BottomIn(chunks, w), spacing, MAX_TICK)
    ensures BottomIn(chunks, w).Some? || tick != MAX_TICK ==> LowestIs(chunks, spacing, tick)
  {
    hide AllAtLeast, LowestIs, ScanUp;
    WidenBottom(chunks, from, w * 4096);
    if BottomIn(chunks, w).Some? {
      LowestFound(chunks, spacing, w * 4096, w * 4096 + 4095);
    }
  }

  /** `find_next_global_tick` downward, called when no initialized tick lies above `from`:
      the highest tick that remains. */
  method NextGlobalTickDown(store: TickStorage, from: int, spacing: int) returns (tick: int)
    requires IndexOk(store.chunks, store.chunkBitmap, store.wordBitmap, spacing)
    requires MIN_TICK <= from <= MAX_TICK && AllAtMost(store.chunks, from)
    ensures HighestIs(store.chunks, spacing, tick)
  {
    assert spacing > 0;
    hide AllAtMost, HighestIs, TopIn, IndexOk;
    ghost var chunks := store.chunks;
    var word := from / 16 / 256;
    tick := ExtremeTickInBitmapWord(store, word, spacing, true);
    TopOfWord(chunks, spacing, from, word, tick);
    if tick != MIN_TICK {
      return;
    }
    var w := AdjacentWord(store.wordBitmap, word, true);
    NoneBelowMin(chunks, store.chunkBitmap, store.wordBitmap, spacing, from, word, w);
    match w {
      case Some(adjacent) =>
        tick := ExtremeTickInBitmapWord(store, adjacent, spacing, true);
        TopOfWord(chunks, spacing, adjacent * 4096 + 4095, adjacent, tick);
      case None =>
        tick := MIN_TICK;
    }
  }

  /** Nothing in a stretch below the current top lowers the top. */
  lemma LowerTop(chunks: map<int, Chunk>, top: int, low: int)
    requires AllAtMost(chunks, top) && NoneWithin(chunks, low, top)
    ensures AllAtMost(chunks, low - 1)
  {
  }

  lemma RaiseBottom(chunks: map<int, Chunk>, bottom: int, high: int)
    requires AllAtLeast(chunks, bottom) && NoneWithin(chunks, bottom, high)
    ensures AllAtLeast(chunks, high + 1)
  {
  }

  lemma WidenTop(chunks: map<int, Chunk>, top: int, top': int)
    requires AllAtMost(chunks, top) && top <= top'
    ensures AllAtMost(chunks, top')
  {
  }

  lemma WidenBottom(chunks: map<int, Chunk>, bottom: int, bottom': int)
    requires AllAtLeast(chunks, bottom) && bottom' <= bottom
    ensures AllAtLeast(chunks, bottom')
  {
  }

  /** A top below every legal tick leaves none. */
  lemma NoneAtAll(chunks: map<int, Chunk>, spacing: int, x: int)
    requires spacing > 0 && InRange(chunks, spacing)
    requires (x < MIN_TICK && AllAtMost(chunks, x)) || (x > MAX_TICK && AllAtLeast(chunks, x))
    ensures forall c: int :: !Initialized(chunks, c)
    ensures HighestIs(chunks, spacing, MIN_TICK) && LowestIs(chunks, spacing, MAX_TICK)
  {
    forall c: int
      ensures !Initialized(chunks, c)
    {
      if Initialized(chunks, c) {
        CompressedRange(c, spacing);
      }
    }
  }

  lemma UsedChunkHasTick(chunks: map<int, Chunk>, pos: int) returns (c: int)
    requires ChunkUsed(chunks, pos)
    ensures pos * 16 <= c < pos * 16 + 16 && Initialized(chunks, c)
  {
    var s :| 0 <= s < 16 && ChunkAt(chunks, pos)[s].gross > 0;
    c := pos * 16 + s;
    SlotsAreTicks(chunks, pos, s);
  }

  /** A marked level-1 word holds an initialized tick. */
  lemma MarkedWordHasTick(chunks: map<int, Chunk>, level1: map<int, Word>, level2: map<int, Word>, w: int) returns (c: int)
    requires Level1Ok(chunks, level1) && Level2Ok(level1, level2) && BitAt(level2, w)
    ensures w * 4096 <= c < w * 4096 + 4096 && Initialized(chunks, c)
  {
    hide Initialized, BitAt, ChunkUsed, Level1Ok, Level2Ok;
    var pos := MarkedWordHasChunk(level1, level2, w);
    MarkedIsUsed(chunks, level1, pos);
    c := UsedChunkHasTick(chunks, pos);
  }

  /** A downward scan of a word that finds nothing, or finds the tick at MIN_TICK, leaves
      nothing that matters in or above the word. */
  lemma NoneBelowMin(chunks: map<int, Chunk>, level1: map<int, Word>, level2: map<int, Word>, spacing: int,
                     from: int, word: int, w: Option<int>)
    requires IndexOk(chunks, level1, level2, spacing)
    requires word == from / 16 / 256 && MIN_TICK <= from <= MAX_TICK && AllAtMost(chunks, from)
    requires var here := TopIn(chunks, word);
      here.Some? ==> here.value * spacing == MIN_TICK
    requires PrevMarked(level2, word, (word / 256 - 1) * 256, w)
    ensures w.None? ==> HighestIs(chunks, spacing, MIN_TICK)
    ensures w.Some? ==> AllAtMost(chunks, w.value * 4096 + 4095)
    ensures w.Some? ==> TopIn(chunks, w.value).Some?
  {
    var here := TopIn(chunks, word);
    hide AllAtMost, AllAtLeast, NoneWithin, HighestIs, LowestIs, ScanDown, BitAt, Level1Ok, Level2Ok, InRange;
    WidenTop(chunks, from, word * 4096 + 4095);
    if here.Some? {
      MinEndsSearch(chunks, level1, level2, spacing, word, w);
    } else {
      ScanDownNone(chunks, word * 4096 + 4095, word * 4096);
      LowerTop(chunks, word * 4096 + 4095, word * 4096);
      if w.None? {
        GapOfWords(chunks, level1, level2, (word / 256 - 1) * 256, word);
        LowerTop(chunks, word * 4096 - 1, (word / 256 - 1) * 256 * 4096);
        NoneAtAll(chunks, spacing, (word / 256 - 1) * 256 * 4096 - 1);
      } else {
        GapOfWords(chunks, level1, level2, w.value + 1, word);
        LowerTop(chunks, word * 4096 - 1, (w.value + 1) * 4096);
        WidenTop(chunks, (w.value + 1) * 4096 - 1, w.value * 4096 + 4095);
        WordHasTop(chunks, level1, level2, w.value);
      }
    }
  }

  lemma WordHasTop(chunks: map<int, Chunk>, level1: map<int, Word>, level2: map<int, Word>, w: int)
    requires Level1Ok(chunks, level1) && Level2Ok(level1, level2) && BitAt(level2, w)
    ensures TopIn(chunks, w).Some?
    ensures BottomIn(chunks, w).Some?
  {
    hide Level1Ok, Level2Ok, BitAt;
    var c := MarkedWordHasTick(chunks, level1, level2, w);
    ScanDownNone(chunks, w * 4096 + 4095, w * 4096);
    ScanUpNone(chunks, w * 4096, w * 4096 + 4095);
  }

  /** When the word's highest tick is MIN_TICK itself, no lower word is marked. */
  lemma MinEndsSearch(chunks: map<int, Chunk>, level1: map<int, Word>, level2: map<int, Word>, spacing: int,
                      word: int, w: Option<int>)
    requires IndexOk(chunks, level1, level2, spacing) && AllAtMost(chunks, word * 4096 + 4095)
    requires var here := TopIn(chunks, word);
      here.Some? && here.value * spacing == MIN_TICK
    requires w.Some? ==> w.value < word && BitAt(level2, w.value)
    ensures w.None? && HighestIs(chunks, spacing, MIN_TICK)
  {
    var here := TopIn(chunks, word).value;
    ScanDownIsInitialized(chunks, word * 4096 + 4095, word * 4096);
    HighestFound(chunks, spacing, word * 4096 + 4095, word * 4096);
    NothingPastMin(chunks, spacing, here);
    if w.Some? {
      var c := MarkedWordHasTick(chunks, level1, level2, w.value);
      assert false;
    }
  }

  lemma NoneAboveMax(chunks: map<int, Chunk>, level1: map<int, Word>, level2: map<int, Word>, spacing: int,
                     from: int, word: int, w: Option<int>)
    requires IndexOk(chunks, level1, level2, spacing)
    requires word == from / 16 / 256 && MIN_TICK <= from <= MAX_TICK && AllAtLeast(chunks, from)
    requires var here := BottomIn(chunks, word);
      here.Some? ==> here.value * spacing == MAX_TICK
    requires NextMarked(level2, word, (word / 256 + 1) * 256 + 255, w)
    ensures w.None? ==> LowestIs(chunks, spacing, MAX_TICK)
    ensures w.Some? ==> AllAtLeast(chunks, w.value * 4096)
    ensures w.Some? ==> BottomIn(chunks, w.value).Some?
  {
    var here := BottomIn(chunks, word);
    hide AllAtMost, AllAtLeast, NoneWithin, HighestIs, LowestIs, ScanUp, BitAt, Level1Ok, Level2Ok, InRange;
    WidenBottom(chunks, from, word * 4096);
    if here.Some? {
      MaxEndsSearch(chunks, level1, level2, spacing, word, w);
    } else {
      ScanUpNone(chunks, word * 4096, word * 4096 + 4095);
      RaiseBottom(chunks, word * 4096, word * 4096 + 4095);
      WidenBottom(chunks, word * 4096 + 4096, (word + 1) * 4096);
      if w.None? {
        GapOfWords(chunks, level1, level2, word + 1, (word / 256 + 2) * 256);
        RaiseBottom(chunks, (word + 1) * 4096, (word / 256 + 2) * 256 * 4096 - 1);
        NoneAtAll(chunks, spacing, (word / 256 + 2) * 256 * 4096);
      } else {
        GapOfWords(chunks, level1, level2, word + 1, w.value);
        RaiseBottom(chunks, (word + 1) * 4096, w.value * 4096 - 1);
        WordHasTop(chunks, level1, level2, w.value);
      }
    }
  }

  /** When the word's lowest tick is MAX_TICK itself, no higher word is marked. */
  lemma MaxEndsSearch(chunks: map<int, Chunk>, level1: map<int, Word>, level2: map<int, Word>, spacing: int,
                      word: int, w: Option<int>)
    requires IndexOk(chunks, level1, level2, spacing) && AllAtLeast(chunks, word * 4096)
    requires var here := BottomIn(chunks, word);
      here.Some? && here.value * spacing == MAX_TICK
    requires w.Some? ==> w.value > word && BitAt(level2, w.value)
    ensures w.None? && LowestIs(chunks, spacing, MAX_TICK)
  {
    var here := BottomIn(chunks, word).value;
    ScanUpIsInitialized(chunks, word * 4096, word * 4096 + 4095);
    LowestFound(chunks, spacing, word * 4096, word * 4096 + 4095);
    NothingPastMax(chunks, spacing, here);
    if w.Some? {
      var c := MarkedWordHasTick(chunks, level1, level2, w.value);
      assert false;
    }
  }

  /** `find_next_global_tick` upward, called when no initialized tick lies below `from`:
      the lowest tick that remains. */
  method NextGlobalTickUp(store: TickStorage, from: int, spacing: int) returns (tick: int)
    requires IndexOk(store.chunks, store.chunkBitmap, store.wordBitmap, spacing)
    requires MIN_TICK <= from <= MAX_TICK && AllAtLeast(store.chunks, from)
    ensures LowestIs(store.chunks, spacing, tick)
  {
    assert spacing > 0;
    hide AllAtLeast, LowestIs, BottomIn, IndexOk;
    ghost var chunks := store.chunks;
    var word := from / 16 / 256;
    tick := ExtremeTickInBitmapWord(store, word, spacing, false);
    BottomOfWord(chunks, spacing, from, word, tick);
    if tick != MAX_TICK {
      return;
    }
    var w := AdjacentWord(store.wordBitmap, word, false);
    NoneAboveMax(chunks, store.chunkBitmap, store.wordBitmap, spacing, from, word, w);
    match w {
      case Some(adjacent) =>
        tick := ExtremeTickInBitmapWord(store, adjacent, spacing, false);
        BottomOfWord(chunks, spacing, adjacent * 4096, adjacent, tick);
      case None =>
        tick := MAX_TICK;
    }
  }

  ghost predicate NoneAbove(chunks: map<int, Chunk>, spacing: int, t: int)
  {
    forall c: int | Initialized(chunks, c) :: c * spacing <= t
  }

  ghost predicate NoneBelow(chunks: map<int, Chunk>, spacing: int, t: int)
  {
    forall c: int | Initialized(chunks, c) :: c * spacing >= t
  }

  /** `find_next_global_tick` for the new highest or lowest tick once the old one, at
      `fromTick`, is no longer initialized. */
  method FindNextGlobalTick(store: TickStorage, fromTick: int, spacing: int, lte: bool) returns (tick: int)
    requires IndexOk(store.chunks, store.chunkBitmap, store.wordBitmap, spacing)
    requires MIN_TICK <= fromTick <= MAX_TICK && fromTick % spacing == 0
    requires if lte then NoneAbove(store.chunks, spacing, fromTick) else NoneBelow(store.chunks, spacing, fromTick)
    ensures lte ==> HighestIs(store.chunks, spacing, tick)
    ensures !lte ==> LowestIs(store.chunks, spacing, tick)
  {
    var compressed := CompressTick(fromTick, spacing);
    CompressIsFloor(fromTick, spacing);
    assert compressed * spacing == fromTick;
    CompressedRange(compressed, spacing);
    forall c: int | Initialized(store.chunks, c)
      ensures if lte then c <= compressed else c >= compressed
    {
      if lte {
        MulCancel(c, compressed, spacing);
      } else {
        MulCancel(compressed, c, spacing);
      }
    }
    if lte {
      tick := NextGlobalTickDown(store, compressed, spacing);
    } else {
      tick := NextGlobalTickUp(store, compressed, spacing);
    }
  }
}
