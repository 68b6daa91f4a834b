/** The depth walk's tick search over the index, `find_initialized_tick`, against a linear scan
    of all ticks (liquidity_pool_concentrated/src/plane.rs). */
module TickSearch {
  import opened Words
  import opened Bitmap
  import opened ChunkStore
  import opened TickIndex

  // --------------------------------------------------------------- linear scans

  /** The first initialized compressed tick from `from` down to `limit`. */
  function ScanDown(chunks: map<int, Chunk>, from: int, limit: int): Option<int>
    decreases from - limit
  {
    if from < limit then None
    else if Initialized(chunks, from) then Some(from)
    else ScanDown(chunks, from - 1, limit)
  }

  /** The first initialized compressed tick from `from` up to `limit`. */
  function ScanUp(chunks: map<int, Chunk>, from: int, limit: int): Option<int>
    decreases limit - from
  {
    if from > limit then None
    else if Initialized(chunks, from) then Some(from)
    else ScanUp(chunks, from + 1, limit)
  }

  ghost predicate NoneWithin(chunks: map<int, Chunk>, low: int, high: int)
  {
    forall c: int | low <= c <= high :: !Initialized(chunks, c)
  }

  lemma {:induction false} ScanDownFinds(chunks: map<int, Chunk>, from: int, limit: int, c: int)
    requires limit <= c <= from && Initialized(chunks, c) && NoneWithin(chunks, c + 1, from)
    ensures ScanDown(chunks, from, limit) == Some(c)
    decreases from - limit
  {
    if from > c {
      ScanDownFinds(chunks, from - 1, limit, c);
    }
  }

  lemma {:induction false} ScanDownNone(chunks: map<int, Chunk>, from: int, limit: int)
    ensures ScanDown(chunks, from, limit) == None <==> NoneWithin(chunks, limit, from)
    decreases from - limit
  {
    if from >= limit {
      ScanDownNone(chunks, from - 1, limit);
    }
  }

  lemma {:induction false} ScanUpFinds(chunks: map<int, Chunk>, from: int, limit: int, c: int)
    requires from <= c <= limit && Initialized(chunks, c) && NoneWithin(chunks, from, c - 1)
    ensures ScanUp(chunks, from, limit) == Some(c)
    decreases limit - from
  {
    if from < c {
      ScanUpFinds(chunks, from + 1, limit, c);
    }
  }

  lemma {:induction false} ScanUpNone(chunks: map<int, Chunk>, from: int, limit: int)
    ensures ScanUp(chunks, from, limit) == None <==> NoneWithin(chunks, from, limit)
    decreases limit - from
  {
    if from <= limit {
      ScanUpNone(chunks, from + 1, limit);
    }
  }

  // ---------------------------------------------------------------- chunk scans

  /** The highest used slot at or below `top`, provided it is not below `limit`. */
  ghost predicate TopSlot(chunk: Chunk, base: int, top: int, limit: int, r: Option<nat>)
    requires top < 16
  {
    match r
    case Some(s) => s <= top && chunk[s].gross > 0 && base + s >= limit && forall t | s < t <= top :: chunk[t].gross == 0
    case None => forall t | 0 <= t <= top && base + t >= limit :: chunk[t].gross == 0
  }

  /** The lowest used slot at or above `bottom`, provided it is not above `limit`. */
  ghost predicate BottomSlot(chunk: Chunk, base: int, bottom: int, limit: int, r: Option<nat>)
    requires bottom >= 0
  {
    match r
    case Some(s) => bottom <= s < 16 && chunk[s].gross > 0 && base + s <= limit && forall t | bottom <= t < s :: chunk[t].gross == 0
    case None => forall t | bottom <= t < 16 && base + t <= limit :: chunk[t].gross == 0
  }

  method ScanSlotsDown(chunk: Chunk, base: int, top: nat, limit: int) returns (r: Option<nat>)
    requires top < 16
    ensures TopSlot(chunk, base, top, limit, r)
  {
    for s := top + 1 downto 0
      invariant forall t | s <= t <= top :: chunk[t].gross > 0 ==> base + t < limit
      invariant forall t | s <= t <= top && base + t >= limit :: chunk[t].gross == 0
    {
      if chunk[s].gross > 0 {
        if base + s >= limit {
          return Some(s);
        }
      }
    }
    return None;
  }

  method ScanSlotsUp(chunk: Chunk, base: int, bottom: nat, limit: int) returns (r: Option<nat>)
    requires bottom < 16
    ensures BottomSlot(chunk, base, bottom, limit, r)
  {
    for s := bottom to 16
      invariant forall t | bottom <= t < s :: chunk[t].gross > 0 ==> base + t > limit
      invariant forall t | bottom <= t < s && base + t <= limit :: chunk[t].gross == 0
    {
      if chunk[s].gross > 0 {
        if base + s <= limit {
          return Some(s);
        }
      }
    }
    return None;
  }

  // ------------------------------------------------------------- the depth walk's

  /** Chunks as the cache shows them. */
  ghost function View(store: TickStorage, cc: ChunkCache): map<int, Chunk>
    reads store, cc
  {
    store.chunks + cc.cache
  }

  ghost predicate StoreOk(store: TickStorage, cc: ChunkCache, spacing: int)
    reads store, cc
  {
    IndexOk(View(store, cc), store.chunkBitmap, store.wordBitmap, spacing)
  }

  lemma SlotsAreTicks(chunks: map<int, Chunk>, pos: int, t: int)
    requires 0 <= t < 16
    ensures TickAt(chunks, pos * 16 + t) == ChunkAt(chunks, pos)[t]
  {
    assert ChunkAddress(pos * 16 + t) == (pos, t);
  }

  /** A stretch of unmarked chunks holds no initialized tick. */
  lemma GapUnused(chunks: map<int, Chunk>, level1: map<int, Word>, a: int, b: int)
    requires Level1Ok(chunks, level1)
    requires forall k: int | a <= k < b :: !BitAt(level1, k)
    ensures NoneWithin(chunks, a * 16, b * 16 - 1)
  {
    forall c: int | a * 16 <= c <= b * 16 - 1
      ensures !Initialized(chunks, c)
    {
      InitializedIsUsed(chunks, c);
      assert !BitAt(level1, c / 16);
    }
  }

  /** A stretch of level-1 words not marked in level 2 holds no initialized tick. */
  lemma GapOfWords(chunks: map<int, Chunk>, level1: map<int, Word>, level2: map<int, Word>, a: int, b: int)
    requires Level1Ok(chunks, level1) && Level2Ok(level1, level2)
    requires forall w: int | a <= w < b :: !BitAt(level2, w)
    ensures NoneWithin(chunks, a * 4096, b * 4096 - 1)
  {
    forall k: int | a * 256 <= k < b * 256
      ensures !BitAt(level1, k)
    {
      assert !BitAt(level2, k / 256);
      ZeroWordAt(level1, k / 256);
    }
    GapUnused(chunks, level1, a * 256, b * 256);
  }

  /** A marked level-1 word has a marked chunk in it. */
  lemma MarkedWordHasChunk(level1: map<int, Word>, level2: map<int, Word>, w: int) returns (k: int)
    requires Level2Ok(level1, level2) && BitAt(level2, w)
    ensures w * 256 <= k < w * 256 + 256 && BitAt(level1, k)
  {
    ZeroWordAt(level1, w);
    k :| k / 256 == w && BitAt(level1, k);
  }

  function Max(a: int, b: int): int { if a >= b then a else b }
  function Min(a: int, b: int): int { if a <= b then a else b }

  /** Legal ticks fill the two level-2 words around zero. */
  lemma LegalTicks(chunks: map<int, Chunk>, spacing: int)
    requires spacing > 0 && InRange(chunks, spacing)
    ensures forall c: int | Initialized(chunks, c) :: -0x100000 <= c < 0x100000
  {
    forall c: int | Initialized(chunks, c)
      ensures -0x100000 <= c < 0x100000
    {
      CompressedRange(c, spacing);
    }
  }

  /** The level-2 word beyond the cursor's own reaches the end of the legal ticks. */
  lemma LookupReaches(from: int)
    ensures from < 0x100000 ==> (from / 16 / 256 / 256 - 1) * 256 * 4096 <= -0x100000
    ensures from >= -0x100000 ==> (from / 16 / 256 / 256 + 2) * 256 * 4096 >= 0x100000
  {
  }

  /** What a slot scan says about the ticks of its chunk. */
  lemma TopSlotTicks(chunks: map<int, Chunk>, pos: int, top: nat, limit: int, r: Option<nat>)
    requires top < 16 && TopSlot(ChunkAt(chunks, pos), pos * 16, top, limit, r)
    ensures r.Some? ==> r.value <= top && Initialized(chunks, pos * 16 + r.value) && pos * 16 + r.value >= limit
    ensures NoneWithin(chunks, if r.Some? then pos * 16 + r.value + 1 else Max(limit, pos * 16), pos * 16 + top)
    ensures r.None? && top == 15 && ChunkUsed(chunks, pos) ==> limit > pos * 16
  {
    forall c: int | pos * 16 <= c <= pos * 16 + 15
      ensures Initialized(chunks, c) <==> ChunkAt(chunks, pos)[c - pos * 16].gross > 0
    {
      SlotsAreTicks(chunks, pos, c - pos * 16);
    }
  }

  lemma BottomSlotTicks(chunks: map<int, Chunk>, pos: int, bottom: nat, limit: int, r: Option<nat>)
    requires bottom < 16 && BottomSlot(ChunkAt(chunks, pos), pos * 16, bottom, limit, r)
    ensures r.Some? ==> bottom <= r.value < 16 && Initialized(chunks, pos * 16 + r.value) && pos * 16 + r.value <= limit
    ensures NoneWithin(chunks, pos * 16 + bottom, if r.Some? then pos * 16 + r.value - 1 else Min(limit, pos * 16 + 15))
    ensures r.None? && bottom == 0 && ChunkUsed(chunks, pos) ==> limit < pos * 16 + 15
  {
    forall c: int | pos * 16 <= c <= pos * 16 + 15
      ensures Initialized(chunks, c) <==> ChunkAt(chunks, pos)[c - pos * 16].gross > 0
    {
      SlotsAreTicks(chunks, pos, c - pos * 16);
    }
  }

  /** One chunk of a downward search: the scan from slot `top` decides every tick of the
      chunk, given that nothing above it counts. */
  lemma DownInChunk(chunks: map<int, Chunk>, from: int, limit: int, pos: int, top: nat, r: Option<nat>)
    requires top < 16 && pos * 16 + top <= from
    requires NoneWithin(chunks, Max(limit, pos * 16 + top + 1), from)
    requires TopSlot(ChunkAt(chunks, pos), pos * 16, top, limit, r)
    ensures r.Some? ==> ScanDown(chunks, from, limit) == Some(pos * 16 + r.value)
    ensures r.None? ==> NoneWithin(chunks, Max(limit, pos * 16), from)
    ensures r.None? && top == 15 && ChunkUsed(chunks, pos) ==> NoneWithin(chunks, limit, from)
  {
    TopSlotTicks(chunks, pos, top, limit, r);
    if r.Some? {
      ScanDownFinds(chunks, from, limit, pos * 16 + r.value);
    }
  }

  lemma UpInChunk(chunks: map<int, Chunk>, from: int, limit: int, pos: int, bottom: nat, r: Option<nat>)
    requires bottom < 16 && from <= pos * 16 + bottom
    requires NoneWithin(chunks, from, Min(limit, pos * 16 + bottom - 1))
    requires BottomSlot(ChunkAt(chunks, pos), pos * 16, bottom, limit, r)
    ensures r.Some? ==> ScanUp(chunks, from, limit) == Some(pos * 16 + r.value)
    ensures r.None? ==> NoneWithin(chunks, from, Min(limit, pos * 16 + 15))
    ensures r.None? && bottom == 0 && ChunkUsed(chunks, pos) ==> NoneWithin(chunks, from, limit)
  {
    BottomSlotTicks(chunks, pos, bottom, limit, r);
    if r.Some? {
      ScanUpFinds(chunks, from, limit, pos * 16 + r.value);
    }
  }

  /** One cached chunk, scanned from slot `top` down. */
  method ScanCachedDown(store: TickStorage, cc: ChunkCache, pos: int, top: nat, limit: int) returns (r: Option<nat>)
    requires top < 16
    modifies cc
    ensures View(store, cc) == old(View(store, cc)) && cc.dirty == old(cc.dirty) && old(cc.cache.Keys) <= cc.cache.Keys
    ensures TopSlot(ChunkAt(View(store, cc), pos), pos * 16, top, limit, r)
  {
    var chunk := cc.GetChunk(store, pos);
    match chunk {
      case Some(c) => r := ScanSlotsDown(c, pos * 16, top, limit);
      case None => r := None;
    }
  }

  method ScanCachedUp(store: TickStorage, cc: ChunkCache, pos: int, bottom: nat, limit: int) returns (r: Option<nat>)
    requires bottom < 16
    modifies cc
    ensures View(store, cc) == old(View(store, cc)) && cc.dirty == old(cc.dirty) && old(cc.cache.Keys) <= cc.cache.Keys
    ensures BottomSlot(ChunkAt(View(store, cc), pos), pos * 16, bottom, limit, r)
  {
    var chunk := cc.GetChunk(store, pos);
    match chunk {
      case Some(c) => r := ScanSlotsUp(c, pos * 16, bottom, limit);
      case None => r := None;
    }
  }

  /** Stretches without initialized ticks, put together. */
  lemma ExtendDown(chunks: map<int, Chunk>, limit: int, start: int, low: int, from: int)
    requires NoneWithin(chunks, Max(limit, start), from) && NoneWithin(chunks, low, start - 1)
    ensures NoneWithin(chunks, Max(limit, low), from)
  {
  }

  lemma ExtendUp(chunks: map<int, Chunk>, from: int, limit: int, end: int, high: int)
    requires NoneWithin(chunks, from, Min(limit, end)) && NoneWithin(chunks, end + 1, high)
    ensures NoneWithin(chunks, from, Min(limit, high))
  {
  }

  lemma Narrow(chunks: map<int, Chunk>, low: int, high: int, low': int, high': int)
    requires NoneWithin(chunks, low, high) && low <= low' && high' <= high
    ensures NoneWithin(chunks, low', high')
  {
  }

  lemma MarkedIsUsed(chunks: map<int, Chunk>, level1: map<int, Word>, pos: int)
    requires Level1Ok(chunks, level1) && BitAt(level1, pos)
    ensures ChunkUsed(chunks, pos)
  {
  }

  /** The marked chunk below another in the same word, and the gap between them. */
  method ChunkBelow(store: TickStorage, cc: ChunkCache, pos: int, spacing: int) returns (p: Option<int>)
    requires StoreOk(store, cc, spacing)
    ensures p.Some? ==> p.value < pos && ChunkUsed(View(store, cc), p.value)
    ensures NoneWithin(View(store, cc), if p.Some? then p.value * 16 + 16 else pos / 256 * 4096, pos * 16 - 1)
    ensures p.Some? ==> p.value >= pos / 256 * 256
  {
    p := MarkedBelow(store.chunkBitmap, pos);
    GapUnused(View(store, cc), store.chunkBitmap, if p.Some? then p.value + 1 else pos / 256 * 256, pos);
    if p.Some? {
      MarkedIsUsed(View(store, cc), store.chunkBitmap, p.value);
    }
  }

  method ChunkAbove(store: TickStorage, cc: ChunkCache, pos: int, spacing: int) returns (p: Option<int>)
    requires StoreOk(store, cc, spacing)
    ensures p.Some? ==> p.value > pos && ChunkUsed(View(store, cc), p.value)
    ensures NoneWithin(View(store, cc), pos * 16 + 16, if p.Some? then p.value * 16 - 1 else pos / 256 * 4096 + 4095)
    ensures p.Some? ==> p.value < pos / 256 * 256 + 256
  {
    p := MarkedAbove(store.chunkBitmap, pos);
    GapUnused(View(store, cc), store.chunkBitmap, pos + 1, if p.Some? then p.value else pos / 256 * 256 + 256);
    if p.Some? {
      MarkedIsUsed(View(store, cc), store.chunkBitmap, p.value);
    }
  }

  /** Step 3 of the searches: the highest marked chunk of the nearest level-1 word below
      that is not zero. */
  method ChunkFarBelow(store: TickStorage, cc: ChunkCache, word: int, spacing: int) returns (p: Option<int>)
    requires StoreOk(store, cc, spacing)
    ensures p.Some? ==> p.value < word * 256 && ChunkUsed(View(store, cc), p.value)
    ensures NoneWithin(View(store, cc), if p.Some? then p.value * 16 + 16 else (word / 256 - 1) * 256 * 4096, word * 4096 - 1)
  {
    ghost var chunks := View(store, cc);
    var w := AdjacentWord(store.wordBitmap, word, true);
    GapOfWords(chunks, store.chunkBitmap, store.wordBitmap, if w.Some? then w.value + 1 else (word / 256 - 1) * 256, word);
    match w {
      case None => return None;
      case Some(adjacent) =>
        ghost var k := MarkedWordHasChunk(store.chunkBitmap, store.wordBitmap, adjacent);
        p := HighestMarked(store.chunkBitmap, adjacent);
        GapUnused(chunks, store.chunkBitmap, p.value + 1, adjacent * 256 + 256);
        MarkedIsUsed(chunks, store.chunkBitmap, p.value);
        ExtendDown(chunks, p.value * 16 + 16, (adjacent + 1) * 4096, p.value * 16 + 16, word * 4096 - 1);
    }
  }

  method ChunkFarAbove(store: TickStorage, cc: ChunkCache, word: int, spacing: int) returns (p: Option<int>)
    requires StoreOk(store, cc, spacing)
    ensures p.Some? ==> p.value >= word * 256 + 256 && ChunkUsed(View(store, cc), p.value)
    ensures NoneWithin(View(store, cc), word * 4096 + 4096, if p.Some? then p.value * 16 - 1 else (word / 256 + 2) * 256 * 4096 - 1)
  {
    ghost var chunks := View(store, cc);
    var w := AdjacentWord(store.wordBitmap, word, false);
    GapOfWords(chunks, store.chunkBitmap, store.wordBitmap, word + 1, if w.Some? then w.value else (word / 256 + 2) * 256);
    match w {
      case None => return None;
      case Some(adjacent) =>
        ghost var k := MarkedWordHasChunk(store.chunkBitmap, store.wordBitmap, adjacent);
        p := LowestMarked(store.chunkBitmap, adjacent);
        GapUnused(chunks, store.chunkBitmap, adjacent * 256, p.value);
        MarkedIsUsed(chunks, store.chunkBitmap, p.value);
        ExtendUp(chunks, word * 4096 + 4096, p.value * 16 - 1, adjacent * 4096 - 1, p.value * 16 - 1);
    }
  }

  /** Steps 1 and 2 downward: the cursor's chunk, then the marked chunks of its level-1 word. */
  method FindDownInWord(store: TickStorage, cc: ChunkCache, from: int, limit: int, spacing: int) returns (r: Option<int>)
    requires StoreOk(store, cc, spacing)
    modifies cc
    ensures View(store, cc) == old(View(store, cc)) && cc.dirty == old(cc.dirty) && old(cc.cache.Keys) <= cc.cache.Keys
    ensures r.Some? ==> r == ScanDown(View(store, cc), from, limit) && r.value >= from / 16 / 256 * 4096
    ensures r.None? ==> NoneWithin(View(store, cc), Max(limit, from / 16 / 256 * 4096), from)
  {
    hide NoneWithin, IndexOk, ScanDown, ChunkUsed, TopSlot, ChunkAt;
    ghost var chunks := View(store, cc);
    var (pos, slot) := ChunkAddress(from);
    Empty(chunks, Max(limit, from + 1), from);
    var s := ScanCachedDown(store, cc, pos, slot, limit);
    DownInChunk(chunks, from, limit, pos, slot, s);
    if s.Some? {
      return Some(pos * 16 + s.value);
    }
    var p := ChunkBelow(store, cc, pos, spacing);
    ExtendDown(chunks, limit, pos * 16, if p.Some? then p.value * 16 + 16 else pos / 256 * 4096, from);
    if p.Some? {
      s := ScanCachedDown(store, cc, p.value, 15, limit);
      DownInChunk(chunks, from, limit, p.value, 15, s);
      if s.Some? {
        return Some(p.value * 16 + s.value);
      }
      Narrow(chunks, limit, from, Max(limit, from / 16 / 256 * 4096), from);
    }
    return None;
  }

  /** Step 3 downward: the nearest level-1 word that is not zero, through level 2. */
  method FindDownBeyond(store: TickStorage, cc: ChunkCache, from: int, limit: int, spacing: int) returns (r: Option<int>)
    requires StoreOk(store, cc, spacing)
    requires NoneWithin(View(store, cc), Max(limit, from / 16 / 256 * 4096), from)
    modifies cc
    ensures View(store, cc) == old(View(store, cc)) && cc.dirty == old(cc.dirty) && old(cc.cache.Keys) <= cc.cache.Keys
    ensures r.Some? || from < 0x100000 ==> r == ScanDown(View(store, cc), from, limit)
  {
    ghost var chunks := View(store, cc);
    assert spacing > 0 && InRange(chunks, spacing);
    hide NoneWithin, IndexOk, ScanDown, ChunkUsed, TopSlot, ChunkAt, InRange;
    ScanDownNone(chunks, from, limit);
    var word := from / 16 / 256;
    var p := ChunkFarBelow(store, cc, word, spacing);
    match p {
      case None =>
        ExtendDown(chunks, limit, word * 4096, (word / 256 - 1) * 256 * 4096, from);
        if from < 0x100000 {
          NothingBelow(chunks, spacing, from, limit);
        }
        return None;
      case Some(chunk) =>
        ExtendDown(chunks, limit, word * 4096, chunk * 16 + 16, from);
        var s := ScanCachedDown(store, cc, chunk, 15, limit);
        DownInChunk(chunks, from, limit, chunk, 15, s);
        return if s.Some? then Some(chunk * 16 + s.value) else None;
    }
  }

  /** The downward half of `find_initialized_tick`, in compressed ticks. */
  method FindDown(store: TickStorage, cc: ChunkCache, from: int, limit: int, spacing: int) returns (r: Option<int>)
    requires StoreOk(store, cc, spacing)
    modifies cc
    ensures View(store, cc) == old(View(store, cc)) && cc.dirty == old(cc.dirty) && old(cc.cache.Keys) <= cc.cache.Keys
    ensures r.Some? || from < 0x100000 ==> r == ScanDown(View(store, cc), from, limit)
  {
    hide NoneWithin, IndexOk, ScanDown;
    r := FindDownInWord(store, cc, from, limit, spacing);
    if r.None? {
      r := FindDownBeyond(store, cc, from, limit, spacing);
    }
  }

  lemma Empty(chunks: map<int, Chunk>, low: int, high: int)
    requires low > high
    ensures NoneWithin(chunks, low, high)
  {
  }

  lemma NothingBelow(chunks: map<int, Chunk>, spacing: int, from: int, limit: int)
    requires spacing > 0 && InRange(chunks, spacing) && from < 0x100000
    requires NoneWithin(chunks, Max(limit, (from / 16 / 256 / 256 - 1) * 256 * 4096), from)
    ensures NoneWithin(chunks, limit, from)
  {
    LegalTicks(chunks, spacing);
    LookupReaches(from);
  }

  lemma NothingAbove(chunks: map<int, Chunk>, spacing: int, from: int, limit: int)
    requires spacing > 0 && InRange(chunks, spacing) && from >= -0x100000
    requires NoneWithin(chunks, from, Min(limit, (from / 16 / 256 / 256 + 2) * 256 * 4096 - 1))
    ensures NoneWithin(chunks, from, limit)
  {
    LegalTicks(chunks, spacing);
    LookupReaches(from);
  }

  /** Steps 1 and 2 upward. */
  method FindUpInWord(store: TickStorage, cc: ChunkCache, from: int, limit: int, spacing: int) returns (r: Option<int>)
    requires StoreOk(store, cc, spacing)
    modifies cc
    ensures View(store, cc) == old(View(store, cc)) && cc.dirty == old(cc.dirty) && old(cc.cache.Keys) <= cc.cache.Keys
    ensures r.Some? ==> r == ScanUp(View(store, cc), from, limit) && r.value <= from / 16 / 256 * 4096 + 4095
    ensures r.None? ==> NoneWithin(View(store, cc), from, Min(limit, from / 16 / 256 * 4096 + 4095))
  {
    hide NoneWithin, IndexOk, ScanUp, ChunkUsed, BottomSlot, ChunkAt;
    ghost var chunks := View(store, cc);
    var (pos, slot) := ChunkAddress(from);
    Empty(chunks, from, Min(limit, from - 1));
    var s := ScanCachedUp(store, cc, pos, slot, limit);
    UpInChunk(chunks, from, limit, pos, slot, s);
    if s.Some? {
      return Some(pos * 16 + s.value);
    }
    var p := ChunkAbove(store, cc, pos, spacing);
    ExtendUp(chunks, from, limit, pos * 16 + 15, if p.Some? then p.value * 16 - 1 else pos / 256 * 4096 + 4095);
    if p.Some? {
      s := ScanCachedUp(store, cc, p.value, 0, limit);
      UpInChunk(chunks, from, limit, p.value, 0, s);
      if s.Some? {
        return Some(p.value * 16 + s.value);
      }
      Narrow(chunks, from, limit, from, Min(limit, from / 16 / 256 * 4096 + 4095));
    }
    return None;
  }

  /** Step 3 upward. */
  method FindUpBeyond(store: TickStorage, cc: ChunkCache, from: int, limit: int, spacing: int) returns (r: Option<int>)
    requires StoreOk(store, cc, spacing)
    requires NoneWithin(View(store, cc), from, Min(limit, from / 16 / 256 * 4096 + 4095))
    modifies cc
    ensures View(store, cc) == old(View(store, cc)) && cc.dirty == old(cc.dirty) && old(cc.cache.Keys) <= cc.cache.Keys
    ensures r.Some? || from >= -0x100000 ==> r == ScanUp(View(store, cc), from, limit)
  {
    ghost var chunks := View(store, cc);
    assert spacing > 0 && InRange(chunks, spacing);
    hide NoneWithin, IndexOk, ScanUp, ChunkUsed, BottomSlot, ChunkAt, InRange;
    ScanUpNone(chunks, from, limit);
    var word := from / 16 / 256;
    var p := ChunkFarAbove(store, cc, word, spacing);
    match p {
      case None =>
        ExtendUp(chunks, from, limit, word * 4096 + 4095, (word / 256 + 2) * 256 * 4096 - 1);
        if from >= -0x100000 {
          NothingAbove(chunks, spacing, from, limit);
        }
        return None;
      case Some(chunk) =>
        ExtendUp(chunks, from, limit, word * 4096 + 4095, chunk * 16 - 1);
        var s := ScanCachedUp(store, cc, chunk, 0, limit);
        UpInChunk(chunks, from, limit, chunk, 0, s);
        return if s.Some? then Some(chunk * 16 + s.value) else None;
    }
  }

  /** The upward half, from the tick after the cursor. */
  method FindUp(store: TickStorage, cc: ChunkCache, from: int, limit: int, spacing: int) returns (r: Option<int>)
    requires StoreOk(store, cc, spacing)
    modifies cc
    ensures View(store, cc) == old(View(store, cc)) && cc.dirty == old(cc.dirty) && old(cc.cache.Keys) <= cc.cache.Keys
    ensures r.Some? || from >= -0x100000 ==> r == ScanUp(View(store, cc), from, limit)
  {
    hide NoneWithin, IndexOk, ScanUp;
    r := FindUpInWord(store, cc, from, limit, spacing);
    if r.None? {
      r := FindUpBeyond(store, cc, from, limit, spacing);
    }
  }

  /** What a search should answer for the compressed tick a linear scan finds. */
  function Found(chunks: map<int, Chunk>, spacing: int, c: Option<int>): Option<(int, int)>
  {
    match c
    case Some(compressed) => Some((compressed * spacing, TickAt(chunks, compressed).net))
    case None => None
  }

  /** The compressed tick a linear scan of every tick finds: downward from the cursor, or
      upward from the tick after it. */
  function Nearest(chunks: map<int, Chunk>, compressed: int, limit: int, lte: bool): Option<int>
  {
    if lte then ScanDown(chunks, compressed, limit) else ScanUp(chunks, compressed + 1, limit)
  }

  /** `find_initialized_tick` answers what the linear scan answers whenever it finds a tick,
      and also when it finds none for a cursor within the reach of the level-2 lookup: at
      most one level-2 word beyond the cursor's own is looked at. */
  method FindInitializedTick(store: TickStorage, cc: ChunkCache, compressed: int, limit: int, spacing: int, lte: bool)
    returns (r: Option<(int, int)>)
    requires StoreOk(store, cc, spacing)
    requires -0x8000_0000 <= compressed < 0x7FFF_FFFF
    modifies cc
    ensures View(store, cc) == old(View(store, cc)) && cc.dirty == old(cc.dirty) && old(cc.cache.Keys) <= cc.cache.Keys
    ensures r.Some? || (if lte then compressed < 0x100000 else compressed >= -0x100001) ==>
      r == Found(View(store, cc), spacing, Nearest(View(store, cc), compressed, limit, lte))
  {
    ghost var chunks := View(store, cc);
    var c: Option<int>;
    if lte {
      c := FindDown(store, cc, compressed, limit, spacing);
    } else {
      c := FindUp(store, cc, SatI32(compressed + 1), limit, spacing);
    }
    match c {
      case None => return None;
      case Some(found) =>
        NearestIsInitialized(chunks, compressed, limit, lte);
        CompressRoundTrip(found, spacing);
        var (pos, slot) := ChunkAddress(found);
        var chunk := cc.GetChunk(store, pos);
        return Some((CompressedToTick(found, spacing), chunk.value[slot].net));
    }
  }

  lemma {:induction false} NearestIsInitialized(chunks: map<int, Chunk>, compressed: int, limit: int, lte: bool)
    ensures var c := Nearest(chunks, compressed, limit, lte);
      c.Some? ==> Initialized(chunks, c.value) && (if lte then limit <= c.value <= compressed else compressed < c.value <= limit)
    decreases if lte then compressed - limit else limit - compressed
  {
    if lte && compressed >= limit {
      NearestIsInitialized(chunks, compressed - 1, limit, lte);
    } else if !lte && compressed < limit {
      NearestIsInitialized(chunks, compressed + 1, limit, lte);
    }
  }
}
