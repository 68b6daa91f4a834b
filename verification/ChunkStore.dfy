/** Tick chunks in persistent storage and the write-back cache over them
    (liquidity_pool_concentrated/src/storage.rs). */
module ChunkStore {
  import opened Words
  import opened TickMath
  import opened Bitmap

  const TICKS_PER_CHUNK: int := 16

  /** Stored form of a tick: fee growth outside it for both tokens, the liquidity that
      references it and the signed change of active liquidity when it is crossed. */
  datatype TickData = TickData(feeOutside0: U256, feeOutside1: U256, gross: U128, net: int)

  const ZERO_TICK: TickData := TickData(0, 0, 0, 0)

  type Chunk = c: seq<TickData> | |c| == 16 witness EMPTY_CHUNK

  const EMPTY_CHUNK: seq<TickData> := [
    ZERO_TICK, ZERO_TICK, ZERO_TICK, ZERO_TICK, ZERO_TICK, ZERO_TICK, ZERO_TICK, ZERO_TICK,
    ZERO_TICK, ZERO_TICK, ZERO_TICK, ZERO_TICK, ZERO_TICK, ZERO_TICK, ZERO_TICK, ZERO_TICK]

  /** Chunk and slot of a compressed tick, by Euclidean division. */
  function ChunkAddress(compressed: int): (r: (int, nat))
    ensures r.1 < 16 && compressed == r.0 * TICKS_PER_CHUNK + r.1
  {
    (compressed / 16, compressed % 16)
  }

  /** The chunk a caller sees at a position: absent chunks read as zeroed ones. */
  function ChunkAt(chunks: map<int, Chunk>, pos: int): Chunk
  {
    if pos in chunks then chunks[pos] else EMPTY_CHUNK
  }

  function TickAt(chunks: map<int, Chunk>, compressed: int): TickData
  {
    var (pos, slot) := ChunkAddress(compressed);
    ChunkAt(chunks, pos)[slot]
  }

  // ------------------------------------------------ the cache as a transformer

  /** Storage together with what the cache holds over it. */
  datatype CacheState = CacheState(stored: map<int, Chunk>, cache: map<int, Chunk>, dirty: map<int, bool>)

  function Lookup(s: CacheState, pos: int): Option<Chunk>
  {
    if pos in s.cache then Some(s.cache[pos])
    else if pos in s.stored then Some(s.stored[pos])
    else None
  }

  function AfterGet(s: CacheState, pos: int): CacheState
  {
    if pos !in s.cache && pos in s.stored then s.(cache := s.cache[pos := s.stored[pos]]) else s
  }

  function AfterGetOrCreate(s: CacheState, pos: int): CacheState
  {
    if pos in s.cache then s else s.(cache := s.cache[pos := ChunkAt(s.stored, pos)])
  }

  function AfterSet(s: CacheState, pos: int, chunk: Chunk): CacheState
  {
    s.(cache := s.cache[pos := chunk], dirty := s.dirty[pos := true])
  }

  /** The chunks that flushing writes. */
  function Written(s: CacheState): map<int, Chunk>
  {
    map pos | pos in s.dirty && pos in s.cache :: s.cache[pos]
  }

  /** The part of it written once only the keys in `left` remain. */
  function WrittenSoFar(s: CacheState, left: set<int>): map<int, Chunk>
  {
    map pos | pos in s.dirty && pos in s.cache && pos !in left :: s.cache[pos]
  }

  lemma WriteOne(s: CacheState, left: set<int>, pos: int)
    requires pos in left && pos in s.dirty
    ensures s.stored + WrittenSoFar(s, left - {pos})
         == if pos in s.cache then (s.stored + WrittenSoFar(s, left))[pos := s.cache[pos]] else s.stored + WrittenSoFar(s, left)
  {
  }

  function AfterFlush(s: CacheState): CacheState
  {
    s.(stored := s.stored + Written(s))
  }

  // ------------------------------------------------------------ the real cache

  lemma HasElement(s: set<int>)
    requires s != {}
    ensures exists x :: x in s
  {
    if forall x :: x in s ==> false {
      assert false;
    }
  }

  /** The part of persistent storage that records ticks: the chunks, the two bitmap levels
      over them and the lowest and highest initialized tick. */
  class TickStorage {
    var chunks: map<int, Chunk>
    var chunkBitmap: map<int, Word>
    var wordBitmap: map<int, Word>
    var minInitTick: int
    var maxInitTick: int

    constructor ()
      ensures chunks == map[] && chunkBitmap == map[] && wordBitmap == map[]
      ensures minInitTick == MAX_TICK && maxInitTick == MIN_TICK
    {
      chunks, chunkBitmap, wordBitmap := map[], map[], map[];
      minInitTick, maxInitTick := MAX_TICK, MIN_TICK;
    }
  }

  class ChunkCache {
    var cache: map<int, Chunk>
    var dirty: map<int, bool>

    ghost function State(store: TickStorage): CacheState
      reads this, store
    {
      CacheState(store.chunks, cache, dirty)
    }

    constructor (store: TickStorage)
      ensures State(store) == CacheState(store.chunks, map[], map[])
    {
      cache := map[];
      dirty := map[];
    }

    method GetChunk(store: TickStorage, pos: int) returns (r: Option<Chunk>)
      modifies this
      ensures r == Lookup(old(State(store)), pos)
      ensures State(store) == AfterGet(old(State(store)), pos)
    {
      if pos in cache {
        return Some(cache[pos]);
      }
      if pos in store.chunks {
        cache := cache[pos := store.chunks[pos]];
        return Some(store.chunks[pos]);
      }
      return None;
    }

    method GetOrCreateChunk(store: TickStorage, pos: int) returns (r: Chunk)
      modifies this
      ensures r == (match Lookup(old(State(store)), pos) case Some(c) => c case None => EMPTY_CHUNK)
      ensures State(store) == AfterGetOrCreate(old(State(store)), pos)
    {
      if pos in cache {
        return cache[pos];
      }
      r := if pos in store.chunks then store.chunks[pos] else EMPTY_CHUNK;
      cache := cache[pos := r];
    }

    method SetChunk(store: TickStorage, pos: int, chunk: Chunk)
      modifies this
      ensures State(store) == AfterSet(old(State(store)), pos, chunk)
    {
      cache := cache[pos := chunk];
      dirty := dirty[pos := true];
    }

    method GetTick(store: TickStorage, tick: int, spacing: int) returns (r: TickData)
      requires spacing > 0
      modifies this
      ensures var (pos, slot) := ChunkAddress(CompressTick(tick, spacing));
        && r == (match Lookup(old(State(store)), pos) case Some(c) => c[slot] case None => ZERO_TICK)
        && State(store) == AfterGet(old(State(store)), pos)
    {
      var (pos, slot) := ChunkAddress(CompressTick(tick, spacing));
      var chunk := GetChunk(store, pos);
      match chunk {
        case Some(c) => return c[slot];
        case None => return ZERO_TICK;
      }
    }

    /** Writes every dirty chunk to storage; the cache itself is left as it is. */
    method Flush(store: TickStorage)
      modifies store`chunks
      ensures State(store) == AfterFlush(old(State(store)))
    {
      var left: set<int> := dirty.Keys;
      ghost var s := State(store);
      assert WrittenSoFar(s, left) == map[];
      while left != {}
        invariant left <= dirty.Keys
        invariant cache == s.cache && dirty == s.dirty
        invariant store.chunks == s.stored + WrittenSoFar(s, left)
        decreases left
      {
        HasElement(left);
        var pos :| pos in left;
        WriteOne(s, left, pos);
        if pos in cache {
          store.chunks := store.chunks[pos := cache[pos]];
        }
        left := left - {pos};
      }
      assert WrittenSoFar(s, {}) == Written(s);
    }
  }

  // ---------------------------------------------------- refinement of direct storage

  datatype Op = Get(pos: int) | GetOrCreate(pos: int) | Set(pos: int, chunk: Chunk) | GetTick(tick: int, spacing: int)

  /** What a caller learns from an operation; a missing chunk and a zeroed one are the same. */
  datatype Observation = SawChunk(chunk: Chunk) | SawTick(data: TickData) | SawNothing

  function OrEmpty(c: Option<Chunk>): Chunk
  {
    match c case Some(chunk) => chunk case None => EMPTY_CHUNK
  }

  function CacheStep(s: CacheState, op: Op): (Observation, CacheState)
  {
    match op
    case Get(pos) => (SawChunk(OrEmpty(Lookup(s, pos))), AfterGet(s, pos))
    case GetOrCreate(pos) => (SawChunk(OrEmpty(Lookup(s, pos))), AfterGetOrCreate(s, pos))
    case Set(pos, chunk) => (SawNothing, AfterSet(s, pos, chunk))
    case GetTick(tick, spacing) =>
      if spacing <= 0 then (SawNothing, s)
      else
        var (pos, slot) := ChunkAddress(CompressTick(tick, spacing));
        (SawTick(OrEmpty(Lookup(s, pos))[slot]), AfterGet(s, pos))
  }

  /** The same operation on storage itself. */
  function DirectStep(chunks: map<int, Chunk>, op: Op): (Observation, map<int, Chunk>)
  {
    match op
    case Get(pos) => (SawChunk(ChunkAt(chunks, pos)), chunks)
    case GetOrCreate(pos) => (SawChunk(ChunkAt(chunks, pos)), chunks)
    case Set(pos, chunk) => (SawNothing, chunks[pos := chunk])
    case GetTick(tick, spacing) =>
      if spacing <= 0 then (SawNothing, chunks)
      else (SawTick(TickAt(chunks, CompressTick(tick, spacing))), chunks)
  }

  function CacheRun(s: CacheState, ops: seq<Op>): (seq<Observation>, CacheState)
    decreases |ops|
  {
    if ops == [] then ([], s)
    else
      var (seen, s') := CacheStep(s, ops[0]);
      var (rest, end) := CacheRun(s', ops[1..]);
      ([seen] + rest, end)
  }

  function DirectRun(chunks: map<int, Chunk>, ops: seq<Op>): (seq<Observation>, map<int, Chunk>)
    decreases |ops|
  {
    if ops == [] then ([], chunks)
    else
      var (seen, chunks') := DirectStep(chunks, ops[0]);
      var (rest, end) := DirectRun(chunks', ops[1..]);
      ([seen] + rest, end)
  }

  /** Dirty chunks are cached, clean cached chunks agree with storage. */
  ghost predicate Coherent(s: CacheState)
  {
    && s.dirty.Keys <= s.cache.Keys
    && forall pos | pos in s.cache && pos !in s.dirty :: s.cache[pos] == ChunkAt(s.stored, pos)
  }

  /** Storage as it would be had every `set_chunk` been written directly. */
  function Direct(s: CacheState): map<int, Chunk>
  {
    s.stored + Written(s)
  }

  lemma LookupIsDirect(s: CacheState, pos: int)
    requires Coherent(s)
    ensures OrEmpty(Lookup(s, pos)) == ChunkAt(Direct(s), pos)
  {
  }

  lemma ReadKeeps(s: CacheState, s': CacheState, pos: int)
    requires Coherent(s)
    requires s' == AfterGet(s, pos) || s' == AfterGetOrCreate(s, pos)
    ensures Coherent(s') && Direct(s') == Direct(s) && s'.stored == s.stored
  {
    assert Written(s') == Written(s);
  }

  lemma SetIsDirect(s: CacheState, pos: int, chunk: Chunk)
    requires Coherent(s)
    ensures var s' := AfterSet(s, pos, chunk);
      Coherent(s') && Direct(s') == Direct(s)[pos := chunk] && s'.stored == s.stored
  {
    assert Written(AfterSet(s, pos, chunk)) == Written(s)[pos := chunk];
  }

  lemma StepRefines(s: CacheState, op: Op)
    requires Coherent(s)
    ensures CacheStep(s, op).0 == DirectStep(Direct(s), op).0
    ensures Coherent(CacheStep(s, op).1)
    ensures Direct(CacheStep(s, op).1) == DirectStep(Direct(s), op).1
    ensures CacheStep(s, op).1.stored == s.stored
  {
    match op {
      case Get(pos) =>
        LookupIsDirect(s, pos);
        ReadKeeps(s, AfterGet(s, pos), pos);
      case GetOrCreate(pos) =>
        LookupIsDirect(s, pos);
        ReadKeeps(s, AfterGetOrCreate(s, pos), pos);
      case Set(pos, chunk) =>
        SetIsDirect(s, pos, chunk);
      case GetTick(tick, spacing) =>
        if spacing > 0 {
          var (pos, slot) := ChunkAddress(CompressTick(tick, spacing));
          LookupIsDirect(s, pos);
          ReadKeeps(s, AfterGet(s, pos), pos);
        }
    }
  }

  /** Any sequence of cache operations shows its caller exactly what the same operations on
      storage would, leaves storage alone, and flushing afterwards makes storage equal to
      what the direct operations would have made it. */
  lemma {:induction false} CacheRefinesStorage(s: CacheState, ops: seq<Op>)
    requires Coherent(s)
    ensures CacheRun(s, ops).0 == DirectRun(Direct(s), ops).0
    ensures Coherent(CacheRun(s, ops).1)
    ensures CacheRun(s, ops).1.stored == s.stored
    ensures AfterFlush(CacheRun(s, ops).1).stored == DirectRun(Direct(s), ops).1
    decreases |ops|
  {
    if ops != [] {
      StepRefines(s, ops[0]);
      CacheRefinesStorage(CacheStep(s, ops[0]).1, ops[1..]);
    }
  }

  /** Flushing writes no clean chunk, is idempotent, and keeps the cache coherent. */
  lemma FlushIsClean(s: CacheState)
    requires Coherent(s)
    ensures forall pos | pos !in s.dirty :: ChunkAt(AfterFlush(s).stored, pos) == ChunkAt(s.stored, pos)
    ensures forall pos | pos !in s.dirty :: pos in AfterFlush(s).stored <==> pos in s.stored
    ensures AfterFlush(AfterFlush(s)) == AfterFlush(s)
    ensures Coherent(AfterFlush(s))
  {
    assert Written(AfterFlush(s)) == Written(s);
  }
}
