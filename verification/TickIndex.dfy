/** The three-level index of initialized ticks and its maintenance
    (liquidity_pool_concentrated/src/storage.rs, contract/internal.rs). */
module TickIndex {
  import opened Words
  import opened TickMath
  import opened Bitmap
  import opened ChunkStore

  // -------------------------------------------------------------- the invariant

  predicate Initialized(chunks: map<int, Chunk>, c: int)
  {
    TickAt(chunks, c).gross > 0
  }

  /** Some tick of the chunk is initialized. */
  ghost predicate ChunkUsed(chunks: map<int, Chunk>, pos: int)
  {
    exists s | 0 <= s < 16 :: ChunkAt(chunks, pos)[s].gross > 0
  }

  function WordAt(words: map<int, Word>, pos: int): Word
  {
    if pos in words then words[pos] else ZERO_WORD
  }

  /** Bit `pos` of a bitmap kept in 256-bit words. */
  predicate BitAt(words: map<int, Word>, pos: int)
  {
    BitOf(WordAt(words, pos / 256), pos % 256)
  }

  /** Level 1 marks the used chunks. */
  ghost predicate Level1Ok(chunks: map<int, Chunk>, level1: map<int, Word>)
  {
    forall pos: int :: BitAt(level1, pos) <==> ChunkUsed(chunks, pos)
  }

  /** Level 2 marks the level-1 words that are not zero. */
  ghost predicate Level2Ok(level1: map<int, Word>, level2: map<int, Word>)
  {
    forall w: int :: BitAt(level2, w) <==> WordAt(level1, w) != ZERO_WORD
  }

  /** Initialized ticks are within the tick bounds. */
  ghost predicate InRange(chunks: map<int, Chunk>, spacing: int)
  {
    forall c: int :: Initialized(chunks, c) ==> MIN_TICK <= c * spacing <= MAX_TICK
  }

  ghost predicate IndexOk(chunks: map<int, Chunk>, level1: map<int, Word>, level2: map<int, Word>, spacing: int)
  {
    && spacing > 0
    && Level1Ok(chunks, level1)
    && Level2Ok(level1, level2)
    && InRange(chunks, spacing)
  }

  lemma InitializedIsUsed(chunks: map<int, Chunk>, c: int)
    ensures Initialized(chunks, c) ==> ChunkUsed(chunks, c / 16)
  {
    assert ChunkAddress(c) == (c / 16, c % 16);
  }

  /** Legal compressed ticks span two level-2 words only. */
  lemma CompressedRange(c: int, spacing: int)
    requires spacing > 0 && MIN_TICK <= c * spacing <= MAX_TICK
    ensures MIN_TICK <= c <= MAX_TICK
    ensures -256 <= c / 16 / 256 < 256
  {
    if c > 0 {
      MulMono(1, spacing, c);
    } else {
      MulMono(1, spacing, -c);
      assert c * spacing == -((-c) * spacing);
    }
  }

  /** A level-1 word is zero exactly when no chunk of it is marked. */
  lemma ZeroWordAt(words: map<int, Word>, w: int)
    ensures WordAt(words, w) == ZERO_WORD <==> forall pos: int | pos / 256 == w :: !BitAt(words, pos)
  {
    ZeroWordHasNoBit(WordAt(words, w));
    if forall pos: int | pos / 256 == w :: !BitAt(words, pos) {
      forall n | 0 <= n < 256
        ensures !BitOf(WordAt(words, w), n)
      {
        assert (w * 256 + n) / 256 == w && (w * 256 + n) % 256 == n;
        assert !BitAt(words, w * 256 + n);
      }
    }
  }

  // ------------------------------------------------------------- bitmap searches

  /** `r` is the highest marked position below `from`, looked for down to `low`. */
  ghost predicate PrevMarked(words: map<int, Word>, from: int, low: int, r: Option<int>)
  {
    match r
    case Some(q) => low <= q < from && BitAt(words, q) && forall k: int | q < k < from :: !BitAt(words, k)
    case None => forall k: int | low <= k < from :: !BitAt(words, k)
  }

  /** `r` is the lowest marked position above `from`, looked for up to `high`. */
  ghost predicate NextMarked(words: map<int, Word>, from: int, high: int, r: Option<int>)
  {
    match r
    case Some(q) => from < q <= high && BitAt(words, q) && forall k: int | from < k < q :: !BitAt(words, k)
    case None => forall k: int | from < k <= high :: !BitAt(words, k)
  }

  /** Search below `from` inside its own word. */
  method MarkedBelow(words: map<int, Word>, from: int) returns (r: Option<int>)
    ensures PrevMarked(words, from, from / 256 * 256, r)
  {
    var (w, bit) := (from / 256, from % 256);
    if bit > 0 {
      var found := FindPrevSetBit(WordAt(words, w), bit - 1);
      assert PrevBit(WordAt(words, w), bit - 1, found);
      forall n | 0 <= n < 256
        ensures BitAt(words, w * 256 + n) == BitOf(WordAt(words, w), n)
      {
        assert (w * 256 + n) / 256 == w && (w * 256 + n) % 256 == n;
      }
      forall k: int | from / 256 * 256 <= k < from && (found.None? || k > w * 256 + found.value)
        ensures !BitAt(words, k)
      {
        assert k / 256 == w;
      }
      match found {
        case Some(b) => return Some(w * 256 + b);
        case None =>
      }
    }
    return None;
  }

  method MarkedAbove(words: map<int, Word>, from: int) returns (r: Option<int>)
    ensures NextMarked(words, from, from / 256 * 256 + 255, r)
  {
    var (w, bit) := (from / 256, from % 256);
    if bit < 255 {
      var found := FindNextSetBit(WordAt(words, w), bit + 1);
      assert NextBit(WordAt(words, w), bit + 1, found);
      forall n | 0 <= n < 256
        ensures BitAt(words, w * 256 + n) == BitOf(WordAt(words, w), n)
      {
        assert (w * 256 + n) / 256 == w && (w * 256 + n) % 256 == n;
      }
      forall k: int | from < k <= from / 256 * 256 + 255 && (found.None? || k < w * 256 + found.value)
        ensures !BitAt(words, k)
      {
        assert k / 256 == w;
      }
      match found {
        case Some(b) => return Some(w * 256 + b);
        case None =>
      }
    }
    return None;
  }

  /** The highest marked position of a whole word. */
  method HighestMarked(words: map<int, Word>, w: int) returns (r: Option<int>)
    ensures PrevMarked(words, w * 256 + 256, w * 256, r)
  {
    var found := FindPrevSetBit(WordAt(words, w), 255);
    assert PrevBit(WordAt(words, w), 255, found);
    forall n | 0 <= n < 256
      ensures BitAt(words, w * 256 + n) == BitOf(WordAt(words, w), n)
    {
      assert (w * 256 + n) / 256 == w && (w * 256 + n) % 256 == n;
    }
    forall k: int | w * 256 <= k < w * 256 + 256
      ensures BitAt(words, k) == BitOf(WordAt(words, w), k - w * 256)
    {
      assert k == w * 256 + (k - w * 256);
    }
    match found {
      case Some(b) => return Some(w * 256 + b);
      case None => return None;
    }
  }

  method LowestMarked(words: map<int, Word>, w: int) returns (r: Option<int>)
    ensures NextMarked(words, w * 256 - 1, w * 256 + 255, r)
  {
    var found := FindNextSetBit(WordAt(words, w), 0);
    assert NextBit(WordAt(words, w), 0, found);
    forall k: int | w * 256 <= k < w * 256 + 256
      ensures BitAt(words, k) == BitOf(WordAt(words, w), k - w * 256)
    {
      assert k / 256 == w && k % 256 == k - w * 256;
    }
    match found {
      case Some(b) => return Some(w * 256 + b);
      case None => return None;
    }
  }

  /** `find_adjacent_bitmap_word`: the nearest level-1 word that is not zero, looked for in
      the level-2 word of `w` and one level-2 word beyond it. */
  method AdjacentWord(level2: map<int, Word>, w: int, lte: bool) returns (r: Option<int>)
    ensures lte ==> PrevMarked(level2, w, (w / 256 - 1) * 256, r)
    ensures !lte ==> NextMarked(level2, w, (w / 256 + 1) * 256 + 255, r)
  {
    if lte {
      r := MarkedBelow(level2, w);
      if r.None? {
        r := HighestMarked(level2, w / 256 - 1);
      }
    } else {
      r := MarkedAbove(level2, w);
      if r.None? {
        r := LowestMarked(level2, w / 256 + 1);
      }
    }
  }
}
