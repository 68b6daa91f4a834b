/** 256-bit words as 32 big-endian bytes, and tick compression
    (liquidity_pool_concentrated/src/bitmap.rs). */
module Bitmap {
  import opened Words
  import opened TickMath

  type Word = w: seq<bv8> | |w| == 32 witness ZERO_WORD

  const ZERO_WORD: seq<bv8> := [
    0, 0, 0, 0, 0, 0, 0, 0, 0, 0, 0, 0, 0, 0, 0, 0, 0, 0, 0, 0, 0, 0, 0, 0, 0, 0, 0, 0, 0, 0, 0, 0]

  // ------------------------------------------------------------- single bytes

  /** `1u8 << k`. */
  function BitMask(k: nat): bv8
    requires k < 8
  {
    1 << k
  }

  predicate TestBit(b: bv8, k: nat)
    requires k < 8
  {
    b & BitMask(k) != 0
  }

  /** `((1u16 << (k + 1)) - 1) as u8`: bits 0 to k. */
  function LowMask(k: nat): bv8
    requires k < 8
  {
    if k == 7 then 0xFF else (1 << (k + 1)) - 1
  }

  /** `!((1u8 << k).wrapping_sub(1))`: bits k to 7. */
  function HighMask(k: nat): bv8
    requires k < 8
  {
    !((1 << k) - 1)
  }

  /** `7 - leading_zeros`. */
  function TopBit(b: bv8): (k: nat)
    requires b != 0
    ensures k < 8 && TestBit(b, k) && forall j :: k < j < 8 ==> !TestBit(b, j)
  {
    if b >= 0x80 then 7 else if b >= 0x40 then 6 else if b >= 0x20 then 5 else if b >= 0x10 then 4
    else if b >= 0x08 then 3 else if b >= 0x04 then 2 else if b >= 0x02 then 1 else 0
  }

  /** `trailing_zeros`. */
  function LowBit(b: bv8): (k: nat)
    requires b != 0
    ensures k < 8 && TestBit(b, k) && forall j :: 0 <= j < k ==> !TestBit(b, j)
  {
    if b & 0x01 != 0 then 0 else if b & 0x02 != 0 then 1 else if b & 0x04 != 0 then 2 else if b & 0x08 != 0 then 3
    else if b & 0x10 != 0 then 4 else if b & 0x20 != 0 then 5 else if b & 0x40 != 0 then 6 else 7
  }

  lemma SetByteBit(b: bv8, k: nat, j: nat)
    requires k < 8 && j < 8
    ensures TestBit(b | BitMask(k), j) <==> j == k || TestBit(b, j)
    ensures TestBit(b & !BitMask(k), j) <==> j != k && TestBit(b, j)
  {
    MasksDisjoint(k, j);
    MasksDisjoint(j, j);
    SetMasked(b, BitMask(k), BitMask(j));
  }

  lemma SetMasked(b: bv8, m: bv8, n: bv8)
    ensures m & n == 0 ==> (b | m) & n == b & n && (b & !m) & n == b & n
    ensures m == n ==> (b | m) & n == n && (b & !m) & n == 0
  {
  }

  lemma MasksDisjoint(k: nat, j: nat)
    requires k < 8 && j < 8
    ensures BitMask(k) & BitMask(j) == if k == j then BitMask(k) else 0
    ensures LowMask(k) & BitMask(j) == if j <= k then BitMask(j) else 0
    ensures HighMask(k) & BitMask(j) == if j >= k then BitMask(j) else 0
    ensures BitMask(k) != 0
  {
    MaskTable(k);
    MaskTable(j);
  }

  lemma MaskByte(b: bv8, k: nat, j: nat)
    requires k < 8 && j < 8
    ensures TestBit(b & LowMask(k), j) <==> j <= k && TestBit(b, j)
    ensures TestBit(b & HighMask(k), j) <==> j >= k && TestBit(b, j)
  {
    MasksDisjoint(k, j);
    var n := BitMask(j);
    assert (b & LowMask(k)) & n == b & (LowMask(k) & n);
    assert (b & HighMask(k)) & n == b & (HighMask(k) & n);
  }

  lemma MaskTable(k: nat)
    requires k < 8
    ensures BitMask(k) == [1, 2, 4, 8, 16, 32, 64, 128][k]
    ensures LowMask(k) == [1, 3, 7, 15, 31, 63, 127, 255][k]
    ensures HighMask(k) == [255, 254, 252, 248, 240, 224, 192, 128][k]
  {
    if k == 0 {
      assert BitMask(0) == 1 && LowMask(0) == 1 && HighMask(0) == 255;
    } else if k == 1 {
      assert BitMask(1) == 2 && LowMask(1) == 3 && HighMask(1) == 254;
    } else if k == 2 {
      assert BitMask(2) == 4 && LowMask(2) == 7 && HighMask(2) == 252;
    } else if k == 3 {
      assert BitMask(3) == 8 && LowMask(3) == 15 && HighMask(3) == 248;
    } else if k == 4 {
      assert BitMask(4) == 16 && LowMask(4) == 31 && HighMask(4) == 240;
    } else if k == 5 {
      assert BitMask(5) == 32 && LowMask(5) == 63 && HighMask(5) == 224;
    } else if k == 6 {
      assert BitMask(6) == 64 && LowMask(6) == 127 && HighMask(6) == 192;
    } else {
      assert BitMask(7) == 128 && LowMask(7) == 255 && HighMask(7) == 128;
    }
  }

  // -------------------------------------------------------------------- words

  /** Byte 0 holds bits 255 to 248. */
  function ByteOf(n: nat): (i: nat)
    requires n < 256
    ensures i < 32 && 31 - i == n / 8
  {
    31 - n / 8
  }

  function Position(byteIdx: nat, k: nat): (n: nat)
    requires byteIdx < 32 && k < 8
    ensures n < 256 && ByteOf(n) == byteIdx && n % 8 == k
  {
    (31 - byteIdx) * 8 + k
  }

  /** Bit `n` of a word. */
  predicate BitOf(w: Word, n: nat)
    requires n < 256
  {
    TestBit(w[ByteOf(n)], n % 8)
  }

  /** Bits are ordered by byte, then within the byte. */
  lemma BitOrder(m: nat, n: nat)
    requires m < 256 && n < 256
    ensures m <= n <==> ByteOf(m) > ByteOf(n) || (ByteOf(m) == ByteOf(n) && m % 8 <= n % 8)
    ensures m == n <==> ByteOf(m) == ByteOf(n) && m % 8 == n % 8
  {
  }

  /** The word with one byte masked as `set_bit` does. */
  function WithBit(w: Word, bitPos: nat, value: bool): Word
    requires bitPos < 256
  {
    var i, mask := ByteOf(bitPos), BitMask(bitPos % 8);
    w[i := if value then w[i] | mask else w[i] & !mask]
  }

  /** It differs from the word in that bit only. */
  lemma WithBitSetsOne(w: Word, bitPos: nat, value: bool, n: nat)
    requires bitPos < 256 && n < 256
    ensures BitOf(WithBit(w, bitPos, value), n) <==> if n == bitPos then value else BitOf(w, n)
  {
    BitOrder(bitPos, n);
    SetByteBit(w[ByteOf(bitPos)], bitPos % 8, n % 8);
  }

  /** Sets or clears one bit in place; positions outside the word are ignored. */
  method SetBit(word: array<bv8>, bitPos: nat, value: bool)
    requires word.Length == 32
    modifies word
    ensures word[..] == if bitPos < 256 then WithBit(old(word[..]), bitPos, value) else old(word[..])
  {
    if bitPos >= 256 {
      return;
    }
    var byteIdx := 31 - bitPos / 8;
    var mask := BitMask(bitPos % 8);
    if value {
      word[byteIdx] := word[byteIdx] | mask;
    } else {
      word[byteIdx] := word[byteIdx] & !mask;
    }
  }

  /** `r` is the highest set bit at or below `from`, or None when there is none. */
  ghost predicate PrevBit(w: Word, from: nat, r: Option<nat>)
  {
    match r
    case Some(p) => p <= from && p < 256 && BitOf(w, p) && forall n | p < n < 256 && n <= from :: !BitOf(w, n)
    case None => forall n | 0 <= n < 256 && n <= from :: !BitOf(w, n)
  }

  /** `r` is the lowest set bit at or above `from`, or None when there is none. */
  ghost predicate NextBit(w: Word, from: nat, r: Option<nat>)
  {
    match r
    case Some(p) => from <= p < 256 && BitOf(w, p) && forall n | from <= n < p :: !BitOf(w, n)
    case None => forall n | from <= n < 256 :: !BitOf(w, n)
  }

  /** Bits of `w` at or below `from`, seen through a masked start byte and whole lower bytes. */
  lemma PrevView(w: Word, from: nat, n: nat)
    requires n <= from < 256
    ensures ByteOf(n) == ByteOf(from) ==> (BitOf(w, n) <==> TestBit(w[ByteOf(from)] & LowMask(from % 8), n % 8))
    ensures ByteOf(n) >= ByteOf(from)
  {
    BitOrder(n, from);
    MaskByte(w[ByteOf(from)], from % 8, n % 8);
  }

  lemma NextView(w: Word, from: nat, n: nat)
    requires from <= n < 256
    ensures ByteOf(n) == ByteOf(from) ==> (BitOf(w, n) <==> TestBit(w[ByteOf(from)] & HighMask(from % 8), n % 8))
    ensures ByteOf(n) <= ByteOf(from)
  {
    BitOrder(from, n);
    MaskByte(w[ByteOf(from)], from % 8, n % 8);
  }

  method FindPrevSetBit(word: Word, fromBit: nat) returns (r: Option<nat>)
    ensures PrevBit(word, fromBit, r)
  {
    var from := if fromBit > 255 then 255 else fromBit;
    var startByte := (255 - from) / 8;
    assert startByte == ByteOf(from);
    var masked := word[startByte] & LowMask(from % 8);
    if masked != 0 {
      r := Some(Position(startByte, TopBit(masked)));
      PrevInStart(word, from, r.value);
      return;
    }
    for byteIdx := startByte + 1 to 32
      invariant forall i | startByte < i < byteIdx :: word[i] == 0
    {
      if word[byteIdx] != 0 {
        r := Some(Position(byteIdx, TopBit(word[byteIdx])));
        PrevBelowStart(word, from, byteIdx, r.value);
        return;
      }
    }
    PrevNone(word, from);
    return None;
  }

  lemma PrevInStart(w: Word, from: nat, p: nat)
    requires from < 256
    requires var m := w[ByteOf(from)] & LowMask(from % 8); m != 0 && p == Position(ByteOf(from), TopBit(m))
    ensures PrevBit(w, from, Some(p))
  {
    var m := w[ByteOf(from)] & LowMask(from % 8);
    BitOrder(p, from);
    MaskByte(w[ByteOf(from)], from % 8, p % 8);
    forall n | p < n <= from
      ensures !BitOf(w, n)
    {
      BitOrder(n, p);
      PrevView(w, from, n);
    }
  }

  lemma PrevBelowStart(w: Word, from: nat, byteIdx: nat, p: nat)
    requires from < 256 && ByteOf(from) < byteIdx < 32
    requires w[ByteOf(from)] & LowMask(from % 8) == 0
    requires forall i | ByteOf(from) < i < byteIdx :: w[i] == 0
    requires w[byteIdx] != 0 && p == Position(byteIdx, TopBit(w[byteIdx]))
    ensures PrevBit(w, from, Some(p))
  {
    BitOrder(p, from);
    ZeroBits();
    forall n | p < n <= from
      ensures !BitOf(w, n)
    {
      BitOrder(n, p);
      PrevView(w, from, n);
    }
  }

  lemma PrevNone(w: Word, from: nat)
    requires from < 256
    requires w[ByteOf(from)] & LowMask(from % 8) == 0
    requires forall i | ByteOf(from) < i < 32 :: w[i] == 0
    ensures PrevBit(w, from, None)
  {
    ZeroBits();
    forall n | 0 <= n <= from
      ensures !BitOf(w, n)
    {
      PrevView(w, from, n);
    }
  }

  method FindNextSetBit(word: Word, fromBit: nat) returns (r: Option<nat>)
    ensures NextBit(word, if fromBit > 255 then 255 else fromBit, r)
  {
    var from := if fromBit > 255 then 255 else fromBit;
    var startByte := (255 - from) / 8;
    assert startByte == ByteOf(from);
    var masked := word[startByte] & HighMask(from % 8);
    if masked != 0 {
      r := Some(Position(startByte, LowBit(masked)));
      NextInStart(word, from, r.value);
      return;
    }
    for byteIdx := startByte downto 0
      invariant forall i | byteIdx <= i < startByte :: word[i] == 0
    {
      if word[byteIdx] != 0 {
        r := Some(Position(byteIdx, LowBit(word[byteIdx])));
        NextAboveStart(word, from, byteIdx, r.value);
        return;
      }
    }
    NextNone(word, from);
    return None;
  }

  lemma NextInStart(w: Word, from: nat, p: nat)
    requires from < 256
    requires var m := w[ByteOf(from)] & HighMask(from % 8); m != 0 && p == Position(ByteOf(from), LowBit(m))
    ensures NextBit(w, from, Some(p))
  {
    BitOrder(from, p);
    MaskByte(w[ByteOf(from)], from % 8, p % 8);
    forall n | from <= n < p
      ensures !BitOf(w, n)
    {
      BitOrder(n, p);
      BitOrder(p, n);
      NextView(w, from, n);
    }
  }

  lemma NextAboveStart(w: Word, from: nat, byteIdx: nat, p: nat)
    requires from < 256 && byteIdx < ByteOf(from)
    requires w[ByteOf(from)] & HighMask(from % 8) == 0
    requires forall i | byteIdx < i < ByteOf(from) :: w[i] == 0
    requires w[byteIdx] != 0 && p == Position(byteIdx, LowBit(w[byteIdx]))
    ensures NextBit(w, from, Some(p))
  {
    BitOrder(from, p);
    ZeroBits();
    forall n | from <= n < p
      ensures !BitOf(w, n)
    {
      BitOrder(n, p);
      BitOrder(p, n);
      NextView(w, from, n);
    }
  }

  lemma NextNone(w: Word, from: nat)
    requires from < 256
    requires w[ByteOf(from)] & HighMask(from % 8) == 0
    requires forall i | 0 <= i < ByteOf(from) :: w[i] == 0
    ensures NextBit(w, from, None)
  {
    ZeroBits();
    forall n | from <= n < 256
      ensures !BitOf(w, n)
    {
      NextView(w, from, n);
    }
  }

  lemma ZeroBits()
    ensures forall j | 0 <= j < 8 :: !TestBit(0, j)
  {
  }

  /** A word differs from zero exactly when one of its bits is set. */
  lemma ZeroWordHasNoBit(w: Word)
    ensures w == ZERO_WORD <==> forall n | 0 <= n < 256 :: !BitOf(w, n)
  {
    ZeroBits();
    if forall n | 0 <= n < 256 :: !BitOf(w, n) {
      forall i | 0 <= i < 32
        ensures w[i] == 0
      {
        if w[i] != 0 {
          assert BitOf(w, Position(i, TopBit(w[i])));
        }
      }
    }
  }

  // -------------------------------------------------------------- compression

  /** Division and remainder of signed integers as the source language has them: the
      quotient is truncated towards zero and the remainder takes the dividend's sign. */
  function TruncDiv(a: int, b: int): int
    requires b > 0
  {
    if a >= 0 then a / b else -((-a) / b)
  }

  function TruncRem(a: int, b: int): int
    requires b > 0
  {
    a - TruncDiv(a, b) * b
  }

  function SatI32(x: int): int
  {
    if x < -0x8000_0000 then -0x8000_0000 else if x > 0x7FFF_FFFF then 0x7FFF_FFFF else x
  }

  function CompressTick(tick: int, spacing: int): int
    requires spacing > 0
  {
    var compressed := TruncDiv(tick, spacing);
    if tick < 0 && TruncRem(tick, spacing) != 0 then compressed - 1 else compressed
  }

  function ClampTick(tick: int): int
  {
    if tick < MIN_TICK then MIN_TICK else if tick > MAX_TICK then MAX_TICK else tick
  }

  function CompressedToTick(compressed: int, spacing: int): int
  {
    ClampTick(SatI32(compressed * spacing))
  }

  /** Compression is floor division, and undoes decompression wherever that does not clamp. */
  lemma CompressIsFloor(tick: int, spacing: int)
    requires spacing > 0
    ensures CompressTick(tick, spacing) == tick / spacing
  {
    if tick < 0 {
      var q, r := (-tick) / spacing, (-tick) % spacing;
      if r == 0 {
        DivModUnique(tick, spacing, -q, 0);
      } else {
        DivModUnique(tick, spacing, -q - 1, spacing - r);
      }
    }
  }

  lemma CompressRoundTrip(c: int, spacing: int)
    requires spacing > 0 && MIN_TICK <= c * spacing <= MAX_TICK
    ensures CompressedToTick(c, spacing) == c * spacing
    ensures CompressTick(CompressedToTick(c, spacing), spacing) == c
  {
    CompressIsFloor(c * spacing, spacing);
    DivModUnique(c * spacing, spacing, c, 0);
  }
}
