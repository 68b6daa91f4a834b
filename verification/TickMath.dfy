/** Ticks and prices (liquidity_pool_concentrated/src/math.rs): the price of a tick, the
    128-bit widening product and the binary logarithm behind the tick of a price. */
module TickMath {
  import opened Words
  import opened U512
  import opened PriceMath

  const MIN_TICK: int := -887_272
  const MAX_TICK: int := 887_272

  const TWO_64: int := 0x1_00000000_00000000

  // ---------------------------------------------------------- price of a tick

  const TICK_MULTIPLIERS: seq<U128> := [
    0xfffcb933bd6fad37aa2d162d1a594001,
    0xfff97272373d413259a46990580e213a,
    0xfff2e50f5f656932ef12357cf3c7fdcc,
    0xffe5caca7e10e4e61c3624eaa0941cd0,
    0xffcb9843d60f6159c9db58835c926644,
    0xff973b41fa98c081472e6896dfb254c0,
    0xff2ea16466c96a3843ec78b326b52861,
    0xfe5dee046a99a2a811c461f1969c3053,
    0xfcbe86c7900a88aedcffc83b479aa3a4,
    0xf987a7253ac413176f2b074cf7815e54,
    0xf3392b0822b70005940c7a398e4b70f3,
    0xe7159475a2c29b7443b29c7fa6e889d9,
    0xd097f3bdfd2022b8845ad8f792aa5825,
    0xa9f746462d870fdf8a65dc1f90e061e5,
    0x70d869a156d2a1b890bb3df62baf32f7,
    0x31be135f97d08fd981231505542fcfa6,
    0x09aa508b5b7a84e1c677de54f3e99bc9,
    0x005d6af8dedb81196699c329225ee604,
    0x0002216e584f5fa1ea926041bedfe98,
    0x000048a170391f7dc42444e8fa2
  ]

  /** The Q128 ratio after the first `i` multipliers selected by the bits of `absTick`. */
  function RatioAfter(absTick: nat, i: nat): (r: U256)
    requires i <= 20
    ensures r <= TWO_128
  {
    if i == 0 then TWO_128
    else
      var ratio := RatioAfter(absTick, i - 1);
      if absTick / Pow(2, i - 1) % 2 != 0 then
        MulMono(ratio, TWO_128, TICK_MULTIPLIERS[i - 1]);
        RoundedAtMost(ratio * TICK_MULTIPLIERS[i - 1], TWO_128, false, TICK_MULTIPLIERS[i - 1]);
        ratio * TICK_MULTIPLIERS[i - 1] / TWO_128
      else ratio
  }

  /** A power of two below the ratio after the first `i` multipliers, whatever the tick. */
  const FLOORS: seq<U256> := [
    0x1_00000000_00000000_00000000_00000000,
    0x80000000_00000000_00000000_00000000,
    0x40000000_00000000_00000000_00000000,
    0x20000000_00000000_00000000_00000000,
    0x10000000_00000000_00000000_00000000,
    0x08000000_00000000_00000000_00000000,
    0x04000000_00000000_00000000_00000000,
    0x02000000_00000000_00000000_00000000,
    0x01000000_00000000_00000000_00000000,
    0x00800000_00000000_00000000_00000000,
    0x00400000_00000000_00000000_00000000,
    0x00200000_00000000_00000000_00000000,
    0x00100000_00000000_00000000_00000000,
    0x00080000_00000000_00000000_00000000,
    0x00040000_00000000_00000000_00000000,
    0x00010000_00000000_00000000_00000000,
    0x00002000_00000000_00000000_00000000,
    0x00000100_00000000_00000000_00000000,
    0x00000000_40000000_00000000_00000000,
    0x00000000_00000800_00000000_00000000,
    0x00000000_00000000_00000020_00000000
  ]

  lemma FloorStep(i: nat)
    requires i < 20
    ensures FLOORS[i + 1] <= FLOORS[i]
    ensures FLOORS[i + 1] * TWO_128 <= FLOORS[i] * TICK_MULTIPLIERS[i]
  {
  }

  lemma {:induction false} RatioFloor(absTick: nat, i: nat)
    requires i <= 20
    ensures FLOORS[i] <= RatioAfter(absTick, i)
  {
    if i > 0 {
      RatioFloor(absTick, i - 1);
      FloorStep(i - 1);
      var ratio := RatioAfter(absTick, i - 1);
      MulMono(FLOORS[i - 1], ratio, TICK_MULTIPLIERS[i - 1]);
      FloorGalois(FLOORS[i], ratio * TICK_MULTIPLIERS[i - 1], TWO_128);
    }
  }

  /** The rounded-up Q96 price of a Q128 ratio. */
  function ToX96(ratio: U256): U256
  {
    ratio / 0x1_00000000 + (if ratio % 0x1_00000000 != 0 then 1 else 0)
  }

  /** `sqrt_ratio_at_tick`: always a positive price below 2^192. */
  function SqrtRatioAtTick(tick: int): (price: U256)
    requires MIN_TICK <= tick <= MAX_TICK
    ensures 0 < price < MAX_PRICE
  {
    var absTick := if tick < 0 then -tick else tick;
    var ratio := RatioAfter(absTick, 20);
    RatioFloor(absTick, 20);
    FloorGalois(0x20_00000000 * 0x1_00000000, TWO_256 - 1, ratio);
    CeilingOfInverse(ratio);
    if tick > 0 then ToX96((TWO_256 - 1) / ratio) else ToX96(ratio)
  }

  lemma CeilingOfInverse(ratio: U256)
    requires 0x20_00000000 <= ratio <= TWO_128
    ensures 0 < (TWO_256 - 1) / ratio < TWO_256
    ensures 0 < ToX96((TWO_256 - 1) / ratio) < MAX_PRICE
  {
    var top := 0x8000000_00000000_00000000_00000000_00000000_00000000_00000000;
    assert top * 0x20_00000000 == TWO_256;
    FloorGalois(top, TWO_256 - 1, ratio);
    MulMono(0x20_00000000, ratio, top);
    FloorGalois(1, TWO_256 - 1, ratio);
  }

  method ComputeSqrtRatioAtTick(tick: int) returns (r: Option<U256>)
    ensures r == if MIN_TICK <= tick <= MAX_TICK then Some(SqrtRatioAtTick(tick)) else None
  {
    if !(MIN_TICK <= tick <= MAX_TICK) {
      return None;
    }
    var absTick := if tick < 0 then -tick else tick;
    var ratio: U256 := TWO_128;
    for i := 0 to 20
      invariant ratio == RatioAfter(absTick, i)
    {
      if absTick / Pow(2, i) % 2 != 0 {
        MulMono(ratio, TWO_128, TICK_MULTIPLIERS[i]);
        var product: U256 := ratio * TICK_MULTIPLIERS[i];
        ratio := product / TWO_128;
      }
    }
    RatioFloor(absTick, 20);
    CeilingOfInverse(ratio);
    if tick > 0 {
      ratio := (TWO_256 - 1) / ratio;
    }
    var price: U256 := ratio / 0x1_00000000;
    if ratio % 0x1_00000000 != 0 {
      price := price + 1;
    }
    return Some(price);
  }

  // --------------------------------------------------------- widening product

  /** 128-bit by 128-bit product in two words; no partial sum overflows. */
  function WideningMul(a: U128, b: U128): (r: (U128, U128))
    ensures r.0 * TWO_128 + r.1 == a * b
  {
    var a0, a1 := a % TWO_64, a / TWO_64;
    var b0, b1 := b % TWO_64, b / TWO_64;
    LimbProduct(a0, b0);
    LimbProduct(a0, b1);
    LimbProduct(a1, b0);
    LimbProduct(a1, b1);
    var p00: U128 := a0 * b0;
    var p01: U128 := a0 * b1;
    var p10: U128 := a1 * b0;
    var p11: U128 := a1 * b1;
    var mid: U128 := p00 / TWO_64 + p01 % TWO_64 + p10 % TWO_64;
    var lo: U128 := p00 % TWO_64 + (mid % TWO_64) * TWO_64;
    WideningIdentity(a0, a1, b0, b1);
    var hi: int := p11 + p01 / TWO_64 + p10 / TWO_64 + mid / TWO_64;
    assert hi * TWO_128 + lo == a * b;
    HalfProduct(a, b);
    (hi, lo)
  }

  lemma LimbProduct(x: int, y: int)
    requires 0 <= x < TWO_64 && 0 <= y < TWO_64
    ensures 0 <= x * y <= (TWO_64 - 1) * (TWO_64 - 1)
  {
    MulMono(x, TWO_64 - 1, y);
    MulMono(y, TWO_64 - 1, TWO_64 - 1);
  }

  lemma WideningIdentity(a0: int, a1: int, b0: int, b1: int)
    ensures (a1 * TWO_64 + a0) * (b1 * TWO_64 + b0)
         == a1 * b1 * TWO_128 + (a0 * b1 + a1 * b0) * TWO_64 + a0 * b0
  {
    assert (a1 * TWO_64 + a0) * (b1 * TWO_64 + b0)
        == a1 * TWO_64 * (b1 * TWO_64) + a1 * TWO_64 * b0 + a0 * (b1 * TWO_64) + a0 * b0;
  }

  // --------------------------------------------------- binary logarithm by squaring

  const TWO_127: int := 0x80000000_00000000_00000000_00000000

  /** A mantissa in [1, 2) as a 128-bit word with its top bit set. */
  type Mantissa = r: int | TWO_127 <= r < TWO_128 witness TWO_127

  /** The bit produced by squaring: whether the square is at least 2. */
  function SquareBit(r: Mantissa): Bit
  {
    if r * r >= TWO_127 * TWO_128 then 1 else 0
  }

  /** The square renormalised to a mantissa. */
  function SquareMantissa(r: Mantissa): Mantissa
  {
    SquareRange(r);
    if SquareBit(r) == 1 then r * r / TWO_128 else r * r / TWO_127
  }

  lemma SquareRange(r: Mantissa)
    ensures TWO_127 * TWO_127 <= r * r < TWO_128 * TWO_128
    ensures SquareBit(r) == 1 ==> TWO_127 <= r * r / TWO_128 < TWO_128
    ensures SquareBit(r) == 0 ==> TWO_127 <= r * r / TWO_127 < TWO_128
  {
    MulMono(TWO_127, r, r);
    MulMono(TWO_127, r, TWO_127);
    MulMono(r, TWO_128 - 1, r);
    MulMono(r, TWO_128 - 1, TWO_128 - 1);
    FloorGalois(TWO_127, r * r, TWO_128);
    FloorGalois(TWO_128, r * r, TWO_128);
    FloorGalois(TWO_127, r * r, TWO_127);
    FloorGalois(TWO_128, r * r, TWO_127);
  }

  /** Mantissa and collected fraction bits after `k` squarings of `r0`. */
  function LogState(r0: Mantissa, k: nat): (Mantissa, nat)
  {
    if k == 0 then (r0, 0)
    else
      var (r, n) := LogState(r0, k - 1);
      (SquareMantissa(r), 2 * n + SquareBit(r))
  }

  /** One round of the loop body: the words of the widening product give the bit and the
      next mantissa. */
  lemma SquareWords(r: Mantissa)
    ensures var (hi, lo) := WideningMul(r, r);
      && hi / TWO_127 == SquareBit(r)
      && (SquareBit(r) == 0 ==> hi < TWO_127 && hi * 2 + lo / TWO_127 == SquareMantissa(r))
      && (SquareBit(r) == 1 ==> hi == SquareMantissa(r))
  {
    var (hi, lo) := WideningMul(r, r);
    SquareRange(r);
    DivModUnique(r * r, TWO_128, hi, lo);
    if SquareBit(r) == 0 {
      assert r * r == (hi * 2 + lo / TWO_127) * TWO_127 + lo % TWO_127;
      DivModUnique(r * r, TWO_127, hi * 2 + lo / TWO_127, lo % TWO_127);
    }
  }

  /** Exponent of the power of two the squarings have taken out so far. */
  function Exponent(k: nat, n: nat): nat
  {
    127 * (Pow(2, k) - 1) + n
  }

  /** Bound on the error of up to 22 squarings, in units of the mantissa. */
  const SQUARING_ERROR: nat := 0x200_0000_0000_0000

  /** Squaring never overestimates, and loses less than `6^k` units of the mantissa for
      every number that starts with r0: after `k` rounds with mantissa r and fraction bits n,
      `r * 2^X <= r0^(2^k)` and `(r0 + 1)^(2^k) <= (r + 6^k) * 2^X` with `X = 127 * (2^k - 1) + n`. */
  lemma {:induction false} LogBracket(r0: Mantissa, k: nat)
    returns (r: Mantissa, n: nat, e: nat, p: nat, s: nat, u: nat)
    requires k <= 22
    ensures LogState(r0, k) == (r, n)
    ensures e == Pow(6, k) && p == Pow(2, Exponent(k, n)) && s == Pow(r0, Pow(2, k)) && u == Pow(r0 + 1, Pow(2, k))
    ensures r * p <= s && u <= (r + e) * p
  {
    if k == 0 {
      r, n, e, p, s, u := r0, 0, 1, 1, r0, r0 + 1;
      assert Pow(r0, 1) == r0 && Pow(r0 + 1, 1) == r0 + 1;
      assert Pow(2, 0) == 1;
    } else {
      var r', n', e', p', s', u' := LogBracket(r0, k - 1);
      var f := SquareBit(r');
      var d: nat := if f == 1 then TWO_128 else TWO_127;
      PowAdd(r0, Pow(2, k - 1), Pow(2, k - 1));
      PowAdd(r0 + 1, Pow(2, k - 1), Pow(2, k - 1));
      ExponentStep(k - 1, n', f);
      r, n, e, p, s, u := SquareMantissa(r'), 2 * n' + f, 6 * e', p' * p' * d, s' * s', u' * u';
      SmallError(k - 1);
      RoundBracket(r', e', d);
      SquareBelow(r', r, d, p', s');
      SquareAbove(r' + e', r + e, d, p', u');
    }
  }

  lemma {:induction false} SmallError(k: nat)
    requires k <= 22
    ensures Pow(6, k) <= SQUARING_ERROR
  {
    assert Pow(6, 11) == 362797056;
    PowAdd(6, 11, 11);
    PowMono6(k, 22);
  }

  lemma {:induction false} PowMono6(m: nat, n: nat)
    requires m <= n
    ensures Pow(6, m) <= Pow(6, n)
    decreases n - m
  {
    if m < n {
      PowMono6(m + 1, n);
    }
  }

  /** One squaring on mantissas: the truncation error grows at most sixfold. */
  lemma RoundBracket(r: Mantissa, e: nat, d: nat)
    requires 1 <= e <= SQUARING_ERROR
    requires d == if SquareBit(r) == 1 then TWO_128 else TWO_127
    ensures SquareMantissa(r) * d <= r * r && (r + e) * (r + e) <= (SquareMantissa(r) + 6 * e) * d
  {
    SquareRange(r);
    FloorBounds(r * r, d);
    MulMono(r, TWO_128, e);
    MulMono(e, TWO_127, e);
    assert (r + e) * (r + e) == r * r + 2 * (r * e) + e * e;
    assert (SquareMantissa(r) + 6 * e) * d == SquareMantissa(r) * d + 6 * (e * d);
    assert e * d >= d;
  }

  /** Squaring either end of the bracket. */
  lemma SquareBelow(r: nat, next: nat, d: nat, a: nat, s: nat)
    requires r * a <= s && next * d <= r * r
    ensures next * (a * a * d) <= s * s
  {
    var t := r * a;
    MulMono(t, s, t);
    MulMono(t, s, s);
    assert t * t == (r * r) * (a * a);
    MulMono(next * d, r * r, a * a);
    assert next * d * (a * a) == next * (a * a * d);
  }

  lemma SquareAbove(r: nat, next: nat, d: nat, a: nat, s: nat)
    requires s <= r * a && r * r <= next * d
    ensures s * s <= next * (a * a * d)
  {
    var t := r * a;
    MulMono(s, t, s);
    MulMono(s, t, t);
    assert t * t == (r * r) * (a * a);
    MulMono(r * r, next * d, a * a);
    assert next * d * (a * a) == next * (a * a * d);
  }

  lemma PowWords()
    ensures Pow(2, 127) == TWO_127 && Pow(2, 128) == TWO_128
  {
    PowIsBytes(16);
    Pow256Is16Bytes();
    PowAdd(2, 1, 127);
  }

  lemma Pow256Is16Bytes()
    ensures Pow(256, 16) == TWO_128
  {
    assert Pow(256, 8) == TWO_64;
    PowAdd(256, 8, 8);
  }

  lemma ExponentStep(k: nat, n: nat, f: Bit)
    ensures Pow(2, Exponent(k + 1, 2 * n + f))
         == Pow(2, Exponent(k, n)) * Pow(2, Exponent(k, n)) * (if f == 1 then TWO_128 else TWO_127)
  {
    var x := Exponent(k, n);
    assert Exponent(k + 1, 2 * n + f) == (x + x) + (127 + f);
    PowAdd(2, x, x);
    PowAdd(2, x + x, 127 + f);
    PowWords();
  }

  /** The bits N collected in `k` rounds satisfy `2^(127 * 2^k + N) <= r0^(2^k)`: the
      fraction is never overestimated. */
  lemma FractionNeverOverestimates(r0: Mantissa, k: nat)
    requires k <= 22
    ensures Pow(2, 127 * Pow(2, k) + LogState(r0, k).1) <= Pow(r0, Pow(2, k))
  {
    var r, n, e, p, s, u := LogBracket(r0, k);
    assert Exponent(k, n) + 127 == 127 * Pow(2, k) + n;
    PowAdd(2, Exponent(k, n), 127);
    PowWords();
    MulMono(TWO_127, r, p);
  }

  /** Nor is it short by more than one unit of the last bit and a relative 2^-71 in the power,
      for any number that starts with r0. */
  lemma FractionAlmostReached(r0: Mantissa, k: nat)
    requires k <= 22
    ensures Pow(r0 + 1, Pow(2, k)) <= (TWO_128 + SQUARING_ERROR) * Pow(2, Exponent(k, LogState(r0, k).1))
  {
    var r, n, e, p, s, u := LogBracket(r0, k);
    SmallError(k);
    MulMono(r + e, TWO_128 + SQUARING_ERROR, p);
  }

  // ------------------------------------------------------------ tick of a price

  /** Number of bits of `x`; `leading_zeros` of a u128 is 128 minus this. */
  function BitLength(x: nat): nat
  {
    if x == 0 then 0 else 1 + BitLength(x / 2)
  }

  lemma {:induction false} BitLengthBounds(x: nat)
    requires x > 0
    ensures BitLength(x) > 0
    ensures Pow(2, BitLength(x) - 1) <= x < Pow(2, BitLength(x))
  {
    if x > 1 {
      BitLengthBounds(x / 2);
    } else {
      assert BitLength(1) == 1;
    }
  }

  lemma {:induction false} Pow2Mono(m: nat, n: nat)
    ensures m <= n ==> Pow(2, m) <= Pow(2, n)
    ensures m < n ==> Pow(2, m) < Pow(2, n)
    decreases n
  {
    if m < n {
      Pow2Mono(m, n - 1);
    }
  }

  /** Position of the most significant bit of the Q128 ratio, read off its two words. */
  function Msb(hi: U128, lo: U128): nat
    requires hi > 0 || lo > 0
  {
    BitLengthBounds(if hi > 0 then hi else lo);
    if hi > 0 then 128 + (BitLength(hi) - 1) else BitLength(lo) - 1
  }

  lemma MsbBounds(hi: U128, lo: U128)
    requires hi > 0 || lo > 0
    ensures var ratio := hi * TWO_128 + lo;
      Pow(2, Msb(hi, lo)) <= ratio < Pow(2, Msb(hi, lo) + 1)
  {
    PowWords();
    if hi > 0 {
      var b := BitLength(hi);
      BitLengthBounds(hi);
      PowAdd(2, 128, b - 1);
      PowAdd(2, 128, b);
      MulMono(Pow(2, b - 1), hi, TWO_128);
      MulMono(hi + 1, Pow(2, b), TWO_128);
    } else {
      BitLengthBounds(lo);
    }
  }

  /** The ratio shifted so that its top bit is bit 127. */
  function Normalize(hi: U128, lo: U128): (r: int)
    requires hi > 0 || lo > 0
  {
    var msb := Msb(hi, lo);
    if msb >= 128 then
      var s := msb - 127;
      if s <= 128 then hi * Pow(2, 128 - s) + lo / Pow(2, s) else 0
    else lo * Pow(2, 127 - msb)
  }

  lemma NormalizeIsMantissa(hi: U128, lo: U128)
    requires hi > 0 || lo > 0
    ensures Msb(hi, lo) <= 255
    ensures var msb, r, ratio := Msb(hi, lo), Normalize(hi, lo), hi * TWO_128 + lo;
      && TWO_127 <= r < TWO_128
      && (if msb >= 128 then r == ratio / Pow(2, msb - 127) && hi < Pow(2, msb - 127)
          else r == ratio * Pow(2, 127 - msb))
  {
    var msb := Msb(hi, lo);
    MsbBounds(hi, lo);
    PowWords();
    MsbSplit(hi, lo);
    if msb >= 128 {
      var s := msb - 127;
      PowAdd(2, 128 - s, s);
      PowAdd(2, s, 127);
      PowAdd(2, s, 128);
      NormalizeHigh(hi, lo, Pow(2, s), Pow(2, 128 - s));
    } else {
      PowAdd(2, msb, 127 - msb);
      PowAdd(2, msb + 1, 127 - msb);
      NormalizeLow(lo, Pow(2, msb), Pow(2, msb + 1), Pow(2, 127 - msb));
    }
  }

  /** The most significant bit lies in the high word exactly when that word is not zero. */
  lemma MsbSplit(hi: U128, lo: U128)
    requires hi > 0 || lo > 0
    ensures hi > 0 <==> Msb(hi, lo) >= 128
    ensures Msb(hi, lo) <= 255
  {
    PowWords();
    var w := if hi > 0 then hi else lo;
    BitLengthBounds(w);
    Pow2Mono(128, BitLength(w) - 1);
  }

  lemma NormalizeHigh(hi: U128, lo: U128, p: nat, q: nat)
    requires p > 0 && q * p == TWO_128
    requires p * TWO_127 <= hi * TWO_128 + lo < p * TWO_128
    ensures hi < p
    ensures hi * q + lo / p == (hi * TWO_128 + lo) / p
    ensures TWO_127 <= hi * q + lo / p < TWO_128
  {
    var ratio := hi * TWO_128 + lo;
    ShiftSplit(hi, lo, p, q);
    FloorGalois(TWO_127, ratio, p);
    FloorGalois(TWO_128, ratio, p);
    MulCancel(hi, p, TWO_128);
  }

  lemma NormalizeLow(lo: nat, low: nat, high: nat, m: nat)
    requires low <= lo < high && low * m == TWO_127 && high * m == TWO_128 && m > 0
    ensures TWO_127 <= lo * m < TWO_128
  {
    MulMono(low, lo, m);
    MulMono(lo + 1, high, m);
  }

  lemma ShiftSplit(hi: nat, lo: nat, p: nat, q: nat)
    requires p > 0 && q * p == TWO_128
    ensures (hi * TWO_128 + lo) / p == hi * q + lo / p
  {
    FloorBounds(lo, p);
    assert (hi * q) * p == hi * TWO_128;
    assert (hi * q + lo / p) * p == (hi * q) * p + (lo / p) * p;
    DivModUnique(hi * TWO_128 + lo, p, hi * q + lo / p, lo % p);
  }

  /** The fraction bits `k` rounds of the loop collect. */
  function Fraction(hi: U128, lo: U128, k: nat): nat
    requires hi > 0 || lo > 0
  {
    NormalizeIsMantissa(hi, lo);
    LogState(Normalize(hi, lo), k).1
  }

  /** The Q64.64 logarithm `log_2` of the ratio relative to 2^128. */
  function Log2(hi: U128, lo: U128): int
    requires hi > 0 || lo > 0
  {
    (Msb(hi, lo) - 128) * TWO_64 + Fraction(hi, lo, 14) * 0x4000000000000
  }

  lemma {:induction false} PowMul(a: nat, b: nat, n: nat)
    ensures Pow(a * b, n) == Pow(a, n) * Pow(b, n)
  {
    if n > 0 {
      PowMul(a, b, n - 1);
      assert a * b * (Pow(a, n - 1) * Pow(b, n - 1)) == (a * Pow(a, n - 1)) * (b * Pow(b, n - 1));
    }
  }

  lemma {:induction false} PowPow(b: nat, m: nat, n: nat)
    ensures Pow(Pow(b, m), n) == Pow(b, m * n)
  {
    if n > 0 {
      PowPow(b, m, n - 1);
      assert m * n == m + m * (n - 1);
      PowAdd(b, m, m * (n - 1));
    }
  }

  lemma {:induction false} PowBaseMono(a: nat, b: nat, n: nat)
    requires a <= b
    ensures Pow(a, n) <= Pow(b, n)
  {
    if n > 0 {
      PowBaseMono(a, b, n - 1);
      MulMono(a, b, Pow(a, n - 1));
      MulMono(Pow(a, n - 1), Pow(b, n - 1), b);
    }
  }

  /** The logarithm after `k` rounds, in units of `2^-k` and relative to one. */
  function ScaledLog(hi: U128, lo: U128, k: nat): nat
    requires hi > 0 || lo > 0
  {
    Msb(hi, lo) * Pow(2, k) + Fraction(hi, lo, k)
  }

  /** The logarithm never overestimates: with msb and N its integer part and the bits of
      `k` rounds, `2^(msb * 2^k + N) <= ratio^(2^k)`, and N is a proper fraction of k bits. */
  lemma Log2NeverOverestimates(hi: U128, lo: U128, k: nat)
    requires hi > 0 || lo > 0
    requires k <= 14
    ensures Fraction(hi, lo, k) < Pow(2, k)
    ensures Pow(2, ScaledLog(hi, lo, k)) <= Pow(hi * TWO_128 + lo, Pow(2, k))
  {
    var msb, r := NormalizeScale(hi, lo);
    FractionNeverOverestimates(r, k);
    FractionBound(r, k);
    Scale(r, hi * TWO_128 + lo, msb, Pow(2, k), LogState(r, k).1);
  }

  lemma NormalizeScale(hi: U128, lo: U128) returns (msb: nat, r: Mantissa)
    requires hi > 0 || lo > 0
    ensures msb == Msb(hi, lo) && r == Normalize(hi, lo)
    ensures var ratio := hi * TWO_128 + lo;
      if msb >= 128 then r * Pow(2, msb - 127) <= ratio else r == ratio * Pow(2, 127 - msb)
  {
    NormalizeIsMantissa(hi, lo);
    msb, r := Msb(hi, lo), Normalize(hi, lo);
    if msb >= 128 {
      FloorBounds(hi * TWO_128 + lo, Pow(2, msb - 127));
    }
  }

  lemma Scale(r: nat, ratio: nat, msb: nat, m: nat, n: nat)
    requires if msb >= 128 then r * Pow(2, msb - 127) <= ratio else r == ratio * Pow(2, 127 - msb)
    requires Pow(2, 127 * m + n) <= Pow(r, m)
    ensures msb * m >= 0 && Pow(2, msb * m + n) <= Pow(ratio, m)
  {
    if msb >= 128 {
      ScaleUp(r, ratio, msb, m, n);
    } else {
      ScaleDown(r, ratio, msb, m, n);
    }
  }

  lemma ExponentShift(msb: int, m: int, n: int)
    ensures 127 * m + n + (msb - 127) * m == msb * m + n
    ensures 127 * m + n == msb * m + n + (127 - msb) * m
    ensures msb >= 0 && m >= 0 ==> msb * m >= 0
  {
  }

  lemma ScaleUp(r: nat, ratio: nat, msb: nat, m: nat, n: nat)
    requires msb >= 127
    requires r * Pow(2, msb - 127) <= ratio && Pow(2, 127 * m + n) <= Pow(r, m)
    ensures msb * m >= 0 && Pow(2, msb * m + n) <= Pow(ratio, m)
  {
    var s, x := msb - 127, 127 * m + n;
    PowBaseMono(r * Pow(2, s), ratio, m);
    PowMul(r, Pow(2, s), m);
    PowPow(2, s, m);
    PowAdd(2, x, s * m);
    MulMono(Pow(2, x), Pow(r, m), Pow(2, s * m));
    ExponentShift(msb, m, n);
  }

  lemma ScaleDown(r: nat, ratio: nat, msb: nat, m: nat, n: nat)
    requires msb <= 127
    requires r == ratio * Pow(2, 127 - msb) && Pow(2, 127 * m + n) <= Pow(r, m)
    ensures msb * m >= 0 && Pow(2, msb * m + n) <= Pow(ratio, m)
  {
    ExponentShift(msb, m, n);
    var t, x: nat := 127 - msb, msb * m + n;
    PowMul(ratio, Pow(2, t), m);
    PowPow(2, t, m);
    PowAdd(2, x, t * m);
    MulCancel(Pow(2, x), Pow(ratio, m), Pow(2, t * m));
  }

  lemma {:induction false} FractionBound(r0: Mantissa, k: nat)
    ensures LogState(r0, k).1 < Pow(2, k)
  {
    if k > 0 {
      FractionBound(r0, k - 1);
    }
  }

  const LOG_SQRT10001: U128 := 255_738_958_999_603_826_347_141
  const TICK_LOW_ERROR: U128 := 3_402_992_956_809_132_418_596_140_100_660_247_210
  const TICK_HI_ERROR: U128 := 291_339_464_771_989_622_907_027_621_153_398_088_495

  /** `log_2` as it comes out of the loop: below 2^71 in absolute value. */
  type Log2Word = x: int | -0x80_00000000_00000000 <= x <= 0x80_00000000_00000000

  /** The product of the logarithm with a positive constant as a signed high word and an
      unsigned low word. */
  function SignedProduct(log2: Log2Word): (int, U128)
  {
    var product := WideningMul(if log2 < 0 then -log2 else log2, LOG_SQRT10001);
    if log2 >= 0 then product else Negate(product.0, product.1)
  }

  /** Two's-complement negation over a signed high and an unsigned low word. */
  function Negate(hi: int, lo: U128): (r: (int, U128))
    ensures r.0 * TWO_128 + r.1 == -(hi * TWO_128 + lo)
  {
    if lo == 0 then (-hi, 0) else (-hi - 1, TWO_128 - lo)
  }

  function TickLow(log2: Log2Word): int
  {
    var (logHi, logLo) := SignedProduct(log2);
    logHi - (if logLo < TICK_LOW_ERROR then 1 else 0)
  }

  function TickHigh(log2: Log2Word): int
  {
    var (logHi, logLo) := SignedProduct(log2);
    logHi + (if logLo + TICK_HI_ERROR >= TWO_128 then 1 else 0)
  }

  /** The split words carry the true signed product, the candidates are its floors with the
      error bounds applied, they are at most one apart and fit the casts to 32 bits. */
  lemma TickCandidates(log2: Log2Word)
    ensures SignedProduct(log2).0 * TWO_128 + SignedProduct(log2).1 == log2 * LOG_SQRT10001
    ensures TickLow(log2) == (log2 * LOG_SQRT10001 - TICK_LOW_ERROR) / TWO_128
    ensures TickHigh(log2) == (log2 * LOG_SQRT10001 + TICK_HI_ERROR) / TWO_128
    ensures TickLow(log2) <= TickHigh(log2) <= TickLow(log2) + 1
    ensures -0x8000_0000 <= TickLow(log2) && TickHigh(log2) < 0x8000_0000
  {
    var (logHi, logLo) := SignedProduct(log2);
    var x := log2 * LOG_SQRT10001;
    assert logHi * TWO_128 + logLo == x;
    DivModUnique(x - TICK_LOW_ERROR, TWO_128, TickLow(log2), logLo - TICK_LOW_ERROR + (logHi - TickLow(log2)) * TWO_128);
    DivModUnique(x + TICK_HI_ERROR, TWO_128, TickHigh(log2), logLo + TICK_HI_ERROR - (TickHigh(log2) - logHi) * TWO_128);
  }

  /** What the tick of a price is, given the logarithm of its ratio; None is a panic. */
  function TickOfPrice(price: U256): Option<int>
  {
    if price < MIN_SQRT_RATIO || price >= MAX_SQRT_RATIO then None
    else
      var ratio: U256 := price * 0x1_00000000;
      Log2Range(ratio / TWO_128, ratio % TWO_128);
      ChosenTick(price, Log2(ratio / TWO_128, ratio % TWO_128))
  }

  lemma Log2Range(hi: U128, lo: U128)
    requires hi > 0 || lo > 0
    ensures -0x80_00000000_00000000 <= Log2(hi, lo) <= 0x80_00000000_00000000
  {
    NormalizeIsMantissa(hi, lo);
    FractionBound(Normalize(hi, lo), 14);
    PowOf14();
  }

  lemma PowOf14()
    ensures Pow(2, 14) == 16384
  {
    assert Pow(2, 7) == 128;
    PowAdd(2, 7, 7);
  }

  /** Normalisation and the 14 rounds of the loop. The bits or-ed into `log_2` are disjoint,
      so or is addition. */
  method ComputeLog2(hi: U128, lo: U128) returns (log2: int)
    requires hi > 0 || lo > 0
    ensures log2 == Log2(hi, lo)
  {
    var msb := Msb(hi, lo);
    NormalizeIsMantissa(hi, lo);
    ghost var r0: Mantissa := Normalize(hi, lo);
    var r: Mantissa;
    if msb >= 128 {
      var s := msb - 127;
      r := hi * Pow(2, 128 - s) + lo / Pow(2, s);
    } else {
      r := lo * Pow(2, 127 - msb);
    }
    log2 := (msb - 128) * TWO_64;
    PowWords64();
    for k := 0 to 14
      invariant LogState(r0, k).0 == r
      invariant log2 == (msb - 128) * TWO_64 + LogState(r0, k).1 * Pow(2, 64 - k)
    {
      SquareWords(r);
      var (sqHi, sqLo) := WideningMul(r, r);
      var f := sqHi / TWO_127;
      AppendFractionBit(LogState(r0, k).1, f, 63 - k);
      log2 := log2 + f * Pow(2, 63 - k);
      r := if f == 0 then sqHi * 2 + sqLo / TWO_127 else sqHi;
    }
  }

  lemma AppendFractionBit(n: nat, f: nat, k: nat)
    ensures n * Pow(2, k + 1) + f * Pow(2, k) == (2 * n + f) * Pow(2, k)
  {
  }

  /** `tick_at_sqrt_ratio`. */
  method TickAtSqrtRatio(price: U256) returns (r: Option<int>)
    ensures r == TickOfPrice(price)
  {
    if price < MIN_SQRT_RATIO || price >= MAX_SQRT_RATIO {
      return None;
    }
    var ratio: U256 := price * 0x1_00000000;
    var ratioHi: U128, ratioLo: U128 := ratio / TWO_128, ratio % TWO_128;
    Log2Range(ratioHi, ratioLo);
    var log2 := ComputeLog2(ratioHi, ratioLo);
    r := ChooseTick(price, log2);
  }

  /** The two candidates for a price and the choice between them. */
  function ChosenTick(price: U256, log2: Log2Word): Option<int>
  {
    var low, high := TickLow(log2), TickHigh(log2);
    if low == high then Some(low)
    else if high < MIN_TICK || high > MAX_TICK then None
    else if SqrtRatioAtTick(high) <= price then Some(high)
    else Some(low)
  }

  method ChooseTick(price: U256, log2: Log2Word) returns (r: Option<int>)
    ensures r == ChosenTick(price, log2)
  {
    hide WideningMul, Negate, SqrtRatioAtTick;
    var (logHi, logLo) := SignedProduct(log2);
    var tickLow := logHi - (if logLo < TICK_LOW_ERROR then 1 else 0);
    var tickHi := logHi + (if logLo + TICK_HI_ERROR >= TWO_128 then 1 else 0);
    if tickLow == tickHi {
      return Some(tickLow);
    }
    var p := ComputeSqrtRatioAtTick(tickHi);
    match p {
      case None => return None;
      case Some(sqrtHi) => return Some(if sqrtHi <= price then tickHi else tickLow);
    }
  }

  lemma PowWords64()
    ensures Pow(2, 64) == TWO_64 && Pow(2, 50) == 0x4000000000000
  {
    PowIsBytes(8);
    assert Pow(256, 8) == TWO_64;
    assert Pow(2, 2) == 4;
    PowIsBytes(6);
    assert Pow(256, 6) == 0x1_0000_0000_0000;
    PowAdd(2, 48, 2);
  }

  // ------------------------------------------------------- the ends of the ladder

  /** One round of the product, on known numbers. */
  lemma RatioRound(absTick: nat, i: nat, power: nat, ratio: U256, next: U256)
    requires i < 20 && RatioAfter(absTick, i) == ratio && power == Pow(2, i)
    requires if absTick / power % 2 == 1 then next == ratio * TICK_MULTIPLIERS[i] / TWO_128 else next == ratio
    ensures RatioAfter(absTick, i + 1) == next && Pow(2, i + 1) == 2 * power
  {
  }

  lemma RatioStart(absTick: nat)
    ensures RatioAfter(absTick, 0) == TWO_128 && Pow(2, 0) == 1
  {
  }

  lemma RatioAfter7()
    ensures RatioAfter(887_272, 7) == 0xfeac1d4052f7714818b490c1138ea058 && Pow(2, 7) == 128
  {
    hide RatioAfter, Pow;
    RatioStart(887_272);
    RatioRound(887_272, 0, 1, 0x100000000000000000000000000000000, 0x100000000000000000000000000000000);
    RatioRound(887_272, 1, 2, 0x100000000000000000000000000000000, 0x100000000000000000000000000000000);
    RatioRound(887_272, 2, 4, 0x100000000000000000000000000000000, 0x100000000000000000000000000000000);
    RatioRound(887_272, 3, 8, 0x100000000000000000000000000000000, 0xffe5caca7e10e4e61c3624eaa0941cd0);
    RatioRound(887_272, 4, 16, 0xffe5caca7e10e4e61c3624eaa0941cd0, 0xffe5caca7e10e4e61c3624eaa0941cd0);
    RatioRound(887_272, 5, 32, 0xffe5caca7e10e4e61c3624eaa0941cd0, 0xff7d10c63a977157da4140deb6f31a7b);
    RatioRound(887_272, 6, 64, 0xff7d10c63a977157da4140deb6f31a7b, 0xfeac1d4052f7714818b490c1138ea058);
  }

  lemma RatioAfter14()
    ensures RatioAfter(887_272, 14) == 0xe183ac4e25d5949966242a64e9c80e2f && Pow(2, 14) == 16384
  {
    hide RatioAfter, Pow;
    RatioAfter7();
    RatioRound(887_272, 7, 128, 0xfeac1d4052f7714818b490c1138ea058, 0xfd0c3654da9e033741d1a9f93707f6f6);
    RatioRound(887_272, 8, 256, 0xfd0c3654da9e033741d1a9f93707f6f6, 0xf9d459c5817dbafa9e376ae84dcfeb8b);
    RatioRound(887_272, 9, 512, 0xf9d459c5817dbafa9e376ae84dcfeb8b, 0xf9d459c5817dbafa9e376ae84dcfeb8b);
    RatioRound(887_272, 10, 1024, 0xf9d459c5817dbafa9e376ae84dcfeb8b, 0xf9d459c5817dbafa9e376ae84dcfeb8b);
    RatioRound(887_272, 11, 2048, 0xf9d459c5817dbafa9e376ae84dcfeb8b, 0xe183ac4e25d5949966242a64e9c80e2f);
    RatioRound(887_272, 12, 4096, 0xe183ac4e25d5949966242a64e9c80e2f, 0xe183ac4e25d5949966242a64e9c80e2f);
    RatioRound(887_272, 13, 8192, 0xe183ac4e25d5949966242a64e9c80e2f, 0xe183ac4e25d5949966242a64e9c80e2f);
  }

  lemma RatioOfLastTick()
    ensures RatioAfter(887_272, 20) == 0x1000276a221a17501 && Pow(2, 20) == 1048576
  {
    hide RatioAfter, Pow;
    RatioAfter14();
    RatioRound(887_272, 14, 16384, 0xe183ac4e25d5949966242a64e9c80e2f, 0xe183ac4e25d5949966242a64e9c80e2f);
    RatioRound(887_272, 15, 32768, 0xe183ac4e25d5949966242a64e9c80e2f, 0x2bd1a4c5d2a1181aca1ef15e64c2e3cf);
    RatioRound(887_272, 16, 65536, 0x2bd1a4c5d2a1181aca1ef15e64c2e3cf, 0x1a785cbbdc050483e3be5812760be73);
    RatioRound(887_272, 17, 131072, 0x1a785cbbdc050483e3be5812760be73, 0x1a785cbbdc050483e3be5812760be73);
    RatioRound(887_272, 18, 262144, 0x1a785cbbdc050483e3be5812760be73, 0x3865a6455d07d2bc87c5956d2e);
    RatioRound(887_272, 19, 524288, 0x3865a6455d07d2bc87c5956d2e, 0x1000276a221a17501);
  }

  /** The prices at the two ends of the tick range are the two constants that bound prices. */
  lemma EndsOfLadder()
    ensures SqrtRatioAtTick(MIN_TICK) == MIN_SQRT_RATIO
    ensures SqrtRatioAtTick(MAX_TICK) == MAX_SQRT_RATIO
  {
    RatioOfLastTick();
  }
}
