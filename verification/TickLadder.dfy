/** Prices rise with ticks (liquidity_pool_concentrated/src/math.rs): the product of table
    multipliers that `sqrt_ratio_at_tick` takes is strictly decreasing in the size of the tick,
    by more than its rounding can hide. */
module TickLadder {
  import opened Words
  import opened U512
  import opened TickMath

  /** Each step of the ladder lowers the ratio by at least one part in N. */
  const N: nat := 20_002

  /** The ratio when the lowest `i` bits of the tick are all set. */
  const ALL_ONES: seq<nat> := [
    0x100000000000000000000000000000000,
    0xfffcb933bd6fad37aa2d162d1a594001,
    0xfff62bbb6d458ec3c792106391dc463e,
    0xffe9114b9cf28d394c3203dbd44eb085,
    0xffcede6f1d8be90b88f350424e84e5b7,
    0xff9a80c1ada7480b1daa871d7c4d9b36,
    0xff31e58d5a53c84fc142023ec1b1dfd7,
    0xfe612f8183b1ea21b72fb71b03542ae4,
    0xfcc1c2f380536bc67ee1ff564d1080b2,
    0xf98ad8c8d7ecc0a3f8a42c9724cffb6a,
    0xf33c480189b415235ad119427d89a1f6,
    0xe71889a85903fd03cb7cc40bdf371a9c,
    0xd09a9f3e93db5812d4820c2fc67a3e3a,
    0xa9f973345b9e647c4163af91d00b255f,
    0x70d9db6485f04ddd567e07c7b89f8e7c,
    0x31beb65d91af63ae717a760be3b374dc,
    0x9aa7036fd2355429c4030b032e1cf71,
    0x5d6c2af97aaa8de0e5a6bf23f5e547,
    0x221755388a6658e120f4a3c503cf,
    0x48a25e36942a4fc0c1f899f,
    0x149b7873d84d48
  ]

  /** The multiplier of bit `i` alone is below the multipliers of all lower bits together. */
  lemma Fork(i: nat)
    requires i < 20
    ensures ALL_ONES[i + 1] == ALL_ONES[i] * TICK_MULTIPLIERS[i] / TWO_128
    ensures TICK_MULTIPLIERS[i] * N <= ALL_ONES[i] * (N - 1)
  {
  }

  /** One round on both ratios when the bit is the same in both ticks: rounding down costs one
      more unit at most. */
  lemma SameBitRound(x: nat, y: nat, m: nat, e: nat)
    requires x * N <= (y + e) * (N - 1) && m <= TWO_128
    ensures (x * m / TWO_128) * N <= (y * m / TWO_128 + e + 1) * (N - 1)
  {
    var x', y' := x * m / TWO_128, y * m / TWO_128;
    FloorBounds(x * m, TWO_128);
    FloorBounds(y * m, TWO_128);
    MulMono(x * N, (y + e) * (N - 1), m);
    MulMono(m, TWO_128, e);
    ScaledGap(x, y, m, e, x', y');
  }

  lemma ScaledGap(x: nat, y: nat, m: nat, e: nat, x': nat, y': nat)
    requires x' * TWO_128 <= x * m && y * m < y' * TWO_128 + TWO_128
    requires (x * N) * m <= ((y + e) * (N - 1)) * m && m * e <= TWO_128 * e
    ensures x' * N <= (y' + e + 1) * (N - 1)
  {
    assert (x * N) * m == (x * m) * N;
    assert ((y + e) * (N - 1)) * m == (y * m + m * e) * (N - 1);
    assert (x' * TWO_128) * N <= (y' * TWO_128 + TWO_128 + TWO_128 * e) * (N - 1);
    assert (x' * TWO_128) * N == (x' * N) * TWO_128;
    assert (y' * TWO_128 + TWO_128 + TWO_128 * e) * (N - 1) == ((y' + e + 1) * (N - 1)) * TWO_128;
    MulCancel(x' * N, (y' + e + 1) * (N - 1), TWO_128);
  }

  /** The ratios of a tick and the next one after `i` rounds: as long as the lower bits of the
      tick are all set the next tick has none of them; from then on the bits agree and the
      next tick's ratio stays behind. */
  ghost predicate RoundGap(t: nat, i: nat)
    requires i <= 20
  {
    var p := Pow(2, i);
    if t % p == p - 1 then
      RatioAfter(t, i) == ALL_ONES[i] && RatioAfter(t + 1, i) == TWO_128 && (t + 1) / p == t / p + 1
    else
      RatioAfter(t + 1, i) * N <= (RatioAfter(t, i) + i) * (N - 1) && (t + 1) / p == t / p
  }

  lemma Halve(t: nat, p: nat)
    requires p > 0
    ensures t / (2 * p) == t / p / 2 && (t + 1) / (2 * p) == (t + 1) / p / 2
    ensures t % (2 * p) == t % p + p * (t / p % 2)
  {
    FloorFloor(t, p, 2);
    FloorFloor(t + 1, p, 2);
    assert p * 2 == 2 * p;
    var q: int := t / p;
    DivModUnique(t, 2 * p, q / 2, t % p + p * (q % 2));
  }

  lemma {:induction false} GapAfter(t: nat, i: nat)
    requires i <= 20
    ensures RoundGap(t, i)
  {
    if i == 0 {
      assert Pow(2, 0) == 1;
    } else {
      GapAfter(t, i - 1);
      NextRound(t, i - 1);
    }
  }

  lemma NextRound(t: nat, i: nat)
    requires i < 20 && RoundGap(t, i)
    ensures RoundGap(t, i + 1)
  {
    var p := Pow(2, i);
    var q: int := t / p;
    assert Pow(2, i + 1) == 2 * p;
    Halve(t, p);
    Fork(i);
    RoundIs(t, i);
    RoundIs(t + 1, i);
    hide RatioAfter, Pow;
    if t % p == p - 1 {
      AllOnesRound(t, i, p, q);
    } else {
      SameBitsRound(t, i, p, q);
    }
  }

  lemma SameBitsRound(t: nat, i: nat, p: nat, q: int)
    requires i < 20 && p > 0 && q == t / p == (t + 1) / p && t % p != p - 1 && Pow(2, i + 1) == 2 * p
    requires RatioAfter(t + 1, i) * N <= (RatioAfter(t, i) + i) * (N - 1)
    requires t / (2 * p) == q / 2 && (t + 1) / (2 * p) == q / 2 && t % (2 * p) == t % p + p * (q % 2)
    requires RatioAfter(t, i + 1) == if q % 2 == 1 then RatioAfter(t, i) * TICK_MULTIPLIERS[i] / TWO_128 else RatioAfter(t, i)
    requires RatioAfter(t + 1, i + 1)
      == if q % 2 == 1 then RatioAfter(t + 1, i) * TICK_MULTIPLIERS[i] / TWO_128 else RatioAfter(t + 1, i)
    ensures RoundGap(t, i + 1)
  {
    hide RatioAfter, Pow;
    NotAllOnes(t, p);
    if q % 2 == 1 {
      SameBitRound(RatioAfter(t + 1, i), RatioAfter(t, i), TICK_MULTIPLIERS[i], i);
    } else {
      MulMono(RatioAfter(t, i) + i, RatioAfter(t, i) + i + 1, N - 1);
    }
  }

  lemma RoundIs(t: nat, i: nat)
    requires i < 20
    ensures RatioAfter(t, i + 1) ==
      if t / Pow(2, i) % 2 == 1 then RatioAfter(t, i) * TICK_MULTIPLIERS[i] / TWO_128 else RatioAfter(t, i)
  {
  }

  lemma NotAllOnes(t: nat, p: nat)
    requires p > 0 && t % p != p - 1 && t % (2 * p) == t % p + p * (t / p % 2)
    ensures t % (2 * p) != 2 * p - 1
  {
  }

  lemma AllOnesRound(t: nat, i: nat, p: nat, q: int)
    requires i < 20 && p == Pow(2, i) && p > 0 && q == t / p && t % p == p - 1 && Pow(2, i + 1) == 2 * p
    requires RatioAfter(t, i) == ALL_ONES[i] && RatioAfter(t + 1, i) == TWO_128 && (t + 1) / p == q + 1
    requires t / (2 * p) == q / 2 && (t + 1) / (2 * p) == (q + 1) / 2 && t % (2 * p) == p - 1 + p * (q % 2)
    requires RatioAfter(t, i + 1) == if q % 2 == 1 then RatioAfter(t, i) * TICK_MULTIPLIERS[i] / TWO_128 else RatioAfter(t, i)
    requires RatioAfter(t + 1, i + 1)
      == if (q + 1) % 2 == 1 then RatioAfter(t + 1, i) * TICK_MULTIPLIERS[i] / TWO_128 else RatioAfter(t + 1, i)
    requires ALL_ONES[i + 1] == ALL_ONES[i] * TICK_MULTIPLIERS[i] / TWO_128
    requires TICK_MULTIPLIERS[i] * N <= ALL_ONES[i] * (N - 1)
    ensures RoundGap(t, i + 1)
  {
    hide RatioAfter, Pow;
    if q % 2 == 0 {
      DivModUnique(TWO_128 * TICK_MULTIPLIERS[i], TWO_128, TICK_MULTIPLIERS[i], 0);
      MulMono(ALL_ONES[i], ALL_ONES[i] + i + 1, N - 1);
    }
  }

  /** After all rounds the next tick's ratio is behind by one part in N, up to rounding. */
  lemma RatioFalls(t: nat)
    requires t < 887_272
    ensures RatioAfter(t + 1, 20) * N <= (RatioAfter(t, 20) + 20) * (N - 1)
  {
    GapAfter(t, 20);
    PowOf20();
    hide RatioAfter, Pow;
  }

  lemma PowOf20()
    ensures Pow(2, 20) == 0x100000
  {
    assert Pow(2, 10) == 1024;
    PowAdd(2, 10, 10);
  }

  // -------------------------------------------------------------------- the ladder

  /** Price of a tick of either sign, from the ratio of its size. */
  function Ratio(t: nat): (r: U256)
    ensures r <= TWO_128
  {
    RatioAfter(t, 20)
  }

  /** A round number below the ratio of the largest tick. */
  const LAST_RATIO: nat := 0x1_00000000_00000000

  /** Every legal tick has a ratio of at least that. */
  lemma {:induction false} RatioAtLeastLast(t: nat)
    requires t <= 887_272
    ensures LAST_RATIO <= Ratio(t)
    decreases 887_272 - t
  {
    if t == 887_272 {
      RatioOfLastTick();
    } else {
      RatioAtLeastLast(t + 1);
      RatioFalls(t);
      hide Ratio, RatioAfter;
      BehindByAPart(Ratio(t + 1), Ratio(t));
    }
  }

  /** Being behind by one part in N, up to rounding, is being behind by more than 2^33 for
      ratios this large. */
  lemma BehindByAPart(x: nat, y: nat)
    requires x * N <= (y + 20) * (N - 1) && x >= LAST_RATIO
    ensures x + 0x2_00000000 <= y
  {
  }

  /** Rounding up to 96 fractional bits keeps numbers apart that differ by 2^33. */
  lemma X96Apart(a: U256, b: U256)
    requires a + 0x2_00000000 <= b
    ensures ToX96(a) + 1 < ToX96(b)
  {
  }

  lemma QuotientBound(y: nat)
    requires y >= LAST_RATIO
    ensures 0 <= (TWO_256 - 1) / y < TWO_256 / LAST_RATIO && (TWO_256 - 1) / y * y <= TWO_256 - 1
  {
    var bound := TWO_256 / LAST_RATIO;
    FloorBounds(TWO_256 - 1, y);
    FloorGalois(bound, TWO_256 - 1, y);
    FloorGalois(0, TWO_256 - 1, y);
    MulMono(LAST_RATIO, y, bound);
  }

  /** Reciprocals of such ratios are as far apart. */
  lemma ReciprocalsApart(x: nat, y: nat)
    requires x * N <= (y + 20) * (N - 1) && LAST_RATIO <= x && y <= TWO_128
    ensures y > 0 && (TWO_256 - 1) / y + 0x2_00000000 <= (TWO_256 - 1) / x
  {
    BehindByAPart(x, y);
    QuotientBound(y);
    var q := (TWO_256 - 1) / y;
    ReciprocalGap(x, y, q);
    FloorGalois(q + 0x2_00000000, TWO_256 - 1, x);
  }

  lemma ReciprocalGap(x: nat, y: nat, q: int)
    requires x * N <= (y + 20) * (N - 1) && 0 < y <= TWO_128 && q * y <= TWO_256 - 1
    requires 0 <= q < TWO_256 / LAST_RATIO
    ensures (q + 0x2_00000000) * x <= TWO_256 - 1
  {
    var s := q + 0x2_00000000;
    MulMono(x * N, (y + 20) * (N - 1), s);
    assert (x * N) * s == (s * x) * N;
    assert ((y + 20) * (N - 1)) * s == (s * (y + 20)) * (N - 1);
    assert s * (y + 20) == q * y + 20 * q + 0x2_00000000 * y + 0x2_00000000 * 20;
    MulCancel(s * x, TWO_256 - 1, N);
  }

  lemma StartsAtOne()
    ensures Ratio(0) == TWO_128
  {
    hide RatioAfter;
    NoBits(20);
  }

  lemma {:induction false} NoBits(i: nat)
    requires i <= 20
    ensures RatioAfter(0, i) == TWO_128
  {
    if i > 0 {
      NoBits(i - 1);
      DivModUnique(0, Pow(2, i - 1), 0, 0);
    }
  }

  /** The reciprocal of a ratio, in the same number format. */
  function Reciprocal(ratio: U256): (r: U256)
    requires ratio > 0
  {
    FloorGalois(TWO_256, TWO_256 - 1, ratio);
    FloorGalois(0, TWO_256 - 1, ratio);
    MulMono(1, ratio, TWO_256);
    (TWO_256 - 1) / ratio
  }

  lemma ReciprocalOfOne()
    ensures ToX96(Reciprocal(TWO_128)) == ToX96(TWO_128)
  {
  }

  /** From tick 0 up the price is the reciprocal's; at 0 both forms agree. */
  lemma UpwardPrice(tick: int)
    requires 0 <= tick <= MAX_TICK
    ensures Ratio(tick) > 0 && SqrtRatioAtTick(tick) == ToX96(Reciprocal(Ratio(tick)))
  {
    RatioAtLeastLast(tick);
    StartsAtOne();
    ReciprocalOfOne();
    hide RatioAfter, ToX96;
  }

  lemma DownwardPrice(tick: int)
    requires MIN_TICK <= tick <= 0
    ensures SqrtRatioAtTick(tick) == ToX96(Ratio(-tick))
  {
    hide RatioAfter;
  }

  /** Prices rise by more than one from each tick to the next. */
  lemma PriceRises(tick: int)
    requires MIN_TICK <= tick < MAX_TICK
    ensures SqrtRatioAtTick(tick) + 1 < SqrtRatioAtTick(tick + 1)
  {
    if tick >= 0 {
      RatioFallsTo(tick);
      UpwardPrice(tick);
      UpwardPrice(tick + 1);
      ReciprocalsApart(Ratio(tick + 1), Ratio(tick));
      var low, high := Reciprocal(Ratio(tick)), Reciprocal(Ratio(tick + 1));
      hide Ratio, SqrtRatioAtTick, ToX96;
      X96Apart(low, high);
    } else {
      RatioFallsTo(-tick - 1);
      DownwardPrice(tick);
      DownwardPrice(tick + 1);
      hide Ratio, SqrtRatioAtTick, ToX96;
      BehindByAPart(Ratio(-tick), Ratio(-tick - 1));
      X96Apart(Ratio(-tick), Ratio(-tick - 1));
    }
  }

  lemma RatioFallsTo(t: nat)
    requires t < 887_272
    ensures Ratio(t + 1) * N <= (Ratio(t) + 20) * (N - 1) && LAST_RATIO <= Ratio(t + 1)
  {
    RatioFalls(t);
    RatioAtLeastLast(t + 1);
    hide RatioAfter;
  }

  /** `sqrt_ratio_at_tick` is strictly increasing over the whole tick range, which is all that
      tick searches and price comparisons rely on. */
  lemma {:induction false} PricesRise(t: int, u: int)
    requires MIN_TICK <= t < u <= MAX_TICK
    ensures SqrtRatioAtTick(t) < SqrtRatioAtTick(u)
    decreases u - t
  {
    hide SqrtRatioAtTick;
    PriceRises(u - 1);
    if t < u - 1 {
      PricesRise(t, u - 1);
    }
  }
}
