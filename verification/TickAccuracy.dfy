/** The tick of a price is exactly the last tick whose price is not above it
    (liquidity_pool_concentrated/src/math.rs): the logarithm's constants and error bounds are
    good enough for every price, given the table of multipliers.

    Everything is compared through powers: a ratio r counts as at most `2^(128 - x/a)` when
    `r^a * 2^x <= 2^(128 * a)`, so no root or real logarithm is needed. */
module TickAccuracy {
  import opened Words
  import opened U512
  import opened PriceMath
  import opened TickMath
  import opened TickLadder
  import opened Bitmap

  // ------------------------------------------------------------- roots and powers

  /** `r <= 2^(128 - x/a)`. */
  predicate Below(r: nat, a: nat, x: nat)
  {
    Pow(r, a) * Pow(2, x) <= Pow(2, 128 * a)
  }

  /** `r >= 2^(128 - x/a)`. */
  predicate Above(r: nat, a: nat, x: nat)
  {
    Pow(r, a) * Pow(2, x) >= Pow(2, 128 * a)
  }

  lemma RootMono(x: nat, y: nat)
    requires x * x <= y * y
    ensures x <= y
  {
    if x > y {
      MulMono(y, x, y);
      MulMono(y + 1, x, x);
    }
  }

  lemma PowOfTwo128(a: nat)
    ensures Pow(TWO_128, a) == Pow(2, 128 * a)
  {
    PowWords();
    PowPow(2, 128, a);
  }

  /** The square of `r^a * 2^x`. */
  lemma SquareOfPower(r: nat, a: nat, x: nat)
    ensures (Pow(r, a) * Pow(2, x)) * (Pow(r, a) * Pow(2, x)) == Pow(r * r, a) * Pow(2, 2 * x)
  {
    hide Pow;
    PowMul(r, r, a);
    PowAdd(2, x, x);
    Interchange(Pow(r, a), Pow(2, x), Pow(r, a), Pow(2, x));
  }

  lemma Interchange(a: nat, b: nat, c: nat, d: nat)
    ensures (a * b) * (c * d) == (a * c) * (b * d)
  {
    assert a * b * c == a * c * b;
    assert (a * b) * (c * d) == (a * b * c) * d;
    assert (a * c) * (b * d) == (a * c * b) * d;
  }

  /** A number whose square is bounded is bounded by half the logarithm. */
  lemma BelowRoot(r: nat, square: nat, a: nat, x: nat)
    requires r * r <= square * TWO_128 && Below(square, a, 2 * x)
    ensures Below(r, a, x)
  {
    hide Pow;
    SquareOfPower(r, a, x);
    PowBaseMono(r * r, square * TWO_128, a);
    PowMul(square, TWO_128, a);
    PowOfTwo128(a);
    var w := Pow(2, 128 * a);
    MulMono(Pow(r * r, a), Pow(square, a) * w, Pow(2, 2 * x));
    MulMono(Pow(square, a) * Pow(2, 2 * x), w, w);
    Reorder(Pow(square, a), w, Pow(2, 2 * x));
    RootMono(Pow(r, a) * Pow(2, x), w);
  }

  lemma Reorder(a: nat, b: nat, c: nat)
    ensures a * b * c == a * c * b
  {
  }

  lemma AboveRoot(r: nat, square: nat, a: nat, x: nat)
    requires r * r >= square * TWO_128 && Above(square, a, 2 * x)
    ensures Above(r, a, x)
  {
    hide Pow;
    SquareOfPower(r, a, x);
    PowBaseMono(square * TWO_128, r * r, a);
    PowMul(square, TWO_128, a);
    PowOfTwo128(a);
    var w := Pow(2, 128 * a);
    MulMono(Pow(square, a) * w, Pow(r * r, a), Pow(2, 2 * x));
    MulMono(w, Pow(square, a) * Pow(2, 2 * x), w);
    Reorder(Pow(square, a), w, Pow(2, 2 * x));
    RootMono(w, Pow(r, a) * Pow(2, x));
  }

  lemma PowerOfProduct(r: nat, m: nat, a: nat, x: nat, y: nat)
    ensures Pow(r * m, a) * Pow(2, x + y) == (Pow(r, a) * Pow(2, x)) * (Pow(m, a) * Pow(2, y))
  {
    hide Pow;
    PowMul(r, m, a);
    PowAdd(2, x, y);
    Interchange(Pow(r, a), Pow(m, a), Pow(2, x), Pow(2, y));
  }

  /** Logarithms of a product add up. */
  lemma BelowProduct(r: nat, m: nat, q: nat, a: nat, x: nat, y: nat)
    requires q * TWO_128 <= r * m && Below(r, a, x) && Below(m, a, y)
    ensures Below(q, a, x + y)
  {
    hide Pow;
    PowBaseMono(q * TWO_128, r * m, a);
    PowMul(q, TWO_128, a);
    PowOfTwo128(a);
    PowerOfProduct(r, m, a, x, y);
    var w, z := Pow(2, 128 * a), Pow(2, x + y);
    MulMono(Pow(q, a) * w, Pow(r * m, a), z);
    MulMono(Pow(r, a) * Pow(2, x), w, Pow(m, a) * Pow(2, y));
    MulMono(Pow(m, a) * Pow(2, y), w, w);
    Reorder(Pow(q, a), w, z);
    PowPositive(128 * a);
    MulCancel(Pow(q, a) * z, w, w);
  }

  lemma PowPositive(n: nat)
    ensures Pow(2, n) > 0
  {
  }

  lemma AboveProduct(r: nat, m: nat, q: nat, a: nat, x: nat, y: nat)
    requires q * TWO_128 >= r * m && Above(r, a, x) && Above(m, a, y)
    ensures Above(q, a, x + y)
  {
    hide Pow;
    PowBaseMono(r * m, q * TWO_128, a);
    PowMul(q, TWO_128, a);
    PowOfTwo128(a);
    PowerOfProduct(r, m, a, x, y);
    var w, z := Pow(2, 128 * a), Pow(2, x + y);
    MulMono(Pow(r * m, a), Pow(q, a) * w, z);
    MulMono(w, Pow(r, a) * Pow(2, x), Pow(m, a) * Pow(2, y));
    MulMono(w, Pow(m, a) * Pow(2, y), w);
    Reorder(Pow(q, a), w, z);
    PowPositive(128 * a);
    MulCancel(w, Pow(q, a) * z, w);
  }

  /** Exponent and logarithm scale together. */
  lemma ScalePower(r: nat, a: nat, x: nat, c: nat)
    ensures Pow(Pow(r, a) * Pow(2, x), c) == Pow(r, a * c) * Pow(2, x * c)
    ensures Pow(Pow(2, 128 * a), c) == Pow(2, 128 * (a * c))
  {
    hide Pow;
    PowMul(Pow(r, a), Pow(2, x), c);
    PowPow(r, a, c);
    PowPow(2, x, c);
    PowPow(2, 128 * a, c);
    MulAssoc(128, a, c);
  }

  lemma BelowPower(r: nat, a: nat, x: nat, c: nat)
    requires Below(r, a, x)
    ensures Below(r, a * c, x * c)
  {
    hide Pow;
    ScalePower(r, a, x, c);
    PowBaseMono(Pow(r, a) * Pow(2, x), Pow(2, 128 * a), c);
  }

  lemma AbovePower(r: nat, a: nat, x: nat, c: nat)
    requires Above(r, a, x)
    ensures Above(r, a * c, x * c)
  {
    hide Pow;
    ScalePower(r, a, x, c);
    PowBaseMono(Pow(2, 128 * a), Pow(r, a) * Pow(2, x), c);
  }

  // ------------------------------------------------------- logarithms of the table

  /** Numbers just above the multipliers, each at most the next when squared. */
  const UPPER: seq<nat> := [
    0xfffcb933bd6fad37aa2d162d1a594201,
    0xfff97272373d413259a46990580e253a,
    0xfff2e50f5f656932ef12357cf3c805cc,
    0xffe5caca7e10e4e61c3624eaa0942cd0,
    0xffcb9843d60f6159c9db58835c928644,
    0xff973b41fa98c081472e6896dfb294c0,
    0xff2ea16466c96a3843ec78b326b5a861,
    0xfe5dee046a99a2a811c461f1969d3053,
    0xfcbe86c7900a88aedcffc83b479ca3a4,
    0xf987a7253ac413176f2b074cf7855e54,
    0xf3392b0822b70005940c7a398e5370f3,
    0xe7159475a2c29b7443b29c7fa6f889d9,
    0xd097f3bdfd2022b8845ad8f792ca5825,
    0xa9f746462d870fdf8a65dc1f912061e5,
    0x70d869a156d2a1b890bb3df62c2f32f7,
    0x31be135f97d08fd981231505552fcfa6,
    0x9aa508b5b7a84e1c677de54f5e99bc9,
    0x5d6af8dedb81196699c329265ee604,
    0x2216e584f5fa1ea9260423edfe98,
    0x48a170391f7dc42544e8fa2,
    0x149b34ee7ac263
  ]

  /** Numbers below the multipliers by more than the rounding of a product, each at least the
      next when squared. */
  const LOWER: seq<nat> := [
    0xfffcb933bd6fad35aa33a3c59f79e591,
    0xfff97272373d412e59be9fc77b191c70,
    0xfff2e50f5f65692aef7b0d01f89cb434,
    0xffe5caca7e10e4d61dd97842bf85ce6e,
    0xffcb9843d60f6139d06850089aa63b0a,
    0xff973b41fa98c041615f98183982346e,
    0xff2ea16466c969b8ac9bc67fc2000c3f,
    0xfe5dee046a99a1a9b3d65d86fcf98841,
    0xfcbe86c7900a86b55ff2391b328945ea,
    0xf987a7253ac40f31508e7261e7350097,
    0xf3392b0822b6f86bcab43923d64b4452,
    0xe7159475a2c28d02ea6b42537d31459d,
    0xd097f3bdfd2008a585e319538e534799,
    0xa9f746462d86e561b8d450bdcce87f4b,
    0x70d869a156d2694c5bea928cdad2ea99,
    0x31be135f97d05e1b6dc37d34c4564e82,
    0x9aa508b5b7a718d2561275fea260ed9,
    0x5d6af8dedb7fa3bab647bb1df94b9c,
    0x2216e584f5f90df1f9dc6c1d094e,
    0x48a170391f793a0d4157024,
    0x149b34ee7abfcf
  ]

  lemma UpperRow(i: nat)
    requires i < 20
    ensures TICK_MULTIPLIERS[i] <= UPPER[i] && UPPER[i] * UPPER[i] <= UPPER[i + 1] * TWO_128
  {
  }

  lemma LowerRow(i: nat)
    requires i < 20
    ensures LOWER[i] <= TICK_MULTIPLIERS[i] <= (TICK_MULTIPLIERS[i] - LOWER[i]) * LAST_RATIO
    ensures LOWER[i + 1] * TWO_128 <= LOWER[i] * LOWER[i]
  {
  }

  /** The last entries of both tables as mantissas, squared 22 times. */
  const UPPER_SQUARES: seq<nat> := [
    0xa4d9a773d61318000000000000000000,
    0xd44f2f33746371ab42f6fb1924800000,
    0xb0133eab633a78b7e6e2d6c84e3210b1,
    0xf234ef3c0a712ef1a3a19a799252caa6,
    0xe5281f3f93b3645026aa3c3666ee3096,
    0xcd20ce3185ed8f163806f0a5e3516793,
    0xa45d8e6f82f3afac38925af1cad114fe,
    0xd310015f581a87f6e99cd6b25c9a99cd,
    0xae0363435728a1a4bb08d4d31e00c9f4,
    0xec9135f60918db9fc426196f2b430ddc,
    0xda9c0ddbccdbef5123ab722dad9dbf51,
    0xbaae26bb3d884f28562c6c3809af1f80,
    0x882186c0c1cdd789a37b8e750bad06e3,
    0x90c74721a5161035289daea432eb5a00,
    0xa3c1964b0796510e6ef34d4af935f021,
    0xd1802f8f020dbd8064ae30e80c5e1eec,
    0xab728dd719324fcd7bbc2c2709b1abe7,
    0xe5a4797ffba49bd0ae69b2ffff796b24,
    0xcdffab0addd925883b62a2fb875d407f,
    0xa5c37745993b418b21ddd87fce516bd7,
    0xd6ab19fd463f3448806c433151d70f3a,
    0xb40281cf2c70f62553fab18da06b46f7,
    0xfd270d233f1bfcb62a491e1f10b94ed2
  ]

  const LOWER_SQUARES: seq<nat> := [
    0xa4d9a773d5fe78000000000000000000,
    0xd44f2f33742e5186cc228144b0800000,
    0xb0133eab62e25a9e146920531d56dee2,
    0xf234ef3c097ec1ab68069548d72e99dd,
    0xe5281f3f91e8a975dfb1b1e0aece445a,
    0xcd20ce3182b84d0153c1275fceb732dc,
    0xa45d8e6f7dcf915b49b3998a5676b6a6,
    0xd310015f4ae6765a5faeb0c6ff05512c,
    0xae036343416325f63ee884f5a2b7c25d,
    0xec9135f5cde6cc57367ec2d6730e0eb4,
    0xda9c0ddb5f747b79994021aa63760786,
    0xbaae26ba82aebbefdea143c051b1b26a,
    0x882186bfb14b754e11ff367694bf8c90,
    0x90c7471f61723e7872e002e7edae6103,
    0xa3c19645e858e3957bd0a580facf5c8e,
    0xd1802f81e6ff0e6d811ef4ca7b98ac83,
    0xab728dc1a5e469597f1db6776a5af44b,
    0xe5a47946852b8ec91af5259741bc548e,
    0xcdffaaa3c60e4a9301f79a957e3632bb,
    0xa5c3769faf355fb8cc7ccad2616a2ef9,
    0xd6ab184f8c2ea3a8b72b574153e6432c,
    0xb4027efe7af242ed45dcd9c0b840ab6d,
    0xfd2705382fbc2fcac73baca666cad5d1
  ]

  /** The fraction bits both collect. */
  const FRACTIONS: seq<nat> := [
    0, 0, 1, 2, 5, 11, 23, 46, 93, 186, 373, 747, 1495, 2990, 5980, 11960, 23921, 47842, 95685, 191371, 382742, 765485, 1530970
  ]

  /** One squaring, read off a table: the mantissa's square starts with the next mantissa. */
  predicate SquaresTo(r: nat, next: nat, bits: nat, bits': nat)
  {
    && TWO_127 <= r < TWO_128
    && if bits' == 2 * bits + 1 then
         r * r >= TWO_127 * TWO_128 && next * TWO_128 <= r * r < next * TWO_128 + TWO_128
       else
         bits' == 2 * bits && r * r < TWO_127 * TWO_128 && next * TWO_127 <= r * r < next * TWO_127 + TWO_127
  }

  lemma UpperSquareRow(i: nat)
    requires i < 22
    ensures SquaresTo(UPPER_SQUARES[i], UPPER_SQUARES[i + 1], FRACTIONS[i], FRACTIONS[i + 1])
  {
  }

  lemma LowerSquareRow(i: nat)
    requires i < 22
    ensures SquaresTo(LOWER_SQUARES[i], LOWER_SQUARES[i + 1], FRACTIONS[i], FRACTIONS[i + 1])
  {
  }

  lemma SquareIs(r: Mantissa, next: nat, bits: nat, bits': nat)
    requires SquaresTo(r, next, bits, bits')
    ensures SquareMantissa(r) == next && bits' == 2 * bits + SquareBit(r)
  {
    var d := if SquareBit(r) == 1 then TWO_128 else TWO_127;
    DivModUnique(r * r, d, next, r * r - next * d);
  }

  lemma {:induction false} UpperTrace(i: nat)
    requires i <= 22
    ensures LogState(UPPER_SQUARES[0], i) == (UPPER_SQUARES[i], FRACTIONS[i])
  {
    if i > 0 {
      UpperTrace(i - 1);
      UpperSquareRow(i - 1);
      SquareIs(UPPER_SQUARES[i - 1], UPPER_SQUARES[i], FRACTIONS[i - 1], FRACTIONS[i]);
    }
  }

  lemma {:induction false} LowerTrace(i: nat)
    requires i <= 22
    ensures LogState(LOWER_SQUARES[0], i) == (LOWER_SQUARES[i], FRACTIONS[i])
  {
    if i > 0 {
      LowerTrace(i - 1);
      LowerSquareRow(i - 1);
      SquareIs(LOWER_SQUARES[i - 1], LOWER_SQUARES[i], FRACTIONS[i - 1], FRACTIONS[i]);
    }
  }

  /** The exponent all logarithms of ratios are taken with, and the number of squarings. */
  const ROOT: nat := 0x40_0000
  const A: nat := 0x400_0000_0000

  /** The logarithm of one tick, times A / 2^20, from above and from below. */
  const UPPER_LOG: nat := 317_236_132
  const LOWER_LOG: nat := 317_236_134

  lemma PowOf22()
    ensures Pow(2, 22) == ROOT
  {
    PowOf20();
    assert Pow(2, 2) == 4;
    PowAdd(2, 20, 2);
  }

  lemma PowOf75()
    ensures Pow(2, 75) == 0x8000000000000000000
  {
    PowWords64();
    assert Pow(2, 11) == 2048;
    PowAdd(2, 64, 11);
  }

  /** A common power of two cancels. */
  lemma CancelPower(x: nat, c: nat, z: nat, y: nat, w: nat)
    requires z + y == w + c
    ensures x * Pow(2, c) <= Pow(2, z) ==> x * Pow(2, y) <= Pow(2, w)
    ensures x * Pow(2, c) >= Pow(2, z) ==> x * Pow(2, y) >= Pow(2, w)
  {
    hide Pow;
    PowAdd(2, z, y);
    PowAdd(2, w, c);
    PowPositive(c);
    var pc, pz, py, pw := Pow(2, c), Pow(2, z), Pow(2, y), Pow(2, w);
    Reorder(x, pc, py);
    if x * pc <= pz {
      MulMono(x * pc, pz, py);
      MulCancel(x * py, pw, pc);
    }
    if x * pc >= pz {
      MulMono(pz, x * pc, py);
      MulCancel(pw, x * py, pc);
    }
  }

  /** The last entry of the upper table, by the bracket of its squarings. */
  lemma UpperEnd()
    ensures Below(UPPER[20], ROOT, UPPER_LOG)
  {
    hide Pow;
    var u, r0: nat, n := UPPER[20], UPPER_SQUARES[0], 1_530_970;
    PowOf22();
    PowOf75();
    UpperTrace(22);
    FractionAlmostReached(r0, 22);
    PowBaseMono(r0, r0 + 1, ROOT);
    PowMul(u, Pow(2, 75), ROOT);
    PowPow(2, 75, ROOT);
    var x := 127 * (ROOT - 1) + n;
    assert Pow(2, 129) == 2 * TWO_128 by { PowWords(); PowAdd(2, 1, 128); PowOne(); }
    PowAdd(2, x, 129);
    MulMono(TWO_128 + SQUARING_ERROR, 2 * TWO_128, Pow(2, x));
    CancelPower(Pow(u, ROOT), 75 * ROOT, x + 129, UPPER_LOG, 128 * ROOT);
  }

  lemma PowOne()
    ensures Pow(2, 1) == 2
  {
  }

  lemma LowerEnd()
    ensures Above(LOWER[20], ROOT, LOWER_LOG)
  {
    hide Pow;
    var u, r0: nat, n := LOWER[20], LOWER_SQUARES[0], 1_530_970;
    PowOf22();
    PowOf75();
    LowerTrace(22);
    FractionNeverOverestimates(r0, 22);
    PowMul(u, Pow(2, 75), ROOT);
    PowPow(2, 75, ROOT);
    CancelPower(Pow(u, ROOT), 75 * ROOT, 127 * ROOT + n, LOWER_LOG, 128 * ROOT);
  }

  /** Each entry is worth 2^i ticks. */
  lemma {:induction false} UpperLog(i: nat)
    requires i <= 20
    ensures Below(UPPER[i], A, UPPER_LOG * Pow(2, i))
    decreases 20 - i
  {
    hide Pow, Below;
    if i == 20 {
      UpperEnd();
      PowOf20();
      BelowPower(UPPER[20], ROOT, UPPER_LOG, 0x10_0000);
    } else {
      UpperLog(i + 1);
      UpperRow(i);
      PowAdd(2, 1, i);
      PowOne();
      BelowRoot(UPPER[i], UPPER[i + 1], A, UPPER_LOG * Pow(2, i));
    }
  }

  lemma {:induction false} LowerLog(i: nat)
    requires i <= 20
    ensures Above(LOWER[i], A, LOWER_LOG * Pow(2, i))
    decreases 20 - i
  {
    hide Pow, Above;
    if i == 20 {
      LowerEnd();
      PowOf20();
      AbovePower(LOWER[20], ROOT, LOWER_LOG, 0x10_0000);
    } else {
      LowerLog(i + 1);
      LowerRow(i);
      PowAdd(2, 1, i);
      PowOne();
      AboveRoot(LOWER[i], LOWER[i + 1], A, LOWER_LOG * Pow(2, i));
    }
  }

  // --------------------------------------------------------- logarithms of ratios

  lemma Unit(a: nat)
    ensures Below(TWO_128, a, 0) && Above(TWO_128, a, 0)
  {
    PowOfTwo128(a);
  }

  /** The bits taken so far, one more bit at a time. */
  lemma BitsSoFar(t: nat, i: nat)
    requires i < 20
    ensures var p := Pow(2, i);
      && p > 0 && t % Pow(2, i + 1) == t % p + p * (t / p % 2)
      && RatioAfter(t, i + 1) ==
         if t / p % 2 == 1 then RatioAfter(t, i) * TICK_MULTIPLIERS[i] / TWO_128 else RatioAfter(t, i)
  {
    Halve(t, Pow(2, i));
    RoundIs(t, i);
  }

  lemma BelowRound(ratio: nat, m: nat, u: nat, low: nat, p: nat)
    requires Below(ratio, A, UPPER_LOG * low) && Below(u, A, UPPER_LOG * p) && m <= u
    ensures Below(ratio * m / TWO_128, A, UPPER_LOG * (low + p))
  {
    hide Below;
    FloorBounds(ratio * m, TWO_128);
    FloorGalois(0, ratio * m, TWO_128);
    MulMono(m, u, ratio);
    BelowProduct(ratio, u, ratio * m / TWO_128, A, UPPER_LOG * low, UPPER_LOG * p);
  }

  lemma NextBelow(t: nat, i: nat)
    requires i < 20 && Below(RatioAfter(t, i), A, UPPER_LOG * (t % Pow(2, i)))
    ensures Below(RatioAfter(t, i + 1), A, UPPER_LOG * (t % Pow(2, i + 1)))
  {
    hide Below, Pow, RatioAfter;
    UpperLog(i);
    UpperRow(i);
    BitsSoFar(t, i);
    var m, bound, p := TICK_MULTIPLIERS[i], UPPER[i], Pow(2, i);
    var ratio, low := RatioAfter(t, i), t % p;
    hide *;
    if t / p % 2 == 1 {
      BelowRound(ratio, m, bound, low, p);
    }
  }

  /** Rounding only lowers ratios: after i rounds the bits so far bound the ratio. */
  lemma {:induction false} RatioBelow(t: nat, i: nat)
    requires i <= 20
    ensures Below(RatioAfter(t, i), A, UPPER_LOG * (t % Pow(2, i)))
  {
    if i == 0 {
      RatioStart(t);
      hide Pow, Below;
      Unit(A);
    } else {
      RatioBelow(t, i - 1);
      NextBelow(t, i - 1);
    }
  }

  /** Ratios fall from round to round. */
  lemma {:induction false} RatioOfRound(t: nat, i: nat)
    requires i <= 20 && t <= 887_272
    ensures LAST_RATIO <= RatioAfter(t, i)
    decreases 20 - i
  {
    if i == 20 {
      RatioAtLeastLast(t);
    } else {
      RatioOfRound(t, i + 1);
      RoundIs(t, i);
      MultiplierBelowOne(i);
      var ratio := RatioAfter(t, i);
      MulMono(TICK_MULTIPLIERS[i], TWO_128, ratio);
      FloorGalois(ratio + 1, ratio * TICK_MULTIPLIERS[i], TWO_128);
    }
  }

  lemma MultiplierBelowOne(i: nat)
    requires i < 20
    ensures 0 < TICK_MULTIPLIERS[i] < TWO_128
  {
  }

  /** A product of a ratio this large, rounded down, is above the product with the lower entry. */
  lemma RoundedProduct(ratio: nat, m: nat, l: nat, next: nat)
    requires l <= m <= (m - l) * LAST_RATIO && m > 0
    requires next * TWO_128 <= ratio * m < next * TWO_128 + TWO_128 && LAST_RATIO <= next
    ensures next * TWO_128 >= ratio * l
  {
    MulMono(LAST_RATIO, next, TWO_128);
    MulMono(m, (m - l) * LAST_RATIO, ratio);
    assert (m - l) * LAST_RATIO * ratio == (ratio * (m - l)) * LAST_RATIO;
    MulCancel(TWO_128, ratio * (m - l), LAST_RATIO);
    assert ratio * (m - l) == ratio * m - ratio * l;
  }

  lemma AboveRound(ratio: nat, m: nat, l: nat, low: nat, p: nat)
    requires Above(ratio, A, LOWER_LOG * low) && Above(l, A, LOWER_LOG * p)
    requires l <= m <= (m - l) * LAST_RATIO && m > 0 && LAST_RATIO <= ratio * m / TWO_128
    ensures Above(ratio * m / TWO_128, A, LOWER_LOG * (low + p))
  {
    hide Above;
    FloorBounds(ratio * m, TWO_128);
    RoundedProduct(ratio, m, l, ratio * m / TWO_128);
    AboveProduct(ratio, l, ratio * m / TWO_128, A, LOWER_LOG * low, LOWER_LOG * p);
  }

  lemma NextAbove(t: nat, i: nat)
    requires i < 20 && t <= 887_272 && Above(RatioAfter(t, i), A, LOWER_LOG * (t % Pow(2, i)))
    ensures Above(RatioAfter(t, i + 1), A, LOWER_LOG * (t % Pow(2, i + 1)))
  {
    hide Above, Pow, RatioAfter;
    LowerLog(i);
    LowerRow(i);
    MultiplierBelowOne(i);
    RatioOfRound(t, i + 1);
    BitsSoFar(t, i);
    var m, bound, p := TICK_MULTIPLIERS[i], LOWER[i], Pow(2, i);
    var ratio, low := RatioAfter(t, i), t % p;
    hide *;
    if t / p % 2 == 1 {
      AboveRound(ratio, m, bound, low, p);
    }
  }

  lemma {:induction false} RatioAbove(t: nat, i: nat)
    requires i <= 20 && t <= 887_272
    ensures Above(RatioAfter(t, i), A, LOWER_LOG * (t % Pow(2, i)))
  {
    if i == 0 {
      RatioStart(t);
      hide Pow, Above;
      Unit(A);
    } else {
      RatioAbove(t, i - 1);
      NextAbove(t, i - 1);
    }
  }

  /** The exponent of the ratio's logarithm in 14 fraction bits, raised to A. */
  const E: nat := 0x4000 * A

  /** A tick's ratio is `b^-t` for one base b, up to the gap between the two constants. */
  lemma RatioLogs(t: nat)
    requires t <= 887_272
    ensures Below(Ratio(t), E, UPPER_LOG * t * 0x4000)
    ensures Above(Ratio(t), E, LOWER_LOG * t * 0x4000)
  {
    RatioBelow(t, 20);
    RatioAbove(t, 20);
    PowOf20();
    hide Pow, Below, Above, RatioAfter;
    assert t % 0x10_0000 == t;
    BelowPower(Ratio(t), A, UPPER_LOG * t, 0x4000);
    AbovePower(Ratio(t), A, LOWER_LOG * t, 0x4000);
  }

  // -------------------------------------------------------- logarithm of a price

  /** A relative error d/w, taken to a power that keeps it below a half, at most doubles. */
  lemma {:induction false} NearlyOne(w: nat, d: nat, a: nat)
    requires 2 * a * d <= w
    ensures w * Pow(w + d, a) <= (w + 2 * a * d) * Pow(w, a)
  {
    if a > 0 {
      var b := a - 1;
      assert 2 * a * d == 2 * b * d + 2 * d;
      NearlyOne(w, d, b);
      NextError(w, d, b, Pow(w + d, b), Pow(w, b));
    }
  }

  lemma NextError(w: nat, d: nat, b: nat, x: nat, y: nat)
    requires w * x <= (w + 2 * b * d) * y && 2 * b * d + 2 * d <= w
    ensures w * ((w + d) * x) <= (w + 2 * (b + 1) * d) * (w * y)
  {
    var k := 2 * b * d;
    assert 2 * (b + 1) * d == k + 2 * d;
    ErrorGrows(w, d, k);
    MulMono(w * x, (w + k) * y, w + d);
    MulMono((w + k) * (w + d), (w + k + 2 * d) * w, y);
    assert w * x * (w + d) == w * ((w + d) * x);
    Reorder(w + k, y, w + d);
    MulAssoc(w + k + 2 * d, w, y);
  }

  lemma ErrorGrows(w: nat, d: nat, k: nat)
    requires k <= w
    ensures (w + k) * (w + d) <= (w + k + 2 * d) * w
  {
    MulMono(k, w, d);
    assert (w + k) * (w + d) == w * w + w * d + k * w + k * d;
    assert (w + k + 2 * d) * w == w * w + k * w + 2 * (w * d);
  }

  /** The price's ratio is at least 2 to the logarithm the loop computes. */
  lemma LogFromBelow(hi: U128, lo: U128)
    requires hi > 0 || lo > 0
    ensures Pow(2, ScaledLog(hi, lo, 14) * A) <= Pow(hi * TWO_128 + lo, E)
  {
    Log2NeverOverestimates(hi, lo, 14);
    PowOf14();
    hide Pow, ScaledLog;
    var ratio, x := hi * TWO_128 + lo, ScaledLog(hi, lo, 14);
    PowBaseMono(Pow(2, x), Pow(ratio, 0x4000), A);
    PowPow(2, x, A);
    PowPow(ratio, 0x4000, A);
  }

  /** The number after the ratio still starts with the ratio's mantissa when that has no bits
      to spare. */
  predicate SameMantissa(hi: U128, lo: U128, z: nat)
    requires hi > 0 || lo > 0
  {
    z == hi * TWO_128 + lo || (z == hi * TWO_128 + lo + 1 && Msb(hi, lo) >= 127)
  }

  /** And less than 2 to the next logarithm, but for the error of the squarings. */
  lemma LogFromAbove(hi: U128, lo: U128, z: nat)
    requires hi > 0 || lo > 0
    requires SameMantissa(hi, lo, z)
    ensures Pow(z, 0x4000) * Pow(2, 127) <= (TWO_128 + SQUARING_ERROR) * Pow(2, ScaledLog(hi, lo, 14))
  {
    hide Pow, LogState, Msb, Normalize, ScaledLog;
    NormalizeIsMantissa(hi, lo);
    PowOf14();
    ScaledLogIs(hi, lo);
    var msb, r0: Mantissa := Msb(hi, lo), Normalize(hi, lo);
    var m, n := 0x4000, LogState(r0, 14).1;
    FractionAlmostReached(r0, 14);
    ExponentShift(msb, m, n);
    var bound := TWO_128 + SQUARING_ERROR;
    if msb >= 127 {
      StartsWith(hi, lo, z);
      hide *;
      ScaleAbove(r0, z, msb - 127, m, n, bound);
    } else {
      ScaleAboveDown(r0, z, 127 - msb, m, n, bound);
    }
  }

  lemma ScaledLogIs(hi: U128, lo: U128)
    requires hi > 0 || lo > 0
    ensures TWO_127 <= Normalize(hi, lo) < TWO_128
    ensures ScaledLog(hi, lo, 14) == Msb(hi, lo) * 0x4000 + LogState(Normalize(hi, lo), 14).1
  {
    NormalizeIsMantissa(hi, lo);
    PowOf14();
    hide Pow, LogState, Msb, Normalize;
  }

  lemma StartsWith(hi: U128, lo: U128, z: nat)
    requires hi > 0 || lo > 0
    requires z <= hi * TWO_128 + lo + 1 && Msb(hi, lo) >= 127
    ensures z <= (Normalize(hi, lo) + 1) * Pow(2, Msb(hi, lo) - 127)
  {
    NormalizeIsMantissa(hi, lo);
    PowZero();
    var msb, r: nat := Msb(hi, lo), Normalize(hi, lo);
    hide *;
    if msb >= 128 {
      NextMultiple(hi * TWO_128 + lo, Pow(2, msb - 127));
    }
  }

  lemma NextMultiple(n: nat, p: nat)
    requires p > 0
    ensures n + 1 <= (n / p + 1) * p
  {
    FloorBounds(n, p);
  }

  lemma ScaleAbove(r0: nat, z: nat, s: nat, m: nat, n: nat, bound: nat)
    requires m > 0 && z <= (r0 + 1) * Pow(2, s)
    requires Pow(r0 + 1, m) <= bound * Pow(2, 127 * (m - 1) + n)
    ensures Pow(z, m) * Pow(2, 127) <= bound * Pow(2, 127 * m + n + s * m)
  {
    hide Pow;
    var x := 127 * (m - 1) + n;
    PowBaseMono(z, (r0 + 1) * Pow(2, s), m);
    PowMul(r0 + 1, Pow(2, s), m);
    PowPow(2, s, m);
    PowAdd(2, x, s * m);
    PowAdd(2, x + s * m, 127);
    MulMono(Pow(r0 + 1, m), bound * Pow(2, x), Pow(2, s * m));
    assert bound * Pow(2, x) * Pow(2, s * m) == bound * Pow(2, x + s * m) by {
      MulAssoc(bound, Pow(2, x), Pow(2, s * m));
    }
    MulMono(Pow(z, m), bound * Pow(2, x + s * m), Pow(2, 127));
    MulAssoc(bound, Pow(2, x + s * m), Pow(2, 127));
    assert x + s * m + 127 == 127 * m + n + s * m;
  }

  lemma ScaleAboveDown(r0: nat, z: nat, t: nat, m: nat, n: nat, bound: nat)
    requires m > 0 && z * Pow(2, t) <= r0 + 1 && 127 * m + n >= t * m
    requires Pow(r0 + 1, m) <= bound * Pow(2, 127 * (m - 1) + n)
    ensures Pow(z, m) * Pow(2, 127) <= bound * Pow(2, 127 * m + n - t * m)
  {
    hide Pow;
    var x := 127 * (m - 1) + n;
    var y: nat := 127 * m + n - t * m;
    PowBaseMono(z * Pow(2, t), r0 + 1, m);
    PowMul(z, Pow(2, t), m);
    PowPow(2, t, m);
    PowAdd(2, x, 127);
    PowAdd(2, y, t * m);
    PowPositive(t * m);
    MulMono(Pow(z, m) * Pow(2, t * m), bound * Pow(2, x), Pow(2, 127));
    MulAssoc(bound, Pow(2, x), Pow(2, 127));
    assert x + 127 == y + t * m;
    MulAssoc(bound, Pow(2, y), Pow(2, t * m));
    Reorder(Pow(z, m), Pow(2, t * m), Pow(2, 127));
    MulCancel(Pow(z, m) * Pow(2, 127), bound * Pow(2, y), Pow(2, t * m));
  }

  /** Together: below 2 to the next logarithm and a part in A. */
  lemma LogBelowNext(hi: U128, lo: U128, z: nat)
    requires hi > 0 || lo > 0
    requires SameMantissa(hi, lo, z)
    ensures Pow(z, E) <= Pow(2, (ScaledLog(hi, lo, 14) + 1) * A + 1)
  {
    hide Pow, ScaledLog, SameMantissa;
    LogFromAbove(hi, lo, z);
    var x := ScaledLog(hi, lo, 14);
    var bound := TWO_128 + SQUARING_ERROR;
    PowBaseMono(Pow(z, 0x4000) * Pow(2, 127), bound * Pow(2, x), A);
    PowMul(Pow(z, 0x4000), Pow(2, 127), A);
    PowMul(bound, Pow(2, x), A);
    PowPow(z, 0x4000, A);
    PowPow(2, 127, A);
    PowPow(2, x, A);
    ErrorDoubles();
    PowAdd(2, 128 * A + 1, x * A);
    MulMono(Pow(bound, A), Pow(2, 128 * A + 1), Pow(2, x * A));
    CancelPower(Pow(z, E), 127 * A, 128 * A + 1 + x * A, 0, (x + 1) * A + 1);
    PowZero();
  }

  lemma PowZero()
    ensures Pow(2, 0) == 1
  {
  }

  lemma ErrorDoubles()
    ensures Pow(TWO_128 + SQUARING_ERROR, A) <= Pow(2, 128 * A + 1)
  {
    hide Pow;
    NearlyOne(TWO_128, SQUARING_ERROR, A);
    PowOfTwo128(A);
    PowAdd(2, 128 * A, 1);
    PowOne();
    var w := Pow(2, 128 * A);
    MulMono(TWO_128 + 2 * A * SQUARING_ERROR, 2 * TWO_128, w);
    MulCancel(Pow(TWO_128 + SQUARING_ERROR, A), w * 2, TWO_128);
  }

  // ------------------------------------------------------- comparing by logarithms

  lemma {:induction false} PowStrict(x: nat, y: nat, e: nat)
    requires e > 0 && x < y
    ensures Pow(x, e) < Pow(y, e)
  {
    if e > 1 {
      PowStrict(x, y, e - 1);
    }
    var p, q := Pow(x, e - 1), Pow(y, e - 1);
    assert p <= q && q > 0 && Pow(x, e) == x * p && Pow(y, e) == y * q;
    hide Pow;
    StrictProduct(x, y, p, q);
  }

  lemma StrictProduct(x: nat, y: nat, p: nat, q: nat)
    requires x < y && p <= q && q > 0
    ensures x * p < y * q
  {
    MulMono(p, q, x);
    MulMono(x + 1, y, q);
  }

  lemma RatioAtMost(r: nat, z: nat, e: nat, y: nat, x: nat)
    requires e > 0 && Below(r, e, y) && Pow(2, x) <= Pow(z, e) && x + y >= 128 * e
    ensures r <= z
  {
    hide Pow;
    PowAdd(2, x, y);
    PowMono(128 * e, x + y);
    MulMono(Pow(2, x), Pow(z, e), Pow(2, y));
    PowPositive(y);
    MulCancel(Pow(r, e), Pow(z, e), Pow(2, y));
    if r > z {
      PowStrict(z, r, e);
    }
  }

  lemma RatioOver(r: nat, z: nat, e: nat, y: nat, x: nat)
    requires e > 0 && Above(r, e, y) && Pow(z, e) <= Pow(2, x) && x + y < 128 * e
    ensures z < r
  {
    if r <= z {
      hide Pow;
      PowAdd(2, x, y);
      Pow2Mono(x + y, 128 * e);
      PowBaseMono(r, z, e);
      MulMono(Pow(r, e), Pow(2, x), Pow(2, y));
    }
  }

  /** 2^256, and the powers of two that make it up. */
  lemma PowOf256(e: nat, y: nat)
    ensures var w := Pow(2, 128 * e);
      w > 0 && Pow(TWO_256, e) == w * w && Pow(2, 128 * e + y) == w * Pow(2, y) && Pow(2, y) > 0
  {
    hide Pow;
    PowMul(TWO_128, TWO_128, e);
    PowOfTwo128(e);
    PowAdd(2, 128 * e, y);
    PowPositive(128 * e);
    PowPositive(y);
  }

  lemma ProductAtLeast(r: nat, z: nat, e: nat, y: nat, x: nat)
    requires e > 0 && Above(r, e, y) && Pow(2, x) <= Pow(z, e) && x >= 128 * e + y
    ensures r * z >= TWO_256
  {
    hide Pow;
    PowOf256(e, y);
    PowMul(r, z, e);
    PowMono(128 * e + y, x);
    SquareAtMostProduct(Pow(2, 128 * e), Pow(r, e), Pow(z, e), Pow(2, y));
    if r * z < TWO_256 {
      PowStrict(r * z, TWO_256, e);
    }
  }

  lemma SquareAtMostProduct(w: nat, a: nat, b: nat, p: nat)
    requires p > 0 && w <= a * p && w * p <= b
    ensures w * w <= a * b
  {
    MulMono(w, a * p, w * p);
    MulMono(w * p, b, a * p);
    assert w * (w * p) == (w * w) * p;
    assert (a * p) * b == (a * b) * p;
    MulCancel(w * w, a * b, p);
  }

  lemma ProductBelow(r: nat, z: nat, e: nat, y: nat, x: nat)
    requires e > 0 && Below(r, e, y) && Pow(z, e) <= Pow(2, x) && x < 128 * e + y
    ensures r * z < TWO_256
  {
    hide Pow;
    PowOf256(e, y);
    PowMul(r, z, e);
    Pow2Mono(x, 128 * e + y);
    ProductBelowSquare(Pow(2, 128 * e), Pow(r, e), Pow(z, e), Pow(2, y));
    if r * z >= TWO_256 {
      PowBaseMono(TWO_256, r * z, e);
    }
  }

  lemma ProductBelowSquare(w: nat, a: nat, b: nat, p: nat)
    requires p > 0 && w > 0 && a * p <= w && b < w * p
    ensures a * b < w * w
  {
    if a * b >= w * w {
      MulMono(w * w, a * b, p);
      MulMono(a * p, w, b);
      assert (a * b) * p == (a * p) * b;
      assert (w * w) * p == (w * p) * w;
      MulMono(b + 1, w * p, w);
    }
  }

  // ------------------------------------------------------------- the two candidates

  /** The logarithm word of a legal price. */
  function LogWord(price: U256): Log2Word
    requires MIN_SQRT_RATIO <= price < MAX_SQRT_RATIO
  {
    var ratio: U256 := price * 0x1_00000000;
    Log2Range(ratio / TWO_128, ratio % TWO_128);
    Log2(ratio / TWO_128, ratio % TWO_128)
  }

  /** The loop's logarithm of a legal price, as a multiple of 2^50 and a power of two. */
  lemma LogOfPrice(price: U256) returns (hi: U128, lo: U128, x: nat, log2: Log2Word)
    requires MIN_SQRT_RATIO <= price < MAX_SQRT_RATIO
    ensures hi == price * 0x1_00000000 / TWO_128 && lo == price * 0x1_00000000 % TWO_128
    ensures hi * TWO_128 + lo == price * 0x1_00000000 && (hi > 0 || lo > 0)
    ensures x == ScaledLog(hi, lo, 14) && log2 == LogWord(price) == (x - 0x20_0000) * 0x4_0000_0000_0000
    ensures 0x10_0000 <= x <= 0x30_0000
  {
    var ratio := price * 0x1_00000000;
    FloorBounds(ratio, TWO_128);
    FloorGalois(0, ratio, TWO_128);
    FloorGalois(TWO_128, ratio, TWO_128);
    hi, lo := ratio / TWO_128, ratio % TWO_128;
    Log2Range(hi, lo);
    x, log2 := ScaledLog(hi, lo, 14), Log2(hi, lo);
    PowOf14();
    MsbRange(hi, lo);
    Log2NeverOverestimates(hi, lo, 14);
  }

  lemma MsbRange(hi: U128, lo: U128)
    requires hi > 0 || lo > 0
    requires 0x1_00000000_00000000 <= hi * TWO_128 + lo < TWO_128 * 0x1_00000000_00000000
    ensures 64 <= Msb(hi, lo) <= 191
  {
    MsbBounds(hi, lo);
    PowWords();
    PowWords64();
    PowAdd(2, 128, 64);
    var msb := Msb(hi, lo);
    hide Pow, Msb;
    if msb < 64 {
      Pow2Mono(msb + 1, 64);
    }
    if msb > 191 {
      Pow2Mono(192, msb);
    }
  }

  /** Rounding up to 96 fractional bits keeps comparisons with a price. */
  lemma X96AtMost(r: U256, price: U256)
    ensures ToX96(r) <= price <==> r <= price * 0x1_00000000
  {
  }

  lemma ReciprocalAtMost(r: U256, z: nat)
    requires r > 0
    ensures Reciprocal(r) <= z <==> r * (z + 1) >= TWO_256
  {
    FloorGalois(z + 1, TWO_256 - 1, r);
  }

  /** Ticks, logarithms and error bounds in whole numbers: what the constants have to satisfy.
      A tick at or below the low candidate is worth no more than the logarithm. */
  lemma LowBudget(x: int, t: int)
    requires 0x10_0000 <= x <= 0x30_0000
    requires t <= ((x - 0x20_0000) * 0x4_0000_0000_0000 * LOG_SQRT10001 - TICK_LOW_ERROR) / TWO_128
    ensures t <= 0 ==> x * A + UPPER_LOG * (-t) * 0x4000 >= 128 * E
    ensures t >= 0 ==> x * A >= 128 * E + LOWER_LOG * t * 0x4000
  {
    FloorGalois(t, (x - 0x20_0000) * 0x4_0000_0000_0000 * LOG_SQRT10001 - TICK_LOW_ERROR, TWO_128);
  }

  /** A tick above the high candidate is worth more than the next logarithm. */
  lemma HighBudget(x: int, u: int)
    requires 0x10_0000 <= x <= 0x30_0000
    requires u > ((x - 0x20_0000) * 0x4_0000_0000_0000 * LOG_SQRT10001 + TICK_HI_ERROR) / TWO_128
    ensures u <= 0 ==> (x + 1) * A + 1 + LOWER_LOG * (-u) * 0x4000 < 128 * E
    ensures u >= 0 ==> (x + 1) * A + 1 < 128 * E + UPPER_LOG * u * 0x4000
  {
    FloorGalois(u, (x - 0x20_0000) * 0x4_0000_0000_0000 * LOG_SQRT10001 + TICK_HI_ERROR, TWO_128);
  }

  /** The worth of a tick at or below the low candidate, at both signs. */
  lemma LowPower(price: U256, t: int) returns (x: nat, y: nat)
    requires MIN_SQRT_RATIO <= price < MAX_SQRT_RATIO && t <= TickLow(LogWord(price))
    ensures Pow(2, x) <= Pow(price * 0x1_00000000, E)
    ensures t <= 0 ==> y == UPPER_LOG * (-t) * 0x4000 && x + y >= 128 * E
    ensures t > 0 ==> y == LOWER_LOG * t * 0x4000 && x >= 128 * E + y
  {
    hide LogWord, TickLow, TickHigh, ScaledLog, Pow;
    var hi, lo, s, log2 := LogOfPrice(price);
    TickCandidates(log2);
    LowBudget(s, t);
    LogFromBelow(hi, lo);
    x, y := s * A, if t <= 0 then UPPER_LOG * (-t) * 0x4000 else LOWER_LOG * t * 0x4000;
  }

  /** Every legal tick up to the low candidate has a price not above the price. */
  lemma LowIsBelow(price: U256, t: int)
    requires MIN_SQRT_RATIO <= price < MAX_SQRT_RATIO && MIN_TICK <= t <= MAX_TICK
    requires t <= TickLow(LogWord(price))
    ensures SqrtRatioAtTick(t) <= price
  {
    hide LogWord, TickLow, Pow, Below, Above, SqrtRatioAtTick, Ratio, ToX96, Reciprocal;
    var x, y := LowPower(price, t);
    var z := price * 0x1_00000000;
    if t <= 0 {
      DownwardPrice(t);
      RatioLogs(-t);
      RatioAtMost(Ratio(-t), z, E, y, x);
      X96AtMost(Ratio(-t), price);
    } else {
      UpwardPrice(t);
      RatioLogs(t);
      ProductAtLeast(Ratio(t), z, E, y, x);
      MulMono(z, z + 1, Ratio(t));
      ReciprocalAtMost(Ratio(t), z);
      X96AtMost(Reciprocal(Ratio(t)), price);
    }
  }

  /** Every legal tick above the high candidate has a higher price. */
  lemma HighIsAbove(price: U256, u: int)
    requires MIN_SQRT_RATIO <= price < MAX_SQRT_RATIO && MIN_TICK <= u <= MAX_TICK
    requires u > TickHigh(LogWord(price))
    ensures price < SqrtRatioAtTick(u)
  {
    hide LogWord, TickLow, TickHigh, Pow, Below, Above, ScaledLog, Msb, SqrtRatioAtTick, Ratio, ToX96, Reciprocal;
    var hi, lo, x := HighPower(price, u);
    var z := price * 0x1_00000000;
    if u <= 0 {
      DownwardPrice(u);
      RatioLogs(-u);
      LogBelowNext(hi, lo, z);
      RatioOver(Ratio(-u), z, E, LOWER_LOG * (-u) * 0x4000, (x + 1) * A + 1);
      X96AtMost(Ratio(-u), price);
    } else {
      UpwardPrice(u);
      ReciprocalIsHigher(hi, lo, x, Ratio(u), u);
      ReciprocalAtMost(Ratio(u), z);
      X96AtMost(Reciprocal(Ratio(u)), price);
    }
  }

  lemma HighPower(price: U256, u: int) returns (hi: U128, lo: U128, x: nat)
    requires MIN_SQRT_RATIO <= price < MAX_SQRT_RATIO && u > TickHigh(LogWord(price))
    ensures hi * TWO_128 + lo == price * 0x1_00000000 && (hi > 0 || lo > 0) && x == ScaledLog(hi, lo, 14)
    ensures u <= 0 ==> (x + 1) * A + 1 + LOWER_LOG * (-u) * 0x4000 < 128 * E
    ensures u >= 0 ==> (x + 1) * A + 1 < 128 * E + UPPER_LOG * u * 0x4000
  {
    hide LogWord, TickLow, TickHigh, ScaledLog;
    var log2;
    hi, lo, x, log2 := LogOfPrice(price);
    TickCandidates(log2);
    HighBudget(x, u);
  }

  lemma ReciprocalIsHigher(hi: U128, lo: U128, x: nat, r: nat, u: nat)
    requires (hi > 0 || lo > 0) && x == ScaledLog(hi, lo, 14) && u <= MAX_TICK && r == Ratio(u)
    requires (x + 1) * A + 1 < 128 * E + UPPER_LOG * u * 0x4000
    ensures r * (hi * TWO_128 + lo + 1) < TWO_256
  {
    var z := hi * TWO_128 + lo;
    hide Pow, Below, Above, ScaledLog, Ratio, Msb;
    MsbBounds(hi, lo);
    PowWords();
    if Msb(hi, lo) >= 127 {
      RatioLogs(u);
      LogBelowNext(hi, lo, z + 1);
      ProductBelow(r, z + 1, E, UPPER_LOG * u * 0x4000, (x + 1) * A + 1);
    } else {
      Pow2Mono(Msb(hi, lo) + 1, 127);
      MulMono(r, TWO_128, z + 1);
    }
  }

  /** `tick_at_sqrt_ratio` of a legal price never fails, and is the last tick whose price is
      not above it: exactly one tick satisfies this. */
  lemma TickOfPriceIsExact(price: U256)
    requires MIN_SQRT_RATIO <= price < MAX_SQRT_RATIO
    ensures var t := TickOfPrice(price);
      t.Some? && MIN_TICK <= t.value < MAX_TICK && SqrtRatioAtTick(t.value) <= price < SqrtRatioAtTick(t.value + 1)
  {
    hide SqrtRatioAtTick, TickLow, TickHigh, Log2;
    EndsOfLadder();
    var log2 := LogWord(price);
    TickCandidates(log2);
    var low, high := TickLow(log2), TickHigh(log2);
    if high < MIN_TICK {
      HighIsAbove(price, MIN_TICK);
    } else if low >= MAX_TICK {
      LowIsBelow(price, MAX_TICK);
    } else {
      if low >= MIN_TICK {
        LowIsBelow(price, low);
      }
      if high < MAX_TICK {
        HighIsAbove(price, high + 1);
      }
    }
  }

  /** Hence the round trip: every tick but the last is recovered from its price, and from no
      price below. */
  lemma TickRoundTrip(tick: int)
    requires MIN_TICK <= tick < MAX_TICK
    ensures MIN_SQRT_RATIO <= SqrtRatioAtTick(tick) < MAX_SQRT_RATIO
    ensures TickOfPrice(SqrtRatioAtTick(tick)) == Some(tick)
  {
    EndsOfLadder();
    hide SqrtRatioAtTick, TickOfPrice;
    if tick > MIN_TICK {
      PricesRise(MIN_TICK, tick);
    }
    PricesRise(tick, MAX_TICK);
    var price := SqrtRatioAtTick(tick);
    TickOfPriceIsExact(price);
    var t := TickOfPrice(price).value;
    if t > tick {
      PricesRise(tick, t);
    } else if t + 1 < tick {
      PricesRise(t + 1, tick);
    }
  }

  /** The tick of a price never falls as the price rises. */
  lemma TickFollowsPrice(low: U256, high: U256)
    requires MIN_SQRT_RATIO <= low <= high < MAX_SQRT_RATIO
    ensures TickOfPrice(low).Some? && TickOfPrice(high).Some? && TickOfPrice(low).value <= TickOfPrice(high).value
  {
    hide SqrtRatioAtTick, TickOfPrice;
    TickOfPriceIsExact(low);
    TickOfPriceIsExact(high);
    var t, u := TickOfPrice(low).value, TickOfPrice(high).value;
    if u + 1 < t {
      PricesRise(u + 1, t);
    }
  }

  // ------------------------------------------------------------- the price ladder

  /** Price at a tick. */
  function P(tick: int): U256
  {
    SqrtRatioAtTick(ClampTick(tick))
  }

  /** The price lies in the tick's interval; after a downward crossing it is the upper end. */
  predicate OnLadder(tick: int, price: U256)
  {
    MIN_TICK <= tick < MAX_TICK && P(tick) <= price <= P(tick + 1)
  }

  lemma Rises(t: int, u: int)
    requires MIN_TICK <= t <= u <= MAX_TICK
    ensures P(t) <= P(u) && (t < u ==> P(t) < P(u))
  {
    hide SqrtRatioAtTick;
    if t < u {
      PricesRise(t, u);
    }
  }

  lemma TickOfLegalPrice(p: U256)
    requires MIN_SQRT_RATIO <= p < MAX_SQRT_RATIO
    ensures var t := TickOfPrice(p);
      t.Some? && MIN_TICK <= t.value < MAX_TICK && P(t.value) <= p < P(t.value + 1)
  {
    hide SqrtRatioAtTick, TickOfPrice;
    TickOfPriceIsExact(p);
  }

  lemma Ends()
    ensures P(MIN_TICK) == MIN_SQRT_RATIO && P(MAX_TICK) == MAX_SQRT_RATIO
  {
    EndsOfLadder();
    hide SqrtRatioAtTick;
  }

  /** A price strictly above a tick's has a tick at or above it, and so on. */
  lemma TickBetween(p: U256, low: int, high: int)
    requires MIN_TICK <= low <= high < MAX_TICK && P(low) <= p < P(high + 1)
    ensures var t := TickOfPrice(p);
      t.Some? && low <= t.value <= high && P(t.value) <= p < P(t.value + 1)
  {
    hide P, TickOfPrice;
    Rises(MIN_TICK, low);
    Rises(high + 1, MAX_TICK);
    Ends();
    TickOfLegalPrice(p);
    var t := TickOfPrice(p).value;
    if t < low {
      Rises(t + 1, low);
    }
    if t > high {
      Rises(high + 1, t);
    }
  }

  lemma Positive(tick: int)
    ensures 0 < P(tick) < MAX_PRICE
  {
    hide RatioAfter, ToX96;
  }
}
