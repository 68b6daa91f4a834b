/** The iteration for D in a pool of two coins: where it always ends within its 255 rounds, and a pool
    where it never does (liquidity_pool_liquidity_calculator/src/stableswap_pool.rs). */
module StableDepth {
  import opened Words
  import opened PoolQuotes
  import opened U512
  import opened StableNewton
  import TickMath

  // --------------------------------------------------------------- a pool that cycles

  /** A number that the iteration leaves and comes back to ends no iteration. */
  lemma {:induction false} CycleNeverEnds(xp: seq<U128>, n: nat, a: U128, b: U128, s: U128, ann: U128, left: nat)
    requires StepFrom(xp, n, a, s, ann) == Ok(b) && StepFrom(xp, n, b, s, ann) == Ok(a) && !Settled(a, b)
    ensures IterateD(xp, n, a, s, ann, left) == Err(MaxIterationsReached)
    decreases left
  {
    hide ProductFrom, NextD;
    if left > 0 {
      CycleNeverEnds(xp, n, b, a, s, ann, left - 1);
    }
  }

  /** One round: the folded product, then the step. */
  function StepFrom(xp: seq<U128>, n: nat, d: U128, s: U128, ann: U128): Result<U128>
  {
    var p :- ProductFrom(xp, n, d, 0, d);
    NextD(d, p, s, n, ann)
  }

  lemma RoundGoesOn(xp: seq<U128>, n: nat, d: U128, d': U128, s: U128, ann: U128, left: nat)
    requires StepFrom(xp, n, d, s, ann) == Ok(d') && !Settled(d', d) && left > 0
    ensures IterateD(xp, n, d, s, ann, left) == IterateD(xp, n, d', s, ann, left - 1)
  {
    hide ProductFrom, NextD;
  }

  /** Folding one coin. */
  lemma FoldOne(xp: seq<U128>, n: nat, d: U128, i: nat, p: U128, m: U128)
    requires i < |xp| && m == xp[i] * n && m > 0
    ensures ProductFrom(xp, n, d, i, p) == if p * d / m < TWO_128 then ProductFrom(xp, n, d, i + 1, p * d / m) else Err(Host)
  {
    hide MulDiv128;
    MulDivIs(p, d, m);
    assert Checked(xp[i] * n) == Ok(m);
  }

  lemma MulDivIs(p: U128, d: U128, m: nat)
    requires m > 0
    ensures p * d / m >= 0
    ensures MulDiv128(p, d, m, false) == if p * d / m < TWO_128 then Ok(p * d / m) else Err(Host)
  {
    FloorGalois(0, p * d, m);
  }

  /** The product of two coins, folded in their order. */
  lemma ProductOfTwo(x: U128, y: U128, d: U128)
    requires 0 < x && 0 < y && 2 * x < TWO_128 && 2 * y < TWO_128
    ensures var p1 := d * d / (2 * x);
      ProductFrom([x, y], 2, d, 0, d) ==
        if p1 >= TWO_128 || p1 * d / (2 * y) >= TWO_128 then Err(Host) else Ok(p1 * d / (2 * y))
  {
    var xp, p1 := [x, y], d * d / (2 * x);
    FoldOne(xp, 2, d, 0, d, 2 * x);
    if p1 < TWO_128 {
      FloorGalois(0, d * d, 2 * x);
      FoldOne(xp, 2, d, 1, p1, 2 * y);
      FoldEnds(xp, 2, d);
    }
    hide ProductFrom;
  }

  lemma FoldEnds(xp: seq<U128>, n: nat, d: U128)
    ensures forall p: U128 :: ProductFrom(xp, n, d, |xp|, p) == Ok(p)
  {
  }

  /** A small step with amplification 1. */
  lemma StepIs(x: U128, y: U128, d: U128, d': U128, p: U128)
    requires 0 < x < 1_000_000 && 0 < y < 1_000_000 && 0 < d < 1_000_000 && d' < 1_000_000 && p < 1_000_000_000
    requires d * d / (2 * x) < TWO_128 && p == d * d / (2 * x) * d / (2 * y) && d' == (2 * (x + y) + 2 * p) * d / (d + 3 * p)
    ensures StepFrom([x, y], 2, d, x + y, 2) == Ok(d')
  {
    ProductOfTwo(x, y, d);
    hide ProductFrom, CeilDiv;
  }

  /** 624 of one coin and 1 of the other, amplification 1: from its sixth round on D jumps between 140
      and 142 until the rounds run out. */
  lemma SomePoolsRunOut()
    ensures SolveD([624, 1], 2, 1) == Err(MaxIterationsReached)
  {
    hide IterateD, StepFrom;
    var xp: seq<U128> := [624, 1];
    SumOfTwo(624, 1);
    CycleSteps();
    FirstSteps();
    RoundGoesOn(xp, 2, 625, 418, 625, 2, 255);
    RoundGoesOn(xp, 2, 418, 283, 625, 2, 254);
    RoundGoesOn(xp, 2, 283, 199, 625, 2, 253);
    RoundGoesOn(xp, 2, 199, 156, 625, 2, 252);
    RoundGoesOn(xp, 2, 156, 142, 625, 2, 251);
    CycleNeverEnds(xp, 2, 142, 140, 625, 2, 250);
    hide SumFrom;
  }

  lemma SumOfTwo(x: U128, y: U128)
    ensures SumFrom([x, y], 0, 0) == if x + y < TWO_128 then Ok(x + y) else Err(Host)
  {
    var xp := [x, y];
    assert SumFrom(xp, 0, 0) == SumFrom(xp, 1, x);
    if x + y < TWO_128 {
      assert SumFrom(xp, 1, x) == SumFrom(xp, 2, x + y);
    }
  }

  lemma FirstSteps()
    ensures StepFrom([624, 1], 2, 625, 625, 2) == Ok(418) && StepFrom([624, 1], 2, 418, 625, 2) == Ok(283)
    ensures StepFrom([624, 1], 2, 283, 625, 2) == Ok(199) && StepFrom([624, 1], 2, 199, 625, 2) == Ok(156)
    ensures StepFrom([624, 1], 2, 156, 625, 2) == Ok(142)
  {
    hide StepFrom;
    StepIs(624, 1, 625, 418, 97812);
    StepIs(624, 1, 418, 283, 29260);
    StepIs(624, 1, 283, 199, 9056);
    StepIs(624, 1, 199, 156, 3084);
    StepIs(624, 1, 156, 142, 1482);
  }

  lemma CycleSteps()
    ensures StepFrom([624, 1], 2, 142, 625, 2) == Ok(140) && StepFrom([624, 1], 2, 140, 625, 2) == Ok(142)
  {
    hide StepFrom;
    StepIs(624, 1, 142, 140, 1136);
    StepIs(624, 1, 140, 142, 1050);
  }

  // ------------------------------------------------------------ one round, in integers

  /** The invariant of D times 4xy, whose product is `k`: negative below the root, positive above. */
  function Cubic(z: int, a: int, s: int, k: int): int
  {
    z * z * z + (a - 1) * k * z - a * s * k
  }

  /** What folding with two roundings loses of d^3. */
  lemma FoldError(x: nat, y: nat, d: nat, p1: nat, p: nat)
    requires x > 0 && y > 0 && p1 == d * d / (2 * x) && p == p1 * d / (2 * y)
    ensures var k := 4 * x * y; k * p <= d * d * d <= k * p + 2 * x * d + k - d - 2 * x
  {
    FloorBounds(d * d, 2 * x);
    FloorBounds(p1 * d, 2 * y);
    FoldBounds(x, y, d, p1, p);
  }

  lemma FoldBounds(x: nat, y: nat, d: nat, p1: nat, p: nat)
    requires x > 0 && y > 0 && p1 * (2 * x) <= d * d < p1 * (2 * x) + 2 * x && p * (2 * y) <= p1 * d < p * (2 * y) + 2 * y
    ensures var k := 4 * x * y; k * p <= d * d * d <= k * p + 2 * x * d + k - d - 2 * x
  {
    FoldIdentities(x, y, d, p1, p);
    MulMono(p * (2 * y), p1 * d, 2 * x);
    MulMono(p1 * d + 1, p * (2 * y) + 2 * y, 2 * x);
    MulMono(p1 * (2 * x), d * d, d);
    MulMono(d * d + 1, p1 * (2 * x) + 2 * x, d);
  }

  lemma FoldIdentities(x: int, y: int, d: int, p1: int, p: int)
    ensures var k := 4 * x * y; p * (2 * y) * (2 * x) == k * p && (p * (2 * y) + 2 * y) * (2 * x) == k * p + k
    ensures p1 * d * (2 * x) == p1 * (2 * x) * d && (p1 * d + 1) * (2 * x) == p1 * (2 * x) * d + 2 * x
    ensures (d * d + 1) * d == d * d * d + d && (p1 * (2 * x) + 2 * x) * d == p1 * (2 * x) * d + 2 * x * d
  {
    assert p * (2 * y) * (2 * x) == 4 * x * y * p;
  }

  /** A step never falls below a number under the root. */
  lemma StepAbove(d: nat, p: nat, z: nat, a: int, s: int, k: nat)
    requires k > 0 && k * p <= d * d * d && Cubic(z, a, s, k) <= 0
    ensures z * ((a - 1) * d + 3 * p) <= (a * s + 2 * p) * d
  {
    var gap := (a * s + 2 * p) * d - z * ((a - 1) * d + 3 * p);
    var room := a * s * k - (a - 1) * k * z;
    assert k * gap == d * room + k * p * (2 * d - 3 * z) by { GapOfStep(d, p, z, a, s, k); }
    MulMono(z * z * z, room, d);
    if 2 * d < 3 * z {
      MulMono(k * p, d * d * d, 3 * z - 2 * d);
      CubeIdentity(d, z);
    } else {
      MulMono(0, k * p, 2 * d - 3 * z);
    }
    assert k * gap >= 0;
    if gap < 0 {
      MulMono(gap, -1, k);
    }
  }

  lemma GapOfStep(d: int, p: int, z: int, a: int, s: int, k: int)
    ensures k * ((a * s + 2 * p) * d - z * ((a - 1) * d + 3 * p)) == d * (a * s * k - (a - 1) * k * z) + k * p * (2 * d - 3 * z)
  {
    assert k * ((a * s + 2 * p) * d) == d * (a * s * k) + k * p * (2 * d);
    assert k * (z * ((a - 1) * d + 3 * p)) == d * ((a - 1) * k * z) + k * p * (3 * z);
  }

  lemma CubeIdentity(d: nat, z: nat)
    ensures d * (z * z * z) >= d * d * d * (3 * z - 2 * d)
  {
    var w, square := 3 * z - 2 * d, (d - z) * (d - z);
    assert z * z * z >= d * d * w by {
      Quadratic(d, z);
      SquareIsPositive(d - z);
      MulMono(0, square, 2 * d + z);
    }
    MulMono(d * d * w, z * z * z, d);
    Regroup(d, w);
  }

  lemma SquareIsPositive(a: int)
    ensures a * a >= 0
  {
  }

  lemma Regroup(d: int, w: int)
    ensures d * d * w * d == d * d * d * w
  {
    assert d * d * w * d == d * d * (w * d);
  }

  lemma Quadratic(d: int, z: int)
    ensures (d - z) * (d - z) * (2 * d + z) == z * z * z - d * d * (3 * z - 2 * d)
  {
    var square := (d - z) * (d - z);
    assert square == d * d - 2 * d * z + z * z;
    assert square * (2 * d + z) == (d * d - 2 * d * z + z * z) * (2 * d) + (d * d - 2 * d * z + z * z) * z;
    assert (d * d - 2 * d * z + z * z) * (2 * d) == 2 * (d * d * d) - 4 * (d * d * z) + 2 * (d * z * z);
    assert (d * d - 2 * d * z + z * z) * z == d * d * z - 2 * (d * z * z) + z * z * z;
    assert d * d * (3 * z - 2 * d) == 3 * (d * d * z) - 2 * (d * d * d);
  }

  /** The slope a step divides by, and what the step multiplies d by. */
  function Slope(d: int, p: int, a: int): int
  {
    (a - 1) * d + 3 * p
  }

  function Top(p: int, a: int, s: int): int
  {
    a * s + 2 * p
  }

  /** What folding loses is less than one unit of the step. */
  predicate SmallLoss(d: nat, p: nat, a: int, k: nat)
  {
    d * (d * d * d - k * p) < k * Slope(d, p, a)
  }

  lemma StepIdentity(d: int, p: int, a: int, s: int, k: int)
    ensures k * (Top(p, a, s) * d) == k * Slope(d, p, a) * d - d * Cubic(d, a, s, k) + d * (d * d * d - k * p)
  {
    ScaledTop(p, a, s, k);
    ScaledSlope(d, p, a, k);
    Combine(d, a * s * k, k * p, (a - 1) * k * d, d * d * d);
    MoveIn(k, Top(p, a, s), d);
    hide Top, Slope;
  }

  lemma ScaledTop(p: int, a: int, s: int, k: int)
    ensures k * Top(p, a, s) == a * s * k + 2 * (k * p)
  {
  }

  lemma ScaledSlope(d: int, p: int, a: int, k: int)
    ensures k * Slope(d, p, a) == (a - 1) * k * d + 3 * (k * p)
  {
    assert k * ((a - 1) * d) == (a - 1) * k * d;
    assert k * (3 * p) == 3 * (k * p);
    assert k * ((a - 1) * d + 3 * p) == k * ((a - 1) * d) + k * (3 * p);
  }

  lemma MoveIn(k: int, top: int, d: int)
    ensures k * (top * d) == k * top * d
  {
  }

  lemma Combine(d: int, x: int, q: int, c: int, t: int)
    ensures (x + 2 * q) * d == (c + 3 * q) * d - d * (t + c - x) + d * (t - q)
  {
  }

  /** From above the root a step never goes up. */
  lemma StepFalls(d: nat, p: nat, a: int, s: int, k: nat)
    requires k > 0 && Slope(d, p, a) > 0 && Cubic(d, a, s, k) > 0 && SmallLoss(d, p, a, k)
    ensures Top(p, a, s) * d / Slope(d, p, a) <= d
  {
    var m, n, f := Slope(d, p, a), Top(p, a, s) * d, Cubic(d, a, s, k);
    StepIdentity(d, p, a, s, k);
    MulMono(0, f, d);
    hide Slope, Top, Cubic;
    assert k * n < k * m * d + k * m;
    assert k * m * d + k * m == (m * (d + 1)) * k;
    MulLess(n, m * (d + 1), k);
    FloorGalois(d + 1, n, m);
  }

  lemma MulLess(a: int, b: int, k: nat)
    requires k > 0 && k * a < b * k
    ensures a < b
  {
    if b <= a {
      MulMono(b, a, k);
    }
  }

  /** The cubic above a number where it is not negative. */
  lemma CubicRises(r: nat, d: nat, a: int, s: int, k: nat, h: nat, rise: int)
    requires h == d - r && a >= 1 && rise == d * d + (a - 1) * k && Cubic(r, a, s, k) >= 0
    ensures h * rise <= Cubic(d, a, s, k)
  {
    RiseOf(r, d, (a - 1) * k);
  }

  lemma CubicRisesOne(r: nat, a: int, s: int, k: nat)
    ensures Cubic(r + 1, a, s, k) - Cubic(r, a, s, k) == 3 * r * r + 3 * r + 1 + (a - 1) * k
  {
    CubeDifference(r + 1, r);
    NextMultiple((a - 1) * k, r);
    assert (r + 1) * (r + 1) + (r + 1) * r + r * r == 3 * r * r + 3 * r + 1;
  }

  lemma NextMultiple(c: int, r: int)
    ensures c * (r + 1) == c * r + c
  {
  }

  lemma RiseOf(r: nat, d: nat, c: int)
    requires r <= d
    ensures d * d * d + c * d - (r * r * r + c * r) >= (d - r) * (d * d + c)
  {
    CubeDifference(d, r);
    assert c * d - c * r == (d - r) * c;
    assert (d - r) * (d * d + c) == (d - r) * (d * d) + (d - r) * c;
  }

  lemma CubeDifference(d: nat, r: nat)
    requires r <= d
    ensures d * d * d - r * r * r == (d - r) * (d * d + d * r + r * r)
    ensures d * d * d - r * r * r >= (d - r) * (d * d)
  {
    assert (d - r) * (d * d + d * r + r * r) == d * (d * d + d * r + r * r) - r * (d * d + d * r + r * r);
    assert d * (d * d + d * r + r * r) == d * d * d + d * d * r + d * r * r;
    assert r * (d * d + d * r + r * r) == d * d * r + d * r * r + r * r * r;
    assert d * r >= 0 && r * r >= 0;
    MulMono(d * d, d * d + d * r + r * r, d - r);
  }

  /** A step takes away a third of the distance to a number above the root at least, but for one
      unit. */
  lemma StepNears(d: nat, p: nat, r: nat, a: int, s: int, k: nat)
    requires k > 0 && a >= 1 && r <= d && k * p <= d * d * d && Slope(d, p, a) > 0 && SmallLoss(d, p, a, k)
    requires Cubic(r, a, s, k) >= 0
    ensures 3 * (Top(p, a, s) * d / Slope(d, p, a) - r) <= 2 * (d - r) + 2
  {
    StepIdentity(d, p, a, s, k);
    hide Slope, Top, Cubic;
    var q, h := k * Slope(d, p, a), d - r;
    SlopeWithin(d, p, r, a, s, k, q, h);
    NearsBy(d, r, Slope(d, p, a), Top(p, a, s) * d, Cubic(d, a, s, k), d * d * d - k * p, k, q, h);
  }

  lemma NearsBy(d: nat, r: nat, m: int, n: int, f: int, loss: int, k: nat, q: int, h: nat)
    requires k > 0 && m > 0 && h == d - r && q == k * m && d * loss < q
    requires k * n == q * d - d * f + d * loss && q * h <= 3 * (d * f)
    ensures 3 * (n / m - r) <= 2 * (d - r) + 2
  {
    var u := 2 * d + r + 3;
    SplitSlope(q, d, r, h);
    assert 3 * (k * n) < q * u;
    Associate(k, n, m, u);
    MulLess(3 * n, m * u, k);
    ThirdOfQuotient(n, m, u);
  }

  lemma SplitSlope(q: int, d: int, r: int, h: int)
    requires h == d - r
    ensures q * (2 * d + r + 3) == 2 * (q * d) + q * r + 3 * q
    ensures q * h == q * d - q * r
  {
  }

  lemma Associate(k: int, n: int, m: int, u: int)
    ensures k * (3 * n) == 3 * (k * n) && (m * u) * k == k * m * u
  {
    assert (m * u) * k == k * (m * u);
  }

  lemma SlopeWithin(d: nat, p: nat, r: nat, a: int, s: int, k: nat, q: int, h: nat)
    requires a >= 1 && h == d - r && q == k * Slope(d, p, a) && k * p <= d * d * d && Cubic(r, a, s, k) >= 0
    ensures q * h <= 3 * (d * Cubic(d, a, s, k))
  {
    hide Cubic, Slope;
    var rise := d * d + (a - 1) * k;
    CubicRises(r, d, a, s, k, h, rise);
    SlopeAtMost(d, p, a, k, rise);
    WithinBy(d, h, rise, q, Cubic(d, a, s, k));
  }

  lemma WithinBy(d: nat, h: nat, rise: int, q: int, f: int)
    requires h * rise <= f && q <= 3 * (d * rise)
    ensures q * h <= 3 * (d * f)
  {
    MulMono(q, 3 * (d * rise), h);
    MulMono(h * rise, f, d);
    Shuffle(d, rise, h);
  }

  lemma Shuffle(d: int, rise: int, h: int)
    ensures 3 * (d * rise) * h == 3 * (h * rise * d)
  {
    assert d * rise * h == h * (rise * d);
  }

  lemma SlopeAtMost(d: nat, p: nat, a: int, k: nat, rise: int)
    requires a >= 1 && k * p <= d * d * d && rise == d * d + (a - 1) * k
    ensures k * Slope(d, p, a) <= 3 * (d * rise)
  {
    var c := (a - 1) * k;
    ScaledSlope(d, p, a, k);
    assert d * rise == d * d * d + c * d;
    assert c * d >= 0;
    hide Slope;
  }

  lemma ThirdOfQuotient(n: int, m: int, u: int)
    requires m > 0 && 3 * n < m * u
    ensures 3 * (n / m) < u
  {
    FloorBounds(n, m);
    assert 3 * (n / m) * m < u * m;
    if u <= 3 * (n / m) {
      MulMono(u, 3 * (n / m), m);
    }
  }

  /** What the last number under the root must satisfy for a step from it to go up by one at most. */
  predicate CloseBelow(r: int, loss: int, a: int, k: int)
  {
    loss * (r + 6) + 3 * (r * r) < (a - 1) * k * r + 3 * (r * r * r)
  }

  /** From the root a step goes up by one at most. */
  lemma StepFromRoot(r: nat, p: nat, a: int, s: int, k: nat, loss: int)
    requires k > 0 && a >= 1 && Slope(r, p, a) > 0 && Cubic(r + 1, a, s, k) > 0
    requires loss == r * r * r - k * p && CloseBelow(r, loss, a, k)
    ensures Top(p, a, s) * r / Slope(r, p, a) <= r + 1
  {
    StepIdentity(r, p, a, s, k);
    CubicRisesOne(r, a, s, k);
    ScaledSlope(r, p, a, k);
    hide Slope, Top, Cubic;
    FromRootBy(r, Slope(r, p, a), Top(p, a, s) * r, Cubic(r, a, s, k), loss, (a - 1) * k, k);
  }

  lemma FromRootBy(r: nat, m: int, n: int, f: int, loss: int, c: int, k: nat)
    requires k > 0 && m > 0 && k * n == k * m * r - r * f + r * loss
    requires f >= -(3 * r * r + 3 * r + c) && k * m == c * r + 3 * (r * r * r - loss)
    requires loss * (r + 6) + 3 * (r * r) < c * r + 3 * (r * r * r)
    ensures n / m <= r + 1
  {
    FromRootTerms(r, f, loss, c);
    assert k * n < k * m * r + 2 * (k * m);
    PlusTwo(k, m, r);
    MulLess(n, m * (r + 2), k);
    FloorGalois(r + 2, n, m);
  }

  lemma FromRootTerms(r: nat, f: int, loss: int, c: int)
    requires f >= -(3 * r * r + 3 * r + c)
    ensures r * f >= -(3 * (r * r * r) + 3 * (r * r) + c * r) && loss * (r + 6) == r * loss + 6 * loss
  {
    MulMono(-(3 * r * r + 3 * r + c), f, r);
    assert (3 * r * r + 3 * r + c) * r == 3 * (r * r * r) + 3 * (r * r) + c * r;
  }

  lemma PlusTwo(k: int, m: int, r: int)
    ensures k * m * r + 2 * (k * m) == (m * (r + 2)) * k
  {
    assert m * (r + 2) == m * r + 2 * m;
    assert (m * r + 2 * m) * k == k * m * r + 2 * (k * m);
  }

  // -------------------------------------------------------------------- tame pools

  /** The first coin is not the larger one, or not by more than the amplification allows. */
  predicate NotTooUneven(x: nat, y: nat, a: int)
  {
    x <= y || 2 * x * (x + y) <= (a - 2) * (4 * x * y)
  }

  /** What folding loses up to the sum of the balances. */
  lemma LossAtMost(x: nat, y: nat, a: int, d: nat, k: nat)
    requires k == 4 * x * y && d <= x + y && NotTooUneven(x, y, a)
    ensures 2 * x * d <= if x <= y then k else (a - 2) * k
  {
    MulMono(d, x + y, 2 * x);
    if x <= y {
      MulMono(d, 2 * y, 2 * x);
      assert 2 * y * (2 * x) == k;
    } else {
      assert (x + y) * (2 * x) == 2 * x * (x + y);
      assert (a - 2) * (4 * x * y) == (a - 2) * k;
    }
  }

  /** Numbers up to the sum, above the root: folding loses less than one unit of the step. */
  lemma LossIsSmall(x: nat, y: nat, a: int, d: nat, p: nat, k: nat)
    requires 0 < x && 0 < y && a >= 2 && k == 4 * x * y && 0 < d <= x + y && NotTooUneven(x, y, a)
    requires k * p <= d * d * d <= k * p + 2 * x * d + k - d - 2 * x && Cubic(d, a, x + y, k) > 0
    ensures Slope(d, p, a) > 0 && SmallLoss(d, p, a, k)
  {
    SlopePositive(d, p, a);
    ProductPositive(x, y);
    LossAtMost(x, y, a, d, k);
    hide Slope, Cubic, SmallLoss, NotTooUneven;
    if x <= y {
      LossOrdered(d, p, a, x + y, k, d * d * d - k * p);
    } else {
      OneMore(a, k);
      LossUneven(d, p, a, k, d * d * d - k * p);
    }
  }

  lemma OneMore(a: int, k: int)
    ensures (a - 2) * k + k == (a - 1) * k
  {
  }

  lemma SlopePositive(d: nat, p: nat, a: int)
    requires d > 0 && a >= 2
    ensures Slope(d, p, a) > 0
  {
    MulMono(1, a - 1, d);
  }

  lemma LossOrdered(d: nat, p: nat, a: int, s: int, k: nat, loss: int)
    requires 0 < d <= s && k >= 4 && a >= 2 && Cubic(d, a, s, k) > 0 && loss == d * d * d - k * p && loss <= 2 * k - d
    ensures SmallLoss(d, p, a, k)
  {
    hide Slope, Cubic, SmallLoss;
    LossBelow(d, loss, 2 * k);
    if a == 2 {
      LossAtTwo(d, p, s, k, loss, d * loss);
    } else {
      MoreWithin(a, d, k, k * p, d * loss);
      ScaledSlope(d, p, a, k);
      SmallLossIs(d, p, a, k, loss, d * loss);
    }
  }

  lemma LossAtTwo(d: nat, p: nat, s: int, k: nat, loss: int, lost: int)
    requires 0 < d <= s && k >= 4 && Cubic(d, 2, s, k) > 0 && loss == d * d * d - k * p && loss < 2 * k
    requires lost == d * loss && lost < 2 * k * d
    ensures SmallLoss(d, p, 2, k)
  {
    hide Slope, Cubic, SmallLoss;
    AboveGeometric(d, 2, s, k);
    CubeAbove(d, k);
    MulMono(3, d, k);
    ScaledSlope(d, p, 2, k);
    TwiceWithin(d, k, k * d, k * p, d * d * d, lost);
    SmallLossIs(d, p, 2, k, loss, lost);
  }

  lemma SmallLossIs(d: nat, p: nat, a: int, k: nat, loss: int, lost: int)
    requires loss == d * d * d - k * p && lost == d * loss && lost < k * Slope(d, p, a)
    ensures SmallLoss(d, p, a, k)
  {
    hide Slope;
  }

  lemma TwiceWithin(d: nat, k: int, kd: int, kp: int, cube: int, lost: int)
    requires cube >= kd + d && cube - kp < 2 * k && lost < 2 * kd && 3 * k <= kd
    ensures lost < kd + 3 * kp
  {
  }

  lemma MoreWithin(a: int, d: nat, k: nat, kp: nat, lost: int)
    requires a >= 3 && lost < 2 * k * d
    ensures lost < (a - 1) * k * d + 3 * kp
  {
    MulMono(2, a - 1, k * d);
    assert (a - 1) * (k * d) == (a - 1) * k * d;
  }

  lemma LossUneven(d: nat, p: nat, a: int, k: nat, loss: int)
    requires 0 < d && loss == d * d * d - k * p && loss <= (a - 1) * k - d
    ensures SmallLoss(d, p, a, k)
  {
    LossBelow(d, loss, (a - 1) * k);
    ScaledSlope(d, p, a, k);
    assert k * p >= 0;
    hide Slope;
  }

  lemma ProductPositive(x: nat, y: nat)
    requires x > 0 && y > 0
    ensures x * y >= 1 && 4 * x * y >= 4
  {
    MulMono(1, x, y);
  }

  lemma LossBelow(d: nat, loss: int, bound: int)
    requires d > 0 && loss <= bound - d
    ensures d * loss < bound * d
  {
    MulMono(loss, bound - d, d);
    assert (bound - d) * d == bound * d - d * d;
    MulMono(1, d, d);
  }

  /** A number above the root is above the balances' geometric mean, doubled. */
  lemma AboveGeometric(d: nat, a: int, s: nat, k: nat)
    requires 0 < d <= s && k >= 4 && a >= 2 && Cubic(d, a, s, k) > 0
    ensures d * d > k && d >= 3
  {
    MulMono(d, s, a * k);
    assert s * (a * k) == a * s * k && d * (a * k) == (a - 1) * k * d + k * d;
    assert d * d * d > k * d;
    MulLess(k, d * d, d);
    if d <= 2 {
      MulMono(d, 2, d);
    }
  }

  lemma CubeAbove(d: nat, k: nat)
    requires d * d > k
    ensures d * d * d >= k * d + d
  {
    MulMono(k + 1, d * d, d);
  }

  /** The first coin is the smaller one. */
  lemma CloseWhenOrdered(x: nat, y: nat, a: int, r: nat, k: nat, loss: int)
    requires 0 < x < y && a >= 2 && k == 4 * x * y && r < x + y && Cubic(r + 1, a, x + y, k) > 0
    requires r >= 8 && 0 <= loss <= 2 * x * r + k - r - 2 * x
    ensures CloseBelow(r, loss, a, k)
  {
    hide Cubic, CloseBelow;
    ProductPositive(x, y);
    AboveGeometric(r + 1, a, x + y, k);
    SmallerCoin(x, y, r, k);
    MulMono(2 * x, r, r);
    MoreWithin1(a, k, r);
    OrderedArith(r, r * r, r * r * r, k, k * r, loss, (a - 1) * k * r);
    CloseIs(r, loss, a, k, (a - 1) * k);
  }

  lemma MoreWithin1(a: int, k: nat, r: nat)
    requires a >= 2
    ensures (a - 1) * k * r >= k * r
  {
    MulMono(1, a - 1, k * r);
    assert (a - 1) * (k * r) == (a - 1) * k * r;
  }

  lemma OrderedArith(r: nat, r2: nat, r3: nat, k: nat, kr: nat, loss: nat, c: int)
    requires r >= 8 && r2 == r * r && r3 == r * r * r && kr == k * r && loss <= r2 + k - r && k <= r2 + 2 * r && c >= kr
    ensures loss * (r + 6) + 3 * r2 < c + 3 * r3
  {
    MulMono(loss, r2 + k - r, r + 6);
    ExpandSix(r, r2, r3, k, kr);
    MulMono(8, r, r2);
    MulMono(8, r, r);
  }

  lemma ExpandSix(r: int, r2: int, r3: int, k: int, kr: int)
    requires r2 == r * r && r3 == r * r * r && kr == k * r
    ensures (r2 + k - r) * (r + 6) == r3 + 5 * r2 + kr + 6 * k - 6 * r && r2 * r == r3
  {
  }

  lemma SmallerCoin(x: nat, y: nat, r: nat, k: nat)
    requires x <= y && k == 4 * x * y && (r + 1) * (r + 1) > k
    ensures 2 * x <= r && k <= r * r + 2 * r
  {
    MulMono(x, y, 4 * x);
    if 2 * x > r {
      MulMono(r + 1, 2 * x, r + 1);
      MulMono(r + 1, 2 * x, 2 * x);
    }
  }

  /** The first coin is the larger one. */
  lemma CloseWhenUneven(x: nat, y: nat, a: int, r: nat, k: nat, loss: int)
    requires 5 <= y < x && a >= 2 && k == 4 * x * y && r < x + y && Cubic(r + 1, a, x + y, k) > 0 && NotTooUneven(x, y, a)
    requires 0 <= loss <= 2 * x * r + k - r - 2 * x
    ensures CloseBelow(r, loss, a, k)
  {
    hide Cubic, NotTooUneven, CloseBelow;
    AtLeast120(x, y, k);
    AboveGeometric(r + 1, a, x + y, k);
    AtLeastTen(r, k);
    LargerCoin(x, y, a, r, k);
    UnevenLoss(x, y, a, r, k, loss);
    UnevenClose(x, a, r, k, loss, (a - 1) * k);
  }

  lemma UnevenClose(x: nat, a: int, r: nat, k: nat, loss: nat, c: int)
    requires r >= 10 && x <= 2 * r && k <= r * r + 2 * r && c == (a - 1) * k
    requires loss <= c - r - 2 * x && loss <= 2 * x * r + k - r - 2 * x
    ensures CloseBelow(r, loss, a, k)
  {
    hide CloseBelow;
    Regroup2(r, r * r, r * r * r, x, x * r, c, loss);
    UnevenArith(r, r * r, r * r * r, x, x * r, k, c, loss);
    CloseIs(r, loss, a, k, c);
  }

  lemma UnevenLoss(x: nat, y: nat, a: int, r: nat, k: nat, loss: int)
    requires y < x && k == 4 * x * y && r <= x + y && NotTooUneven(x, y, a) && loss <= 2 * x * r + k - r - 2 * x
    ensures loss <= (a - 1) * k - r - 2 * x
  {
    hide NotTooUneven;
    LossAtMost(x, y, a, r, k);
    OneMore(a, k);
  }

  lemma CloseIs(r: int, loss: int, a: int, k: int, c: int)
    requires c == (a - 1) * k && loss * (r + 6) + 3 * (r * r) < c * r + 3 * (r * r * r)
    ensures CloseBelow(r, loss, a, k)
  {
  }

  lemma AtLeast120(x: nat, y: nat, k: nat)
    requires y >= 5 && x >= 6 && k == 4 * x * y
    ensures k >= 120
  {
    MulMono(5, y, 4 * x);
  }

  lemma AtLeastTen(r: nat, k: nat)
    requires k >= 120 && (r + 1) * (r + 1) > k
    ensures r >= 10 && k <= r * r + 2 * r
  {
    if r <= 9 {
      MulMono(r + 1, 10, r + 1);
    }
    assert (r + 1) * (r + 1) == r * r + 2 * r + 1;
  }

  lemma UnevenArith(r: nat, r2: nat, r3: nat, x: nat, xr: nat, k: nat, c: int, loss: nat)
    requires r >= 10 && r2 == r * r && r3 == r * r * r && xr == x * r && x <= 2 * r && k <= r2 + 2 * r
    requires loss <= c - r - 2 * x && loss <= 2 * xr + k - r - 2 * x
    ensures loss * (r + 6) + 3 * r2 < c * r + 3 * r3
  {
    MulMono(loss, c - r - 2 * x, r);
    Regroup2(r, r2, r3, x, xr, c, loss);
    MulMono(x, 2 * r, r);
    MulMono(10, r, r2);
    MulMono(10, r, r);
  }

  lemma Regroup2(r: int, r2: int, r3: int, x: int, xr: int, c: int, loss: int)
    requires r2 == r * r && r3 == r * r * r && xr == x * r
    ensures (c - r - 2 * x) * r == c * r - r2 - 2 * xr && loss * (r + 6) == loss * r + 6 * loss && r2 * r == r3
    ensures 2 * x * r == 2 * xr && 2 * r * r == 2 * r2
  {
  }

  /** The larger coin is within twice the root. */
  lemma LargerCoin(x: nat, y: nat, a: int, r: nat, k: nat)
    requires 5 <= y < x && a >= 2 && k == 4 * x * y && Cubic(r + 1, a, x + y, k) > 0 && NotTooUneven(x, y, a)
    ensures x <= 2 * r
  {
    var t, s, q := r + 1, x + y, (a - 1) * k;
    if 2 * t <= s {
      LossAtMost(x, y, a, s, k);
      OneMore(a, k);
      CubicParts(t, a, s, k, q);
      hide Cubic, NotTooUneven;
      MulMono(2 * t, s, q);
      MulMono(2 * x * s, q, s);
      FarBelow(t, s, x);
      assert false;
    }
  }

  lemma CubicParts(t: int, a: int, s: int, k: nat, q: int)
    requires q == (a - 1) * k
    ensures Cubic(t, a, s, k) == t * t * t + q * t - q * s - k * s
    ensures q * t == t * q && q * s == s * q && 2 * t * q == 2 * (t * q)
  {
    assert a * s * k == (a - 1) * k * s + k * s;
  }

  lemma FarBelow(t: nat, s: nat, x: nat)
    requires 0 < t && 2 * t <= s && s < 2 * x
    ensures 2 * (t * t * t) <= 2 * x * s * s
  {
    MulMono(2 * t, s, 2 * t);
    MulMono(2 * t, s, s);
    MulMono(4 * (t * t), s * s, 2 * x);
    MulMono(t, 4 * x, 2 * (t * t));
    assert 2 * x * (s * s) == 2 * x * s * s;
  }

  /** The same for the small roots, one by one. */
  lemma CloseWhenSmall(x: nat, y: nat, a: int, r: nat, k: nat, p: nat, loss: int)
    requires 0 < x < y && a >= 2 && k == 4 * x * y && r <= 7 && 2 * x <= r && k <= r * r + 2 * r
    requires p == r * r / (2 * x) * r / (2 * y) && loss == r * r * r - k * p && loss <= 2 * x * r + k - r - 2 * x
    ensures CloseBelow(r, loss, a, k)
  {
    MoreWithin1(a, k, r);
    if x == 1 {
      OneSmall(y, r, k, p, loss);
    } else if x == 2 {
      TwoSmall(y, r, k, p, loss);
    } else {
      ThreeSmall(y, r, k, p, loss);
    }
  }

  lemma OneSmall(y: nat, r: nat, k: nat, p: nat, loss: int)
    requires 1 < y && k == 4 * y && 2 <= r <= 7 && k <= r * r + 2 * r
    requires p == r * r / 2 * r / (2 * y) && loss == r * r * r - k * p && loss <= r + k - 2
    ensures loss * (r + 6) + 3 * (r * r) < k * r + 3 * (r * r * r)
  {
    if r == 2 {
      assert y == 2;
    } else if r == 3 {
      assert y == 2 || y == 3;
    } else if r == 4 {
      assert y <= 5 || y == 6;
    } else if r == 5 {
    } else if r == 6 {
    } else {
    }
  }

  lemma TwoSmall(y: nat, r: nat, k: nat, p: nat, loss: int)
    requires 2 < y && k == 8 * y && 4 <= r <= 7 && k <= r * r + 2 * r
    requires p == r * r / 4 * r / (2 * y) && loss == r * r * r - k * p && loss <= 3 * r + k - 4
    ensures loss * (r + 6) + 3 * (r * r) < k * r + 3 * (r * r * r)
  {
    if r == 4 {
      assert y == 3;
    } else if r == 5 {
      assert y == 3 || y == 4;
    } else if r == 6 {
    } else {
    }
  }

  lemma ThreeSmall(y: nat, r: nat, k: nat, p: nat, loss: int)
    requires 3 < y && k == 12 * y && 6 <= r <= 7 && k <= r * r + 2 * r
    requires p == r * r / 6 * r / (2 * y) && loss == r * r * r - k * p && loss <= 5 * r + k - 6
    ensures loss * (r + 6) + 3 * (r * r) < k * r + 3 * (r * r * r)
  {
    if r == 6 {
      assert y == 4;
    } else {
      assert y == 4 || y == 5;
    }
  }

  // ---------------------------------------------------------------- the iteration ends

  lemma NextFailsAsHost(d: U128, p: U128, s: U128, n: nat, ann: U128)
    ensures var r := NextD(d, p, s, n, ann); r.Err? ==> r.error == Host
  {
    hide CeilDiv;
  }

  lemma {:induction false} ProductFailsAsHost(xp: seq<U128>, n: nat, d: U128, i: nat, p: U128)
    ensures var r := ProductFrom(xp, n, d, i, p); r.Err? ==> r.error == Host
    decreases |xp| - i
  {
    if i < |xp| {
      var divisor := Checked(xp[i] * n);
      if divisor.Ok? {
        var q := MulDiv128(p, d, divisor.value, false);
        assert q.Err? ==> q.error == Host;
        hide MulDiv128;
        if q.Ok? {
          ProductFailsAsHost(xp, n, d, i + 1, q.value);
        }
      }
    }
  }

  lemma StepFailsAsHost(xp: seq<U128>, n: nat, d: U128, s: U128, ann: U128)
    ensures var r := StepFrom(xp, n, d, s, ann); r.Err? ==> r.error == Host
  {
    ProductFailsAsHost(xp, n, d, 0, d);
    var p := ProductFrom(xp, n, d, 0, d);
    if p.Ok? {
      NextFailsAsHost(d, p.value, s, n, ann);
    }
    hide ProductFrom, NextD;
  }

  /** One round of the iteration. */
  lemma IterationIs(xp: seq<U128>, n: nat, d: U128, s: U128, ann: U128, left: nat)
    requires left > 0
    ensures var step := StepFrom(xp, n, d, s, ann);
      IterateD(xp, n, d, s, ann, left) ==
        if step.Err? || Settled(step.value, d) then step else IterateD(xp, n, step.value, s, ann, left - 1)
  {
    hide ProductFrom, NextD;
  }

  /** What a step that does not fail computes, in a pool of two coins. */
  lemma TwoCoinStep(x: U128, y: U128, a: U128, d: U128) returns (p: nat)
    requires x + y < TWO_128 && StepFrom([x, y], 2, d, x + y, a).Ok?
    ensures x > 0 && y > 0 && a >= 1 && p == d * d / (2 * x) * d / (2 * y) && d * d / (2 * x) >= 0
    ensures Slope(d, p, a) > 0 && StepFrom([x, y], 2, d, x + y, a) == Ok(Top(p, a, x + y) * d / Slope(d, p, a))
  {
    TwoCoinsFold(x, y, d);
    p := d * d / (2 * x) * d / (2 * y);
    NextIs(d, p, x + y, a);
    hide ProductFrom, NextD;
  }

  lemma TwoCoinsFold(x: U128, y: U128, d: U128)
    requires ProductFrom([x, y], 2, d, 0, d).Ok?
    ensures x > 0 && y > 0 && d * d / (2 * x) >= 0 && ProductFrom([x, y], 2, d, 0, d) == Ok(d * d / (2 * x) * d / (2 * y))
  {
    var xp := [x, y];
    assert x > 0 && 2 * x < TWO_128;
    FoldOne(xp, 2, d, 0, d, 2 * x);
    MulDivIs(d, d, 2 * x);
    var p1: U128 := d * d / (2 * x);
    assert ProductFrom(xp, 2, d, 1, p1).Ok?;
    assert y > 0 && 2 * y < TWO_128;
    hide ProductFrom;
    ProductOfTwo(x, y, d);
  }

  lemma NextIs(d: U128, p: U128, s: U128, a: U128)
    requires NextD(d, p, s, 2, a).Ok?
    ensures a >= 1 && Slope(d, p, a) > 0 && NextD(d, p, s, 2, a) == Ok(Top(p, a, s) * d / Slope(d, p, a))
  {
    hide CeilDiv;
  }

  /** The first coin is not the larger one, or within what the amplification allows. */
  predicate Tame(x: nat, y: nat, a: int)
  {
    x <= y || (y >= 5 && 2 * x * (x + y) <= (a - 2) * (4 * x * y))
  }

  /** Two different balances, and the last number under the root. */
  predicate AtRoot(x: nat, y: nat, a: int, r: nat)
  {
    && x > 0 && y > 0 && x != y && a >= 2 && 0 < r < x + y && Tame(x, y, a)
    && Cubic(r, a, x + y, 4 * x * y) <= 0 < Cubic(r + 1, a, x + y, 4 * x * y)
  }

  lemma CubicMono(t: nat, d: nat, a: int, s: int, k: nat)
    requires t <= d && a >= 1
    ensures Cubic(t, a, s, k) <= Cubic(d, a, s, k)
  {
    RiseNotNegative(t, d, (a - 1) * k);
  }

  lemma RiseNotNegative(t: nat, d: nat, c: nat)
    requires t <= d
    ensures t * t * t + c * t <= d * d * d + c * d
  {
    RiseOf(t, d, c);
    MulMono(0, d * d + c, d - t);
  }

  /** From the root on a round goes up by one at most. */
  lemma RoundFromRoot(x: nat, y: nat, a: int, r: nat, p: nat)
    requires AtRoot(x, y, a, r) && Slope(r, p, a) > 0 && r * r / (2 * x) >= 0 && p == r * r / (2 * x) * r / (2 * y)
    ensures Top(p, a, x + y) * r / Slope(r, p, a) <= r + 1
  {
    var k := 4 * x * y;
    FoldError(x, y, r, r * r / (2 * x), p);
    hide Cubic, Slope, Top, CloseBelow;
    var loss := r * r * r - k * p;
    RootIsClose(x, y, a, r, k, p, loss);
    ProductPositive(x, y);
    StepFromRoot(r, p, a, x + y, k, loss);
  }

  lemma RootIsClose(x: nat, y: nat, a: int, r: nat, k: nat, p: nat, loss: int)
    requires AtRoot(x, y, a, r) && k == 4 * x * y && r * r / (2 * x) >= 0 && p == r * r / (2 * x) * r / (2 * y)
    requires loss == r * r * r - k * p && 0 <= loss <= 2 * x * r + k - r - 2 * x
    ensures CloseBelow(r, loss, a, k)
  {
    hide Cubic, CloseBelow;
    if x > y {
      CloseWhenUneven(x, y, a, r, k, loss);
    } else if r >= 8 {
      CloseWhenOrdered(x, y, a, r, k, loss);
    } else {
      ProductPositive(x, y);
      AboveGeometric(r + 1, a, x + y, k);
      SmallerCoin(x, y, r, k);
      CloseWhenSmall(x, y, a, r, k, p, loss);
    }
  }

  /** Above the root a round falls, stays above the last number under the root, and nears it. */
  lemma RoundAboveRoot(x: nat, y: nat, a: int, r: nat, d: nat, p: nat)
    requires AtRoot(x, y, a, r) && r < d <= x + y && Slope(d, p, a) > 0
    requires d * d / (2 * x) >= 0 && p == d * d / (2 * x) * d / (2 * y)
    ensures var g := Top(p, a, x + y) * d / Slope(d, p, a);
      g <= d && 3 * (g - (r + 1)) <= 2 * (d - (r + 1)) + 2
  {
    var k := 4 * x * y;
    FoldError(x, y, d, d * d / (2 * x), p);
    CubicMono(r + 1, d, a, x + y, k);
    hide Cubic, Slope, Top, SmallLoss;
    LossIsSmall(x, y, a, d, p, k);
    ProductPositive(x, y);
    StepFalls(d, p, a, x + y, k);
    StepNears(d, p, r + 1, a, x + y, k);
  }

  lemma RoundAtLeastRoot(x: nat, y: nat, a: int, r: nat, d: nat, p: nat)
    requires AtRoot(x, y, a, r) && Slope(d, p, a) > 0
    requires d * d / (2 * x) >= 0 && p == d * d / (2 * x) * d / (2 * y)
    ensures r <= Top(p, a, x + y) * d / Slope(d, p, a)
  {
    var k := 4 * x * y;
    FoldError(x, y, d, d * d / (2 * x), p);
    hide Cubic;
    ProductPositive(x, y);
    StepAbove(d, p, r, a, x + y, k);
    FloorGalois(r, Top(p, a, x + y) * d, Slope(d, p, a));
  }

  /** What a round does that does not fail. */
  lemma TwoCoinRound(x: U128, y: U128, a: U128, r: nat, d: U128)
    requires x + y < TWO_128 && AtRoot(x, y, a, r) && r <= d <= x + y && StepFrom([x, y], 2, d, x + y, a).Ok?
    ensures var g := StepFrom([x, y], 2, d, x + y, a).value;
      r <= g && if d == r then g <= r + 1 else g <= d && 3 * (g - (r + 1)) <= 2 * (d - (r + 1)) + 2
  {
    hide AtRoot, StepFrom, Slope, Top;
    var p := TwoCoinStep(x, y, a, d);
    RoundAtLeastRoot(x, y, a, r, d, p);
    if d == r {
      RoundFromRoot(x, y, a, r, p);
    } else {
      RoundAboveRoot(x, y, a, r, d, p);
    }
  }

  /** Within one of the root one more round is enough. */
  lemma EndsSoon(x: U128, y: U128, a: U128, r: nat, d: U128, left: nat)
    requires x + y < TWO_128 && AtRoot(x, y, a, r) && r <= d <= r + 1 && left > 0
    ensures IterateD([x, y], 2, d, x + y, a, left) != Err(MaxIterationsReached)
  {
    AtRootBelow(x, y, a, r);
    hide AtRoot, StepFrom, IterateD;
    IterationIs([x, y], 2, d, x + y, a, left);
    StepFailsAsHost([x, y], 2, d, x + y, a);
    if StepFrom([x, y], 2, d, x + y, a).Ok? {
      TwoCoinRound(x, y, a, r, d);
    }
  }

  lemma AtRootBelow(x: nat, y: nat, a: int, r: nat)
    requires AtRoot(x, y, a, r)
    ensures r < x + y
  {
  }

  /** The distance to the root shrinks by a third with every round that does not end the iteration. */
  lemma {:induction false} Ends(x: U128, y: U128, a: U128, r: nat, d: U128, left: nat, rounds: nat)
    requires x + y < TWO_128 && AtRoot(x, y, a, r) && r <= d <= x + y
    requires Pow(2, rounds) * (d - r - 3) < Pow(3, rounds) && rounds + 2 <= left
    ensures IterateD([x, y], 2, d, x + y, a, left) != Err(MaxIterationsReached)
    decreases rounds
  {
    hide AtRoot, StepFrom, IterateD;
    if d <= r + 1 {
      EndsSoon(x, y, a, r, d, left);
    } else {
      IterationIs([x, y], 2, d, x + y, a, left);
      StepFailsAsHost([x, y], 2, d, x + y, a);
      var step := StepFrom([x, y], 2, d, x + y, a);
      if step.Ok? && !Settled(step.value, d) {
        TwoCoinRound(x, y, a, r, d);
        if rounds == 0 {
          EndsSoon(x, y, a, r, step.value, left - 1);
        } else {
          Shrinks(rounds, d - r - 3, step.value - r - 3);
          Ends(x, y, a, r, step.value, left - 1, rounds - 1);
        }
      }
    }
  }

  lemma Shrinks(rounds: nat, h: int, h': int)
    requires rounds > 0 && 3 * h' <= 2 * h && Pow(2, rounds) * h < Pow(3, rounds)
    ensures Pow(2, rounds - 1) * h' < Pow(3, rounds - 1)
  {
    var two := Pow(2, rounds - 1);
    assert two * (3 * h') == 3 * (two * h') && two * (2 * h) == Pow(2, rounds) * h;
    MulMono(3 * h', 2 * h, two);
  }

  lemma {:induction false} RootBelow(a: int, s: int, k: nat, n: nat) returns (r: nat)
    requires Cubic(0, a, s, k) <= 0 && Cubic(n, a, s, k) > 0
    ensures r < n && Cubic(r, a, s, k) <= 0 < Cubic(r + 1, a, s, k)
    decreases n
  {
    hide Cubic;
    assert n > 0;
    if Cubic(n - 1, a, s, k) <= 0 {
      r := n - 1;
    } else {
      r := RootBelow(a, s, k, n - 1);
    }
  }

  /** Balances that differ have the root of their invariant below their sum. */
  lemma RootExists(x: nat, y: nat, a: int) returns (r: nat)
    requires x > 0 && y > 0 && x != y && a >= 2 && Tame(x, y, a)
    ensures AtRoot(x, y, a, r)
  {
    var s, k := x + y, 4 * x * y;
    ProductPositive(x, y);
    SumIsAbove(x, y, a, s, k);
    ZeroIsBelow(a, s, k);
    OneIsBelow(a, s, k);
    hide Cubic, Tame;
    r := RootBelow(a, s, k, s);
  }

  lemma SumIsAbove(x: nat, y: nat, a: int, s: int, k: nat)
    requires x > 0 && y > 0 && x != y && s == x + y && k == 4 * x * y
    ensures Cubic(s, a, s, k) > 0
  {
    hide Cubic;
    CubicAtSum(a, s, k);
    SquareOfSum(x, y);
    DifferenceSquare(x - y);
    MulMono(1, s * s - k, s);
  }

  lemma CubicAtSum(a: int, s: int, k: int)
    ensures Cubic(s, a, s, k) == (s * s - k) * s
  {
    assert (a - 1) * k * s == a * s * k - k * s;
    assert (s * s - k) * s == s * s * s - k * s;
  }

  lemma SquareOfSum(x: int, y: int)
    ensures (x + y) * (x + y) - 4 * x * y == (x - y) * (x - y)
  {
  }

  lemma DifferenceSquare(d: int)
    requires d != 0
    ensures d * d >= 1
  {
  }

  lemma ZeroIsBelow(a: int, s: nat, k: nat)
    requires a >= 0
    ensures Cubic(0, a, s, k) <= 0
  {
    MulMono(0, a, s);
    MulMono(0, a * s, k);
    assert (a - 1) * k * 0 == 0;
  }

  lemma OneIsBelow(a: int, s: nat, k: nat)
    requires a >= 2 && s >= 2 && k >= 4
    ensures Cubic(1, a, s, k) <= 0
  {
    MulMono(2, s, a * k);
    assert s * (a * k) == a * s * k && (a - 1) * k * 1 == a * k - k;
    MulMono(2, a, k);
  }

  /** 222 rounds take away a third of 2^128 until nothing is left. */
  lemma RoundsSuffice(h: int)
    requires h < TWO_128
    ensures Pow(2, 222) * h < Pow(3, 222)
  {
    TickMath.PowWords();
    PowAdd(2, 222, 128);
    TwelveThrees(18);
    SixThrees();
    hide Pow;
    assert Pow(3, 216) >= Pow(2, 342) && Pow(3, 6) == 729 && Pow(2, 8) == 256;
    PowAdd(3, 216, 6);
    PowAdd(2, 342, 8);
    MulMono(h, TWO_128, Pow(2, 222));
    MulMono(Pow(2, 342), Pow(3, 216), 729);
  }

  lemma SixThrees()
    ensures Pow(3, 6) == 729 && Pow(2, 8) == 256 && Pow(3, 12) == 531441 && Pow(2, 19) == 524288 && Pow(2, 342) > 0
  {
    assert Pow(3, 3) == 27 && Pow(3, 6) == 729 && Pow(3, 9) == 19683;
    assert Pow(2, 4) == 16 && Pow(2, 8) == 256 && Pow(2, 12) == 4096 && Pow(2, 16) == 65536;
    hide Pow;
    PowAdd(3, 6, 6);
    PowAdd(2, 16, 3);
    PowSmall();
  }

  lemma PowSmall()
    ensures Pow(2, 3) == 8 && Pow(2, 342) > 0
  {
  }

  lemma {:induction false} TwelveThrees(n: nat)
    ensures Pow(3, 12 * n) >= Pow(2, 19 * n)
  {
    if n > 0 {
      TwelveThrees(n - 1);
      SixThrees();
      PowAdd(3, 12 * (n - 1), 12);
      PowAdd(2, 19 * (n - 1), 19);
      hide Pow;
      MulMono(Pow(2, 19 * (n - 1)), Pow(3, 12 * (n - 1)), 524288);
      MulMono(524288, 531441, Pow(3, 12 * (n - 1)));
    }
  }

  /** In a pool of two equal balances the first round ends the iteration. */
  lemma EqualBalances(x: U128, a: U128)
    requires x > 0 && x + x < TWO_128
    ensures IterateD([x, x], 2, x + x, x + x, a, MAX_ITERATIONS) != Err(MaxIterationsReached)
  {
    var s := x + x;
    hide IterateD, StepFrom;
    IterationIs([x, x], 2, s, s, a, MAX_ITERATIONS);
    StepFailsAsHost([x, x], 2, s, s, a);
    if StepFrom([x, x], 2, s, s, a).Ok? {
      var p := TwoCoinStep(x, x, a, s);
      DivModUnique(s * s, s, s, 0);
      EqualStep(a, s);
    }
  }

  lemma EqualStep(a: int, s: nat)
    requires Slope(s, s, a) > 0
    ensures Top(s, a, s) * s / Slope(s, s, a) == s
  {
    assert Slope(s, s, a) == Top(s, a, s);
    DivModUnique(Top(s, a, s) * s, Slope(s, s, a), s, 0);
  }

  /** With two coins `get_d` never runs out of its rounds when the first balance is not the larger one,
      or is larger by a factor of at most four times the amplification less five. In the second
      case the smaller balance is taken to be at least 5. */
  lemma TwoCoinsConverge(x: U128, y: U128, amp: U128)
    requires x <= y || (y >= 5 && x <= (4 * amp - 5) * y)
    ensures SolveD([x, y], 2, amp) != Err(MaxIterationsReached)
  {
    SumOfTwo(x, y);
    if 0 < x + y < TWO_128 && amp * 2 < TWO_128 {
      var s, a := x + y, amp * 2;
      hide IterateD, StepFrom, SumFrom;
      if x == 0 || y == 0 || amp == 0 {
        FailsAtOnce(x, y, a);
      } else if x == y {
        EqualBalances(x, a);
      } else {
        IsTame(x, y, amp);
        DifferentBalances(x, y, a);
      }
    }
  }

  lemma DifferentBalances(x: U128, y: U128, a: U128)
    requires x > 0 && y > 0 && x != y && a >= 2 && Tame(x, y, a) && x + y < TWO_128
    ensures IterateD([x, y], 2, x + y, x + y, a, MAX_ITERATIONS) != Err(MaxIterationsReached)
  {
    hide IterateD, AtRoot, Pow, Tame;
    var r := RootExists(x, y, a);
    AtRootBelow(x, y, a, r);
    RoundsSuffice(x + y - r - 3);
    Ends(x, y, a, r, x + y, MAX_ITERATIONS, 222);
  }

  lemma IsTame(x: nat, y: nat, amp: nat)
    requires amp > 0 && (x <= y || (y >= 5 && x <= (4 * amp - 5) * y))
    ensures Tame(x, y, amp * 2)
  {
    if x > y {
      assert (4 * amp - 5) * y + y == (4 * amp - 4) * y;
      MulMono(x + y, (4 * amp - 4) * y, 2 * x);
      assert (4 * amp - 4) * y * (2 * x) == (2 * amp - 2) * (4 * x * y);
    }
  }

  lemma FailsAtOnce(x: U128, y: U128, a: U128)
    requires x + y < TWO_128 && (x == 0 || y == 0 || a == 0)
    ensures IterateD([x, y], 2, x + y, x + y, a, MAX_ITERATIONS) != Err(MaxIterationsReached)
  {
    hide IterateD, StepFrom;
    IterationIs([x, y], 2, x + y, x + y, a, MAX_ITERATIONS);
    StepFailsAsHost([x, y], 2, x + y, x + y, a);
    if StepFrom([x, y], 2, x + y, x + y, a).Ok? {
      var p := TwoCoinStep(x, y, a, x + y);
    }
  }
}
