/** Newton iterations of the stableswap depth estimator
    (liquidity_pool_liquidity_calculator/src/stableswap_pool.rs). */
module StableNewton {
  import opened Words
  import opened PoolQuotes
  import opened U512
  import TickMath

  const MAX_ITERATIONS: nat := 255

  /** Two results within one of each other end an iteration. */
  predicate Settled(a: int, b: int)
  {
    -1 <= a - b <= 1
  }

  /** The comparison as the code makes it, on unsigned numbers. */
  method IsSettled(next: U128, prev: U128) returns (r: bool)
    ensures r == Settled(next, prev)
  {
    if next > prev {
      r := next - prev <= 1;
    } else {
      r := prev - next <= 1;
    }
  }

  // -------------------------------------------------------------------------- get_y

  /** One coin's share in `c` and in the sum `s`; the output coin has none. */
  function FoldCoin(d: U128, n: nat, inIdx: nat, outIdx: nat, x: U128, xp: seq<U128>, i: nat, c: U128, s: U128)
    : Result<(U128, U128)>
  {
    if i != inIdx && i == outIdx then Ok((c, s))
    else if i != inIdx && i >= |xp| then Err(Host)
    else
      var amount := if i == inIdx then x else xp[i];
      var s' :- Checked(s + amount);
      var divisor :- Checked(amount * n);
      var c' :- MulDiv128(c, d, divisor, false);
      Ok((c', s'))
  }

  function FoldFrom(d: U128, n: nat, inIdx: nat, outIdx: nat, x: U128, xp: seq<U128>, i: nat, c: U128, s: U128)
    : Result<(U128, U128)>
    decreases n - i
  {
    if i >= n then Ok((c, s))
    else
      var (c', s') :- FoldCoin(d, n, inIdx, outIdx, x, xp, i, c, s);
      FoldFrom(d, n, inIdx, outIdx, x, xp, i + 1, c', s')
  }

  /** Coefficients of the curve y^2 + (b - d) * y = c that the output balance lies on. */
  function Curve(d: U128, n: nat, inIdx: nat, outIdx: nat, x: U128, xp: seq<U128>, amp: U128): Result<(U128, U128)>
  {
    if inIdx == outIdx || outIdx >= n || inIdx >= n then Err(Host)
    else
      var ann :- Checked(amp * n);
      var (c, s) :- FoldFrom(d, n, inIdx, outIdx, x, xp, 0, d, 0);
      var divisor :- Checked(ann * n);
      var c' :- MulDiv128(c, d, divisor, false);
      if ann == 0 then Err(Host)
      else
        var b :- Checked(s + d / ann);
        Ok((c', b))
  }

  /** One Newton step on the curve. */
  function NextY(y: U128, c: U128, b: U128, d: U128): Result<U128>
  {
    var square :- Checked(y * y);
    var top :- Checked(square + c);
    var twice :- Checked(2 * y);
    var shifted :- Checked(twice + b);
    var bottom :- Checked(shifted as int - d as int);
    if bottom == 0 then Err(Host) else Ok(top / bottom)
  }

  function IterateY(y: U128, c: U128, b: U128, d: U128, left: nat): Result<U128>
    decreases left
  {
    if left == 0 then Err(MaxIterationsReached)
    else
      var y' :- NextY(y, c, b, d);
      if Settled(y', y) then Ok(y') else IterateY(y', c, b, d, left - 1)
  }

  function SolveY(d: U128, n: nat, inIdx: nat, outIdx: nat, x: U128, xp: seq<U128>, amp: U128): Result<U128>
  {
    var (c, b) :- Curve(d, n, inIdx, outIdx, x, xp, amp);
    IterateY(d, c, b, d, MAX_ITERATIONS)
  }

  /** `get_y`, as the loops compute it. */
  method GetY(d: U128, n: nat, inIdx: nat, outIdx: nat, x: U128, xp: seq<U128>, amp: U128) returns (r: Result<U128>)
    ensures r == SolveY(d, n, inIdx, outIdx, x, xp, amp)
  {
    hide FoldCoin, NextY;
    if inIdx == outIdx || outIdx >= n || inIdx >= n {
      return Err(Host);
    }
    var c, s: U128 := d, 0;
    var ann :- Checked(amp * n);
    for i := 0 to n
      invariant FoldFrom(d, n, inIdx, outIdx, x, xp, 0, d, 0) == FoldFrom(d, n, inIdx, outIdx, x, xp, i, c, s)
    {
      var folded :- FoldCoin(d, n, inIdx, outIdx, x, xp, i, c, s);
      c, s := folded.0, folded.1;
    }
    var divisor :- Checked(ann * n);
    c :- MulDiv128(c, d, divisor, false);
    if ann == 0 {
      return Err(Host);
    }
    var b :- Checked(s + d / ann);
    var y := d;
    for i := 0 to MAX_ITERATIONS
      invariant IterateY(d, c, b, d, MAX_ITERATIONS) == IterateY(y, c, b, d, MAX_ITERATIONS - i)
    {
      var prev := y;
      y :- NextY(prev, c, b, d);
      var settled := IsSettled(y, prev);
      if settled {
        return Ok(y);
      }
    }
    return Err(MaxIterationsReached);
  }

  /** Left of the curve's equation at `z`. */
  function CurveAt(z: int, b: int, d: int): int
  {
    z * z + (b - d) * z
  }

  /** A rounded-down Newton step never falls below an integer under the curve. */
  lemma StepStaysAbove(y: nat, c: nat, beta: int, z: nat)
    requires 2 * y + beta > 0 && z * z + beta * z <= c
    ensures z <= (y * y + c) / (2 * y + beta)
  {
    var bottom := 2 * y + beta;
    assert z * bottom == 2 * y * z + beta * z;
    assert (y - z) * (y - z) == y * y - 2 * y * z + z * z;
    assert (y - z) * (y - z) >= 0;
    FloorGalois(z, y * y + c, bottom);
  }

  /** It leaves the curve by at most the square of its own change. */
  lemma StepResidual(y: nat, c: nat, beta: int)
    requires 2 * y + beta > 0
    ensures var y' := (y * y + c) / (2 * y + beta); y' * y' + beta * y' <= c + (y' - y) * (y' - y)
  {
    var bottom := 2 * y + beta;
    var y' := (y * y + c) / bottom;
    FloorBounds(y * y + c, bottom);
    assert y' * bottom == 2 * y * y' + beta * y';
    assert (y' - y) * (y' - y) == y' * y' - 2 * y * y' + y * y;
  }

  lemma StepBrackets(y: U128, c: U128, b: U128, d: U128, z: nat)
    requires NextY(y, c, b, d).Ok?
    ensures CurveAt(z, b, d) <= c ==> z <= NextY(y, c, b, d).value
    ensures var y' := NextY(y, c, b, d).value; CurveAt(y', b, d) <= c + (y' - y) * (y' - y)
  {
    assert NextY(y, c, b, d).value == (y * y + c) / (2 * y + (b - d)) && 2 * y + (b - d) > 0;
    hide NextY;
    StepResidual(y, c, b - d);
    if CurveAt(z, b, d) <= c {
      StepStaysAbove(y, c, b - d, z);
    }
  }

  lemma SettledSquare(a: int, b: int)
    requires Settled(a, b)
    ensures (a - b) * (a - b) <= 1
  {
  }

  lemma {:induction false} IterationLands(y: U128, c: U128, b: U128, d: U128, left: nat, z: nat)
    requires IterateY(y, c, b, d, left).Ok?
    ensures var r := IterateY(y, c, b, d, left).value;
      (CurveAt(z, b, d) <= c ==> z <= r) && CurveAt(r, b, d) <= c + 1
    decreases left
  {
    hide NextY, CurveAt;
    var y' := NextY(y, c, b, d).value;
    StepBrackets(y, c, b, d, z);
    if Settled(y', y) {
      SettledSquare(y', y);
    } else {
      IterationLands(y', c, b, d, left - 1, z);
    }
  }

  /** Whenever `get_y` returns, from any D and on any exit, its result is at least every integer
      under the curve and leaves the curve by at most one. */
  lemma YIsTheIntegerRoot(d: U128, n: nat, inIdx: nat, outIdx: nat, x: U128, xp: seq<U128>, amp: U128, z: nat)
    requires SolveY(d, n, inIdx, outIdx, x, xp, amp).Ok?
    ensures Curve(d, n, inIdx, outIdx, x, xp, amp).Ok?
    ensures var (c, b) := Curve(d, n, inIdx, outIdx, x, xp, amp).value;
      var y := SolveY(d, n, inIdx, outIdx, x, xp, amp).value;
      (CurveAt(z, b, d) <= c ==> z <= y) && CurveAt(y, b, d) <= c + 1
  {
    hide Curve;
    var (c, b) := Curve(d, n, inIdx, outIdx, x, xp, amp).value;
    IterationLands(d, c, b, d, MAX_ITERATIONS, z);
  }

  // ------------------------------------------------------- which curve it is the root of

  function SumOf(xs: seq<nat>): nat
  {
    if xs == [] then 0 else xs[0] + SumOf(xs[1..])
  }

  function ProductOf(xs: seq<nat>): nat
  {
    if xs == [] then 1 else xs[0] * ProductOf(xs[1..])
  }

  /** The balances of all coins from i on but the output coin, the input coin's after the input; coins
      beyond the list have none. */
  function Others(n: nat, inIdx: nat, outIdx: nat, x: nat, xp: seq<nat>, i: nat): seq<nat>
    decreases n - i
  {
    if i >= n then []
    else if i != inIdx && i == outIdx then Others(n, inIdx, outIdx, x, xp, i + 1)
    else [if i == inIdx then x else if i < |xp| then xp[i] else 0] + Others(n, inIdx, outIdx, x, xp, i + 1)
  }

  /** What dividing by each of these numbers times n divides by. */
  function Divisor(n: nat, xs: seq<nat>): nat
  {
    Pow(n, |xs|) * ProductOf(xs)
  }

  /** How far `num` may be above `c * den` after rounding down once for each of these numbers. */
  function Slack(d: nat, n: nat, xs: seq<nat>, den: nat, slack: nat): nat
    decreases |xs|
  {
    if xs == [] then slack else Slack(d, n, xs[1..], den * (xs[0] * n), slack * d + den * (xs[0] * n))
  }

  /** `c` is `num / den` rounded down, but for that slack. */
  ghost predicate Near(c: int, num: int, den: int, slack: int)
  {
    c * den <= num <= c * den + slack
  }

  /** One multiplication by d and division by `x * n`, rounded down. */
  lemma NearStep(c: nat, d: nat, divisor: nat, num: nat, den: nat, slack: nat)
    requires divisor > 0 && Near(c, num, den, slack)
    ensures c * d / divisor >= 0 && Near(c * d / divisor, num * d, den * divisor, slack * d + den * divisor)
  {
    FloorGalois(0, c * d, divisor);
    var c': nat := c * d / divisor;
    FloorBounds(c * d, divisor);
    MulMono(c' * divisor, c * d, den);
    MulMono(c * d, c' * divisor + divisor, den);
    MulMono(c * den, num, d);
    MulMono(num, c * den + slack, d);
    assert c * d * den == c * den * d;
    assert c' * divisor * den == c' * (den * divisor);
    assert (c' * divisor + divisor) * den == c' * divisor * den + divisor * den;
    assert (c * den + slack) * d == c * den * d + slack * d;
  }

  /** What folding in the coins from i on leaves: the sum of their balances, and `c` divided by all of
      them. */
  lemma {:induction false} FoldIsNear(d: U128, n: nat, inIdx: nat, outIdx: nat, x: U128, xp: seq<U128>, i: nat, c: U128, s: U128,
                                      num: nat, den: nat, slack: nat)
    requires FoldFrom(d, n, inIdx, outIdx, x, xp, i, c, s).Ok? && Near(c, num, den, slack)
    ensures var (c', s') := FoldFrom(d, n, inIdx, outIdx, x, xp, i, c, s).value;
      var xs := Others(n, inIdx, outIdx, x, xp, i);
      && s' == s + SumOf(xs)
      && Near(c', num * Pow(d, |xs|), den * Divisor(n, xs), Slack(d, n, xs, den, slack))
    decreases n - i
  {
    hide Near, Pow, FoldCoin, Divisor, Slack;
    if i >= n {
      NearEnd(c, d, n, num, den, slack);
    } else {
      FoldCoinNear(d, n, inIdx, outIdx, x, xp, i, c, s, num, den, slack);
      var (c1, s1) := FoldCoin(d, n, inIdx, outIdx, x, xp, i, c, s).value;
      assert FoldFrom(d, n, inIdx, outIdx, x, xp, i, c, s) == FoldFrom(d, n, inIdx, outIdx, x, xp, i + 1, c1, s1);
      if i != inIdx && i == outIdx {
        FoldIsNear(d, n, inIdx, outIdx, x, xp, i + 1, c1, s1, num, den, slack);
      } else {
        var a: nat := if i == inIdx then x else xp[i];
        FoldIsNear(d, n, inIdx, outIdx, x, xp, i + 1, c1, s1, num * d, den * (a * n), slack * d + den * (a * n));
        OthersFrom(n, inIdx, outIdx, x, xp, i);
        var (c', s') := FoldFrom(d, n, inIdx, outIdx, x, xp, i + 1, c1, s1).value;
        hide *;
        NearOneMore(c', d, n, a, Others(n, inIdx, outIdx, x, xp, i + 1), num, den, slack);
      }
    }
  }

  lemma NearOneMore(c: int, d: nat, n: nat, a: nat, rest: seq<nat>, num: nat, den: nat, slack: nat)
    requires Near(c, num * d * Pow(d, |rest|), den * (a * n) * Divisor(n, rest), Slack(d, n, rest, den * (a * n), slack * d + den * (a * n)))
    ensures Near(c, num * Pow(d, |[a] + rest|), den * Divisor(n, [a] + rest), Slack(d, n, [a] + rest, den, slack))
    ensures SumOf([a] + rest) == a + SumOf(rest)
  {
    hide Near, Pow, Divisor, Slack;
    OneMore(d, n, a, rest, num, den);
    OneMoreSlack(d, n, a, rest, den, slack);
  }

  lemma OthersFrom(n: nat, inIdx: nat, outIdx: nat, x: nat, xp: seq<nat>, i: nat)
    requires i < n && (i == inIdx || (i != outIdx && i < |xp|))
    ensures Others(n, inIdx, outIdx, x, xp, i) == [if i == inIdx then x else xp[i]] + Others(n, inIdx, outIdx, x, xp, i + 1)
  {
  }

  lemma OneMoreSlack(d: nat, n: nat, a: nat, rest: seq<nat>, den: nat, slack: nat)
    ensures Slack(d, n, [a] + rest, den, slack) == Slack(d, n, rest, den * (a * n), slack * d + den * (a * n))
    ensures SumOf([a] + rest) == a + SumOf(rest)
  {
    assert ([a] + rest)[1..] == rest;
  }

  lemma NearEnd(c: nat, d: nat, n: nat, num: nat, den: nat, slack: nat)
    requires Near(c, num, den, slack)
    ensures Near(c, num * Pow(d, 0), den * Divisor(n, []), Slack(d, n, [], den, slack))
  {
  }

  lemma OneMore(d: nat, n: nat, a: nat, rest: seq<nat>, num: nat, den: nat)
    ensures num * d * Pow(d, |rest|) == num * Pow(d, |rest| + 1)
    ensures den * (a * n) * Divisor(n, rest) == den * Divisor(n, [a] + rest)
  {
    assert ([a] + rest)[1..] == rest;
    var p, q := Pow(n, |rest|), ProductOf(rest);
    assert Pow(n, |rest| + 1) == n * p && ProductOf([a] + rest) == a * q;
    hide Pow, ProductOf;
    Regrouped(den, a, n, p, q);
    assert num * d * Pow(d, |rest|) == num * (d * Pow(d, |rest|));
    assert Pow(d, |rest| + 1) == d * Pow(d, |rest|) by { PowStep(d, |rest|); }
  }

  lemma PowStep(d: nat, k: nat)
    ensures Pow(d, k + 1) == d * Pow(d, k)
  {
  }

  lemma Regrouped(den: int, a: int, n: int, p: int, q: int)
    ensures den * (a * n) * (p * q) == den * ((n * p) * (a * q))
  {
    assert (a * n) * (p * q) == (n * p) * (a * q);
  }

  lemma FoldCoinNear(d: U128, n: nat, inIdx: nat, outIdx: nat, x: U128, xp: seq<U128>, i: nat, c: U128, s: U128,
                     num: nat, den: nat, slack: nat)
    requires i < n && FoldCoin(d, n, inIdx, outIdx, x, xp, i, c, s).Ok? && Near(c, num, den, slack)
    ensures i == inIdx || i == outIdx || i < |xp|
    ensures var (c', s') := FoldCoin(d, n, inIdx, outIdx, x, xp, i, c, s).value;
      if i != inIdx && i == outIdx then c' == c && s' == s
      else
        var a: nat := if i == inIdx then x else xp[i];
        s' == s + a && Near(c', num * d, den * (a * n), slack * d + den * (a * n))
  {
    if i == inIdx || i != outIdx {
      var a: nat := if i == inIdx then x else xp[i];
      assert a * n > 0;
      NearStep(c, d, a * n, num, den, slack);
      hide Near;
    }
  }

  /** The curve's constant is D^(n+1) over n^n, the amplification times n, and the product of all
      balances but the output coin's, rounded down once a coin and once more; its shift is the sum of
      those balances and D over the amplification times n. */
  lemma CurveIs(d: U128, n: nat, inIdx: nat, outIdx: nat, x: U128, xp: seq<U128>, amp: U128)
    requires Curve(d, n, inIdx, outIdx, x, xp, amp).Ok?
    ensures var (c, b) := Curve(d, n, inIdx, outIdx, x, xp, amp).value;
      var xs, ann := Others(n, inIdx, outIdx, x, xp, 0), amp * n;
      && |xs| == n - 1 && ann > 0
      && b == SumOf(xs) + d / ann
      && Near(c, Pow(d, n + 1), Pow(n, n) * ProductOf(xs) * ann, Slack(d, n, xs + [ann], 1, 0))
  {
    hide FoldFrom, Near, Pow, Slack, ProductOf, Others, Divisor;
    var ann := amp * n;
    var (c, s) := FoldFrom(d, n, inIdx, outIdx, x, xp, 0, d, 0).value;
    assert Near(d, d, 1, 0) by { NearItself(d); }
    FoldIsNear(d, n, inIdx, outIdx, x, xp, 0, d, 0, d, 1, 0);
    var xs := Others(n, inIdx, outIdx, x, xp, 0);
    OthersCount(n, inIdx, outIdx, x, xp, 0);
    CurveEnd(d, n, ann, c, xs);
  }

  lemma NearItself(d: nat)
    ensures Near(d, d, 1, 0)
  {
  }

  /** The last of the divisions, by the amplification. */
  lemma CurveEnd(d: nat, n: nat, ann: nat, c: nat, xs: seq<nat>)
    requires |xs| == n - 1 && ann > 0
    requires Near(c, d * Pow(d, |xs|), 1 * Divisor(n, xs), Slack(d, n, xs, 1, 0))
    ensures ann * n > 0 && c * d / (ann * n) >= 0
    ensures Near(c * d / (ann * n), Pow(d, n + 1), Pow(n, n) * ProductOf(xs) * ann, Slack(d, n, xs + [ann], 1, 0))
  {
    hide Near, Pow, ProductOf, Slack;
    assert ann * n > 0;
    var den := Divisor(n, xs);
    NearStep(c, d, ann * n, d * Pow(d, |xs|), den, Slack(d, n, xs, 1, 0));
    Numerator(d, n);
    Denominator(n, ProductOf(xs), ann);
    SlackOfLast(d, n, xs, ann, 1, 0);
    assert 1 * den * (ann * n) == den * (ann * n);
  }

  lemma Numerator(d: nat, n: nat)
    requires n > 0
    ensures d * Pow(d, n - 1) * d == Pow(d, n + 1)
  {
    PowStep(d, n - 1);
    PowStep(d, n);
  }

  lemma Denominator(n: nat, product: nat, ann: nat)
    requires n > 0
    ensures Pow(n, n - 1) * product * (ann * n) == Pow(n, n) * product * ann
  {
    PowStep(n, n - 1);
    var p := Pow(n, n - 1);
    assert p * product * (ann * n) == (n * p) * product * ann;
  }

  lemma {:induction false} SlackOfLast(d: nat, n: nat, xs: seq<nat>, a: nat, den: nat, slack: nat)
    ensures Slack(d, n, xs + [a], den, slack)
         == Slack(d, n, xs, den, slack) * d + den * Divisor(n, xs) * (a * n)
    decreases |xs|
  {
    hide Pow;
    if xs == [] {
      assert ([a])[1..] == [];
      assert Pow(n, 0) == 1 by { PowZero(n); }
      assert xs + [a] == [a];
    } else {
      assert (xs + [a])[1..] == xs[1..] + [a];
      SlackOfLast(d, n, xs[1..], a, den * (xs[0] * n), slack * d + den * (xs[0] * n));
      OneMore(d, n, xs[0], xs[1..], 0, den);
      assert [xs[0]] + xs[1..] == xs;
    }
  }

  lemma PowZero(n: nat)
    ensures Pow(n, 0) == 1
  {
  }

  /** Every coin but the output coin has a balance. */
  lemma {:induction false} OthersCount(n: nat, inIdx: nat, outIdx: nat, x: nat, xp: seq<nat>, i: nat)
    requires inIdx != outIdx && outIdx < n && i <= n
    ensures |Others(n, inIdx, outIdx, x, xp, i)| == n - i - if i <= outIdx then 1 else 0
    decreases n - i
  {
    if i < n {
      OthersCount(n, inIdx, outIdx, x, xp, i + 1);
    }
  }

  // ------------------------------------------------------------- get_y always ends

  /** The last number under the curve: everything above it is over the curve. */
  lemma {:induction false} LastUnder(b: U128, d: U128, c: U128, n: nat) returns (z: nat)
    requires CurveAt(n, b, d) > c
    ensures CurveAt(z, b, d) <= c < CurveAt(z + 1, b, d)
    decreases n
  {
    assert n > 0;
    if CurveAt(n - 1, b, d) <= c {
      z := n - 1;
    } else {
      z := LastUnder(b, d, c, n - 1);
    }
  }

  lemma FarOver(b: U128, d: U128, c: U128)
    ensures CurveAt(c + d + 1, b, d) > c
  {
    assert (c + d + 1) * (c + 1 + b) >= c + 1;
    assert CurveAt(c + d + 1, b, d) == (c + d + 1) * (c + 1 + b);
  }

  /** A step from at or above the last number under the curve stays there, and more than halves
      the distance to the next one. */
  lemma StepHalves(y: U128, c: U128, b: U128, d: U128, z: nat)
    requires CurveAt(z, b, d) <= c < CurveAt(z + 1, b, d) && z <= y && NextY(y, c, b, d).Ok?
    ensures var y' := NextY(y, c, b, d).value;
      z <= y' && (y' <= z + 1 || 2 * (y' - (z + 1)) < y - (z + 1))
  {
    var bottom: int := 2 * y + (b - d);
    StepBrackets(y, c, b, d, z);
    assert NextY(y, c, b, d).value == (y * y + c) / bottom && bottom > 0;
    hide NextY;
    FloorBounds(y * y + c, bottom);
    Halving(y, (y * y + c) / bottom, c, z + 1, b - d);
  }

  lemma Halving(y: nat, y': int, c: nat, t: nat, beta: int)
    requires 2 * y + beta > 0 && y' * (2 * y + beta) <= y * y + c && c < t * t + beta * t && t >= 1 && y >= t - 1
    ensures y' <= t || 2 * (y' - t) < y - t
  {
    GapIdentity(y, y', t, beta);
    if t + beta <= 0 {
      MulMono(t + beta, 0, t);
      assert false;
    }
    if y' > t {
      HalfOf(y' - t, y - t, 2 * y + beta);
    }
  }

  lemma GapIdentity(y: int, y': int, t: int, beta: int)
    ensures (y' - t) * (2 * y + beta) == y' * (2 * y + beta) - 2 * y * t - t * beta
    ensures (y - t) * (y - t) == y * y - 2 * y * t + t * t
    ensures t * t + beta * t == t * (t + beta)
  {
  }

  lemma HalfOf(g': int, g: int, bottom: int)
    requires g' > 0 && g' * bottom <= g * g - 1 && bottom > 2 * g && bottom > 0
    requires g >= -1
    ensures 2 * g' < g
  {
    if g <= 0 {
      assert g == 0 || g == -1;
      MulMono(1, g', bottom);
    } else {
      MulMono(2 * g, bottom, g');
      assert 2 * g * g' < g * g;
      if 2 * g' >= g {
        MulMono(g, 2 * g', g);
      }
    }
  }

  /** A bit of the distance is gone with each step that does not end the iteration. */
  lemma {:induction false} Lands(y: U128, c: U128, b: U128, d: U128, left: nat, z: nat, bits: nat)
    requires CurveAt(z, b, d) <= c < CurveAt(z + 1, b, d) && z <= y
    requires y - (z + 1) < Pow(2, bits) && bits < left
    ensures IterateY(y, c, b, d, left) != Err(MaxIterationsReached)
    decreases bits
  {
    var next := NextY(y, c, b, d);
    assert next.Err? ==> next.error == Host;
    if next.Ok? && !Settled(next.value, y) {
      StepHalves(y, c, b, d, z);
      hide NextY, CurveAt;
      if bits == 0 {
        assert false;
      } else {
        Lands(next.value, c, b, d, left - 1, z, bits - 1);
      }
    }
  }

  lemma {:induction false} FoldFailsAsHost(d: U128, n: nat, inIdx: nat, outIdx: nat, x: U128, xp: seq<U128>, i: nat, c: U128, s: U128)
    ensures var r := FoldFrom(d, n, inIdx, outIdx, x, xp, i, c, s); r.Err? ==> r.error == Host
    decreases n - i
  {
    if i < n {
      var folded := FoldCoin(d, n, inIdx, outIdx, x, xp, i, c, s);
      assert folded.Err? ==> folded.error == Host;
      hide FoldCoin;
      if folded.Ok? {
        FoldFailsAsHost(d, n, inIdx, outIdx, x, xp, i + 1, folded.value.0, folded.value.1);
      }
    }
  }

  /** From any state the iteration for y ends within 130 steps, so that `get_y` never runs out of
      its 255: it returns the root or fails on an overflow. */
  lemma YConverges(y: U128, c: U128, b: U128, d: U128, left: nat)
    requires left >= 130
    ensures IterateY(y, c, b, d, left) != Err(MaxIterationsReached)
  {
    FarOver(b, d, c);
    var z := LastUnder(b, d, c, c + d + 1);
    var next := NextY(y, c, b, d);
    assert next.Err? ==> next.error == Host;
    if next.Ok? {
      StepBrackets(y, c, b, d, z);
      TickMath.PowWords();
      hide NextY, CurveAt;
      Lands(next.value, c, b, d, left - 1, z, 128);
    }
  }

  lemma GetYNeverRunsOut(d: U128, n: nat, inIdx: nat, outIdx: nat, x: U128, xp: seq<U128>, amp: U128)
    ensures SolveY(d, n, inIdx, outIdx, x, xp, amp) != Err(MaxIterationsReached)
  {
    FoldFailsAsHost(d, n, inIdx, outIdx, x, xp, 0, d, 0);
    var curve := Curve(d, n, inIdx, outIdx, x, xp, amp);
    assert curve.Err? ==> curve.error == Host by { hide FoldFrom; }
    hide Curve;
    if curve.Ok? {
      YConverges(d, curve.value.0, curve.value.1, d, MAX_ITERATIONS);
    }
  }

  // ------------------------------------------------------------------------- get_dy

  /** Amount out for an amount in, after the fee on the input. */
  function Dy(d: U128, xp: seq<U128>, fee: U128, amp: U128, i: nat, j: nat, dx: U128): Result<U128>
  {
    var dxFee :- MulDiv128(dx, fee, FEE_MULTIPLIER, true);
    if i >= |xp| then Err(Host)
    else
      var sum :- Checked(xp[i] + dx);
      var x :- Checked(sum as int - dxFee as int);
      var y :- SolveY(d, |xp|, i, j, x, xp, amp);
      if y == 0 then Ok(0)
      else if j >= |xp| then Err(Host)
      else
        Checked(xp[j] as int - y as int - 1)
  }

  /** Input coin's balance after the swap, net of the fee. */
  function AfterInput(xp: seq<U128>, fee: U128, i: nat, dx: U128): int
    requires i < |xp|
  {
    xp[i] + dx - CeilDiv(dx * fee, FEE_MULTIPLIER)
  }

  /** What `get_dy` pays out leaves the output coin strictly above the curve; one unit less in
      the pool and it would be above by at most one. */
  lemma PayoutStaysAboveCurve(d: U128, xp: seq<U128>, fee: U128, amp: U128, i: nat, j: nat, dx: U128)
    requires i < |xp| && j < |xp| && Dy(d, xp, fee, amp, i, j, dx).Ok? && Dy(d, xp, fee, amp, i, j, dx).value > 0
    ensures var x := AfterInput(xp, fee, i, dx);
      && 0 <= x < TWO_128 && Curve(d, |xp|, i, j, x, xp, amp).Ok?
      && var (c, b) := Curve(d, |xp|, i, j, x, xp, amp).value;
         var left: int := xp[j] as int - Dy(d, xp, fee, amp, i, j, dx).value;
         && CurveAt(left, b, d) > c
         && CurveAt(left - 1, b, d) <= c + 1
  {
    var x := AfterInput(xp, fee, i, dx);
    DyParts(d, xp, fee, amp, i, j, dx);
    hide SolveY, Curve, Dy, CurveAt;
    var y := SolveY(d, |xp|, i, j, x, xp, amp).value;
    YIsTheIntegerRoot(d, |xp|, i, j, x, xp, amp, y + 1);
  }

  lemma DyParts(d: U128, xp: seq<U128>, fee: U128, amp: U128, i: nat, j: nat, dx: U128)
    requires i < |xp| && j < |xp| && Dy(d, xp, fee, amp, i, j, dx).Ok? && Dy(d, xp, fee, amp, i, j, dx).value > 0
    ensures var x := AfterInput(xp, fee, i, dx);
      && 0 <= x < TWO_128 && SolveY(d, |xp|, i, j, x, xp, amp).Ok?
      && Dy(d, xp, fee, amp, i, j, dx).value == xp[j] - SolveY(d, |xp|, i, j, x, xp, amp).value - 1
  {
    hide SolveY, CeilDiv;
  }

  // -------------------------------------------------------------------------- get_d

  function SumFrom(xp: seq<U128>, i: nat, s: U128): Result<U128>
    decreases |xp| - i
  {
    if i >= |xp| then Ok(s)
    else
      var s' :- Checked(s + xp[i]);
      SumFrom(xp, i + 1, s')
  }

  function ProductFrom(xp: seq<U128>, n: nat, d: U128, i: nat, p: U128): Result<U128>
    decreases |xp| - i
  {
    if i >= |xp| then Ok(p)
    else
      var divisor :- Checked(xp[i] * n);
      var p' :- MulDiv128(p, d, divisor, false);
      ProductFrom(xp, n, d, i + 1, p')
  }

  /** One Newton step for D from the folded product. */
  function NextD(d: U128, p: U128, s: U128, n: nat, ann: U128): Result<U128>
  {
    var weighted :- Checked(ann * s);
    var scaled :- Checked(p * n);
    var top :- Checked(weighted + scaled);
    var less :- Checked(ann - 1);
    var first :- Checked(less * d);
    var second :- Checked((n + 1) * p);
    var bottom :- Checked(first + second);
    MulDiv128(top, d, bottom, false)
  }

  function IterateD(xp: seq<U128>, n: nat, d: U128, s: U128, ann: U128, left: nat): Result<U128>
    decreases left
  {
    if left == 0 then Err(MaxIterationsReached)
    else
      var p :- ProductFrom(xp, n, d, 0, d);
      var d' :- NextD(d, p, s, n, ann);
      if Settled(d', d) then Ok(d') else IterateD(xp, n, d', s, ann, left - 1)
  }

  function SolveD(xp: seq<U128>, n: nat, amp: U128): Result<U128>
  {
    var s :- SumFrom(xp, 0, 0);
    if s == 0 then Ok(0)
    else
      var ann :- Checked(amp * n);
      IterateD(xp, n, s, s, ann, MAX_ITERATIONS)
  }

  /** `get_d`, as the loops compute it. */
  method GetD(xp: seq<U128>, n: nat, amp: U128) returns (r: Result<U128>)
    ensures r == SolveD(xp, n, amp)
  {
    hide NextD;
    var s: U128 := 0;
    for i := 0 to |xp|
      invariant SumFrom(xp, 0, 0) == SumFrom(xp, i, s)
    {
      s :- Checked(s + xp[i]);
    }
    if s == 0 {
      return Ok(0);
    }
    var d := s;
    var ann :- Checked(amp * n);
    for k := 0 to MAX_ITERATIONS
      invariant IterateD(xp, n, s, s, ann, MAX_ITERATIONS) == IterateD(xp, n, d, s, ann, MAX_ITERATIONS - k)
    {
      var p := d;
      for i := 0 to |xp|
        invariant ProductFrom(xp, n, d, 0, d) == ProductFrom(xp, n, d, i, p)
      {
        var divisor :- Checked(xp[i] * n);
        p :- MulDiv128(p, d, divisor, false);
      }
      var prev := d;
      d :- NextD(prev, p, s, n, ann);
      var settled := IsSettled(d, prev);
      if settled {
        return Ok(d);
      }
    }
    return Err(MaxIterationsReached);
  }

  predicate Balanced(xp: seq<U128>, v: U128)
  {
    forall i | 0 <= i < |xp| :: xp[i] == v
  }

  lemma {:induction false} BalancedSum(xp: seq<U128>, v: U128, i: nat)
    requires Balanced(xp, v) && i <= |xp| && i * v < TWO_128 && SumFrom(xp, i, i * v).Ok?
    ensures SumFrom(xp, i, i * v) == Ok(|xp| * v)
    decreases |xp| - i
  {
    if i < |xp| {
      assert (i + 1) * v == i * v + v;
      BalancedSum(xp, v, i + 1);
    }
  }

  /** In a balanced pool each coin's factor is one. */
  lemma {:induction false} BalancedProduct(xp: seq<U128>, v: U128, d: U128, i: nat)
    requires Balanced(xp, v) && v > 0 && d == |xp| * v && ProductFrom(xp, |xp|, d, i, d).Ok?
    ensures ProductFrom(xp, |xp|, d, i, d) == Ok(d)
    decreases |xp| - i
  {
    if i < |xp| {
      assert v * |xp| == d;
      DivModUnique(d * d, d, d, 0);
      assert MulDiv128(d, d, d, false) == Ok(d);
      BalancedProduct(xp, v, d, i + 1);
    }
  }

  /** Where the product equals D, so does the sum, and the step stays there. */
  lemma FixedAtSum(s: U128, n: nat, ann: U128)
    requires s > 0 && NextD(s, s, s, n, ann).Ok?
    ensures NextD(s, s, s, n, ann) == Ok(s)
  {
    var t := ann * s + s * n;
    assert (ann - 1) * s + (n + 1) * s == t;
    assert t > 0;
    DivModUnique(t * s, t, s, 0);
  }

  /** A balanced pool's D is the sum of its balances, whatever the amplification. */
  lemma BalancedPoolKeepsSum(xp: seq<U128>, v: U128, amp: U128)
    requires Balanced(xp, v) && SolveD(xp, |xp|, amp).Ok?
    ensures SolveD(xp, |xp|, amp) == Ok(|xp| * v)
  {
    BalancedSum(xp, v, 0);
    var s := |xp| * v;
    if s > 0 {
      var ann: U128 := amp * |xp|;
      BalancedProduct(xp, v, s, 0);
      FixedAtSum(s, |xp|, ann);
      hide NextD, ProductFrom, SumFrom;
      assert IterateD(xp, |xp|, s, s, ann, MAX_ITERATIONS) == Ok(s);
    }
  }

  /** How far a number is off the invariant of D, with p the folded product at it. */
  function ResidualD(d: nat, p: nat, s: nat, ann: nat): int
  {
    (ann as int - 1) * d + p - ann * s
  }

  /** What a Newton step for D divides by: d times the slope of the residual at d. */
  function SlopeD(d: nat, p: nat, n: nat, ann: nat): int
  {
    (ann as int - 1) * d + (n + 1) * p
  }

  /** A Newton step from d to r brackets d's residual between two multiples of the slope. */
  lemma StepResidualD(d: U128, p: U128, s: U128, n: nat, ann: U128)
    requires NextD(d, p, s, n, ann).Ok?
    ensures var r: int, slope := NextD(d, p, s, n, ann).value, SlopeD(d, p, n, ann);
      slope > 0 && (d - r - 1) * slope < d * ResidualD(d, p, s, ann) <= (d - r) * slope
  {
    var r: int, slope := NextD(d, p, s, n, ann).value, SlopeD(d, p, n, ann);
    var top := ann * s + p * n;
    assert slope > 0 && r == top * d / slope;
    FloorBounds(top * d, slope);
    assert top == slope - ResidualD(d, p, s, ann);
    ResidualIdentity(d, r, slope, ResidualD(d, p, s, ann));
  }

  lemma ResidualIdentity(d: int, r: int, slope: int, g: int)
    ensures (slope - g) * d == d * slope - d * g
    ensures (d - r) * slope == d * slope - r * slope
    ensures (d - r - 1) * slope == d * slope - r * slope - slope
  {
  }

  lemma {:induction false} IterationResidualD(xp: seq<U128>, n: nat, d0: U128, s: U128, ann: U128, left: nat)
    returns (d: U128, p: U128)
    requires IterateD(xp, n, d0, s, ann, left).Ok?
    ensures var r := IterateD(xp, n, d0, s, ann, left).value;
      Settled(r, d) && ProductFrom(xp, n, d, 0, d) == Ok(p) && NextD(d, p, s, n, ann) == Ok(r)
    decreases left
  {
    hide ProductFrom, NextD;
    var p0 := ProductFrom(xp, n, d0, 0, d0).value;
    var d1 := NextD(d0, p0, s, n, ann).value;
    if Settled(d1, d0) {
      d, p := d0, p0;
    } else {
      d, p := IterationResidualD(xp, n, d1, s, ann, left - 1);
    }
  }

  /** Whenever `get_d` returns a D, the number it last stepped from is within one of it and off
      the invariant by at most one slope upwards and less than two downwards: D is the root of
      the invariant, in whole units, for every pool and amplification. */
  lemma DIsNearTheRoot(xp: seq<U128>, n: nat, amp: U128, s: U128) returns (d: U128, p: U128)
    requires SolveD(xp, n, amp).Ok? && SumFrom(xp, 0, 0) == Ok(s) && s > 0
    ensures amp * n < TWO_128 && ProductFrom(xp, n, d, 0, d) == Ok(p)
    ensures var r: int, ann := SolveD(xp, n, amp).value, amp * n;
      var slope := SlopeD(d, p, n, ann);
      && slope > 0 && -1 <= r - d <= 1
      && (d - r - 1) * slope < d * ResidualD(d, p, s, ann) <= (d - r) * slope
      && -2 * slope < d * ResidualD(d, p, s, ann) <= slope
  {
    var ann: U128 := amp * n;
    d, p := IterationResidualD(xp, n, s, s, ann, MAX_ITERATIONS);
    StepResidualD(d, p, s, n, ann);
    var r: int, slope := SolveD(xp, n, amp).value, SlopeD(d, p, n, ann);
    MulMono(-2, d - r - 1, slope);
    MulMono(d - r, 1, slope);
  }
}
