/** Machine words as bounded integers, results of calls that may panic, and the
    few facts about integer division every other module leans on. */
module Words {

  const TWO_128: int := 0x1_00000000_00000000_00000000_00000000
  const TWO_256: int := 0x1_00000000_00000000_00000000_00000000_00000000_00000000_00000000_00000000

  type U128 = x: int | 0 <= x < 0x1_00000000_00000000_00000000_00000000
  type U256 = x: int | 0 <= x < 0x1_00000000_00000000_00000000_00000000_00000000_00000000_00000000_00000000

  const U128_MAX: U128 := 0xFFFFFFFF_FFFFFFFF_FFFFFFFF_FFFFFFFF

  const I128_MIN: int := -0x80000000_00000000_00000000_00000000
  const I128_MAX: int := 0x7FFFFFFF_FFFFFFFF_FFFFFFFF_FFFFFFFF

  /** Saturation at the ends of a number type. */
  function SatU128(x: int): U128
  {
    if x < 0 then 0 else if x > U128_MAX then U128_MAX else x
  }

  function SatI128(x: int): int
  {
    if x < I128_MIN then I128_MIN else if x > I128_MAX then I128_MAX else x
  }

  function SatU32(x: nat): nat
  {
    if x > 0xFFFF_FFFF then 0xFFFF_FFFF else x
  }

  /** The result of a call that may panic: a panic leaves no result. */
  datatype Option<+T> = None | Some(value: T)

  /** Quotient of `n / d` rounded up. */
  function CeilDiv(n: nat, d: nat): nat
    requires d > 0
  {
    if n % d == 0 then n / d else n / d + 1
  }

  /** A fraction rounded the way the caller asks. */
  function Rounded(n: nat, d: nat, up: bool): nat
    requires d > 0
  {
    if up then CeilDiv(n, d) else n / d
  }

  /** Rounding up and rounding down differ by at most one, and by nothing on exact fractions. */
  lemma RoundedGap(n: nat, d: nat)
    requires d > 0
    ensures Rounded(n, d, false) <= Rounded(n, d, true) <= Rounded(n, d, false) + 1
    ensures Rounded(n, d, true) == Rounded(n, d, false) <==> n % d == 0
  {
  }

  lemma RoundedAtMost(n: nat, d: nat, up: bool, m: nat)
    requires d > 0 && n <= m * d
    ensures Rounded(n, d, up) <= m
  {
    CeilGalois(m, n, d);
    RoundedGap(n, d);
  }

  /** Floor division is the largest q with `q * d <= n`. */
  lemma FloorGalois(q: int, n: int, d: int)
    requires d > 0
    ensures q <= n / d <==> q * d <= n
  {
    FloorBounds(n, d);
    if q <= n / d {
      MulMono(q, n / d, d);
    } else {
      MulMono(n / d + 1, q, d);
    }
  }

  /** Ceiling division is the smallest q with `n <= q * d`. */
  lemma CeilGalois(q: int, n: nat, d: nat)
    requires d > 0
    ensures CeilDiv(n, d) <= q <==> n <= q * d
  {
    FloorBounds(n, d);
    if CeilDiv(n, d) <= q {
      MulMono(CeilDiv(n, d), q, d);
    } else {
      MulMono(q, CeilDiv(n, d) - 1, d);
    }
    Remainder(n, d);
  }

  lemma Remainder(n: int, d: int)
    requires d > 0
    ensures n % d == 0 <==> n == (n / d) * d
    ensures (n / d + 1) * d == (n / d) * d + d
  {
    assert n == d * (n / d) + n % d;
  }

  lemma FloorBounds(n: int, d: int)
    requires d > 0
    ensures (n / d) * d <= n < (n / d) * d + d
  {
  }

  lemma CeilBounds(n: nat, d: nat)
    requires d > 0
    ensures CeilDiv(n, d) * d - d < n <= CeilDiv(n, d) * d
  {
    CeilGalois(CeilDiv(n, d), n, d);
    CeilGalois(CeilDiv(n, d) - 1, n, d);
    assert (CeilDiv(n, d) - 1) * d == CeilDiv(n, d) * d - d;
  }

  /** A quotient and a remainder below the divisor are the ones division gives. */
  lemma DivModUnique(n: int, d: int, q: int, r: int)
    requires d > 0 && 0 <= r < d && n == q * d + r
    ensures n / d == q && n % d == r
  {
    FloorGalois(q, n, d);
    FloorGalois(q + 1, n, d);
    assert (q + 1) * d == q * d + d;
  }

  lemma MulAssoc(a: int, b: int, c: int)
    ensures a * (b * c) == (a * b) * c
  {
  }

  lemma MulMono(a: int, b: int, c: int)
    requires a <= b && c >= 0
    ensures a * c <= b * c
  {
  }

  lemma MulCancel(a: int, b: int, c: int)
    requires c > 0 && a * c <= b * c
    ensures a <= b
  {
    if a > b {
      MulMono(b + 1, a, c);
    }
  }

  /** Rounding down twice is rounding down once by the product. */
  lemma FloorFloor(n: nat, d: nat, e: nat)
    requires d > 0 && e > 0
    ensures d * e > 0 && (n / d) / e == n / (d * e)
  {
    assert d * e > 0;
    var x := (n / d) / e;
    var y := n / (d * e);
    FloorWithin(n, d, e, x);
    FloorWithin(n, d, e, y);
    FloorGalois(x, n, d * e);
    FloorGalois(y, n, d * e);
  }

  lemma FloorWithin(n: nat, d: nat, e: nat, q: int)
    requires d > 0 && e > 0
    ensures q <= (n / d) / e <==> q * (d * e) <= n
  {
    FloorGalois(q, n / d, e);
    FloorGalois(q * e, n, d);
    assert q * e * d == q * (d * e);
  }

  /** Rounding up twice is rounding up once by the product. */
  lemma CeilCeil(n: nat, d: nat, e: nat)
    requires d > 0 && e > 0
    ensures d * e > 0 && CeilDiv(CeilDiv(n, d), e) == CeilDiv(n, d * e)
  {
    assert d * e > 0;
    var x := CeilDiv(CeilDiv(n, d), e);
    var y := CeilDiv(n, d * e);
    CeilWithin(n, d, e, x);
    CeilWithin(n, d, e, y);
    CeilGalois(x, n, d * e);
    CeilGalois(y, n, d * e);
  }

  lemma CeilWithin(n: nat, d: nat, e: nat, q: int)
    requires d > 0 && e > 0
    ensures CeilDiv(CeilDiv(n, d), e) <= q <==> n <= q * (d * e)
  {
    CeilGalois(q, CeilDiv(n, d), e);
    CeilGalois(q * e, n, d);
    assert q * e * d == q * (d * e);
  }
}
