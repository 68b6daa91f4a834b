/** 512-bit multiply-divide: the schoolbook product and its two long-division loops
    (liquidity_pool_concentrated/src/u512.rs). Every assignment to a `U256` is a
    proof that the host's checked operation does not panic there. */
module U512 {
  import opened Words

  type DoubleWord = x: int | 0 <= x < 0x1_00000000_00000000_00000000_00000000_00000000_00000000_00000000_00000000_00000000_00000000_00000000_00000000_00000000_00000000_00000000_00000000

  // ---------------------------------------------------------------- products

  function Lo128(a: U256): (r: U256)
    ensures r == a % TWO_128
  {
    a - (a / TWO_128) * TWO_128
  }

  /** Left shift by the number of bits of the power of two `m`: bits above the word are lost. */
  function Shl(x: U256, m: nat): U256
  {
    (x * m) % TWO_256
  }

  lemma ShlExact(x: U256, m: nat)
    requires x * m < TWO_256
    ensures Shl(x, m) == x * m
  {
  }

  /** Addition modulo 2^256 together with the carry. */
  function WrappingAdd(a: U256, b: U256): (r: (U256, bool))
    ensures r.0 + (if r.1 then TWO_256 else 0) == a + b
  {
    var remaining: U256 := TWO_256 - 1 - a;
    if remaining >= b then (a + b, false) else (b - remaining - 1, true)
  }

  /** Product of two halves: it fits one word. */
  lemma HalfProduct(x: int, y: int)
    requires 0 <= x < TWO_128 && 0 <= y < TWO_128
    ensures 0 <= x * y <= (TWO_128 - 1) * (TWO_128 - 1)
  {
    MulMono(x, TWO_128 - 1, y);
    MulMono(y, TWO_128 - 1, TWO_128 - 1);
  }

  lemma SplitProduct(ah: int, al: int, bh: int, bl: int)
    ensures (ah * TWO_128 + al) * (bh * TWO_128 + bl)
         == ah * bh * TWO_256 + (ah * bl + al * bh) * TWO_128 + al * bl
  {
    assert (ah * TWO_128 + al) * (bh * TWO_128 + bl)
        == ah * TWO_128 * (bh * TWO_128) + ah * TWO_128 * bl + al * (bh * TWO_128) + al * bl;
  }

  /** The true product in two words; no partial sum overflows. */
  method U256FullMul(a: U256, b: U256) returns (hi: U256, lo: U256)
    ensures hi * TWO_256 + lo == a * b
  {
    var aLo, aHi := Lo128(a), a / TWO_128;
    var bLo, bHi := Lo128(b), b / TWO_128;
    HalfProduct(aLo, bLo);
    HalfProduct(aHi, bLo);
    HalfProduct(aLo, bHi);
    HalfProduct(aHi, bHi);
    var loLo: U256 := aLo * bLo;
    var hiLo: U256 := aHi * bLo;
    var loHi: U256 := aLo * bHi;
    var hiHi: U256 := aHi * bHi;

    var (cross, crossCarried) := WrappingAdd(hiLo, loHi);
    var crossCarry: U256 := if crossCarried then 1 else 0;
    var crossLoShifted: U256 := Lo128(cross) * TWO_128;
    var (low, loCarried) := WrappingAdd(loLo, crossLoShifted);
    var loCarry: U256 := if loCarried then 1 else 0;

    SplitProduct(aHi, aLo, bHi, bLo);
    var sum := hiHi + cross / TWO_128 + crossCarry * TWO_128 + loCarry;
    assert sum * TWO_256 + low == a * b;
    ProductBound(a, b, sum, low);
    hi, lo := hiHi + cross / TWO_128 + crossCarry * TWO_128 + loCarry, low;
  }

  lemma ProductBound(a: U256, b: U256, hi: int, lo: U256)
    requires hi * TWO_256 + lo == a * b
    ensures hi < TWO_256
  {
    MulMono(a, TWO_256 - 1, b);
    MulMono(b, TWO_256 - 1, TWO_256 - 1);
  }

  // ------------------------------------------------------- big-endian digits

  /** Value of big-endian base-256 digits. */
  function BeValue(s: seq<nat>): nat
  {
    if s == [] then 0 else BeValue(s[..|s| - 1]) * 256 + s[|s| - 1]
  }

  function Pow(base: nat, n: nat): (r: nat)
    ensures base > 0 ==> r > 0
  {
    if n == 0 then 1 else base * Pow(base, n - 1)
  }

  /** `to_be_bytes` of a value below `256^n`. */
  function ToBeBytes(x: nat, n: nat): (s: seq<nat>)
    ensures |s| == n
    ensures forall i :: 0 <= i < n ==> s[i] < 256
  {
    if n == 0 then [] else ToBeBytes(x / 256, n - 1) + [x % 256]
  }

  lemma {:induction false} BytesRoundTrip(x: nat, n: nat)
    requires x < Pow(256, n)
    ensures BeValue(ToBeBytes(x, n)) == x
  {
    if n > 0 {
      BytesRoundTrip(x / 256, n - 1);
      assert ToBeBytes(x, n)[..n - 1] == ToBeBytes(x / 256, n - 1);
    }
  }

  lemma {:induction false} BeValueConcat(s: seq<nat>, t: seq<nat>)
    ensures BeValue(s + t) == BeValue(s) * Pow(256, |t|) + BeValue(t)
  {
    if t == [] {
      assert s + t == s;
    } else {
      var t' := t[..|t| - 1];
      assert (s + t)[..|s + t| - 1] == s + t';
      BeValueConcat(s, t');
      assert BeValue(s) * Pow(256, |t'|) * 256 == BeValue(s) * Pow(256, |t|);
    }
  }

  lemma Pow256Is32Bytes()
    ensures Pow(256, 32) == TWO_256
  {
    assert Pow(256, 8) == 0x1_00000000_00000000;
    assert Pow(256, 16) == 0x1_00000000_00000000 * Pow(256, 8);
    assert Pow(256, 24) == 0x1_00000000_00000000 * Pow(256, 16);
    assert Pow(256, 32) == 0x1_00000000_00000000 * Pow(256, 24);
  }

  /** The 64 big-endian bytes of the double word denote `hi * 2^256 + lo`. */
  lemma DoubleWordBytes(hi: U256, lo: U256)
    ensures BeValue(ToBeBytes(hi, 32) + ToBeBytes(lo, 32)) == hi * TWO_256 + lo
    ensures BeValue(ToBeBytes(lo, 32)) == lo
  {
    Pow256Is32Bytes();
    BytesRoundTrip(hi, 32);
    BytesRoundTrip(lo, 32);
    BeValueConcat(ToBeBytes(hi, 32), ToBeBytes(lo, 32));
  }

  // ------------------------------------------------------ byte-wise division

  /** One byte of long division. */
  lemma ByteStep(p: nat, d: nat, byte: nat)
    requires d > 0 && byte < 256
    ensures var v := (p % d) * 256 + byte;
      && v < d * 256
      && v / d < 256
      && (p * 256 + byte) / d == (p / d) * 256 + v / d
      && (p * 256 + byte) % d == v % d
      && ((p * 256 + byte) / d) % TWO_256 == Shl((p / d) % TWO_256, 256) + v / d
  {
    var q, v := p / d, (p % d) * 256 + byte;
    FloorGalois(256, v, d);
    FloorBounds(v, d);
    assert v == (v / d) * d + v % d;
    DistributeShift(q, v / d, d);
    DivModUnique(p * 256 + byte, d, q * 256 + v / d, v % d);
    ShiftedQuotient(q, v / d);
  }

  lemma DistributeShift(q: nat, c: nat, d: nat)
    ensures (q * 256 + c) * d == q * d * 256 + c * d
  {
  }

  lemma ShiftedQuotient(q: nat, c: nat)
    requires c < 256
    ensures (q * 256 + c) % TWO_256 == Shl(q % TWO_256, 256) + c
  {
    var w := q % TWO_256;
    var top := TWO_256 / 256;
    assert w * 256 == (w / top) * TWO_256 + (w % top) * 256;
    DivModUnique(w * 256, TWO_256, w / top, (w % top) * 256);
    assert q * 256 + c == ((q / TWO_256) * 256 + w / top) * TWO_256 + ((w % top) * 256 + c);
    DivModUnique(q * 256 + c, TWO_256, (q / TWO_256) * 256 + w / top, (w % top) * 256 + c);
  }

  /** The remainder is exact; the quotient is exact modulo 2^256, because `shl`
      drops the bits a quotient above one word would need. */
  method U512DivBytes(hi: U256, lo: U256, d: U256) returns (quotient: U256, remainder: U256)
    requires 0 < d < TWO_256 / 256
    ensures remainder == (hi * TWO_256 + lo) % d
    ensures quotient == ((hi * TWO_256 + lo) / d) % TWO_256
  {
    var hiBytes, loBytes := ToBeBytes(hi, 32), ToBeBytes(lo, 32);
    ghost var all := hiBytes + loBytes;
    quotient, remainder := 0, 0;
    for i := 0 to 64
      invariant remainder == BeValue(all[..i]) % d
      invariant quotient == (BeValue(all[..i]) / d) % TWO_256
    {
      var byteVal := if i < 32 then hiBytes[i] else loBytes[i - 32];
      ghost var p := BeValue(all[..i]);
      assert byteVal == all[i];
      assert all[..i + 1][..i] == all[..i];
      ByteStep(p, d, byteVal);
      remainder := remainder * 256 + byteVal;
      var qChunk := remainder / d;
      remainder := remainder % d;
      quotient := Shl(quotient, 256) + qChunk;
    }
    assert all[..64] == all;
    DoubleWordBytes(hi, lo);
  }

  // ------------------------------------------------------- bit-wise division

  type Bit = b: int | 0 <= b < 2

  function BitsValue(bits: seq<Bit>): nat
  {
    if bits == [] then 0 else BitsValue(bits[..|bits| - 1]) * 2 + bits[|bits| - 1]
  }

  /** The bits of one byte, most significant first. */
  function ByteBits(b: nat): (bits: seq<Bit>)
    ensures |bits| == 8
  {
    [(b / 128) % 2, (b / 64) % 2, (b / 32) % 2, (b / 16) % 2, (b / 8) % 2, (b / 4) % 2, (b / 2) % 2, b % 2]
  }

  /** The bits of big-endian bytes, most significant first. */
  function BitsOf(bytes: seq<nat>): (bits: seq<Bit>)
    ensures |bits| == |bytes| * 8
    ensures forall i :: 0 <= i < |bits| ==> bits[i] == ByteBits(bytes[i / 8])[i % 8]
  {
    if bytes == [] then []
    else BitsOf(bytes[..|bytes| - 1]) + ByteBits(bytes[|bytes| - 1])
  }

  lemma {:induction false} BitsOfBytes(bytes: seq<nat>)
    requires forall i :: 0 <= i < |bytes| ==> bytes[i] < 256
    ensures BitsValue(BitsOf(bytes)) == BeValue(bytes)
  {
    if bytes != [] {
      var n := |bytes| - 1;
      BitsOfBytes(bytes[..n]);
      AppendByteBits(BitsOf(bytes[..n]), bytes[n]);
    }
  }

  lemma AppendByteBits(bits: seq<Bit>, b: nat)
    requires b < 256
    ensures BitsValue(bits + ByteBits(b)) == BitsValue(bits) * 256 + b
  {
    var c := ByteBits(b);
    assert c[..8] == c;
    assert bits + c[..0] == bits;
    AppendBit(bits, c, 0);
    AppendBit(bits, c, 1);
    AppendBit(bits, c, 2);
    AppendBit(bits, c, 3);
    AppendBit(bits, c, 4);
    AppendBit(bits, c, 5);
    AppendBit(bits, c, 6);
    AppendBit(bits, c, 7);
    ByteFromBits(b);
  }

  lemma ByteFromBits(b: nat)
    requires b < 256
    ensures b == 128 * ((b / 128) % 2) + 64 * ((b / 64) % 2) + 32 * ((b / 32) % 2) + 16 * ((b / 16) % 2)
               + 8 * ((b / 8) % 2) + 4 * ((b / 4) % 2) + 2 * ((b / 2) % 2) + b % 2
  {
    Halves(b);
    HalfStep(b);
    HalfStep(b / 2);
    HalfStep(b / 4);
    HalfStep(b / 8);
    HalfStep(b / 16);
    HalfStep(b / 32);
    HalfStep(b / 64);
    HalfStep(b / 128);
  }

  lemma HalfStep(n: nat)
    ensures n == 2 * (n / 2) + n % 2
  {
  }

  lemma Halves(b: nat)
    requires b < 256
    ensures b / 2 / 2 == b / 4 && b / 4 / 2 == b / 8 && b / 8 / 2 == b / 16
    ensures b / 16 / 2 == b / 32 && b / 32 / 2 == b / 64 && b / 64 / 2 == b / 128 && b / 128 / 2 == 0
  {
    FloorFloor(b, 2, 2);
    FloorFloor(b, 4, 2);
    FloorFloor(b, 8, 2);
    FloorFloor(b, 16, 2);
    FloorFloor(b, 32, 2);
    FloorFloor(b, 64, 2);
  }

  lemma AppendBit(bits: seq<Bit>, c: seq<Bit>, k: nat)
    requires k < |c|
    ensures BitsValue(bits + c[..k + 1]) == BitsValue(bits + c[..k]) * 2 + c[k]
  {
    var s := bits + c[..k + 1];
    assert s[..|s| - 1] == bits + c[..k];
  }

  /** Long division over a bit string, starting from a given remainder: the quotient
      bits and the last remainder, or None when a remainder no longer fits a word. */
  function BitsDivide(rem0: U256, bits: seq<Bit>, d: U256): Option<(nat, U256)>
  {
    if bits == [] then Some((0, rem0))
    else BitStep(BitsDivide(rem0, bits[..|bits| - 1], d), bits[|bits| - 1], d)
  }

  function BitStep(prev: Option<(nat, U256)>, bit: Bit, d: U256): Option<(nat, U256)>
  {
    match prev
    case None => None
    case Some((q, r)) =>
      var v := 2 * r + bit;
      if v < d then Some((2 * q, v))
      else if v - d < TWO_256 then Some((2 * q + 1, v - d))
      else None
  }

  /** Whatever comes out of `BitsDivide` is a decomposition of the dividend; when the
      starting remainder is below the divisor it is the quotient and the remainder. */
  lemma {:induction false} BitsDivideSound(rem0: U256, bits: seq<Bit>, d: U256)
    requires d > 0
    ensures match BitsDivide(rem0, bits, d)
            case None => rem0 >= d
            case Some((q, r)) =>
              && rem0 * Pow(2, |bits|) + BitsValue(bits) == q * d + r
              && q < Pow(2, |bits|)
              && (rem0 < d ==> r < d)
  {
    if bits != [] {
      var k := |bits| - 1;
      BitsDivideSound(rem0, bits[..k], d);
      if BitsDivide(rem0, bits[..k], d).Some? {
        var (q, r) := BitsDivide(rem0, bits[..k], d).value;
        DoubleDecomposition(rem0, Pow(2, k), BitsValue(bits[..k]), q, d, r);
        assert Pow(2, k + 1) == 2 * Pow(2, k);
      }
    }
  }

  lemma DoubleDecomposition(rem0: int, p: int, v: int, q: int, d: int, r: int)
    requires rem0 * p + v == q * d + r
    ensures rem0 * (2 * p) + 2 * v == (2 * q) * d + 2 * r
    ensures (2 * q + 1) * d == (2 * q) * d + d
  {
  }

  /** One round of the loop: the doubling is carried out modulo 2^256 and the carry
      stands for the lost 2^256. */
  method DivBitsRound(quotient: U256, remainder: U256, bit: Bit, d: U256) returns (r: Option<(U256, U256)>)
    requires d > 0 && 2 * quotient < TWO_256
    ensures r == BitStep(Some((quotient, remainder)), bit, d)
  {
    ShlExact(quotient, 2);
    var (doubled, carry) := WrappingAdd(remainder, remainder);
    var remWithBit: U256 := if bit != 0 then doubled + 1 else doubled;
    if carry || remWithBit >= d {
      if carry {
        var complement: U256 := TWO_256 - 1 - d + 1;
        if remWithBit + complement >= TWO_256 {
          return None;
        }
        return Some((Shl(quotient, 2) + 1, remWithBit + complement));
      }
      return Some((Shl(quotient, 2) + 1, remWithBit - d));
    }
    return Some((Shl(quotient, 2), remWithBit));
  }

  /** The loop over the 256 bits of `lo`. */
  method U512DivBits(hi: U256, lo: U256, d: U256) returns (r: Option<(U256, U256)>)
    requires d > 0
    ensures r == BitsDivide(hi, BitsOf(ToBeBytes(lo, 32)), d)
  {
    var remainder: U256, quotient: U256 := hi, 0;
    var loBytes := ToBeBytes(lo, 32);
    ghost var bits := BitsOf(loBytes);
    for i := 0 to 256
      invariant BitsDivide(hi, bits[..i], d) == Some((quotient, remainder))
    {
      BitsDivideSnoc(hi, bits, i, d);
      BitsDivideSound(hi, bits[..i], d);
      PowBelowWord(i);
      var round := DivBitsRound(quotient, remainder, ByteBits(loBytes[i / 8])[i % 8], d);
      match round {
        case None =>
          BitsDivideNone(hi, bits, i + 1, d);
          return None;
        case Some(qr) =>
          quotient, remainder := qr.0, qr.1;
      }
    }
    assert bits[..256] == bits;
    return Some((quotient, remainder));
  }

  lemma BitsDivideSnoc(rem0: U256, bits: seq<Bit>, i: nat, d: U256)
    requires i < |bits|
    ensures BitsDivide(rem0, bits[..i + 1], d) == BitStep(BitsDivide(rem0, bits[..i], d), bits[i], d)
  {
    assert bits[..i + 1][..i] == bits[..i];
  }

  /** A quotient of `i < 256` bits can be doubled without losing a bit. */
  lemma {:induction false} PowBelowWord(i: nat)
    requires i < 256
    ensures 2 * Pow(2, i) <= TWO_256
  {
    PowMono(i + 1, 256);
    PowIsBytes(32);
    Pow256Is32Bytes();
  }

  lemma {:induction false} PowIsBytes(k: nat)
    ensures Pow(2, 8 * k) == Pow(256, k)
  {
    if k > 0 {
      PowIsBytes(k - 1);
      PowAdd(2, 8, 8 * (k - 1));
    }
  }

  lemma {:induction false} PowAdd(b: nat, m: nat, n: nat)
    ensures Pow(b, m + n) == Pow(b, m) * Pow(b, n)
  {
    if m > 0 {
      PowAdd(b, m - 1, n);
      MulAssoc(b, Pow(b, m - 1), Pow(b, n));
    }
  }

  lemma {:induction false} PowMono(m: nat, n: nat)
    requires m <= n
    ensures Pow(2, m) <= Pow(2, n)
    decreases n - m
  {
    if m < n {
      PowMono(m + 1, n);
    }
  }

  /** A panic part-way is a panic of the whole. */
  lemma {:induction false} BitsDivideNone(rem0: U256, bits: seq<Bit>, k: nat, d: U256)
    requires k <= |bits| && BitsDivide(rem0, bits[..k], d) == None
    ensures BitsDivide(rem0, bits, d) == None
    decreases |bits| - k
  {
    if k < |bits| {
      BitsDivideSnoc(rem0, bits, k, d);
      BitsDivideNone(rem0, bits, k + 1, d);
    } else {
      assert bits[..k] == bits;
    }
  }

  // ---------------------------------------------------------- multiply-divide

  function CheckedInc(q: U256, inc: bool): Option<U256>
  {
    if !inc then Some(q) else if q + 1 < TWO_256 then Some(q + 1) else None
  }

  /** What a multiply-divide returns, for every input: zero operands come back before
      the divisor is looked at, a zero divisor panics, and a quotient above one word is
      cut to its low 256 bits (small divisors) or taken from the overrun bit loop. */
  function MulDiv(a: U256, b: U256, d: U256, roundUp: bool): Option<U256>
  {
    if a == 0 || b == 0 then Some(0)
    else if d == 0 then None
    else
      ProductRange(a, b);
      match Divide(a * b, d)
      case None => None
      case Some((q, r)) => CheckedInc(q, roundUp && r != 0)
  }

  /** The bit loop run on a dividend whose quotient needs more than 256 bits. */
  function Overrun(n: DoubleWord, d: U256): Option<(U256, nat)>
    requires 0 < d
  {
    BitsDivideExact(n / TWO_256, n % TWO_256, d);
    BitsDivide(n / TWO_256, BitsOf(ToBeBytes(n % TWO_256, 32)), d)
  }

  method MulDivInternal(a: U256, b: U256, d: U256, roundUp: bool) returns (r: Option<U256>)
    ensures r == MulDiv(a, b, d, roundUp)
  {
    if a == 0 || b == 0 {
      return Some(0);
    }
    if a / TWO_128 == 0 && b / TWO_128 == 0 {
      HalfProduct(a, b);
      var product: U256 := a * b;
      if d == 0 {
        return None;
      }
      FloorBelow(product, d);
      var quotient: U256 := product / d;
      var remainder := product % d;
      return CheckedInc(quotient, roundUp && remainder != 0);
    }
    var hi, lo := U256FullMul(a, b);
    if d == 0 {
      return None;
    }
    var qr := U512Divide(hi, lo, d);
    match qr {
      case None => return None;
      case Some((quotient, remainder)) => return CheckedInc(quotient, roundUp && remainder != 0);
    }
  }

  /** Quotient and remainder of a double word as the code computes them. */
  function Divide(n: DoubleWord, d: U256): Option<(U256, nat)>
    requires 0 < d
  {
    if n / d < TWO_256 then Some((n / d, n % d))
    else if d < TWO_256 / 256 then Some(((n / d) % TWO_256, n % d))
    else Overrun(n, d)
  }

  /** The choice between the two loops. */
  method U512Divide(hi: U256, lo: U256, d: U256) returns (r: Option<(U256, U256)>)
    requires d > 0
    ensures r == Divide(hi * TWO_256 + lo, d)
  {
    DoubleWordSplit(hi, lo);
    BitsDivideExact(hi, lo, d);
    ghost var n: DoubleWord := hi * TWO_256 + lo;
    if d < TWO_256 / 256 {
      var quotient, remainder := U512DivBytes(hi, lo, d);
      SmallQuotient(n / d);
      return Some((quotient, remainder));
    }
    r := U512DivBits(hi, lo, d);
  }

  lemma ProductRange(a: U256, b: U256)
    ensures 0 <= a * b <= (TWO_256 - 1) * (TWO_256 - 1)
  {
    var m := TWO_256 - 1;
    assert 0 <= a * b;
    MulMono(a, m, b);
    assert m * b == b * m;
    MulMono(b, m, m);
  }

  lemma FloorBelow(n: U256, d: int)
    requires d > 0
    ensures 0 <= n / d < TWO_256
  {
    FloorGalois(TWO_256, n, d);
    MulMono(1, d, TWO_256);
  }

  lemma SmallQuotient(q: nat)
    ensures q < TWO_256 ==> q % TWO_256 == q
  {
  }

  lemma DoubleWordSplit(hi: U256, lo: U256)
    ensures (hi * TWO_256 + lo) / TWO_256 == hi && (hi * TWO_256 + lo) % TWO_256 == lo
  {
    DivModUnique(hi * TWO_256 + lo, TWO_256, hi, lo);
  }

  /** The bit loop is exact precisely when the quotient fits one word; otherwise its
      result is not the quotient. */
  lemma BitsDivideExact(hi: U256, lo: U256, d: U256)
    requires d > 0
    ensures hi < d <==> (hi * TWO_256 + lo) / d < TWO_256
    ensures match BitsDivide(hi, BitsOf(ToBeBytes(lo, 32)), d)
            case None => hi >= d
            case Some((q, r)) =>
              && q < TWO_256
              && (hi < d ==> q == (hi * TWO_256 + lo) / d && r == (hi * TWO_256 + lo) % d)
  {
    var bytes := ToBeBytes(lo, 32);
    DoubleWordBytes(hi, lo);
    BitsOfBytes(bytes);
    BitsDivideSound(hi, BitsOf(bytes), d);
    PowIsBytes(32);
    Pow256Is32Bytes();
    FloorGalois(TWO_256, hi * TWO_256 + lo, d);
    if hi < d {
      MulMono(hi + 1, d, TWO_256);
      match BitsDivide(hi, BitsOf(bytes), d)
      case None =>
      case Some((q, r)) => DivModUnique(hi * TWO_256 + lo, d, q, r);
    } else {
      MulMono(d, hi, TWO_256);
    }
  }

  // -------------------------------------------------------------- exactness

  /** `mul_div_floor` returns the true floor exactly when the divisor is not zero and the
      floor fits 256 bits; zero operands are answered without looking at the divisor. */
  lemma MulDivFloorExact(a: U256, b: U256, d: U256)
    ensures a > 0 && b > 0 && d > 0 ==>
      (MulDiv(a, b, d, false) == Some(a * b / d) <==> a * b / d < TWO_256)
    ensures a == 0 || b == 0 ==> MulDiv(a, b, d, false) == Some(0)
    ensures a > 0 && b > 0 && d == 0 ==> MulDiv(a, b, d, false) == None
  {
    if a > 0 && b > 0 && d > 0 {
      ProductRange(a, b);
      WordResult(MulDiv(a, b, d, false));
    }
  }

  lemma WordResult(r: Option<U256>)
    ensures r.Some? ==> r.value < TWO_256
  {
    if r.Some? {
      var v: U256 := r.value;
    }
  }

  /** `mul_div_ceil` returns the true ceiling exactly when the divisor is not zero and the
      ceiling fits 256 bits. */
  lemma MulDivCeilExact(a: U256, b: U256, d: U256)
    ensures a > 0 && b > 0 && d > 0 ==>
      (MulDiv(a, b, d, true) == Some(CeilDiv(a * b, d)) <==> CeilDiv(a * b, d) < TWO_256)
    ensures a == 0 || b == 0 ==> MulDiv(a, b, d, true) == Some(0)
    ensures a > 0 && b > 0 && d == 0 ==> MulDiv(a, b, d, true) == None
  {
    if a > 0 && b > 0 && d > 0 {
      ProductRange(a, b);
      WordResult(MulDiv(a, b, d, true));
    }
  }

  /** Both directions of rounding at once, zero operands included. */
  lemma MulDivIs(a: U256, b: U256, d: U256, up: bool)
    requires d > 0 && Rounded(a * b, d, up) < TWO_256
    ensures MulDiv(a, b, d, up) == Some(Rounded(a * b, d, up))
  {
    if a == 0 || b == 0 {
      assert a * b == 0;
      DivModUnique(0, d, 0, 0);
    } else {
      MulDivFloorExact(a, b, d);
      MulDivCeilExact(a, b, d);
    }
  }

  /** A quotient above one word is cut without a panic when the divisor is below 2^248:
      2^200 * 2^200 / 1 comes back as 0. */
  lemma MulDivCutsSilently()
    ensures var x := 0x1_00000000_00000000_00000000_00000000_00000000_00000000_00;
      x * x / 1 > 0 && MulDiv(x, x, 1, false) == Some(0)
  {
    var x := 0x1_00000000_00000000_00000000_00000000_00000000_00000000_00;
    var k := 0x1_00000000_00000000_00000000_00000000_0000;
    assert x * x == k * TWO_256;
    DivModUnique(x * x, TWO_256, k, 0);
  }

  /** Even a cut or overrun floor never exceeds the true quotient. */
  lemma MulDivNeverAbove(a: U256, b: U256, d: U256)
    requires MulDiv(a, b, d, false).Some? && d > 0
    ensures MulDiv(a, b, d, false).value * d <= a * b
  {
    if a > 0 && b > 0 {
      ProductRange(a, b);
      FloorBounds(a * b, d);
      DivideBelow(a * b, d);
    }
  }

  lemma DivideBelow(n: DoubleWord, d: U256)
    requires d > 0 && Divide(n, d).Some?
    ensures Divide(n, d).value.0 * d <= n
  {
    var q := n / d;
    FloorBounds(n, d);
    if q < TWO_256 {
    } else if d < TWO_256 / 256 {
      assert q % TWO_256 <= q;
      MulMono(q % TWO_256, q, d);
    } else {
      var hi, lo := n / TWO_256, n % TWO_256;
      BitsDivideExact(hi, lo, d);
      BitsDivideSound(hi, BitsOf(ToBeBytes(lo, 32)), d);
      DoubleWordBytes(hi, lo);
      BitsOfBytes(ToBeBytes(lo, 32));
      PowIsBytes(32);
      Pow256Is32Bytes();
    }
  }
}
