/** Fixed-point numbers: b8, b16 and b32 carry 8, 16 and 32 fractional bits in 16-, 32- and 64-bit integers. The
    operations are modelled on unbounded integers with the C conversions written out: a cast wraps, a right shift
    rounds down, a division truncates toward zero. */
module FixedMath {

  const TWO_8 := 0x100
  const TWO_15 := 0x8000
  const TWO_16 := 0x1_0000
  const TWO_31 := 0x8000_0000
  const TWO_32 := 0x1_0000_0000
  const TWO_47 := 0x8000_0000_0000

  type I16 = x: int | -0x8000 <= x < 0x8000
  type I32 = x: int | -0x8000_0000 <= x < 0x8000_0000
  type I64 = x: int | -0x8000_0000_0000_0000 <= x < 0x8000_0000_0000_0000
  type U16 = x: int | 0 <= x < 0x1_0000
  type U32 = x: int | 0 <= x < 0x1_0000_0000
  type U64 = x: int | 0 <= x < 0x1_0000_0000_0000_0000

  // ---------- C conversions ----------

  /** A cast to a signed type: the representative modulo its size. */
  function ToI16(x: int): (r: I16)
    ensures -0x8000 <= x < 0x8000 <==> r == x
    ensures (r - x) % 0x1_0000 == 0
  {
    (x + 0x8000) % TWO_16 - 0x8000
  }

  function ToI32(x: int): (r: I32)
    ensures -TWO_31 <= x < TWO_31 <==> r == x
    ensures (r - x) % 0x1_0000_0000 == 0
  {
    (x + TWO_31) % TWO_32 - TWO_31
  }

  function Abs(x: int): nat {
    if x < 0 then -x else x
  }

  /** Division of C, toward zero. */
  function Quotient(a: int, b: int): (q: int)
    requires b != 0
  {
    var n := Abs(a) / Abs(b);
    if (a < 0) == (b < 0) then n else -n
  }

  // ---------- Products and quotients ----------

  lemma {:induction false} AtLeastOne(x: nat, d: nat)
    requires x >= 1
    ensures x * d >= d
  {
    if x == 1 {
    } else {
      AtLeastOne(x - 1, d);
      assert x * d == (x - 1) * d + d;
    }
  }

  lemma ProductGrows(x: nat, y: nat, d: nat)
    requires x <= y
    ensures x * d <= y * d
    ensures x < y ==> x * d + d <= y * d
  {
    assert y * d == x * d + (y - x) * d;
    if x < y {
      AtLeastOne(y - x, d);
    }
  }

  lemma AbsProduct(x: int, y: int)
    ensures Abs(x * y) == Abs(x) * Abs(y)
  {
    if x < 0 && y < 0 {
      assert x * y == (-x) * (-y);
    } else if x < 0 {
      assert x * y == -((-x) * y) && (-x) * y >= 0;
    } else if y < 0 {
      assert x * y == -(x * (-y)) && x * (-y) >= 0;
    } else {
      assert x * y >= 0;
    }
  }

  lemma DivisionIs(n: nat, d: nat, q: nat, r: nat)
    requires n == q * d + r && r < d
    ensures n / d == q
  {
    var p, t := n / d, n % d;
    assert n == p * d + t && t < d;
    if p < q {
      ProductGrows(p, q, d);
    } else if q < p {
      ProductGrows(q, p, d);
    }
  }

  lemma DivideBoth(n: nat, d: nat, k: nat)
    requires d > 0 && k > 0
    ensures d * k > 0 && n / d == (n * k) / (d * k)
  {
    var q, r := n / d, n % d;
    assert n == q * d + r;
    ProductGrows(r, d, k);
    assert n * k == (q * d + r) * k == q * (d * k) + r * k;
    DivisionIs(n * k, d * k, q, r * k);
  }

  lemma DivideSmaller(n: nat, d: nat, e: nat)
    requires 0 < d <= e
    ensures n / e <= n / d
  {
    var p, q := n / e, n / d;
    if q < p {
      assert n == p * e + n % e && n == q * d + n % d;
      ProductGrows(d, e, p);
      ProductGrows(q, p, d);
    }
  }

  /** Toward zero: the quotient times the divisor misses the dividend by less than the divisor, and does not exceed it. */
  predicate Truncated(a: int, b: int, q: int) {
    Abs(q * b) <= Abs(a) && Abs(a - q * b) < Abs(b)
  }

  lemma QuotientError(a: int, b: int)
    requires b != 0
    ensures Truncated(a, b, Quotient(a, b))
  {
    var m, d := Abs(a), Abs(b);
    var n, t := m / d, m % d;
    assert m == n * d + t && t < d;
    SignedProduct(a, b, n);
    SignedError(a, b, Quotient(a, b), n * d, t);
  }

  lemma SignedError(a: int, b: int, q: int, p: int, t: nat)
    requires p >= 0 && Abs(a) == p + t && t < Abs(b) && q * b == if a < 0 then -p else p
    ensures Truncated(a, b, q)
  {
  }

  /** No other number has this property. */
  lemma QuotientIs(a: int, b: int, q: int)
    requires b != 0
    ensures q == Quotient(a, b) <==> Truncated(a, b, q)
  {
    QuotientError(a, b);
    if Truncated(a, b, q) {
      hide Quotient;
      OneQuotient(a, b, q, Quotient(a, b));
    }
  }

  lemma OneQuotient(a: int, b: int, p: int, q: int)
    requires b != 0 && Truncated(a, b, p) && Truncated(a, b, q)
    ensures p == q
  {
    var d := Abs(b);
    AbsProduct(p - q, b);
    assert (p - q) * b == p * b - q * b;
    if p != q {
      AtLeastOne(Abs(p - q), d);
    }
  }

  /** Negating the dividend negates the quotient. */
  lemma QuotientOfNegated(a: int, b: int)
    requires b != 0
    ensures Quotient(-a, b) == -Quotient(a, b)
  {
    hide Quotient;
    var q := Quotient(a, b);
    QuotientError(a, b);
    assert (-q) * b == -(q * b);
    QuotientIs(-a, b, -q);
  }

  lemma SignedProduct(a: int, b: int, n: int)
    requires b != 0
    ensures (if (a < 0) == (b < 0) then n else -n) * b == if a < 0 then -(n * Abs(b)) else n * Abs(b)
  {
    assert (-n) * b == -(n * b) && n * (-b) == -(n * b);
  }

  // ---------- Narrowing ----------

  /** Drop eight, or sixteen, fractional bits, rounding halves up, and cast. */
  function NarrowBy8(x: int): I16 {
    ToI16((x + 0x80) / TWO_8)
  }

  function NarrowBy16(x: int): I32 {
    ToI32((x + TWO_15) / TWO_16)
  }

  function B16ToB8(b: I32): (r: I16)
    requires b + 0x80 < TWO_31  // the addition is done in 32 bits
  {
    NarrowBy8(b)
  }

  function B32ToB16(b: I64): (r: I32)
    requires b + 0x8000 < 0x8000_0000_0000_0000
  {
    NarrowBy16(b)
  }

  function B8ToB16(b: I16): (r: I32) {
    b * TWO_8
  }

  function B16ToB32(b: I32): (r: I64) {
    b * TWO_16
  }

  /** Narrowing undoes widening, on every value. */
  lemma WidenNarrow(b8: I16, b16: I32)
    ensures B16ToB8(B8ToB16(b8)) == b8
    ensures B32ToB16(B16ToB32(b16)) == b16
  {
  }

  /** Widening a narrowed number loses at most half a unit of the narrow format, exactly when it is in range. */
  lemma NarrowWiden(b16: I32, b32: I64)
    requires b16 + 0x80 < TWO_31 && b32 + 0x8000 < 0x8000_0000_0000_0000
    ensures -0x80 < B8ToB16(B16ToB8(b16)) - b16 <= 0x80 <==> -0x80_0080 <= b16 < 0x7F_FF80
    ensures -0x8000 < B16ToB32(B32ToB16(b32)) - b32 <= 0x8000 <==> -0x8000_0000_8000 <= b32 < 0x7FFF_FFFF_8000
  {
  }

  function UB16ToUB8(b: U32): (r: U16) {
    (b + 0x80) % TWO_32 / TWO_8 % TWO_16
  }

  function UB32ToUB16(b: U64): (r: U32) {
    (b + 0x8000) % 0x1_0000_0000_0000_0000 / TWO_16 % TWO_32
  }

  lemma UnsignedNarrowWiden(ub8: U16, ub16: U32, ub32: U64)
    ensures UB16ToUB8(ub8 * TWO_8) == ub8 && UB32ToUB16(ub16 * TWO_16) == ub16
    ensures -0x80 < UB16ToUB8(ub16) * TWO_8 - ub16 <= 0x80 <==> ub16 < 0xFF_FF80
    ensures -0x8000 < UB32ToUB16(ub32) * TWO_16 - ub32 <= 0x8000 <==> ub32 < 0xFFFF_FFFF_8000
  {
  }

  /** Out of range too, narrowing rounds to the nearest, halves up, up to a multiple of what the narrow type can hold. */
  lemma NarrowWraps(b16: I32, b32: I64, ub16: U32, ub32: U64)
    requires b16 + 0x80 < TWO_31 && b32 + 0x8000 < 0x8000_0000_0000_0000
    ensures (B8ToB16(B16ToB8(b16)) - b16 + 0x7F) % 0x100_0000 < 0x100
    ensures (B16ToB32(B32ToB16(b32)) - b32 + 0x7FFF) % 0x1_0000_0000_0000 < 0x1_0000
    ensures (UB16ToUB8(ub16) * TWO_8 - ub16 + 0x7F) % 0x100_0000 < 0x100
    ensures (UB32ToUB16(ub32) * TWO_16 - ub32 + 0x7FFF) % 0x1_0000_0000_0000 < 0x1_0000
  {
    NarrowWraps8(b16);
    NarrowWraps16(b32);
    UnsignedNarrowWraps8(ub16);
    UnsignedNarrowWraps16(ub32);
  }

  lemma NarrowWraps8(x: I32)
    ensures (NarrowBy8(x) * TWO_8 - x + 0x7F) % 0x100_0000 < 0x100
  {
    var n := (x + 0x80) / TWO_8;
    var k := (ToI16(n) - n) / TWO_16;
    assert ToI16(n) == n + k * TWO_16;
    assert NarrowBy8(x) * TWO_8 - x == (n * TWO_8 - x) + k * 0x100_0000;
  }

  lemma NarrowWraps16(x: int)
    ensures (NarrowBy16(x) * TWO_16 - x + 0x7FFF) % 0x1_0000_0000_0000 < 0x1_0000
  {
    var n := (x + TWO_15) / TWO_16;
    var k := (ToI32(n) - n) / TWO_32;
    assert ToI32(n) == n + k * TWO_32;
    assert NarrowBy16(x) * TWO_16 - x == (n * TWO_16 - x) + k * 0x1_0000_0000_0000;
  }

  lemma UnsignedNarrowWraps8(b: U32)
    ensures (UB16ToUB8(b) * TWO_8 - b + 0x7F) % 0x100_0000 < 0x100
  {
    var x, j := b + 0x80, (b + 0x80) / TWO_32;
    var s := x % TWO_32;
    HighPart8(s, s / TWO_8);
    assert s == x - j * TWO_32;
    SmallRest(UB16ToUB8(b) * TWO_8 - s + 0xFF, -j * 0x100, 0x100_0000);
  }

  lemma UnsignedNarrowWraps16(b: U64)
    ensures (UB32ToUB16(b) * TWO_16 - b + 0x7FFF) % 0x1_0000_0000_0000 < 0x1_0000
  {
    var x, j := b + 0x8000, (b + 0x8000) / 0x1_0000_0000_0000_0000;
    var s := x % 0x1_0000_0000_0000_0000;
    HighPart16(s, s / TWO_16);
    assert s == x - j * 0x1_0000_0000_0000_0000;
    SmallRest(UB32ToUB16(b) * TWO_16 - s + 0xFFFF, -j * TWO_16, 0x1_0000_0000_0000);
  }

  lemma SmallRest(x: int, k: int, m: nat)
    requires m > 0
    ensures (x + k * m) % m == x % m
  {
    var q := x / m;
    assert x + k * m == (q + k) * m + x % m;
    RestIs(x + k * m, m, q + k, x % m);
  }

  lemma RestIs(x: int, m: nat, q: int, r: nat)
    requires m > 0 && x == q * m + r && r < m
    ensures x % m == r
  {
    AbsProduct(x / m - q, m);
    assert (x / m - q) * m == r - x % m;
    if x / m != q {
      AtLeastOne(Abs(x / m - q), m);
    }
  }

  lemma HighPart8(s: nat, n: nat)
    requires n == s / TWO_8
    ensures (n % TWO_16 * TWO_8 - s + 0xFF) % 0x100_0000 < 0x100
  {
    var k := n / TWO_16;
    assert n % TWO_16 * TWO_8 - s + 0xFF == (0xFF - s % TWO_8) - k * 0x100_0000;
  }

  lemma HighPart16(s: nat, n: nat)
    requires n == s / TWO_16
    ensures (n % TWO_32 * TWO_16 - s + 0xFFFF) % 0x1_0000_0000_0000 < 0x1_0000
  {
    var k := n / TWO_32;
    assert n % TWO_32 * TWO_16 - s + 0xFFFF == (0xFFFF - s % TWO_16) - k * 0x1_0000_0000_0000;
  }

  // ---------- Multiplication ----------

  lemma ProductFits(a: I32, b: I32)
    ensures -0x4000_0000_0000_0000 <= a * b <= 0x4000_0000_0000_0000
  {
    AbsProduct(a, b);
    ProductGrows(Abs(a), TWO_31, Abs(b));
    ProductGrows(Abs(b), TWO_31, TWO_31);
  }

  function MulB16(a: I32, b: I32): (r: I32) {
    ProductFits(a, b);
    B32ToB16(a * b)
  }

  /** The product is representable: the guard a caller can check. */
  predicate ProductInRange(p: int) {
    -TWO_47 - TWO_15 <= p < TWO_47 - TWO_15
  }

  /** Out of range, the product is off by a multiple of what the type can hold. */
  lemma MulWraps(a: I32, b: I32)
    ensures (TWO_16 * MulB16(a, b) - a * b + 0x7FFF) % 0x1_0000_0000_0000 < 0x1_0000
  {
    ProductFits(a, b);
    NarrowWraps16(a * b);
  }

  /** Multiplication is correctly rounded exactly when the product is in range. */
  lemma MulIsNearest(a: I32, b: I32)
    ensures -TWO_15 < TWO_16 * MulB16(a, b) - a * b <= TWO_15 <==> ProductInRange(a * b)
  {
    ProductFits(a, b);
    NarrowIsNearest(a * b);
  }

  lemma NarrowIsNearest(p: int)
    ensures -TWO_15 < TWO_16 * NarrowBy16(p) - p <= TWO_15 <==> ProductInRange(p)
  {
  }

  lemma NarrowMonotone(p: int, q: int)
    requires p <= q && ProductInRange(p) && ProductInRange(q)
    ensures NarrowBy16(p) <= NarrowBy16(q)
  {
  }

  lemma MulLaws(a: I32, b: I32)
    ensures MulB16(a, b) == MulB16(b, a)
    ensures MulB16(a, TWO_16) == a
  {
    assert a * b == b * a;
    WidenNarrow(0, a);
  }

  lemma MulMonotone(a: I32, c: I32, b: I32)
    requires a <= c && 0 <= b && ProductInRange(a * b) && ProductInRange(c * b)
    ensures MulB16(a, b) <= MulB16(c, b)
  {
    ProductGrows(0, c - a, b);
    assert c * b == a * b + (c - a) * b;
    NarrowMonotone(a * b, c * b);
  }

  /** On whole numbers it is integer multiplication. */
  lemma MulOfIntegers(i: I16, j: I16)
    requires -TWO_15 <= i * j < TWO_15
    ensures MulB16(i * TWO_16, j * TWO_16) == i * j * TWO_16
  {
    var p := i * j;
    assert (i * TWO_16) * (j * TWO_16) == p * TWO_16 * TWO_16;
    WidenNarrow(0, p * TWO_16);
  }

  /** Rounding halves up is not symmetric: the sign of a factor can be moved outside exactly when the product does
      not end in a half. */
  lemma MulOfNegated(a: I32, b: I32)
    requires a != -TWO_31 && ProductInRange(a * b) && ProductInRange(-(a * b))
    ensures MulB16(-a, b) == -MulB16(a, b) <==> a * b % TWO_16 != TWO_15
  {
    assert (-a) * b == -(a * b);
    NarrowNegated(a * b);
  }

  lemma NarrowNegated(p: int)
    requires ProductInRange(p) && ProductInRange(-p)
    ensures NarrowBy16(-p) == -NarrowBy16(p) <==> p % TWO_16 != TWO_15
  {
  }

  // ---------- Division ----------

  function DivB16(a: I32, b: I32): (r: I32)
    requires b != 0
  {
    ToI32(Quotient(B16ToB32(a), b))
  }

  predicate QuotientInRange(a: I32, b: I32)
    requires b != 0
  {
    -TWO_31 <= Quotient(B16ToB32(a), b) < TWO_31
  }

  /** Multiplying and dividing by the same number comes back to less than one unit plus half a unit over b. */
  lemma MulThenDiv(a: I32, b: I32)
    requires b != 0 && ProductInRange(a * b) && QuotientInRange(MulB16(a, b), b)
    ensures var q := DivB16(MulB16(a, b), b);
            Abs(q - a) * Abs(b) < Abs(b) + TWO_15
    ensures Abs(b) >= TWO_15 ==> Abs(DivB16(MulB16(a, b), b) - a) <= 1
  {
    hide MulB16, DivB16, Quotient, ToI32;
    var m := MulB16(a, b);
    var q := DivB16(m, b);
    MulIsNearest(a, b);
    DivIs(m, b);
    QuotientError(m * TWO_16, b);
    assert Abs(m * TWO_16 - q * b) < Abs(b);
    ErrorsAdd(m * TWO_16, q * b, a * b, Abs(b));
    ProductOfError(q, a, b);
    if Abs(b) >= TWO_15 && Abs(q - a) >= 2 {
      ProductGrows(2, Abs(q - a), Abs(b));
    }
  }

  lemma DivIs(a: I32, b: I32)
    requires b != 0 && QuotientInRange(a, b)
    ensures DivB16(a, b) == Quotient(a * TWO_16, b)
  {
  }

  /** Division truncates toward zero, exactly when the quotient is in range; otherwise it is off by a multiple of 2 to the
      power of 32. */
  lemma DivTruncates(a: I32, b: I32, q: int)
    requires b != 0
    ensures Truncated(a * TWO_16, b, DivB16(a, b)) <==> QuotientInRange(a, b)
    ensures Truncated(a * TWO_16, b, q) ==> (DivB16(a, b) - q) % TWO_32 == 0
  {
    hide Quotient, Truncated, ToI32;
    QuotientIs(a * TWO_16, b, DivB16(a, b));
    QuotientIs(a * TWO_16, b, q);
  }

  lemma DivOfNegated(a: I32, b: I32)
    requires b != 0 && a != -TWO_31 && QuotientInRange(a, b) && QuotientInRange(-a, b)
    ensures DivB16(-a, b) == -DivB16(a, b)
  {
    hide Quotient, ToI32;
    DivIs(a, b);
    DivIs(-a, b);
    QuotientOfNegated(a * TWO_16, b);
    assert (-a) * TWO_16 == -(a * TWO_16);
  }

  lemma ErrorsAdd(m: int, p: int, r: int, d: nat)
    requires Abs(m - p) < d && -TWO_15 < m - r <= TWO_15
    ensures Abs(p - r) < d + TWO_15
  {
  }

  lemma ProductOfError(q: int, a: int, b: int)
    ensures Abs(q - a) * Abs(b) == Abs(q * b - a * b)
  {
    AbsProduct(q - a, b);
    assert (q - a) * b == q * b - a * b;
  }

  /** Dividing by a number of at most one half and multiplying again gives back the dividend, exactly. */
  lemma DivThenMul(a: I32, b: I32)
    requires 0 < Abs(b) <= TWO_15 && QuotientInRange(a, b)
    ensures MulB16(DivB16(a, b), b) == a
  {
    hide MulB16, DivB16, Quotient, ToI32, NarrowBy16;
    var q := DivB16(a, b);
    DivIs(a, b);
    QuotientError(a * TWO_16, b);
    RoundsTo(q * b, a);
    MulIs(q, b);
  }

  lemma MulIs(a: I32, b: I32)
    ensures MulB16(a, b) == NarrowBy16(a * b)
  {
  }

  /** What is less than half a unit away from a b16 number rounds to it; so does a half below. */
  lemma RoundsTo(p: int, a: I32)
    requires -TWO_15 <= p - a * TWO_16 < TWO_15
    ensures NarrowBy16(p) == a
  {
  }

  // ---------- Unsigned multiplication and division ----------

  function MulUB16(a: U32, b: U32): (r: U32) {
    UnsignedProductFits(a, b);
    UB32ToUB16(a * b)
  }

  function DivUB16(a: U32, b: U32): (r: U32)
    requires b != 0
  {
    a * TWO_16 / b % TWO_32
  }

  lemma UnsignedProductFits(a: U32, b: U32)
    ensures 0 <= a * b <= 0xFFFF_FFFE_0000_0001
  {
    AbsProduct(a, b);
    ProductGrows(Abs(a), TWO_32 - 1, Abs(b));
  }

  /** Unsigned multiplication is correctly rounded exactly when the rounded product is representable. */
  lemma UnsignedMulIsNearest(a: U32, b: U32)
    ensures -TWO_15 < MulUB16(a, b) * TWO_16 - a * b <= TWO_15 <==> a * b < 0xFFFF_FFFF_8000
  {
    UnsignedProductFits(a, b);
    UnsignedNarrowWiden(0, 0, a * b);
  }

  /** Dividing by at most one half and multiplying again is exact here too. */
  lemma UnsignedDivThenMul(a: U32, b: U32)
    requires 0 < b <= TWO_15 && a * TWO_16 / b < TWO_32
    ensures MulUB16(DivUB16(a, b), b) == a
  {
    hide MulUB16, DivUB16, UB32ToUB16;
    var q := DivUB16(a, b);
    UnsignedDivIs(a, b);
    UnsignedProductFits(q, b);
    UnsignedMulIs(q, b);
    UnsignedRoundsTo(q * b, a);
  }

  lemma UnsignedDivIs(a: U32, b: U32)
    requires b > 0 && a * TWO_16 / b < TWO_32
    ensures 0 <= a * TWO_16 - DivUB16(a, b) * b < b
  {
    var n, q := a * TWO_16, a * TWO_16 / b;
    assert DivUB16(a, b) == q;
    QuotientAndRest(n, b, q);
  }

  /** The unsigned quotient is rounded down, up to a multiple of 2 to the power of 32. */
  lemma UnsignedDivWraps(a: U32, b: U32, q: nat)
    requires b > 0 && q * b <= a * TWO_16 < q * b + b
    ensures DivUB16(a, b) == q % TWO_32
  {
    DivisionIs(a * TWO_16, b, q, a * TWO_16 - q * b);
  }

  lemma UnsignedMulIs(a: U32, b: U32)
    ensures 0 <= a * b <= 0xFFFF_FFFE_0000_0001 && MulUB16(a, b) == UB32ToUB16(a * b)
  {
    UnsignedProductFits(a, b);
  }

  lemma QuotientAndRest(n: nat, b: nat, q: nat)
    requires b > 0 && q == n / b
    ensures 0 <= n - q * b < b
  {
  }

  lemma UnsignedRoundsTo(p: U64, a: U32)
    requires 0 <= a * TWO_16 - p < TWO_15
    ensures UB32ToUB16(p) == a
  {
  }

  // ---------- Fast inversion ----------

  /** b below 2 divides by zero. */
  function InvUB16(b: U32): (r: U32)
    requires b >= 2
  {
    TWO_31 / (b / 2)
  }

  function InvB16(b: I32): (r: I32)
    requires b < 0 || b >= 4
  {
    Quotient(0x4000_0000, b / 4)
  }

  /** The fast inverse of b is the exact inverse of b with its lowest bit cleared: exact for even b, never below the
      exact inverse of b, and off by less than what one more unit in b makes. */
  lemma InvUB16Is(b: U32)
    requires b >= 2
    ensures InvUB16(b) == TWO_32 / (b - b % 2)
    ensures InvUB16(b) >= TWO_32 / b
    ensures InvUB16(b) * b <= TWO_32 + InvUB16(b)
  {
    var e, inv := b - b % 2, InvUB16(b);
    DivideBoth(TWO_31, b / 2, 2);
    DivideSmaller(TWO_32, e, b);
    assert inv * e <= TWO_32;
    assert inv * b == inv * e + inv * (b - e);
    if b == e {
      assert inv * (b - e) == 0;
    } else {
      assert b - e == 1;
    }
  }

  /** The signed one clears the two lowest bits, rounding a negative b down. */
  lemma InvB16Is(b: I32)
    requires b < 0 || b >= 4
    ensures var e := b - b % 4;
            InvB16(b) == Quotient(TWO_32, e) && (b > 0 ==> InvB16(b) >= TWO_32 / b) && (b < 0 ==> -InvB16(b) <= TWO_32 / Abs(b))
  {
    var e := b - b % 4;
    assert e == 4 * (b / 4);
    DivideBoth(0x4000_0000, Abs(b / 4), 4);
    if b > 0 {
      DivideSmaller(TWO_32, e, b);
    } else {
      DivideSmaller(TWO_32, Abs(b), Abs(e));
    }
  }

  // ---------- Whole and fractional part ----------

  /** Masking an unsigned pattern. */
  function TruncB16(a: I32): (r: U32) {
    a % TWO_32 - a % TWO_32 % TWO_16
  }

  function FracB16(a: I32): (r: U32) {
    a % TWO_32 % TWO_16
  }

  /** Read back as a b16 number, the truncation is the largest whole number not above a, and the parts add up to a. */
  lemma TruncAndFrac(a: I32)
    ensures ToI32(TruncB16(a)) == a / TWO_16 * TWO_16
    ensures ToI32(TruncB16(a) + FracB16(a)) == a
  {
  }

  /** Adding a half and masking; the sum must not leave the type. */
  function RoundB16(a: I32): (r: U32)
    requires a + TWO_15 < TWO_31
  {
    TruncB16(a + TWO_15)
  }

  /** Rounding gives the nearest whole number, the greater one if two are equally near. */
  lemma RoundIsNearest(a: I32)
    requires a + TWO_15 < TWO_31
    ensures ToI32(RoundB16(a)) % TWO_16 == 0 && -TWO_15 < ToI32(RoundB16(a)) - a <= TWO_15
  {
    TruncAndFrac(a + TWO_15);
  }
}
