/** Rounding up to a power of two by counting leading zeros, and the output buffer size built on it. */
module BufferSizes {
  import opened Gcds
  import opened RationalsInt64
  import opened Words
  import opened Wrappers
  import R = Rationals

  function Pow2(k: nat): (p: nat)
    ensures p > 0
  {
    if k == 0 then 1 else 2 * Pow2(k - 1)
  }

  /** The number of binary digits of x. */
  function BitLength(x: nat): nat {
    if x == 0 then 0 else 1 + BitLength(x / 2)
  }

  /** Leading zeros of x in a word of `digits` bits. */
  function CountLeadingZeros(x: nat, digits: nat): nat
    requires 0 < x && BitLength(x) <= digits
  {
    digits - BitLength(x)
  }

  /** 1 << shift in a word of `digits` bits; a shift by all of them is undefined. */
  function ShiftOne(shift: nat, digits: nat): nat
    requires shift < digits
  {
    Pow2(shift)
  }

  /** What the source leaves undefined: zero, and numbers whose power of two does not fit the word. */
  predicate Defined(x: nat, digits: nat) {
    x == 1 || (x > 1 && BitLength(x - 1) < digits)
  }

  /** The number is computed in a word of `digits` bits (32 or 64) and cut to the `width` bits of its type. */
  function CeilPowerOfTwo(x: nat, digits: nat, width: nat): nat
    requires Defined(x, digits)
  {
    if x == 1 then 1
    else ShiftOne(digits - CountLeadingZeros(x - 1, digits), digits) % Pow2(width)
  }

  // ---------------------------------------------------------------- powers of two

  predicate IsPowerOfTwo(p: nat, k: nat) {
    p == Pow2(k)
  }

  /** The least power of two that is not below x. */
  ghost predicate IsLeastPowerFor(p: nat, x: nat) {
    && x <= p
    && (exists k :: IsPowerOfTwo(p, k))
    && (forall k :: x <= Pow2(k) ==> p <= Pow2(k))
  }

  lemma {:induction false} Pow2Monotone(j: nat, k: nat)
    requires j <= k
    ensures Pow2(j) <= Pow2(k)
    ensures j < k ==> Pow2(j) < Pow2(k)
    decreases k
  {
    if j < k {
      Pow2Monotone(j, k - 1);
    }
  }

  lemma {:induction false} BitLengthBounds(x: nat)
    requires x > 0
    ensures BitLength(x) > 0 && Pow2(BitLength(x) - 1) <= x < Pow2(BitLength(x))
    decreases x
  {
    if x > 1 {
      BitLengthBounds(x / 2);
    }
  }

  /** Two to the digits of x - 1 is the least power of two that is not below x. */
  lemma {:induction false} LeastPower(x: nat)
    requires x > 1
    ensures IsLeastPowerFor(Pow2(BitLength(x - 1)), x)
    ensures Pow2(BitLength(x - 1)) < 2 * x
  {
    var k := BitLength(x - 1);
    BitLengthBounds(x - 1);
    assert IsPowerOfTwo(Pow2(k), k);
    forall j | x <= Pow2(j) ensures Pow2(k) <= Pow2(j) {
      if j < k {
        Pow2Monotone(j, k - 1);
      } else {
        Pow2Monotone(k, j);
      }
    }
  }

  /** Within a word the digits of x - 1 fit below the top exactly up to half the range. */
  lemma {:induction false} DefinedUpToHalf(x: nat, digits: nat)
    requires digits > 0
    ensures Defined(x, digits) <==> 1 <= x <= Pow2(digits - 1)
  {
    if x > 1 {
      var k := BitLength(x - 1);
      BitLengthBounds(x - 1);
      if k < digits {
        Pow2Monotone(k, digits - 1);
      } else {
        Pow2Monotone(digits - 1, k - 1);
      }
    } else {
      Pow2Monotone(0, digits - 1);
    }
  }

  lemma {:induction false} Cut(a: nat, b: nat)
    requires b > 0
    ensures a < b ==> a % b == a
    ensures a == b ==> a % b == 0
  {
  }

  /** The value, for numbers above one: cutting to the type matters only past half its range. */
  lemma {:induction false} CeilValue(x: nat, digits: nat, width: nat)
    requires 0 < width <= digits && 1 < x < Pow2(width) && Defined(x, digits)
    ensures CeilPowerOfTwo(x, digits, width) == if x <= Pow2(width - 1) then Pow2(BitLength(x - 1)) else 0
  {
    var k := BitLength(x - 1);
    BitLengthBounds(x - 1);
    DefinedUpToHalf(x, width);
    Cut(Pow2(k), Pow2(width));
    if k < width {
      Pow2Monotone(k, width);
    } else if k > width {
      Pow2Monotone(width, k - 1);
    }
  }

  /** Where it is defined, the result is the least power of two exactly up to half the range of the type; past that it
      is cut to zero. */
  lemma {:induction false} CeilPowerOfTwoIsLeast(x: nat, digits: nat, width: nat)
    requires 0 < width <= digits && x < Pow2(width) && Defined(x, digits)
    ensures IsLeastPowerFor(CeilPowerOfTwo(x, digits, width), x) <==> x <= Pow2(width - 1)
    ensures x <= Pow2(width - 1) ==> x <= CeilPowerOfTwo(x, digits, width) < 2 * x
    ensures x > Pow2(width - 1) ==> CeilPowerOfTwo(x, digits, width) == 0
  {
    if x == 1 {
      assert IsPowerOfTwo(1, 0);
      Pow2Monotone(0, width - 1);
    } else {
      LeastPower(x);
      CeilValue(x, digits, width);
    }
  }

  // ---------------------------------------------------------------- the output buffer

  /** A size cast to int64. */
  function Signed(size: nat): int64
    requires size < TWO_TO_THE_64
  {
    (if size < TWO_TO_THE_63 then size else size - TWO_TO_THE_64) as int64
  }

  /** An int64 cast to a size. */
  function Unsigned(c: int64): (size: nat)
    ensures size < TWO_TO_THE_64
  {
    if c < 0 then c as int + TWO_TO_THE_64 else c as int
  }

  /** Casting back and forth loses nothing, and sizes up to half the range are not changed at all. */
  lemma {:induction false} CastsAreInverse(size: nat)
    requires size < TWO_TO_THE_64
    ensures Unsigned(Signed(size)) == size
    ensures Signed(size) as int == size <==> size < TWO_TO_THE_63
  {
  }

  /** The bytes asked for before rounding: buffer size times factor, rounded up, or `None` where the source leaves that
      undefined. */
  function Requested(bufferSize: nat, factor: Rational64): Option<int64>
    requires bufferSize < TWO_TO_THE_64 && factor.denominator != 0
  {
    var n := Signed(bufferSize);
    if n == -0x8000_0000_0000_0000 then None   // simplified, for which it has no greatest common divisor
    else
      WholeIsSimple(n as int);
      match TryMultiply(Simplify(n, 1), factor)
      case None => None
      case Some(product) => R.MultiplyIsCanonical(R.Rational(n as int, 1), factor.Unbounded()); TryCeil(product)
  }

  /** The size of the output buffer for what is asked for; adding the extra bytes wraps. */
  function SizeFor(requested: Option<int64>, extra: nat): Option<nat> {
    match requested
    case None => None
    case Some(c) =>
      if !Defined(Unsigned(c), 64) then None
      else Some((CeilPowerOfTwo(Unsigned(c), 64, 64) + extra) % TWO_TO_THE_64)
  }

  /** The size of the output buffer of a processor, or `None` where the source leaves it undefined. */
  function OutputBufferSize(bufferSize: nat, factor: Rational64, extra: nat): Option<nat>
    requires bufferSize < TWO_TO_THE_64 && factor.denominator != 0
  {
    SizeFor(Requested(bufferSize, factor), extra)
  }

  /** What a caller can check: no product or sum on the way leaves int64. The sum is that of the parts of the simplified
      product. */
  predicate Computable(bufferSize: nat, factor: Rational64)
    requires factor.denominator != 0
  {
    var p, d := bufferSize * factor.numerator as int, factor.denominator as int;
    && bufferSize < TWO_TO_THE_63
    && Abs(p) < TWO_TO_THE_63
    && p / Gcd(Abs(p), Abs(d)) + d / Gcd(Abs(p), Abs(d)) < TWO_TO_THE_63
  }

  /** Some power of two holds c and leaves room for the extra bytes. */
  ghost predicate RoomForExtra(c: int, extra: nat) {
    exists k :: c <= Pow2(k) && Pow2(k) + extra < TWO_TO_THE_64
  }

  /** c is the least integer that is not below n / d. */
  predicate IsLeastAbove(c: int, n: int, d: int) {
    n <= c * d && (c - 1) * d < n
  }

  // ---------------------------------------------------------------- what is asked for

  lemma {:induction false} WholeIsSimple(n: int)
    ensures R.Rational(n, 1).Canonical() && R.Simplify(R.Rational(n, 1)) == R.Rational(n, 1)
  {
    assert Gcd(Abs(n), 1) == Gcd(1, 0) == 1;
    ExactQuotient(1, n, n);
    ExactQuotient(1, 1, 1);
  }

  /** Cutting a common factor does not matter to what is least. */
  lemma {:induction false} ScaleLeast(c: int, n: int, d: int, g: int)
    requires g > 0
    ensures IsLeastAbove(c, n, d) <==> IsLeastAbove(c, n * g, d * g)
  {
    Associate(c, d, g);
    Associate(c - 1, d, g);
    SameOrder(n, c * d, g);
    SameOrder(n, (c - 1) * d, g);
  }

  lemma {:induction false} SameOrder(x: int, y: int, d: int)
    requires d > 0
    ensures x <= y <==> x * d <= y * d
  {
  }

  /** The parts of a simplified fraction with a positive denominator. */
  lemma {:induction false} SimplifiedParts(p: int, d: int)
    requires d > 0
    ensures var g := Gcd(Abs(p), d);
      g > 0 && R.Simplify(R.Rational(p, d)) == R.Rational(p / g, d / g)
      && p == p / g * g && d == d / g * g && d / g > 0
  {
    var g, n, e := R.SimplifyParts(R.Rational(p, d));
    SignOfProduct(e, g);
    R.NegatedFactor(g, n);
    R.NegatedFactor(g, e);
    DivisionIsUnique(p, g, n, 0);
    DivisionIsUnique(d, g, e, 0);
  }

  /** The product of a whole number and a factor, simplified twice on the way. */
  lemma {:induction false} ProductParts(n: int, factor: R.Rational)
    requires factor.denominator > 0
    ensures R.Rational(n, 1).Defined()
    ensures R.Multiply(R.Rational(n, 1), factor) == R.Simplify(R.Rational(n * factor.numerator, factor.denominator))
  {
    R.SimplifyOnce(R.Rational(n * factor.numerator, factor.denominator));
  }

  /** The simplified product of a size that int64 can hold. */
  lemma {:induction false} ProductIs(n: int64, factor: Rational64)
    requires factor.denominator > 0
    ensures var product := TryMultiply(Rational64(n, 1), factor);
      product.Some? ==>
        product.value.Unbounded()
        == R.Simplify(R.Rational(n as int * factor.numerator as int, factor.denominator as int))
  {
    ProductParts(n as int, factor.Unbounded());
  }

  /** What is asked for, in terms of the parts of the simplified product. */
  lemma {:induction false} RequestedParts(bufferSize: nat, factor: Rational64) returns (g: int, n: int, e: int)
    requires bufferSize < TWO_TO_THE_63 && factor.denominator > 0
    ensures g > 0 && e > 0 && g == Gcd(Abs(bufferSize * factor.numerator as int), factor.denominator as int)
    ensures bufferSize * factor.numerator as int == n * g && factor.denominator as int == e * g
    ensures n == bufferSize * factor.numerator as int / g && e == factor.denominator as int / g
    ensures var requested := Requested(bufferSize, factor);
      && (requested.Some? <==> Abs(n * g) < TWO_TO_THE_63 && n + e < TWO_TO_THE_63)
      && (requested.Some? ==> requested.value as int == R.Ceil(R.Rational(n, e)))
  {
    var p, d := bufferSize * factor.numerator as int, factor.denominator as int;
    SimplifiedParts(p, d);
    g := Gcd(Abs(p), d);
    n, e := p / g, d / g;
    WholeIsSimple(bufferSize as int64 as int);
    assert Simplify(bufferSize as int64, 1) == Rational64(bufferSize as int64, 1);
    ProductIs(bufferSize as int64, factor);
  }

  lemma {:induction false} RequestedDefined(bufferSize: nat, factor: Rational64)
    requires bufferSize < TWO_TO_THE_63 && factor.denominator > 0
    ensures Requested(bufferSize, factor).Some? <==> Computable(bufferSize, factor)
  {
    var g, n, e := RequestedParts(bufferSize, factor);
  }

  /** When it can be computed, what is asked for is the least integer that is not below buffer size times factor. */
  lemma {:induction false} RequestedExactly(bufferSize: nat, factor: Rational64)
    requires 0 < bufferSize < TWO_TO_THE_63 && factor.numerator > 0 && factor.denominator > 0
    ensures var requested := Requested(bufferSize, factor);
      && (requested.Some? <==> Computable(bufferSize, factor))
      && (requested.Some? ==>
            && requested.value > 0
            && IsLeastAbove(requested.value as int, bufferSize * factor.numerator as int, factor.denominator as int))
  {
    RequestedDefined(bufferSize, factor);
    var g, n, e := RequestedParts(bufferSize, factor);
    SignOfProduct(bufferSize, factor.numerator as int);
    SignOfProduct(n, g);
    var c := R.Ceil(R.Rational(n, e));
    R.CeilIsCeiling(R.Rational(n, e));
    PositiveLeast(c, n, e);
    ScaleLeast(c, n, e, g);
  }

  lemma {:induction false} PositiveLeast(c: int, n: int, d: int)
    requires d > 0 && n > 0 && IsLeastAbove(c, n, d)
    ensures c > 0
  {
    SignOfProduct(c, d);
  }

  // ---------------------------------------------------------------- the size

  lemma {:induction false} Pow2Sum(j: nat, k: nat)
    ensures Pow2(j + k) == Pow2(j) * Pow2(k)
  {
    if j > 0 {
      Pow2Sum(j - 1, k);
      Associate(2, Pow2(j - 1), Pow2(k));
    }
  }

  lemma {:induction false} Squared(k: nat, p: nat)
    requires Pow2(k) == p
    ensures Pow2(2 * k) == p * p
  {
    Pow2Sum(k, k);
  }

  /** The exponent is a parameter, so that nothing is computed step by step. */
  lemma {:induction false} PowersUpTo(k: nat)
    requires k == 62
    ensures Pow2(k) == TWO_TO_THE_63 / 2 && Pow2(k + 1) == TWO_TO_THE_63 && Pow2(k + 2) == TWO_TO_THE_64
  {
    assert Pow2(2) == 4;
    Squared(2, 4);
    Squared(4, 16);
    Squared(8, 0x100);
    Squared(16, 0x1_0000);
    Squared(32, 0x1_0000_0000);
    assert Pow2(k + 2) == 2 * Pow2(k + 1) == 4 * Pow2(k);
  }

  lemma {:induction false} WordPowers()
    ensures Pow2(63) == TWO_TO_THE_63 && Pow2(64) == TWO_TO_THE_64
  {
    PowersUpTo(62);
  }

  /** Up to half the range of a word the power of two is the least one, and within half the range itself. */
  lemma {:induction false} LeastWithin(c: nat, w: nat)
    requires w > 0 && 0 < c <= Pow2(w - 1)
    ensures Defined(c, w) && CeilPowerOfTwo(c, w, w) <= Pow2(w - 1)
    ensures IsLeastPowerFor(CeilPowerOfTwo(c, w, w), c) && CeilPowerOfTwo(c, w, w) < 2 * c
  {
    Pow2Monotone(w - 1, w);
    DefinedUpToHalf(c, w);
    CeilPowerOfTwoIsLeast(c, w, w);
    LeastBelow(c, CeilPowerOfTwo(c, w, w), w - 1);
  }

  lemma {:induction false} AddWraps(p: nat, extra: nat)
    requires p <= TWO_TO_THE_63 && extra < TWO_TO_THE_64
    ensures (p + extra) % TWO_TO_THE_64
         == if p + extra < TWO_TO_THE_64 then p + extra else p + extra - TWO_TO_THE_64
  {
  }

  /** The size for a positive number: a power of two that fits wraps only together with the extra bytes. */
  lemma {:induction false} SizeForExactly(requested: int64, extra: nat)
    requires requested > 0 && extra < TWO_TO_THE_64
    ensures var c, size := requested as int, SizeFor(Some(requested), extra);
      && size.Some?
      && (size.value >= extra <==> RoomForExtra(c, extra))
      && (RoomForExtra(c, extra) ==> IsLeastPowerFor(size.value - extra, c) && size.value - extra < 2 * c)
  {
    var c := requested as int;
    WordPowers();
    LeastWithin(c, 64);
    var p := CeilPowerOfTwo(c, 64, 64);
    RoomIsLeast(c, p, extra);
    AddWraps(p, extra);
  }

  lemma {:induction false} LeastBelow(c: int, p: nat, k: nat)
    requires c >= 0 && IsLeastPowerFor(p, c) && c <= Pow2(k)
    ensures p <= Pow2(k)
  {
  }

  /** There is room exactly if there is for the least power of two. */
  lemma {:induction false} RoomIsLeast(c: int, p: nat, extra: nat)
    requires c >= 0 && IsLeastPowerFor(p, c)
    ensures RoomForExtra(c, extra) <==> p + extra < TWO_TO_THE_64
  {
    var k :| IsPowerOfTwo(p, k);
    assert c <= Pow2(k);
    if j :| c <= Pow2(j) && Pow2(j) + extra < TWO_TO_THE_64 {
      assert p <= Pow2(j);
    }
  }

  /** What is rounded up from a fraction that is not positive is not positive either. */
  lemma {:induction false} CeilNonPositive(n: int, d: int)
    requires d > 0 && n <= 0
    ensures n <= TruncDiv(n + d - 1, d) <= 0
  {
    QuotientBound(n + d - 1, d);
    if n + d - 1 >= 0 {
      DivisionIsUnique(n + d - 1, d, 0, n + d - 1);
    }
  }

  /** It is 0 or, cast to a size, past half the range; both are undefined. */
  lemma {:induction false} NothingForNonPositive(c: int64, extra: nat)
    requires -0x8000_0000_0000_0000 < c <= 0
    ensures SizeFor(Some(c), extra) == None
  {
    WordPowers();
    DefinedUpToHalf(Unsigned(c), 64);
  }

  lemma {:induction false} SignOfQuotient(q: int, g: int)
    requires g > 0 && q * g <= 0
    ensures q * g <= q <= 0
  {
    SignOfProduct(q, g);
    SignOfProduct(q, g - 1);
    Distribute(q, g - 1, 1);
  }

  /** A product that is not positive stays so when it is simplified, and is not the least int64. */
  lemma {:induction false} NonPositiveProduct(n: int64, factor: Rational64)
    requires n > -0x8000_0000_0000_0000 && factor.denominator > 0 && n as int * factor.numerator as int <= 0
    ensures var product := TryMultiply(Simplify(n, 1), factor);
      product.Some? ==> -0x8000_0000_0000_0000 < product.value.numerator <= 0 && product.value.denominator > 0
  {
    var p, d := n as int * factor.numerator as int, factor.denominator as int;
    WholeIsSimple(n as int);
    ProductParts(n as int, factor.Unbounded());
    SimplifiedParts(p, d);
    SignOfQuotient(p / Gcd(Abs(p), d), Gcd(Abs(p), d));
  }

  /** No size comes of a product that is not positive. */
  lemma {:induction false} NothingForProduct(bufferSize: nat, factor: Rational64, extra: nat)
    requires bufferSize < TWO_TO_THE_64 && factor.denominator > 0
    requires Signed(bufferSize) as int * factor.numerator as int <= 0
    ensures OutputBufferSize(bufferSize, factor, extra) == None
  {
    var requested := Requested(bufferSize, factor);
    if requested.Some? {
      NonPositiveProduct(Signed(bufferSize), factor);
      var product := TryMultiply(Simplify(Signed(bufferSize), 1), factor).value;
      CeilNonPositive(product.numerator as int, product.denominator as int);
      NothingForNonPositive(requested.value, extra);
    }
  }

  /** Exactly when the output buffer has a size at all, and exactly when it is right: with c the least integer that is
      not below buffer size times factor it then has, apart from the extra bytes, the least power of two that holds c,
      so less than twice what is needed. */
  lemma {:induction false} OutputBufferExactly(bufferSize: nat, factor: Rational64, extra: nat, c: int)
    requires 0 < bufferSize < TWO_TO_THE_64 && extra < TWO_TO_THE_64
    requires factor.numerator > 0 && factor.denominator > 0
    requires IsLeastAbove(c, bufferSize * factor.numerator as int, factor.denominator as int)
    ensures var size := OutputBufferSize(bufferSize, factor, extra);
      && c > 0
      && (size.Some? <==> Computable(bufferSize, factor))
      && (size.Some? && size.value >= extra && IsLeastPowerFor(size.value - extra, c)
          <==> Computable(bufferSize, factor) && RoomForExtra(c, extra))
      && (Computable(bufferSize, factor) && RoomForExtra(c, extra) ==> size.value - extra < 2 * c)
      && (Computable(bufferSize, factor) && !RoomForExtra(c, extra) ==> size.value < extra)
  {
    var p, d := bufferSize * factor.numerator as int, factor.denominator as int;
    SignOfProduct(bufferSize, factor.numerator as int);
    PositiveLeast(c, p, d);
    if bufferSize >= TWO_TO_THE_63 {
      SignOfProduct(bufferSize - TWO_TO_THE_64, factor.numerator as int);
      NothingForProduct(bufferSize, factor, extra);
    } else {
      RequestedExactly(bufferSize, factor);
      if Requested(bufferSize, factor).Some? {
        var requested := Requested(bufferSize, factor).value;
        R.CeilingIsUnique(c, requested as int, R.Rational(p, d));
        SizeForExactly(requested, extra);
      }
    }
  }

  /** A factor of zero, which a chain reports for itself, or below gives no size. */
  lemma {:induction false} NothingForZeroFactor(bufferSize: nat, factor: Rational64, extra: nat)
    requires bufferSize < TWO_TO_THE_63 && factor.numerator <= 0 && factor.denominator > 0
    ensures OutputBufferSize(bufferSize, factor, extra) == None
  {
    SignOfProduct(bufferSize, factor.numerator as int);
    NothingForProduct(bufferSize, factor, extra);
  }

  // ---------------------------------------------------------------- inputs for which there is no right size

  /** The product overflows, although a power of two may hold what is asked for: 3 * 2^61 bytes with a size of 2^62. */
  lemma {:induction false} ProductOverflows(bufferSize: nat, extra: nat)
    requires bufferSize % 2 == 0 && bufferSize < TWO_TO_THE_63 <= 3 * bufferSize
    ensures IsLeastAbove(3 * (bufferSize / 2), bufferSize * 3, 2)
    ensures OutputBufferSize(bufferSize, Rational64(3, 2), extra) == None
  {
    RequestedDefined(bufferSize, Rational64(3, 2));
  }

  /** What is asked for with the factor 1. */
  lemma {:induction false} RequestedWhole(bufferSize: nat)
    requires 0 < bufferSize < TWO_TO_THE_64
    ensures Requested(bufferSize, Rational64(1, 1))
         == if bufferSize + 1 < TWO_TO_THE_63 then Some(bufferSize as int64)
            else if bufferSize > TWO_TO_THE_63 then Some((bufferSize - TWO_TO_THE_64) as int64) else None
  {
    var factor := Rational64(1, 1);
    if bufferSize < TWO_TO_THE_63 {
      RequestedExactly(bufferSize, factor);
      WholeIsSimple(bufferSize);
      assert Gcd(bufferSize, 1) == 1;
    } else if bufferSize > TWO_TO_THE_63 {
      var n := bufferSize - TWO_TO_THE_64;
      WholeIsSimple(n);
      ProductParts(n, factor.Unbounded());
      ExactQuotient(1, n + 1 - 1, n);
    }
  }

  /** The sum in rounding up overflows for the largest int64, and the cast to int64 leaves no divisor for 2^63. */
  lemma {:induction false} SumOverflows(bufferSize: nat, extra: nat)
    requires TWO_TO_THE_63 - 1 <= bufferSize <= TWO_TO_THE_63
    ensures OutputBufferSize(bufferSize, Rational64(1, 1), extra) == None
  {
    RequestedWhole(bufferSize);
  }

  /** The extra bytes wrap: an empty buffer for 2^k bytes. */
  lemma {:induction false} ExtraWraps(k: nat)
    requires k < 63
    ensures Pow2(k) < TWO_TO_THE_63
    ensures OutputBufferSize(Pow2(k), Rational64(1, 1), TWO_TO_THE_64 - Pow2(k)) == Some(0)
  {
    WordPowers();
    Pow2Monotone(k, 63);
    Pow2Monotone(k + 1, 63);
    assert Pow2(k + 1) == 2 * Pow2(k);
    RequestedWhole(Pow2(k));
    WrapsAt(Pow2(k) as int64, k);
  }

  /** A power of two up to half the range stays as it is, and wraps with what is missing to the whole range. */
  lemma {:induction false} WrapsAt(c: int64, k: nat)
    requires k < 63 && c as int == Pow2(k)
    ensures SizeFor(Some(c), TWO_TO_THE_64 - c as int) == Some(0)
  {
    WordPowers();
    Pow2Monotone(k, 63);
    LeastWithin(c as int, 64);
    LeastBelow(c as int, CeilPowerOfTwo(c as int, 64, 64), k);
    AddWraps(c as int, TWO_TO_THE_64 - c as int);
  }
}
