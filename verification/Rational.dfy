/** Rational numbers with a numerator and a denominator that are kept simplified. */
module Rationals {
  import opened Gcds

  datatype Rational = Rational(numerator: int, denominator: int) {

    /** A fraction at all. */
    predicate Defined() {
      denominator != 0
    }

    /** The form that simplification establishes. */
    predicate Canonical() {
      denominator > 0 && Gcd(Abs(numerator), denominator) == 1
    }

    /** The fraction means the number `v`. */
    ghost predicate Means(v: real) {
      Defined() && v * denominator as real == numerator as real
    }
  }

  /** Divides both parts by their greatest common divisor and moves the sign to the numerator. */
  function Simplify(r: Rational): Rational
    requires r.Defined()
  {
    var g := Gcd(Abs(r.numerator), Abs(r.denominator));
    var n, d := TruncDiv(r.numerator, g), TruncDiv(r.denominator, g);
    if d < 0 then Rational(-n, -d) else Rational(n, d)
  }

  function Make(numerator: int, denominator: int): Rational
    requires denominator != 0
  {
    Simplify(Rational(numerator, denominator))
  }

  function Reciprocal(r: Rational): Rational
    requires r.numerator != 0
  {
    Make(r.denominator, r.numerator)
  }

  predicate Less(l: Rational, r: Rational) {
    l.numerator * r.denominator < r.numerator * l.denominator
  }

  predicate Greater(l: Rational, r: Rational) {
    l.numerator * r.denominator > r.numerator * l.denominator
  }

  predicate Equal(l: Rational, r: Rational) {
    l.numerator * r.denominator == r.numerator * l.denominator
  }

  predicate AtMost(l: Rational, r: Rational) {
    !Greater(l, r)
  }

  predicate AtLeast(l: Rational, r: Rational) {
    !Less(l, r)
  }

  function Negate(r: Rational): Rational
    requires r.Defined()
  {
    Make(-r.numerator, r.denominator)
  }

  /** std::lcm */
  function Lcm(a: int, b: int): int
    requires a != 0 && b != 0
  {
    Abs(a) / Gcd(Abs(a), Abs(b)) * Abs(b)
  }

  /** The numerator and denominator from which a sum is made. */
  function RawSum(l: Rational, r: Rational): Rational
    requires l.Defined() && r.Defined()
  {
    var lcm := Lcm(l.denominator, r.denominator);
    Rational(l.numerator * TruncDiv(lcm, l.denominator) + r.numerator * TruncDiv(lcm, r.denominator), lcm)
  }

  function Add(l: Rational, r: Rational): Rational
    requires l.Defined() && r.Defined()
  {
    LcmIsMultiple(l.denominator, r.denominator);
    SimplifyIsCanonical(RawSum(l, r));
    Simplify(Simplify(RawSum(l, r)))
  }

  function Subtract(l: Rational, r: Rational): Rational
    requires l.Defined() && r.Defined()
  {
    SimplifyIsCanonical(Rational(-r.numerator, r.denominator));
    Add(l, Negate(r))
  }

  function Multiply(l: Rational, r: Rational): Rational
    requires l.Defined() && r.Defined()
  {
    SignOfProduct(l.denominator, r.denominator);
    var raw := Rational(l.numerator * r.numerator, l.denominator * r.denominator);
    SimplifyIsCanonical(raw);
    Simplify(Simplify(raw))
  }

  function Divide(l: Rational, r: Rational): Rational
    requires l.Defined() && r.Defined() && r.numerator != 0
  {
    SimplifyIsCanonical(Rational(r.denominator, r.numerator));
    Multiply(l, Reciprocal(r))
  }

  function Ceil(r: Rational): int
    requires r.Defined()
  {
    TruncDiv(r.numerator + r.denominator - 1, r.denominator)
  }

  // ---------------------------------------------------------------- what fractions mean

  lemma {:induction false} CastProduct(x: int, y: int)
    ensures (x * y) as real == x as real * y as real
    decreases Abs(y)
  {
    if y > 0 {
      CastProduct(x, y - 1);
      Distribute(x, y - 1, 1);
      RealDistribute(x as real, (y - 1) as real, 1.0);
    } else if y < 0 {
      CastProduct(x, y + 1);
      Distribute(x, y + 1, -1);
      RealDistribute(x as real, (y + 1) as real, -1.0);
    }
  }

  lemma {:induction false} RealDistribute(x: real, y: real, z: real)
    ensures x * (y + z) == x * y + x * z
  {
  }

  lemma {:induction false} RealAssociate(x: real, y: real, z: real)
    ensures (x * y) * z == x * (y * z) == y * (x * z)
  {
  }

  lemma {:induction false} RealCancel(x: real, y: real, d: real)
    requires d != 0.0 && x * d == y * d
    ensures x == y
  {
    RealDistribute(d, x, -y);
  }

  /** A fraction means exactly one number, the quotient of its parts. */
  lemma {:induction false} MeansQuotient(r: Rational, v: real)
    requires r.Defined()
    ensures r.Means(v) <==> v == r.numerator as real / r.denominator as real
  {
  }

  /** A common factor of numerator and denominator does not matter. */
  lemma {:induction false} CommonFactor(n: int, d: int, g: int, v: real)
    requires g != 0 && d != 0
    ensures Rational(n * g, d * g).Means(v) <==> Rational(n, d).Means(v)
  {
    SignOfProduct(d, g);
    CastProduct(n, g);
    CastProduct(d, g);
    RealAssociate(v, d as real, g as real);
    if Rational(n * g, d * g).Means(v) {
      RealCancel(v * d as real, n as real, g as real);
    }
  }

  lemma {:induction false} RealNegate(x: real, y: real)
    ensures x * (-y) == -(x * y) == (-x) * y
  {
  }

  lemma {:induction false} NegatedParts(n: int, d: int, v: real)
    requires d != 0
    ensures Rational(-n, -d).Means(v) <==> Rational(n, d).Means(v)
    ensures Rational(-n, d).Means(-v) <==> Rational(n, d).Means(v)
  {
    RealNegate(v, d as real);
  }

  lemma {:induction false} SumOverSame(m: int, n: int, d: int, v: real, w: real)
    requires Rational(m, d).Means(v) && Rational(n, d).Means(w)
    ensures Rational(m + n, d).Means(v + w)
  {
    RealDistribute(d as real, v, w);
  }

  /** What simplification divides out. */
  lemma {:induction false} SimplifyParts(r: Rational) returns (g: int, n: int, d: int)
    requires r.Defined()
    ensures g > 0 && d != 0 && r.numerator == n * g && r.denominator == d * g
    ensures Gcd(Abs(n), Abs(d)) == 1
    ensures Simplify(r) == if d < 0 then Rational(-n, -d) else Rational(n, d)
    ensures g == Gcd(Abs(r.numerator), Abs(r.denominator))
  {
    g := Gcd(Abs(r.numerator), Abs(r.denominator));
    var k: int, l: int := GcdDivides(Abs(r.numerator), Abs(r.denominator));
    ReducedIsCoprime(Abs(r.numerator), Abs(r.denominator), k, l);
    n := if r.numerator < 0 then -k else k;
    d := if r.denominator < 0 then -l else l;
    NegatedFactor(g, k);
    NegatedFactor(g, l);
    ExactQuotient(g, r.numerator, n);
    ExactQuotient(g, r.denominator, d);
  }

  lemma {:induction false} NegatedFactor(x: int, y: int)
    ensures x * (-y) == -(x * y) == (-x) * y && x * y == y * x
  {
  }

  /** Simplifying establishes the canonical form. */
  lemma {:induction false} SimplifyIsCanonical(r: Rational)
    requires r.Defined()
    ensures Simplify(r).Canonical()
  {
    var g, n, d := SimplifyParts(r);
  }

  /** Simplifying keeps the number. */
  lemma {:induction false} SimplifyIsExact(r: Rational, v: real)
    requires r.Defined()
    ensures Simplify(r).Means(v) <==> r.Means(v)
  {
    var g, n, d := SimplifyParts(r);
    CommonFactor(n, d, g, v);
    NegatedParts(n, d, v);
  }

  /** The simplification in place: of all fractions that mean the same number it leaves the canonical one. */
  method SimplifyInPlace(numerator: int, denominator: int) returns (n: int, d: int)
    requires denominator != 0
    ensures Rational(n, d).Canonical()
    ensures forall v :: Rational(n, d).Means(v) <==> Rational(numerator, denominator).Means(v)
    ensures Rational(n, d) == Simplify(Rational(numerator, denominator))
  {
    n, d := numerator, denominator;
    var g := Gcd(Abs(n), Abs(d));
    n := TruncDiv(n, g);
    d := TruncDiv(d, g);
    if d < 0 {
      n := -n;
      d := -d;
    }
    SimplifyIsCanonical(Rational(numerator, denominator));
    forall v ensures Rational(n, d).Means(v) <==> Rational(numerator, denominator).Means(v) {
      SimplifyIsExact(Rational(numerator, denominator), v);
    }
  }

  /** The least common multiple is a multiple of both, and with no factor left to divide out. */
  lemma {:induction false} LcmFactors(a: int, b: int) returns (k: int, l: int)
    requires a != 0 && b != 0
    ensures Lcm(a, b) == a * k == b * l && Lcm(a, b) > 0
    ensures Gcd(Abs(a), Abs(b)) > 0 && Abs(b) == Gcd(Abs(a), Abs(b)) * Abs(k) && Abs(a) == Gcd(Abs(a), Abs(b)) * Abs(l)
  {
    var g := Gcd(Abs(a), Abs(b));
    var ka: int, kb: int := GcdDivides(Abs(a), Abs(b));
    NatQuotient(g, ka);
    k := if a < 0 then -kb else kb;
    l := if b < 0 then -ka else ka;
    NegatedFactor(a, kb);
    NegatedFactor(b, ka);
    Associate(ka, g, kb);
    Associate(g, ka, kb);
    SignOfProduct(g, ka);
    SignOfProduct(ka, Abs(b));
  }

  lemma {:induction false} LcmIsMultiple(a: int, b: int)
    requires a != 0 && b != 0
    ensures Lcm(a, b) > 0
  {
    var k, l := LcmFactors(a, b);
  }

  // ---------------------------------------------------------------- comparisons

  /** On positive denominators the comparisons by cross multiplication compare the numbers. */
  lemma {:induction false} ComparisonsAreExact(l: Rational, r: Rational, v: real, w: real)
    requires l.denominator > 0 && r.denominator > 0 && l.Means(v) && r.Means(w)
    ensures Less(l, r) <==> v < w
    ensures Greater(l, r) <==> v > w
    ensures Equal(l, r) <==> v == w
    ensures AtMost(l, r) <==> v <= w
    ensures AtLeast(l, r) <==> v >= w
  {
    var ld, rd := l.denominator as real, r.denominator as real;
    CastProduct(l.numerator, r.denominator);
    CastProduct(r.numerator, l.denominator);
    RealAssociate(v, ld, rd);
    RealAssociate(w, rd, ld);
    CastProduct(l.denominator, r.denominator);
    SignOfProduct(l.denominator, r.denominator);
    SameOrder(v, w, ld * rd);
  }

  lemma {:induction false} SameOrder(v: real, w: real, c: real)
    requires c > 0.0
    ensures v < w <==> v * c < w * c
    ensures v == w <==> v * c == w * c
  {
  }

  /** Two canonical fractions compare equal only if they are the same. */
  lemma {:induction false} CanonicalIsUnique(l: Rational, r: Rational)
    requires l.Canonical() && r.Canonical()
    ensures Equal(l, r) <==> l == r
  {
    if Equal(l, r) {
      Gauss(l.denominator, l.numerator, r.denominator, r.numerator);
      Gauss(r.denominator, r.numerator, l.denominator, l.numerator);
      MutualDivisors(l.denominator, r.denominator);
      Cancel(l.denominator, l.numerator, r.numerator);
    }
  }

  /** The canonical form of a number: whatever is canonical and means what a fraction means is its simplification. */
  lemma {:induction false} SimplifyIsUnique(r: Rational, s: Rational, v: real)
    requires r.Means(v) && s.Means(v) && s.Canonical()
    ensures s == Simplify(r)
  {
    SimplifyIsExact(r, v);
    SimplifyIsCanonical(r);
    ComparisonsAreExact(s, Simplify(r), v, v);
    CanonicalIsUnique(s, Simplify(r));
  }

  /** Simplifying twice is simplifying once. */
  lemma {:induction false} SimplifyOnce(r: Rational)
    requires r.Defined()
    ensures Simplify(r).Defined() && Simplify(Simplify(r)) == Simplify(r)
  {
    SimplifyIsCanonical(r);
    SimplifyIsUnique(Simplify(r), Simplify(r), Quotient(Simplify(r)));
  }

  /** `<` is a strict total order on canonical fractions. */
  lemma {:induction false} LessIsStrictTotalOrder(x: Rational, y: Rational, z: Rational)
    requires x.Canonical() && y.Canonical() && z.Canonical()
    ensures !Less(x, x)
    ensures Less(x, y) && Less(y, z) ==> Less(x, z)
    ensures Less(x, y) || x == y || Less(y, x)
    ensures !(Less(x, y) && Less(y, x))
  {
    var u, v, w := Quotient(x), Quotient(y), Quotient(z);
    ComparisonsAreExact(x, y, u, v);
    ComparisonsAreExact(y, z, v, w);
    ComparisonsAreExact(x, z, u, w);
    CanonicalIsUnique(x, y);
  }

  /** The number that a fraction means. */
  ghost function Quotient(r: Rational): (v: real)
    requires r.Defined()
    ensures r.Means(v)
  {
    MeansQuotient(r, r.numerator as real / r.denominator as real);
    r.numerator as real / r.denominator as real
  }

  // ---------------------------------------------------------------- arithmetic

  /** The raw sum is over the common multiple of the denominators. */
  lemma {:induction false} RawSumIs(l: Rational, r: Rational) returns (j: int, k: int)
    requires l.Defined() && r.Defined()
    ensures j != 0 && k != 0 && l.denominator * j == r.denominator * k
    ensures RawSum(l, r) == Rational(l.numerator * j + r.numerator * k, l.denominator * j)
  {
    j, k := LcmFactors(l.denominator, r.denominator);
    var lcm := Lcm(l.denominator, r.denominator);
    SignOfProduct(l.denominator, j);
    SignOfProduct(r.denominator, k);
    ExactQuotient(l.denominator, lcm, j);
    ExactQuotient(r.denominator, lcm, k);
  }

  lemma {:induction false} RawSumMeans(l: Rational, r: Rational, v: real, w: real)
    requires l.Means(v) && r.Means(w)
    ensures RawSum(l, r).Means(v + w)
  {
    LcmIsMultiple(l.denominator, r.denominator);
    var j, k := RawSumIs(l, r);
    CommonFactor(l.numerator, l.denominator, j, v);
    CommonFactor(r.numerator, r.denominator, k, w);
    SumOverSame(l.numerator * j, r.numerator * k, l.denominator * j, v, w);
  }

  lemma {:induction false} AddIsExact(l: Rational, r: Rational, v: real, w: real)
    requires l.Means(v) && r.Means(w)
    ensures Add(l, r).Canonical() && Add(l, r).Means(v + w)
  {
    RawSumMeans(l, r, v, w);
    SimplifyTwice(RawSum(l, r), v + w);
  }

  lemma {:induction false} SimplifyTwice(r: Rational, v: real)
    requires r.Means(v)
    ensures Simplify(r).Defined() && Simplify(Simplify(r)).Canonical() && Simplify(Simplify(r)).Means(v)
  {
    SimplifyIsExact(r, v);
    SimplifyIsExact(Simplify(r), v);
    SimplifyIsCanonical(Simplify(r));
  }

  lemma {:induction false} NegateIsExact(r: Rational, v: real)
    requires r.Means(v)
    ensures Negate(r).Canonical() && Negate(r).Means(-v)
  {
    NegatedParts(r.numerator, r.denominator, v);
    SimplifyIsExact(Rational(-r.numerator, r.denominator), -v);
    SimplifyIsCanonical(Rational(-r.numerator, r.denominator));
  }

  lemma {:induction false} SubtractIsExact(l: Rational, r: Rational, v: real, w: real)
    requires l.Means(v) && r.Means(w)
    ensures Subtract(l, r).Canonical() && Subtract(l, r).Means(v - w)
  {
    NegateIsExact(r, w);
    AddIsExact(l, Negate(r), v, -w);
  }

  lemma {:induction false} MultiplyIsExact(l: Rational, r: Rational, v: real, w: real)
    requires l.Means(v) && r.Means(w)
    ensures Multiply(l, r).Canonical() && Multiply(l, r).Means(v * w)
  {
    SignOfProduct(l.denominator, r.denominator);
    var raw := Rational(l.numerator * r.numerator, l.denominator * r.denominator);
    CastProduct(l.numerator, r.numerator);
    CastProduct(l.denominator, r.denominator);
    ProductOfProducts(v, w, l.denominator as real, r.denominator as real);
    SimplifyTwice(raw, v * w);
  }

  lemma {:induction false} MultiplyIsCanonical(l: Rational, r: Rational)
    requires l.Defined() && r.Defined()
    ensures Multiply(l, r).Canonical()
  {
    MultiplyIsExact(l, r, Quotient(l), Quotient(r));
  }

  lemma {:induction false} ProductOfProducts(a: real, b: real, c: real, d: real)
    ensures (a * b) * (c * d) == (a * c) * (b * d)
  {
  }

  /** The reciprocal means the inverse. */
  lemma {:induction false} ReciprocalIsExact(r: Rational, w: real)
    requires r.Means(w) && r.numerator != 0
    ensures w != 0.0 && Reciprocal(r).Means(1.0 / w)
  {
    assert w != 0.0;
    var u := 1.0 / w;
    assert u * w == 1.0;
    RealAssociate(u, w, r.denominator as real);
    SimplifyIsExact(Rational(r.denominator, r.numerator), u);
  }

  lemma {:induction false} DivideIsExact(l: Rational, r: Rational, v: real, w: real)
    requires l.Means(v) && r.Means(w) && r.numerator != 0
    ensures w != 0.0 && Divide(l, r).Canonical() && Divide(l, r).Means(v / w)
  {
    ReciprocalIsExact(r, w);
    var u := 1.0 / w;
    assert v * u == v / w by {
      assert u * w == 1.0;
      RealAssociate(v, u, w);
      RealCancel(v * u, v / w, w);
    }
    MultiplyIsExact(l, Reciprocal(r), v, u);
  }

  // ---------------------------------------------------------------- rounding up

  /** The least integer that is not below the fraction. */
  predicate IsCeiling(c: int, r: Rational) {
    r.numerator <= c * r.denominator && (c - 1) * r.denominator < r.numerator
  }

  /** Rounding up is right exactly if the fraction is above -1 or its numerator is one more than a multiple of the
      denominator: division rounds towards zero, so for other negative fractions the result is one too large. */
  lemma {:induction false} CeilIsCeiling(r: Rational)
    requires r.denominator > 0
    ensures IsCeiling(Ceil(r), r) <==> r.numerator > -r.denominator || (r.numerator - 1) % r.denominator == 0
    ensures !IsCeiling(Ceil(r), r) ==> IsCeiling(Ceil(r) - 1, r)
  {
    var n, d := r.numerator, r.denominator;
    var q, m := (n - 1) / d, (n - 1) % d;
    assert n - 1 == d * q + m;
    // q + 1 is the ceiling
    Distribute(d, q, 1);
    assert IsCeiling(q + 1, r);
    if n > -d {
      DivisionIsUnique(n + d - 1, d, q + 1, m);
      assert Ceil(r) == q + 1;
    } else if m == 0 {
      ExactQuotient(d, n + d - 1, q + 1);
    } else {
      // -(n + d - 1) lies strictly between multiples of d
      Distribute(d, -(q + 1), 1);
      Distribute(d, -(q + 1) - 1, 1);
      assert d * (-(q + 1)) == -(d * (q + 1)) && d * (-(q + 1) - 1) == -(d * (q + 1)) - d;
      DivisionIsUnique(-(n + d - 1), d, -(q + 1) - 1, d - m);
      assert Ceil(r) == q + 2;
    }
  }

  lemma {:induction false} CeilingIsUnique(c: int, c': int, r: Rational)
    requires r.denominator > 0 && IsCeiling(c, r) && IsCeiling(c', r)
    ensures c == c'
  {
    Monotone(c, c' - 1, r.denominator);
    Monotone(c', c - 1, r.denominator);
  }

  lemma {:induction false} Monotone(x: int, y: int, d: int)
    requires d > 0
    ensures x <= y ==> x * d <= y * d
  {
  }
}
