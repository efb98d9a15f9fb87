/** The arithmetic of rationals in 64-bit integers, as the source computes it. Every intermediate value has the type
int64, so that none of them leaves its range is part of what is verified; each operation yields what the operation on
unbounded integers yields. */
module RationalsInt64 {
  import opened Gcds
  import opened Words
  import opened Wrappers
  import R = Rationals

  datatype Rational64 = Rational64(numerator: int64, denominator: int64) {
    function Unbounded(): R.Rational {
      R.Rational(numerator as int, denominator as int)
    }

    /** A simplified fraction whose parts have magnitudes below 2^31. */
    predicate Small() {
      && -0x8000_0000 < numerator < 0x8000_0000
      && 0 < denominator < 0x8000_0000
    }
  }

  lemma {:induction false} ProductBound(x: int, y: int, b: int, c: int)
    requires -b <= x <= b && -c <= y <= c
    ensures -(b * c) <= x * y <= b * c
  {
    AbsProduct(x, y);
    assert Abs(x) * Abs(y) <= b * Abs(y) by {
      R.Monotone(Abs(x), b, Abs(y) + 1);
      Distribute(Abs(x), Abs(y), 1);
      MonotoneNat(Abs(x), b, Abs(y));
    }
    MonotoneNat(Abs(y), c, b);
  }

  lemma {:induction false} MonotoneNat(x: int, y: int, d: int)
    requires d >= 0 && x <= y
    ensures x * d <= y * d
  {
  }

  /** A divisor of a non-zero number is no larger. */
  lemma {:induction false} DivisorBound(g: int, k: int)
    requires g >= 1 && k >= 0
    ensures k <= g * k
  {
    MonotoneNat(1, g, k);
  }

  function Simplify(n: int64, d: int64): (r: Rational64)
    requires d != 0 && n > -0x8000_0000_0000_0000 && d > -0x8000_0000_0000_0000
    ensures r.Unbounded() == R.Simplify(R.Rational(n as int, d as int))
  {
    SimplifyBounds(n as int, d as int);
    var g := Gcd(Abs(n as int), Abs(d as int)) as int64;
    var n' := TruncDiv(n as int, g as int) as int64;
    var d' := TruncDiv(d as int, g as int) as int64;
    if d' < 0 then Rational64(-n', -d') else Rational64(n', d')
  }

  lemma {:induction false} SimplifyBounds(n: int, d: int)
    requires d != 0
    ensures var g := Gcd(Abs(n), Abs(d));
      && 1 <= g <= Abs(d)
      && Abs(TruncDiv(n, g)) <= Abs(n)
      && Abs(TruncDiv(d, g)) <= Abs(d)
  {
    var g, k, l := R.SimplifyParts(R.Rational(n, d));
    assert n == k * g && d == l * g;
    AbsProduct(k, g);
    AbsProduct(l, g);
    DivisorBound(g, Abs(k));
    DivisorBound(g, Abs(l));
    DivisorBound(Abs(l), g);
    R.NegatedFactor(g, k);
    R.NegatedFactor(g, l);
    ExactQuotient(g, n, k);
    ExactQuotient(g, d, l);
  }

  function Negate(r: Rational64): (s: Rational64)
    requires r.Small()
    ensures s.Unbounded() == R.Negate(r.Unbounded())
  {
    Simplify(-r.numerator, r.denominator)
  }

  function Multiply(l: Rational64, r: Rational64): (s: Rational64)
    requires l.Small() && r.Small()
    ensures s.Unbounded() == R.Multiply(l.Unbounded(), r.Unbounded())
  {
    ProductBound(l.numerator as int, r.numerator as int, 0x7fff_ffff, 0x7fff_ffff);
    ProductBound(l.denominator as int, r.denominator as int, 0x7fff_ffff, 0x7fff_ffff);
    SignOfProduct(l.denominator as int, r.denominator as int);
    SimplifyTwice(l.numerator * r.numerator, l.denominator * r.denominator)
  }

  /** The constructor simplifies, and so does the operation after it. */
  function SimplifyTwice(n: int64, d: int64): (r: Rational64)
    requires d != 0 && n > -0x8000_0000_0000_0000 && d > -0x8000_0000_0000_0000
    ensures R.Simplify(R.Rational(n as int, d as int)).Defined()
    ensures r.Unbounded() == R.Simplify(R.Simplify(R.Rational(n as int, d as int)))
  {
    R.SimplifyIsCanonical(R.Rational(n as int, d as int));
    SimplifyBounds(n as int, d as int);
    var once := Simplify(n, d);
    Simplify(once.numerator, once.denominator)
  }

  function Divide(l: Rational64, r: Rational64): (s: Rational64)
    requires l.Small() && r.Small() && r.numerator != 0
    ensures s.Unbounded() == R.Divide(l.Unbounded(), r.Unbounded())
  {
    R.SimplifyIsCanonical(R.Rational(r.denominator as int, r.numerator as int));
    SimplifyBounds(r.denominator as int, r.numerator as int);
    Multiply(l, Simplify(r.denominator, r.numerator))
  }

  lemma {:induction false} SumBounds(l: R.Rational, r: R.Rational)
    requires 0 < l.denominator < 0x8000_0000 && 0 < r.denominator < 0x8000_0000
    ensures var g := Gcd(Abs(l.denominator), Abs(r.denominator));
      var lcm := R.Lcm(l.denominator, r.denominator);
      && 1 <= g <= l.denominator
      && 0 <= l.denominator / g <= l.denominator
      && 0 < lcm < 0x4000_0000_0000_0000
      && 0 < TruncDiv(lcm, l.denominator) < 0x8000_0000
      && 0 < TruncDiv(lcm, r.denominator) < 0x8000_0000
  {
    var a, b := l.denominator, r.denominator;
    var g := Gcd(Abs(a), Abs(b));
    var j, k := R.LcmFactors(a, b);
    SignOfProduct(a, j);
    SignOfProduct(b, k);
    ExactQuotient(a, R.Lcm(a, b), j);
    ExactQuotient(b, R.Lcm(a, b), k);
    DivisorBound(g, Abs(j));
    DivisorBound(g, Abs(k));
    SignOfProduct(g, k);
    R.NegatedFactor(g, k);
    DivisorBound(Abs(k), g);
    NatQuotient(g, Abs(k));
    ProductBound(a, j, 0x7fff_ffff, 0x7fff_ffff);
  }

  function Add(l: Rational64, r: Rational64): (s: Rational64)
    requires l.Small() && r.Small()
    ensures s.Unbounded() == R.Add(l.Unbounded(), r.Unbounded())
  {
    SumBounds(l.Unbounded(), r.Unbounded());
    var g := Gcd(Abs(l.denominator as int), Abs(r.denominator as int)) as int64;
    var part := ((l.denominator as int) / (g as int)) as int64;
    var lcm := part * r.denominator;
    var j := TruncDiv(lcm as int, l.denominator as int) as int64;
    var k := TruncDiv(lcm as int, r.denominator as int) as int64;
    ProductBound(l.numerator as int, j as int, 0x7fff_ffff, 0x7fff_ffff);
    ProductBound(r.numerator as int, k as int, 0x7fff_ffff, 0x7fff_ffff);
    SimplifyTwice(l.numerator * j + r.numerator * k, lcm)
  }

  function Subtract(l: Rational64, r: Rational64): (s: Rational64)
    requires l.Small() && r.Small()
    ensures s.Unbounded() == R.Subtract(l.Unbounded(), r.Unbounded())
  {
    R.SimplifyIsCanonical(R.Rational(-(r.numerator as int), r.denominator as int));
    SimplifyBounds(-(r.numerator as int), r.denominator as int);
    Add(l, Negate(r))
  }

  predicate Less(l: Rational64, r: Rational64)
    requires l.Small() && r.Small()
    ensures Less(l, r) <==> R.Less(l.Unbounded(), r.Unbounded())
  {
    ProductBound(l.numerator as int, r.denominator as int, 0x7fff_ffff, 0x7fff_ffff);
    ProductBound(r.numerator as int, l.denominator as int, 0x7fff_ffff, 0x7fff_ffff);
    l.numerator * r.denominator < r.numerator * l.denominator
  }

  predicate Equal(l: Rational64, r: Rational64)
    requires l.Small() && r.Small()
    ensures Equal(l, r) <==> R.Equal(l.Unbounded(), r.Unbounded())
  {
    ProductBound(l.numerator as int, r.denominator as int, 0x7fff_ffff, 0x7fff_ffff);
    ProductBound(r.numerator as int, l.denominator as int, 0x7fff_ffff, 0x7fff_ffff);
    l.numerator * r.denominator == r.numerator * l.denominator
  }

  predicate Greater(l: Rational64, r: Rational64)
    requires l.Small() && r.Small()
    ensures Greater(l, r) <==> R.Greater(l.Unbounded(), r.Unbounded())
  {
    ProductBound(l.numerator as int, r.denominator as int, 0x7fff_ffff, 0x7fff_ffff);
    ProductBound(r.numerator as int, l.denominator as int, 0x7fff_ffff, 0x7fff_ffff);
    l.numerator * r.denominator > r.numerator * l.denominator
  }

  // ---------------------------------------------------------------- operations that may leave the range

  /** A value of int64, or `None` where the source overflows. */
  function Checked(x: int): Option<int64> {
    if -0x8000_0000_0000_0000 <= x < 0x8000_0000_0000_0000 then Some(x as int64) else None
  }

  /** The product; greatest common divisors are undefined for the least int64. */
  function TryMultiply(l: Rational64, r: Rational64): (s: Option<Rational64>)
    requires l.denominator != 0 && r.denominator != 0
    ensures s.Some? <==>
              && Abs(l.numerator as int * r.numerator as int) < TWO_TO_THE_63
              && Abs(l.denominator as int * r.denominator as int) < TWO_TO_THE_63
    ensures s.Some? ==> s.value.Unbounded() == R.Multiply(l.Unbounded(), r.Unbounded())
  {
    SignOfProduct(l.denominator as int, r.denominator as int);
    match (Checked(l.numerator as int * r.numerator as int), Checked(l.denominator as int * r.denominator as int))
    case (Some(n), Some(d)) =>
      if n == -0x8000_0000_0000_0000 || d == -0x8000_0000_0000_0000 then None else Some(SimplifyTwice(n, d))
    case _ => None
  }

  lemma {:induction false} QuotientBound(a: int, d: int)
    requires d > 0
    ensures Abs(TruncDiv(a, d)) <= Abs(a)
  {
    var q := Abs(a) / d;
    DivisorBound(d, q);
  }

  /** Rounding up: the sum is evaluated from the left. */
  function TryCeil(r: Rational64): (c: Option<int64>)
    requires r.denominator > 0
    ensures c.Some? <==> r.numerator as int + r.denominator as int < TWO_TO_THE_63
    ensures c.Some? ==> c.value as int == R.Ceil(r.Unbounded())
  {
    match Checked(r.numerator as int + r.denominator as int)
    case None => None
    case Some(sum) =>
      QuotientBound(sum as int - 1, r.denominator as int);
      Some(TruncDiv((sum - 1) as int, r.denominator as int) as int64)
  }

  /** Exactly when rounding up in 64 bits yields the least integer that is not below the fraction; otherwise it
      overflows or is one too large. */
  lemma {:induction false} TryCeilIsCeiling(r: Rational64)
    requires r.denominator > 0
    ensures var n, d := r.numerator as int, r.denominator as int;
      TryCeil(r).Some? && R.IsCeiling(TryCeil(r).value as int, r.Unbounded())
      <==> n + d < TWO_TO_THE_63 && (n > -d || (n - 1) % d == 0)
    ensures var c := TryCeil(r);
      c.Some? && !R.IsCeiling(c.value as int, r.Unbounded()) ==> R.IsCeiling(c.value as int - 1, r.Unbounded())
  {
    R.CeilIsCeiling(r.Unbounded());
  }
}
