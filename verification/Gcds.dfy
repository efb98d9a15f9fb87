/** Greatest common divisors, exact division, and the facts about them that fractions need. */
module Gcds {

  function Abs(x: int): nat {
    if x < 0 then -x else x
  }

  /** Division of C++: it rounds towards zero. */
  function TruncDiv(a: int, b: int): int
    requires b != 0
  {
    var q := Abs(a) / Abs(b);
    if (a < 0) == (b < 0) then q else -q
  }

  /** `d` divides `a` with quotient `k`. */
  predicate DividesBy(d: int, a: int, k: int) {
    a == d * k
  }

  ghost predicate Divides(d: int, a: int) {
    exists k :: DividesBy(d, a, k)
  }

  /** std::gcd on absolute values. */
  function Gcd(a: nat, b: nat): (g: nat)
    ensures a > 0 || b > 0 ==> g > 0
    decreases b
  {
    if b == 0 then a else Gcd(b, a % b)
  }

  lemma {:induction false} ExactQuotient(d: int, a: int, k: int)
    requires d != 0 && a == d * k
    ensures TruncDiv(a, d) == k
  {
    AbsProduct(d, k);
    NatQuotient(Abs(d), Abs(k));
    SignOfProduct(d, k);
  }

  lemma {:induction false} AbsProduct(x: int, y: int)
    ensures Abs(x * y) == Abs(x) * Abs(y)
  {
    assert (-x) * y == -(x * y) && x * (-y) == -(x * y) && (-x) * (-y) == x * y;
    if x >= 0 && y >= 0 {
      SignOfProduct(x, y);
    } else if x >= 0 {
      SignOfProduct(x, -y);
    } else if y >= 0 {
      SignOfProduct(-x, y);
    } else {
      SignOfProduct(-x, -y);
    }
  }

  lemma {:induction false} SignOfProduct(x: int, y: int)
    ensures x * y == 0 <==> x == 0 || y == 0
    ensures x != 0 && y != 0 ==> (x * y < 0 <==> (x < 0) != (y < 0))
  {
  }

  lemma {:induction false} NatQuotient(d: nat, k: nat)
    requires d > 0
    ensures d * k / d == k
  {
    assert (d * k) == d * k + 0;
    DivisionIsUnique(d * k, d, k, 0);
  }

  lemma {:induction false} Distribute(x: int, y: int, z: int)
    ensures x * (y + z) == x * y + x * z && x * (y - z) == x * y - x * z
  {
  }

  lemma {:induction false} Associate(x: int, y: int, z: int)
    ensures (x * y) * z == x * (y * z) == y * (x * z)
  {
  }

  /** A multiple of `d` that is smaller than `d` is zero. */
  lemma {:induction false} SmallMultiple(d: int, m: int)
    requires d > 0 && -d < d * m < d
    ensures m == 0
  {
    if m > 0 {
      Distribute(d, m - 1, 1);
      SignOfProduct(d, m - 1);
    } else if m < 0 {
      Distribute(d, m + 1, -1);
      SignOfProduct(d, m + 1);
    }
  }

  lemma {:induction false} DivisionIsUnique(a: int, d: int, q: int, r: int)
    requires d > 0 && a == d * q + r && 0 <= r < d
    ensures a / d == q && a % d == r
  {
    var q', r' := a / d, a % d;
    assert a == d * q' + r';
    Distribute(d, q, q');
    SmallMultiple(d, q - q');
  }

  /** The greatest common divisor is a combination of the two numbers. */
  lemma {:induction false} Bezout(a: nat, b: nat) returns (x: int, y: int)
    ensures a * x + b * y == Gcd(a, b)
    decreases b
  {
    if b == 0 {
      x, y := 1, 0;
    } else {
      var x', y' := Bezout(b, a % b);
      x, y := y', x' - a / b * y';
      BezoutStep(a, b, a / b, a % b, x', y');
    }
  }

  lemma {:induction false} BezoutStep(a: int, b: int, q: int, r: int, x: int, y: int)
    requires a == b * q + r
    ensures b * x + r * y == a * y + b * (x - q * y)
  {
    Distribute(b, x, q * y);
    Associate(b, q, y);
    Distribute(y, b * q, r);
  }

  /** The greatest common divisor divides both numbers. */
  lemma {:induction false} GcdDivides(a: nat, b: nat) returns (k: nat, l: nat)
    ensures a == Gcd(a, b) * k && b == Gcd(a, b) * l
    decreases b
  {
    var g := Gcd(a, b);
    if b == 0 {
      k, l := 1, 0;
    } else {
      var m;
      l, m := GcdDivides(b, a % b);
      var q := a / b;
      k := l * q + m;
      Distribute(g, l * q, m);
      Associate(g, l, q);
    }
  }

  /** Any common divisor divides the greatest one. */
  lemma {:induction false} GcdIsGreatest(a: nat, b: nat, d: int)
    requires Divides(d, a) && Divides(d, b)
    ensures Divides(d, Gcd(a, b))
  {
    var k :| DividesBy(d, a, k);
    var l :| DividesBy(d, b, l);
    var x, y := Bezout(a, b);
    Distribute(d, k * x, l * y);
    Associate(d, k, x);
    Associate(d, l, y);
    assert DividesBy(d, Gcd(a, b), k * x + l * y);
  }

  lemma {:induction false} GaussStep(d: int, a: int, b: int, k: int, s: int, y: int)
    requires a * s + d * y == 1 && a * b == d * k
    ensures b == d * (k * s + b * y)
  {
    calc {
      b;
      b * (a * s + d * y);
      { Distribute(b, a * s, d * y); }
      b * (a * s) + b * (d * y);
      { Associate(a, b, s); Associate(d, b, y); }
      (a * b) * s + d * (b * y);
      { Associate(d, k, s); }
      d * (k * s) + d * (b * y);
      { Distribute(d, k * s, b * y); }
      d * (k * s + b * y);
    }
  }

  /** Gauss's lemma: what divides a product and is coprime to one factor divides the other. */
  lemma {:induction false} Gauss(d: nat, a: int, b: int, k: int)
    requires Gcd(Abs(a), d) == 1 && a * b == d * k
    ensures Divides(d, b)
  {
    var x, y := Bezout(Abs(a), d);
    var s := if a < 0 then -x else x;
    assert Abs(a) * x == a * s;
    GaussStep(d, a, b, k, s, y);
    assert DividesBy(d, b, k * s + b * y);
  }

  lemma {:induction false} MutualDivisors(a: nat, b: nat)
    requires a > 0 && b > 0 && Divides(a, b) && Divides(b, a)
    ensures a == b
  {
    var k :| DividesBy(a, b, k);
    var l :| DividesBy(b, a, l);
    assert k > 0 && l > 0 by {
      SignOfProduct(a, k);
      SignOfProduct(b, l);
    }
    assert b >= a by {
      assert a * k >= a * 1;
    }
    assert a >= b by {
      assert b * l >= b * 1;
    }
  }

  /** Dividing two numbers by their greatest common divisor leaves coprime ones. */
  lemma {:induction false} ReducedIsCoprime(a: nat, b: nat, k: nat, l: nat)
    requires a > 0 || b > 0
    requires a == Gcd(a, b) * k && b == Gcd(a, b) * l
    ensures Gcd(k, l) == 1
  {
    var g, h := Gcd(a, b), Gcd(k, l);
    var m, n := GcdDivides(k, l);
    Associate(g, h, m);
    Associate(g, h, n);
    assert DividesBy(g * h, a, m) && DividesBy(g * h, b, n);
    GcdIsGreatest(a, b, g * h);
    var q :| DividesBy(g * h, g, q);
    Associate(g, h, q);
    Cancel(g, h * q, 1);
    UnitProduct(h, q);
  }

  lemma {:induction false} UnitProduct(h: nat, q: int)
    requires h * q == 1
    ensures h == 1
  {
    SignOfProduct(h, q);
    if h > 1 {
      Distribute(h, q - 1, 1);
      SignOfProduct(h, q - 1);
    }
  }

  lemma {:induction false} Cancel(g: int, x: int, y: int)
    requires g != 0 && g * x == g * y
    ensures x == y
  {
    assert g * (x - y) == 0;
    SignOfProduct(g, x - y);
  }
}
