/** Greatest common divisors and least common multiples (std::gcd and its uses). */
module NumberTheory {

  function Gcd(a: nat, b: nat): (g: nat)
    decreases b
  {
    if b == 0 then a else Gcd(b, a % b)
  }

  ghost predicate Divides(d: int, n: int) {
    exists k: int :: n == d * k
  }

  lemma Factor(d: int, n: int, k: int)
    requires n == d * k
    ensures Divides(d, n)
  {
  }

  lemma DividesSum(d: int, a: int, b: int, x: int, y: int)
    requires Divides(d, a) && Divides(d, b)
    ensures Divides(d, a * x + b * y)
  {
    var i, j :| a == d * i && b == d * j;
    hide Divides;
    SumOfMultiples(d, i, j, x, y);
    Factor(d, a * x + b * y, i * x + j * y);
  }

  lemma SumOfMultiples(d: int, i: int, j: int, x: int, y: int)
    ensures (d * i) * x + (d * j) * y == d * (i * x + j * y)
  {
    Assoc(d, i, x);
    Assoc(d, j, y);
  }

  lemma DividesQuotient(d: nat, n: int)
    requires d > 0 && Divides(d, n)
    ensures n == d * (n / d) && n % d == 0
  {
    var k :| n == d * k;
    DivisionUnique(n, d, k, 0);
  }

  lemma DivisionUnique(n: int, d: int, k: int, r: int)
    requires d > 0 && 0 <= r < d && n == d * k + r
    ensures n / d == k && n % d == r
  {
    var q, m := n / d, n % d;
    assert n == d * q + m;
    assert d * (q - k) == r - m by {
      assert d * (q - k) == d * q - d * k;
    }
    Between(d, q - k);
  }

  /** A multiple of `d` strictly between `-d` and `d` is zero. */
  lemma Between(d: int, k: int)
    requires d > 0
    ensures -d < d * k < d ==> k == 0
  {
    FactorOrder(d, k, 1);
    FactorOrder(d, -1, k);
  }

  lemma FactorMonotone(d: nat, x: int, y: int)
    requires x <= y
    ensures d * x <= d * y
  {
  }

  lemma FactorOrder(d: int, x: int, y: int)
    requires d > 0
    ensures d * x < d * y <==> x < y
    ensures d * x == d * y <==> x == y
  {
    if x < y {
      FactorMonotone(d, x + 1, y);
      assert d * (x + 1) == d * x + d;
    } else {
      FactorMonotone(d, y, x);
      if y < x {
        FactorMonotone(d, y + 1, x);
        assert d * (y + 1) == d * y + d;
      }
    }
  }

  lemma Assoc(a: int, b: int, c: int)
    ensures a * (b * c) == (a * b) * c
    ensures a * (b * c) == b * (a * c)
  {
  }

  lemma DividesBound(d: int, n: int)
    requires n > 0 && d > 0 && Divides(d, n)
    ensures d <= n
  {
    var k :| n == d * k;
    FactorOrder(d, 0, k);
    FactorOrder(d, k, 1);
  }

  lemma {:induction false} GcdDivides(a: nat, b: nat)
    ensures Divides(Gcd(a, b), a) && Divides(Gcd(a, b), b)
    ensures a > 0 || b > 0 ==> Gcd(a, b) > 0
    decreases b
  {
    if b == 0 {
      Factor(a, a, 1);
      Factor(a, 0, 0);
    } else {
      GcdDivides(b, a % b);
      assert a == b * (a / b) + (a % b) * 1;
      DividesSum(Gcd(a, b), b, a % b, a / b, 1);
    }
  }

  lemma {:induction false} Bezout(a: nat, b: nat) returns (x: int, y: int)
    ensures a * x + b * y == Gcd(a, b)
    decreases b
  {
    if b == 0 {
      x, y := 1, 0;
    } else {
      var u, v := Bezout(b, a % b);
      x, y := v, u - (a / b) * v;
      BezoutStep(a, b, a / b, a % b, u, v);
    }
  }

  lemma BezoutStep(a: int, b: int, q: int, r: int, u: int, v: int)
    requires a == b * q + r
    ensures a * v + b * (u - q * v) == b * u + r * v
  {
    assert a * v == (b * q) * v + r * v;
    assert b * (u - q * v) == b * u - b * (q * v);
    assert (b * q) * v == b * (q * v);
  }

  /** Dividing both numbers by their greatest common divisor leaves coprime numbers. */
  lemma ReducedCoprime(a: nat, b: nat, g: nat)
    requires b > 0 && g == Gcd(a, b)
    ensures g > 0 && a == g * (a / g) && b == g * (b / g) && b / g > 0
    ensures a % g == 0 && b % g == 0
    ensures Gcd(a / g, b / g) == 1
  {
    GcdDivides(a, b);
    DividesQuotient(g, a);
    DividesQuotient(g, b);
    var i, j := a / g, b / g;
    FactorOrder(g, 0, j);
    FactorOrder(g, -1, i);
    var x, y := Bezout(a, b);
    CommonFactorOut(g, i, j, x, y);
    hide Gcd;
    CoprimeFromBezout(i, j, x, y);
  }

  lemma CommonFactorOut(g: int, i: int, j: int, x: int, y: int)
    requires g > 0 && (g * i) * x + (g * j) * y == g
    ensures i * x + j * y == 1
  {
    Assoc(g, i, x);
    Assoc(g, j, y);
    assert g * (i * x + j * y) == g * (i * x) + g * (j * y);
    FactorOrder(g, i * x + j * y, 1);
  }

  lemma CoprimeFromBezout(i: nat, j: nat, x: int, y: int)
    requires i * x + j * y == 1
    ensures Gcd(i, j) == 1
  {
    GcdDivides(i, j);
    hide Gcd;
    if i == 0 && j == 0 {
      assert false;
    }
    DividesSum(Gcd(i, j), i, j, x, y);
    DividesBound(Gcd(i, j), 1);
  }

  /** Euclid's lemma. */
  lemma CoprimeDivides(d: nat, a: nat, n: int)
    requires d > 0 && Gcd(a, d) == 1 && Divides(d, a * n)
    ensures Divides(d, n)
  {
    hide Gcd, Divides;
    var x, y := Bezout(a, d);
    Factor(d, d * (y * n), y * n);
    UnitTimes(a, d, x, y, n);
    DividesSum(d, a * n, d * (y * n), x, 1);
  }

  lemma UnitTimes(a: int, d: int, x: int, y: int, n: int)
    requires a * x + d * y == 1
    ensures (a * n) * x + (d * (y * n)) * 1 == n
  {
    Assoc(n, a, x);
    Assoc(d, y, n);
    assert n * (a * x + d * y) == n * (a * x) + n * (d * y);
    Commutes(a, n);
    Commutes(n, d * y);
  }

  lemma Commutes(a: int, b: int)
    ensures a * b == b * a
  {
  }

  /** Equal reduced fractions have equal numerators and denominators. */
  lemma ReducedUnique(a: nat, b: nat, c: nat, d: nat)
    requires b > 0 && d > 0 && a * d == c * b
    requires Gcd(a, b) == 1 && Gcd(c, d) == 1
    ensures a == c && b == d
  {
    hide Gcd;
    Factor(b, a * d, c);
    CoprimeDivides(b, a, d);
    Factor(d, c * b, a);
    CoprimeDivides(d, c, b);
    hide Divides;
    DividesBound(b, d);
    DividesBound(d, b);
    FactorOrder(b, a, c);
  }

  // ----- Least common multiple -----

  function Lcm(a: nat, b: nat): nat
    requires a > 0 && b > 0
  {
    ReducedCoprime(a, b, Gcd(a, b));
    LcmFactors(a, b, Gcd(a, b), a / Gcd(a, b), b / Gcd(a, b));
    a / Gcd(a, b) * b
  }

  lemma LcmDivides(a: nat, b: nat)
    requires a > 0 && b > 0
    ensures Lcm(a, b) > 0
    ensures Divides(a, Lcm(a, b)) && Divides(b, Lcm(a, b))
  {
    hide Gcd;
    var g := Gcd(a, b);
    ReducedCoprime(a, b, g);
    var i, j := a / g, b / g;
    LcmFactors(a, b, g, i, j);
    Factor(a, i * b, j);
    Factor(b, i * b, i);
  }

  lemma LcmFactors(a: nat, b: nat, g: nat, i: int, j: int)
    requires a > 0 && b > 0 && g > 0 && a == g * i && b == g * j
    ensures i * b == a * j && i * b == b * i && i * b > 0 && i > 0
  {
    Assoc(i, g, j);
    FactorOrder(g, 0, i);
    FactorOrder(b, 0, i);
  }

  /** The least common multiple divides every common multiple. */
  lemma LcmLeast(a: nat, b: nat, m: int)
    requires a > 0 && b > 0 && Divides(a, m) && Divides(b, m)
    ensures Divides(Lcm(a, b), m)
  {
    hide Gcd;
    var g := Gcd(a, b);
    ReducedCoprime(a, b, g);
    var i, j := a / g, b / g;
    var s: int :| m == a * s;
    var t: int :| m == b * t;
    hide Divides;
    Assoc(g, i, s);
    Assoc(g, j, t);
    FactorOrder(g, i * s, j * t);
    Factor(j, i * s, t);
    LcmFactors(a, b, g, i, j);
    CoprimeDivides(j, i, s);
    LcmMultiple(a, b, i, j, s, m);
  }

  lemma LcmMultiple(a: nat, b: nat, i: int, j: int, s: int, m: int)
    requires i * b == a * j && m == a * s && Divides(j, s)
    ensures Divides(i * b, m)
  {
    var u :| s == j * u;
    Assoc(a, j, u);
    Factor(i * b, m, u);
  }
}
