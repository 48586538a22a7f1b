/** The integer facts fraction normalisation rests on: Python's `math.gcd`
    and divisibility, with the lemmas that make the greatest common divisor
    the greatest one. */
module NumberTheory {

  function Abs(x: int): nat
  {
    if x < 0 then -x else x
  }

  /** `c` divides `a`; zero divides only zero. */
  predicate Divides(c: int, a: int)
  {
    if c == 0 then a == 0 else a % c == 0
  }

  /** Euclid's algorithm on natural numbers. Python's `math.gcd(a, b)` is
      `Gcd(Abs(a), Abs(b))`: never negative, and `gcd(0, 0) == 0`. */
  function Gcd(a: nat, b: nat): nat
    decreases b
  {
    if b == 0 then a else Gcd(b, a % b)
  }

  /** A non-zero multiple of `b` is at least `b` in absolute value. */
  lemma ProductBound(b: int, m: int)
    requires m != 0
    ensures Abs(b * m) >= Abs(b)
  {
  }

  /** Euclidean division is unique: any quotient and remainder in range are
      the ones `/` and `%` produce. */
  lemma DivModUnique(a: int, b: int, q: int, r: int)
    requires b != 0 && a == b * q + r && 0 <= r < Abs(b)
    ensures a / b == q && a % b == r
  {
    var q', r' := a / b, a % b;
    assert a == b * q' + r' && 0 <= r' < Abs(b);
    assert b * (q - q') == r' - r;
    if q != q' {
      ProductBound(b, q - q');
    }
  }

  /** A multiple of `c` is divisible by `c`, and dividing gives the factor back. */
  lemma MulDivCancel(c: int, k: int)
    requires c != 0
    ensures (c * k) % c == 0 && (c * k) / c == k
  {
    DivModUnique(c * k, c, k, 0);
  }

  lemma DividesWitness(c: int, a: int)
    requires c != 0 && Divides(c, a)
    ensures a == c * (a / c)
  {
  }

  lemma DividesNegation(c: int, a: int)
    requires c != 0 && Divides(c, a)
    ensures Divides(c, -a) && Divides(c, Abs(a)) && Divides(-c, a)
  {
    var k := a / c;
    assert a == c * k;
    MulDivCancel(c, -k);
    assert -a == c * (-k);
    MulDivCancel(-c, -k);
    assert a == (-c) * (-k);
  }

  /** A common divisor of `a` and `b` divides `a - m * b`. */
  lemma DividesCombination(c: int, a: int, b: int, m: int)
    requires c != 0 && Divides(c, a) && Divides(c, b)
    ensures Divides(c, a - m * b)
  {
    var x, y := a / c, b / c;
    assert a == c * x && b == c * y;
    assert a - m * b == c * (x - m * y);
    MulDivCancel(c, x - m * y);
  }

  /** A non-zero multiple of `c` is at least as large as `c` in absolute value. */
  lemma DividesBound(c: int, a: int)
    requires c != 0 && a != 0 && Divides(c, a)
    ensures Abs(c) <= Abs(a)
  {
  }

  lemma {:induction false} GcdPositive(a: nat, b: nat)
    requires a > 0 || b > 0
    ensures Gcd(a, b) > 0
    decreases b
  {
    if b > 0 {
      GcdPositive(b, a % b);
    }
  }

  /** `Gcd(a, b)` is a common divisor of `a` and `b`. */
  lemma {:induction false} GcdDivides(a: nat, b: nat)
    ensures Divides(Gcd(a, b), a) && Divides(Gcd(a, b), b)
    decreases b
  {
    if b > 0 {
      var g := Gcd(b, a % b);
      GcdDivides(b, a % b);
      GcdPositive(b, a % b);
      // a == (a / b) * b + a % b, and g divides both summands
      DividesCombination(g, a % b, b, -(a / b));
      assert a % b - (-(a / b)) * b == a;
    } else if a > 0 {
      MulDivCancel(a, 1);
    }
  }

  /** Every common divisor of `a` and `b` divides `Gcd(a, b)`: the greatest
      common divisor is the greatest. */
  lemma {:induction false} GcdGreatest(a: nat, b: nat, c: int)
    requires c != 0 && Divides(c, a) && Divides(c, b)
    ensures Divides(c, Gcd(a, b))
    decreases b
  {
    if b > 0 {
      DividesCombination(c, a, b, a / b);
      assert a - (a / b) * b == a % b;
      GcdGreatest(b, a % b, c);
    }
  }

  /** Scaling both arguments scales the greatest common divisor. */
  lemma {:induction false} GcdScale(k: nat, a: nat, b: nat)
    requires k > 0
    ensures Gcd(k * a, k * b) == k * Gcd(a, b)
    decreases b
  {
    if b > 0 {
      ModScale(k, a, b);
      GcdScale(k, b, a % b);
    }
  }

  lemma ModScale(k: nat, a: nat, b: nat)
    requires k > 0 && b > 0
    ensures k * b > 0 && (k * a) % (k * b) == k * (a % b)
  {
    var q, r := a / b, a % b;
    assert a == b * q + r;
    assert k * a == (k * b) * q + k * r by {
      assert k * (b * q + r) == (k * b) * q + k * r;
    }
    assert 0 <= k * r < k * b by {
      assert k * (b - r) > 0;
    }
    DivModUnique(k * a, k * b, q, k * r);
  }

  /** After dividing out the greatest common divisor, what is left is coprime. */
  lemma CoprimeCofactors(a: nat, b: nat, g: nat)
    requires g > 0 && Divides(g, a) && Divides(g, b) && Gcd(a, b) == g
    ensures Gcd(a / g, b / g) == 1
  {
    var x: nat, y: nat := a / g, b / g;
    DividesWitness(g, a);
    DividesWitness(g, b);
    GcdScale(g, x, y);
    CancelFactor(g, Gcd(x, y));
  }

  lemma CancelFactor(g: int, h: int)
    requires g != 0 && g * h == g
    ensures h == 1
  {
  }

  /** Euclid's lemma: a divisor of a product that is coprime with one factor
      divides the other. */
  lemma CoprimeDividesProduct(c: nat, a: nat, b: nat)
    requires c > 0 && Gcd(a, c) == 1 && Divides(c, a * b)
    ensures Divides(c, b)
  {
    if b > 0 {
      GcdScale(b, a, c);
      assert Gcd(b * a, b * c) == b;
      MulDivCancel(c, b);
      assert Divides(c, b * c);
      GcdGreatest(b * a, b * c, c);
    }
  }

  lemma GcdOne(a: nat)
    ensures Gcd(a, 1) == 1 && Gcd(1, a) == 1
  {
  }
}
