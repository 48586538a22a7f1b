/** Exact rational arithmetic on unbounded integers, as in froots/fraction.py.

    A fraction is a numerator/denominator pair. Every construction goes
    through `Normalize`: a zero numerator becomes 0/1; otherwise, unless the
    denominator is 1, both parts are divided by Python's `math.gcd` of the
    two. Two quirks of the source are kept: the sign of the denominator
    is never normalised (the gcd is non-negative, so a negative denominator
    stays negative), and a zero denominator is accepted, so `n/0` becomes
    `sign(n)/0`. The rational value a fraction stands for is `Value`, a
    Dafny `real`, and is the reference the arithmetic is proved against. */
module Fractions {
  import opened Wrappers
  import opened NumberTheory

  datatype Fraction = Fraction(numerator: int, denominator: int)

  /** The error `toInt` raises: the offending numerator and denominator. */
  datatype NotIntegral = NotIntegral(numerator: int, denominator: int)

  /** The rational number a fraction with a non-zero denominator stands for. */
  function Value(f: Fraction): real
    requires f.denominator != 0
  {
    f.numerator as real / f.denominator as real
  }

  /** Python's `math.gcd` on the two parts of a fraction. */
  function PartsGcd(f: Fraction): nat
  {
    Gcd(Abs(f.numerator), Abs(f.denominator))
  }

  /** Numerator and denominator share no factor other than 1. */
  predicate LowestTerms(f: Fraction)
  {
    PartsGcd(f) == 1
  }

  /** Lowest terms with a positive denominator: the one representation of
      each rational number. */
  predicate Canonical(f: Fraction)
  {
    f.denominator > 0 && LowestTerms(f)
  }

  /** `Fraction.normalize`: zero becomes 0/1; a denominator other than 1 has
      the gcd divided out of both parts; a denominator of 1 is left alone. */
  function Normalize(f: Fraction): (r: Fraction)
    ensures f.numerator == 0 ==> r == Fraction(0, 1)
    ensures f.denominator != 0 ==> r.denominator != 0 && Value(r) == Value(f)
    ensures f.denominator > 0 ==> r.denominator > 0
    ensures f.denominator < 0 && f.numerator != 0 ==> r.denominator < 0
    ensures f.denominator == 0 && f.numerator != 0 ==>
              r == Fraction(if f.numerator > 0 then 1 else -1, 0)
    ensures LowestTerms(r)
  {
    if f.numerator == 0 then
      GcdOne(0);
      Fraction(0, 1)
    else if f.denominator != 1 then
      ReduceByGcd(f);
      Reduced(f)
    else
      GcdOne(Abs(f.numerator));
      f
  }

  /** Both parts divided by their gcd. */
  function Reduced(f: Fraction): Fraction
    requires f.numerator != 0
  {
    GcdPositive(Abs(f.numerator), Abs(f.denominator));
    Fraction(f.numerator / PartsGcd(f), f.denominator / PartsGcd(f))
  }

  /** Dividing out the gcd leaves the parts coprime, keeps the value and the
      sign of the denominator, and turns `n/0` into `sign(n)/0`. */
  lemma ReduceByGcd(f: Fraction)
    requires f.numerator != 0
    ensures LowestTerms(Reduced(f))
    ensures f.denominator != 0 ==>
              Reduced(f).denominator != 0 && Value(Reduced(f)) == Value(f)
    ensures f.denominator > 0 ==> Reduced(f).denominator > 0
    ensures f.denominator < 0 ==> Reduced(f).denominator < 0
    ensures f.denominator == 0 ==>
              Reduced(f) == Fraction(if f.numerator > 0 then 1 else -1, 0)
  {
    var n, d := f.numerator, f.denominator;
    var g := PartsGcd(f);
    GcdPositive(Abs(n), Abs(d));
    GcdDivides(Abs(n), Abs(d));
    CoprimeCofactors(Abs(n), Abs(d), g);
    var x, y := n / g, d / g;
    assert n == g * x by {
      DividesSigned(g, n);
      DividesWitness(g, n);
    }
    assert d == g * y by {
      DividesSigned(g, d);
      DividesWitness(g, d);
    }
    assert Abs(x) == Abs(n) / g && Abs(y) == Abs(d) / g by {
      QuotientAbs(g, n);
      QuotientAbs(g, d);
    }
    assert LowestTerms(Fraction(x, y));
    CofactorSigns(n, d, g, x, y);
    if d == 0 {
      assert g == Abs(n);
      MulDivCancel(g, if n > 0 then 1 else -1);
    }
  }

  /** Cancelling a positive common factor keeps the sign of the denominator
      and the value of the quotient. */
  lemma CofactorSigns(n: int, d: int, g: int, x: int, y: int)
    requires g > 0 && n == g * x && d == g * y
    ensures d > 0 ==> y > 0
    ensures d < 0 ==> y < 0
    ensures d != 0 ==> y != 0 && x as real / y as real == n as real / d as real
  {
  }

  /** Dividing by a positive divisor commutes with taking absolute values. */
  lemma QuotientAbs(g: int, x: int)
    requires g > 0 && x == g * (x / g)
    ensures Abs(x / g) == Abs(x) / g
  {
    if x < 0 {
      MulDivCancel(g, -(x / g));
      assert -x == g * (-(x / g));
    } else {
      MulDivCancel(g, x / g);
    }
  }

  /** A divisor of `Abs(x)` divides `x`. */
  lemma DividesSigned(g: int, x: int)
    requires g != 0 && Divides(g, Abs(x))
    ensures Divides(g, x)
  {
    if x < 0 {
      DividesNegation(g, Abs(x));
    }
  }

  /** `Fraction(numerator, denominator=1)`: `__init__` stores the two parts
      and normalises them. */
  function Create(numerator: int, denominator: int := 1): (r: Fraction)
    ensures LowestTerms(r)
    ensures denominator != 0 ==>
              r.denominator != 0 && Value(r) == numerator as real / denominator as real
    ensures denominator > 0 ==> Canonical(r)
  {
    Normalize(Fraction(numerator, denominator))
  }

  /** `add`: the cross-multiplied sum, normalised. */
  function Add(a: Fraction, b: Fraction): (r: Fraction)
    ensures LowestTerms(r)
    ensures a.denominator != 0 && b.denominator != 0 ==>
              r.denominator != 0 && Value(r) == Value(a) + Value(b)
    ensures a.denominator > 0 && b.denominator > 0 ==> Canonical(r)
  {
    var r := Create(a.numerator * b.denominator + b.numerator * a.denominator,
                    a.denominator * b.denominator);
    SumValue(a, b);
    r
  }

  /** `subtract`: the cross-multiplied difference, normalised. */
  function Subtract(a: Fraction, b: Fraction): (r: Fraction)
    ensures LowestTerms(r)
    ensures a.denominator != 0 && b.denominator != 0 ==>
              r.denominator != 0 && Value(r) == Value(a) - Value(b)
    ensures a.denominator > 0 && b.denominator > 0 ==> Canonical(r)
  {
    var r := Create(a.numerator * b.denominator - b.numerator * a.denominator,
                    a.denominator * b.denominator);
    DifferenceValue(a, b);
    r
  }

  /** `multiply`: numerators times numerators over denominators times
      denominators, normalised. */
  function Multiply(a: Fraction, b: Fraction): (r: Fraction)
    ensures LowestTerms(r)
    ensures a.denominator != 0 && b.denominator != 0 ==>
              r.denominator != 0 && Value(r) == Value(a) * Value(b)
    ensures a.denominator > 0 && b.denominator > 0 ==> Canonical(r)
  {
    var r := Create(a.numerator * b.numerator, a.denominator * b.denominator);
    ProductValue(a, b);
    r
  }

  /** `times`: multiplication by an integer, which keeps the denominator. */
  function Times(f: Fraction, n: int): (r: Fraction)
    ensures LowestTerms(r)
    ensures f.denominator != 0 ==> r.denominator != 0 && Value(r) == n as real * Value(f)
    ensures f.denominator > 0 ==> Canonical(r)
  {
    var r := Create(f.numerator * n, f.denominator);
    ScaleValue(f, n);
    r
  }

  /** `toInt`: the numerator over 1, the negated numerator over -1, and the
      `ValueError` otherwise; never an approximation. */
  function ToInt(f: Fraction): (r: Result<int, NotIntegral>)
    ensures r.Ok? <==> f.denominator == 1 || f.denominator == -1
    ensures r.Ok? ==> r.value as real == Value(f)
    ensures r.Err? ==> r.error == NotIntegral(f.numerator, f.denominator)
  {
    if f.denominator == 1 then
      Ok(f.numerator)
    else if f.denominator == -1 then
      Ok(-f.numerator)
    else
      Err(NotIntegral(f.numerator, f.denominator))
  }

  lemma SumValue(a: Fraction, b: Fraction)
    ensures a.denominator != 0 && b.denominator != 0 ==>
              (a.numerator * b.denominator + b.numerator * a.denominator) as real
              / (a.denominator * b.denominator) as real == Value(a) + Value(b)
  {
  }

  lemma DifferenceValue(a: Fraction, b: Fraction)
    ensures a.denominator != 0 && b.denominator != 0 ==>
              (a.numerator * b.denominator - b.numerator * a.denominator) as real
              / (a.denominator * b.denominator) as real == Value(a) - Value(b)
  {
  }

  lemma ProductValue(a: Fraction, b: Fraction)
    ensures a.denominator != 0 && b.denominator != 0 ==>
              (a.numerator * b.numerator) as real / (a.denominator * b.denominator) as real
              == Value(a) * Value(b)
  {
  }

  lemma ScaleValue(f: Fraction, n: int)
    ensures f.denominator != 0 ==>
              (f.numerator * n) as real / f.denominator as real == n as real * Value(f)
  {
  }

  /** Normalising twice is normalising once: `Normalize` returns fractions
      it leaves alone. */
  lemma NormalizeIdempotent(f: Fraction)
    ensures Normalize(Normalize(f)) == Normalize(f)
  {
  }

  /** Two canonical fractions with the same value are the same pair. */
  lemma {:induction false} CanonicalUnique(a: Fraction, b: Fraction)
    requires Canonical(a) && Canonical(b) && Value(a) == Value(b)
    ensures a == b
  {
    var n1, d1, n2, d2 := a.numerator, a.denominator, b.numerator, b.denominator;
    assert n1 * d2 == n2 * d1 by {
      CrossMultiply(n1, d1, n2, d2);
    }
    DenominatorDivides(n1, d1, n2, d2);
    DenominatorDivides(n2, d2, n1, d1);
    DividesBound(d1, d2);
    DividesBound(d2, d1);
    assert d1 == d2;
    assert (n1 - n2) * d1 == 0;
  }

  /** Equal values of fractions with non-zero denominators cross-multiply to
      equal integers. */
  lemma CrossMultiply(n1: int, d1: int, n2: int, d2: int)
    requires d1 != 0 && d2 != 0
    requires n1 as real / d1 as real == n2 as real / d2 as real
    ensures n1 * d2 == n2 * d1
  {
  }

  /** If n1/d1 is in lowest terms and n1 * d2 == n2 * d1, then d1 divides d2. */
  lemma DenominatorDivides(n1: int, d1: int, n2: int, d2: int)
    requires d1 > 0 && d2 > 0 && Gcd(Abs(n1), d1) == 1 && n1 * d2 == n2 * d1
    ensures Divides(d1, d2)
  {
    MulDivCancel(d1, n2);
    assert Divides(d1, n1 * d2);
    DividesNegation(d1, n1 * d2);
    assert Abs(n1 * d2) == Abs(n1) * d2;
    CoprimeDividesProduct(d1, Abs(n1), d2);
  }

  /** `a.add(b).subtract(b)` gives back the value of `a`, and gives back `a`
      itself when `a` is canonical and `b` has a positive denominator. */
  lemma AddSubtractRoundTrip(a: Fraction, b: Fraction)
    requires a.denominator != 0 && b.denominator != 0
    ensures Subtract(Add(a, b), b).denominator != 0
    ensures Value(Subtract(Add(a, b), b)) == Value(a)
    ensures Canonical(a) && b.denominator > 0 ==> Subtract(Add(a, b), b) == a
  {
    if Canonical(a) && b.denominator > 0 {
      CanonicalUnique(Subtract(Add(a, b), b), a);
    }
  }

  /** For a fraction in lowest terms, `toInt` succeeds exactly when the value
      is an integer, i.e. when the denominator divides the numerator. */
  lemma ToIntExact(f: Fraction)
    requires LowestTerms(f) && f.denominator != 0
    ensures ToInt(f).Ok? <==> Divides(f.denominator, f.numerator)
  {
    var n, d := f.numerator, f.denominator;
    if d == 1 || d == -1 {
      // n == d * (n * d), as d * d == 1
      MulDivCancel(d, n * d);
    }
    if Divides(d, n) {
      // d divides both parts, hence their gcd, which is 1
      DividesNegation(d, n);
      MulDivCancel(d, if d > 0 then 1 else -1);
      GcdGreatest(Abs(n), Abs(d), d);
      DividesBound(d, 1);
    }
  }

  /** `Fraction(n)` is n/1 and converts back to n. */
  lemma IntegerRoundTrip(n: int)
    ensures Create(n) == Fraction(n, 1) && ToInt(Create(n)) == Ok(n)
  {
  }

  /** The denominator's sign is not normalised: 1/-2 stays 1/-2, and `toInt`
      handles a denominator of -1 by negating. */
  lemma NegativeDenominatorKept()
    ensures Create(1, -2) == Fraction(1, -2) && !Canonical(Create(1, -2))
    ensures Create(6, -2) == Fraction(3, -1) && ToInt(Create(6, -2)) == Ok(-3)
  {
  }
}
