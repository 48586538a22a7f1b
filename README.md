# Froots: exact fractions and root vectors, in Dafny

Froots builds the positive root system of the rank-3 hyperbolic
Feingold–Frenkel Kac–Moody algebra, height by height, using Peterson's
recursion. This project models the two value-level building blocks that
recursion rests on, and proves what they promise:

- `Fraction` (froots/fraction.py): exact rational arithmetic on unbounded
  integers. Every fraction is normalised on construction: a zero numerator
  becomes 0/1; otherwise, unless the denominator is 1, both parts are
  divided by `math.gcd` of the two. `add`, `subtract`,
  `multiply` and `times` build new fractions, and `toInt` extracts an exact
  integer or raises `ValueError`.
- `Root` (froots/root.py): an integer vector with the bookkeeping fields
  `mult`, `co_mult` and `norm`. It offers `height` (sum of components),
  `highest` (largest component), exact scalar division `div` (with `None`
  when a component is not divisible), scalar multiplication `times`,
  structural equality `__eq__` and a shift-and-xor `__hash__`.

Files:

- `wrappers.dfy`: module `Wrappers`, the `Option` and `Result` datatypes.
  `None` stands for Python's `None`, and `Err` for a raised exception.
- `number_theory.dfy`: module `NumberTheory`. `Gcd` is Euclid's algorithm on
  naturals; Python's `math.gcd(a, b)` is `Gcd(Abs(a), Abs(b))`. The module also
  holds the divisibility lemmas that show `Gcd` divides both arguments, is
  divisible by every common divisor, and leaves coprime cofactors.
- `fraction.dfy`: module `Fractions`. A fraction is the datatype
  `Fraction(numerator, denominator)`. `Normalize` is the `normalize` method,
  and `Create` is the constructor. `Value` is the rational number, a Dafny
  `real`, that a fraction with a non-zero denominator stands for; the
  arithmetic is proved against it.
- `root.dfy`: module `Roots`, with the class `Root`. The vector is an
  `array<int>` that the root owns, because the constructor copies it.
  `mult`, `coMult` and `norm` are mutable fields. `div`, `times`, `__eq__`
  and `__hash__` are methods with loops.

Two behaviours of the code shape the model:

- A fraction's denominator need not be positive: the code never normalises
  its sign (`math.gcd` is non-negative), so `1/-2` stays `1/-2`, and `toInt`
  handles a denominator of `-1`. `Fractions.NegativeDenominatorKept`
  exhibits it.
- The code does not reject a zero denominator. `n/0` becomes `sign(n)/0`, and
  `0/0` becomes `0/1`. `Fractions.Normalize` states both cases. The statements
  about values carry the hypothesis that the denominators are non-zero.

## Model

| member | source | states |
|---|---|---|
| `NumberTheory.GcdDivides` | froots/fraction.py:56 | the gcd that normalisation divides by divides both the numerator and the denominator |
| `NumberTheory.GcdGreatest` | froots/fraction.py:56 | every common divisor of the two parts divides their gcd, so the gcd is the greatest common divisor |
| `NumberTheory.CoprimeCofactors` | froots/fraction.py:55-58 | after dividing both parts by their gcd, the quotients have gcd 1 |
| `Fractions.Normalize` | froots/fraction.py:49-58 | a zero numerator gives 0/1 whatever the denominator; a non-zero denominator stays non-zero and the rational value is unchanged; the denominator's sign is kept; n/0 becomes sign(n)/0; the result is always in lowest terms |
| `Fractions.ReduceByGcd` | froots/fraction.py:55-58 | dividing both parts by `math.gcd` leaves them coprime, keeps the value and the sign of the denominator, and maps n/0 to sign(n)/0 |
| `Fractions.NormalizeIdempotent` | froots/fraction.py:49-58 | normalising a normalised fraction changes nothing |
| `Fractions.Create` | froots/fraction.py:43-46 | `Fraction(n, d)` is in lowest terms and has the value n/d when d is non-zero; with a positive denominator it is the canonical form |
| `Fractions.Add` | froots/fraction.py:60-66 | the result is in lowest terms and is exactly the rational sum of the operands; positive denominators give a positive denominator |
| `Fractions.Subtract` | froots/fraction.py:68-74 | the result is in lowest terms and is exactly the rational difference; positive denominators give a positive denominator |
| `Fractions.Multiply` | froots/fraction.py:77-83 | the result is in lowest terms and is exactly the rational product; positive denominators give a positive denominator |
| `Fractions.Times` | froots/fraction.py:85-89 | the result is in lowest terms and is exactly n times the value; a positive denominator stays positive |
| `Fractions.ToInt` | froots/fraction.py:91-103 | succeeds exactly when the denominator is 1 or -1, returns the value itself then, and otherwise raises the error carrying numerator and denominator |
| `Fractions.ToIntExact` | froots/fraction.py:91-103 | for a fraction in lowest terms, `toInt` succeeds exactly when the denominator divides the numerator, so it never rejects an integer value and never approximates |
| `Fractions.CanonicalUnique` | froots/fraction.py:55-58 | two fractions in lowest terms with positive denominators and the same value are the same pair |
| `Fractions.AddSubtractRoundTrip` | froots/fraction.py:60-74 | `a.add(b).subtract(b)` has the value of `a`, and is `a` itself when `a` is in lowest terms with a positive denominator and `b`'s denominator is positive |
| `Fractions.IntegerRoundTrip` | froots/fraction.py:43-98 | `Fraction(n)` is n/1 and `toInt` gives n back |
| `Fractions.NegativeDenominatorKept` | froots/fraction.py:53-100 | 1/-2 stays 1/-2, and 6/-2 becomes 3/-1, which `toInt` turns into -3 |
| `Roots.Max` | froots/root.py:64-66 | the maximum of a non-empty vector is one of its components and at least every component |
| `Roots.SumDominates` | froots/root.py:59-61 | in a vector without negative components the sum is non-negative and at least every component |
| `Roots.SumScaled` | froots/root.py:86-97 | multiplying every component by f multiplies the sum by f |
| `Roots.ToSigned` | froots/root.py:133 | the final 64-bit word is read as a signed 64-bit integer congruent to it |
| `Roots.HashOf` | froots/root.py:119-133 | the hash is a signed 64-bit value determined by the components alone |
| `Roots.Root.constructor` | froots/root.py:45-56 | a new root holds a fresh copy of the given vector, with `mult` 0, `coMult` unset and `norm` 0 |
| `Roots.Root.Height` | froots/root.py:59-61 | for three components the height is their sum; without negative components it is non-negative and at least every component |
| `Roots.Root.Highest` | froots/root.py:64-66 | the result is one of the components and at least every component |
| `Roots.Root.Div` | froots/root.py:69-83 | `None` exactly when some component leaves a remainder; otherwise a fresh root of the same length whose component i is `vector[i] // factor`, with fields reset |
| `Roots.Root.Times` | froots/root.py:86-97 | a fresh root of the same length whose component i is `vector[i] * factor`, with fields reset |
| `Roots.Root.Equals` | froots/root.py:100-116 | true exactly when the other root exists and has the same components |
| `Roots.Root.Hash` | froots/root.py:119-133 | the loop computes the shift-and-xor hash of the components |
| `Roots.EqualsReflexive` | froots/root.py:100-116 | every root equals itself |
| `Roots.EqualsSymmetric` | froots/root.py:100-116 | `a == b` and `b == a` agree |
| `Roots.EqualRootsHashEqually` | froots/root.py:100-133 | equal roots have equal hashes |
| `Roots.TimesThenDiv` | froots/root.py:69-97 | for f non-zero, `r.times(f).div(f)` succeeds and has the components of `r` |
| `Roots.DivThenTimes` | froots/root.py:69-97 | `r.div(f)` succeeds exactly when f divides every component, and then `r.div(f).times(f)` has the components of `r` |
| `Roots.TimesScalesHeight` | froots/root.py:59-97 | the height of `r.times(f)` is f times the height of `r` |

## Left out

- froots/__main__.py: argument parsing, timing, status printing and writing
  the result file are command-line handling and I/O.
- froots/root_system.py and froots/feingold_frenkel_algebra.py (Peterson's
  recursion, the root cache, the bilinear form and the admissibility test)
  are not part of this model. The fraction and root code calls neither.
- Fractions: a fraction is a value (a datatype), not a mutable object. In
  the source `normalize` updates the fields only inside `__init__`, and no
  operation changes its operands afterwards. So "`add`, `subtract`,
  `multiply` and `times` leave `self` and the argument unchanged and return
  a new fraction" holds by construction and has no lemma of its own.
- Fractions.Create: Python's dynamic typing (non-integer arguments) is not
  modelled; both parts are integers.
- Roots.Root.Height: components are unbounded integers, so numpy's `int64`
  overflow in `np.sum` is not modelled.
- Roots.Root.Times: components are unbounded integers, so numpy's `int64`
  wrap-around on overflow is not modelled.
- Roots.Root.Div: requires a non-zero factor. With factor 0 numpy warns
  instead of raising, and the model does not follow that path. For a
  non-zero factor, Dafny's `%` and `/` agree with Python's floor semantics
  whenever the remainder is zero, and the remainder test agrees for every
  sign.
- Roots.Root.Highest: requires a non-empty vector; numpy's `max` raises on an
  empty array.
- Roots.Root.Equals: the parameter is a possibly-null `Root`. The source's
  check that `other` has the same type is enforced by Dafny's static typing,
  so comparing against objects of other types is not modelled.
- Roots.Root.Hash: components are taken as numpy `int64` values, wrapped
  into 64-bit two's complement words. The three statements of the loop body
  (shift left, set the low bit when the word is negative, xor the
  component) are the function `HashStep`. The case of a plain Python list
  with unbounded integers as the vector is not modelled.
- Roots.Root.coMult: the type the construction stores in `co_mult` is
  defined outside the modelled files. It is modelled as an optional
  `Fraction`, `None` until assigned.
