/**
  * Rational numbers of Big_integer.h (and the copy in Matrix.h whose
  * compound operators divide by gcds first).  A Rational is a numerator and
  * a denominator BigInteger, modelled here by their integer values with
  * exact integer arithmetic: the corrected BigInteger operations of
  * BigIntegerModel, not the written ones, whose + and * lose a Base in the
  * cases BigIntegerModel.AddAsWrittenValue names.  The state norm()
  * establishes is "lowest terms with a positive denominator", and the
  * meaning of a Rational is the exact real numerator / denominator.
  */
module RationalModel {
  import opened Limbs
  import opened BigIntegerModel
  import opened DecimalText

  // ---------------------------------------------------------------------
  // Divisibility facts beyond those of gcd itself
  // ---------------------------------------------------------------------

  /** Bezout's identity: gcd(a, b) is an integer combination of a and b. */
  lemma {:induction false} Bezout(a: nat, b: nat) returns (x: int, y: int)
    ensures a * x + b * y == NatGcd(a, b)
    decreases b
  {
    if a == 0 {
      x, y := 0, 1;
    } else if b == 0 {
      x, y := 1, 0;
    } else {
      var q, r := a / b, a % b;
      var x', y' := Bezout(b, r);
      assert b * x' + r * y' == NatGcd(a, b);
      assert r == a - b * q;
      CombinationStep(a, b, q, r, x', y');
      x, y := y', x' - q * y';
    }
  }

  lemma CombinationStep(a: int, b: int, q: int, r: int, x: int, y: int)
    requires r == a - b * q
    ensures a * y + b * (x - q * y) == b * x + r * y
  {
    assert r * y == a * y - (b * q) * y;
    assert b * (x - q * y) == b * x - b * (q * y);
    assert (b * q) * y == b * (q * y);
  }

  /** A natural number g with g * m == 1 is 1. */
  lemma UnitFactor(g: nat, m: int)
    requires g * m == 1
    ensures g == 1
  {
    if m <= 0 {
      MulMonotone(if g == 0 then 1 else g, m, 0);
      assert false;
    }
    if g > 1 {
      MulMonotone(m, 1, g);
      assert false;
    }
  }

  /** A positive divisor d of n gives n == d * k. */
  lemma DividesWitness(d: nat, n: nat) returns (k: nat)
    requires d > 0 && Divides(d, n)
    ensures n == d * k
  {
    k := n / d;
  }

  /** When some combination a*x + b*y is 1, a and b are coprime. */
  lemma CoprimeByCombination(a: nat, b: nat, x: int, y: int)
    requires a * x + b * y == 1
    ensures NatGcd(a, b) == 1
  {
    var g := NatGcd(a, b);
    NatGcdIsGcd(a, b, g);
    NatGcdPositive(a, b);
    var k := DividesWitness(g, a);
    var m := DividesWitness(g, b);
    CombinationUnit(g, k, m, x, y);
  }

  lemma CombinationUnit(g: nat, k: int, m: int, x: int, y: int)
    requires (g * k) * x + (g * m) * y == 1
    ensures g == 1
  {
    assert (g * k) * x + (g * m) * y == g * (k * x + m * y);
    UnitFactor(g, k * x + m * y);
  }

  lemma CoprimeSymmetric(a: nat, b: nat)
    requires NatGcd(a, b) == 1
    ensures NatGcd(b, a) == 1
  {
    var x, y := Bezout(a, b);
    CoprimeByCombination(b, a, y, x);
  }

  /** A number coprime to both x and y is coprime to x * y. */
  lemma CoprimeProduct(k: nat, x: nat, y: nat)
    requires NatGcd(k, x) == 1 && NatGcd(k, y) == 1
    ensures NatGcd(k, x * y) == 1
  {
    var a1, b1 := Bezout(k, x);
    var a2, b2 := Bezout(k, y);
    ProductOfCombinations(k, x, y, a1, b1, a2, b2);
    CoprimeByCombination(k, x * y, a1 * k * a2 + a1 * y * b2 + x * b1 * a2, b1 * b2);
  }

  lemma ProductOfCombinations(k: int, x: int, y: int, a1: int, b1: int, a2: int, b2: int)
    requires k * a1 + x * b1 == 1 && k * a2 + y * b2 == 1
    ensures k * (a1 * k * a2 + a1 * y * b2 + x * b1 * a2) + (x * y) * (b1 * b2) == 1
  {
    var u, v := k * a1, x * b1;
    var s, t := k * a2, y * b2;
    assert (u + v) * (s + t) == 1;
    assert (u + v) * (s + t) == u * s + u * t + v * s + v * t;
  }

  /** Factors of coprime numbers are coprime. */
  lemma CoprimeFactors(x: nat, y: nat, x': nat, y': nat, k: int, m: int)
    requires NatGcd(x, y) == 1 && x == x' * k && y == y' * m
    ensures NatGcd(x', y') == 1
  {
    var s, t := Bezout(x, y);
    assert x * s == x' * (k * s);
    assert y * t == y' * (m * t);
    CoprimeByCombination(x', y', k * s, m * t);
  }

  /** Euclid's lemma: a divisor of b * c coprime with b divides c. */
  lemma CoprimeDivides(a: nat, b: nat, c: nat, m: int)
    requires NatGcd(a, b) == 1 && b * c == a * m && a > 0
    ensures c % a == 0
  {
    var x, y := Bezout(a, b);
    var t := EuclidCofactor(a, b, c, m, x, y);
    DivModUnique(c, a, t, 0);
  }

  lemma EuclidCofactor(a: int, b: int, c: int, m: int, x: int, y: int) returns (t: int)
    requires a * x + b * y == 1 && b * c == a * m && a > 0 && c >= 0
    ensures c == t * a && t >= 0
  {
    t := x * c + m * y;
    assert c == (a * x + b * y) * c;
    assert (a * x + b * y) * c == a * (x * c) + (b * c) * y;
    assert (a * m) * y == a * (m * y);
    if t < 0 {
      MulMonotone(a, t, -1);
    }
  }

  /** Cancelling a positive factor. */
  lemma CancelFactor(g: int, u: int, v: int)
    requires g > 0 && g * u == g * v
    ensures u == v
  {
    if u < v {
      MulMonotone(g, u + 1, v);
    } else if u > v {
      MulMonotone(g, v + 1, u);
    }
  }

  /** Dividing two numbers (not both zero) by their gcd leaves coprime quotients. */
  lemma GcdOfQuotients(a: nat, b: nat)
    requires a != 0 || b != 0
    ensures NatGcd(a, b) > 0
    ensures a == NatGcd(a, b) * (a / NatGcd(a, b)) && b == NatGcd(a, b) * (b / NatGcd(a, b))
    ensures NatGcd(a / NatGcd(a, b), b / NatGcd(a, b)) == 1
  {
    var g := NatGcd(a, b);
    NatGcdPositive(a, b);
    NatGcdIsGcd(a, b, g);
    var x, y := Bezout(a, b);
    var k, m := a / g, b / g;
    ExactQuotient(a, g);
    ExactQuotient(b, g);
    ScaledCombination(g, k, m, x, y);
    CoprimeByCombination(k, m, x, y);
  }

  lemma ScaledCombination(g: int, k: int, m: int, x: int, y: int)
    requires g > 0 && (g * k) * x + (g * m) * y == g
    ensures k * x + m * y == 1
  {
    assert (g * k) * x == g * (k * x);
    assert (g * m) * y == g * (m * y);
    assert g * (k * x + m * y) == g * 1;
    CancelFactor(g, k * x + m * y, 1);
  }

  /** The quotients of a number by two divisors that divide each other are equal. */
  lemma MutualMultiples(a: int, b: int)
    requires a > 0 && b > 0 && a % b == 0 && b % a == 0
    ensures a == b
  {
    var k, m := a / b, b / a;
    assert a == b * k && b == a * m;
    if k <= 0 {
      MulMonotone(b, k, 0);
    }
    if m <= 0 {
      MulMonotone(a, m, 0);
    }
    MulMonotone(b, 1, k);
    MulMonotone(a, 1, m);
  }

  // ---------------------------------------------------------------------
  // Lowest terms: what norm() establishes
  // ---------------------------------------------------------------------

  /** A numerator/denominator pair in lowest terms with a positive denominator. */
  predicate Reduced(n: int, d: int)
  {
    d > 0 && NatGcd(Abs(n), d) == 1
  }

  /** The exact rational n / d. */
  ghost function Q(n: int, d: int): real
    requires d != 0
  {
    n as real / d as real
  }

  /** Negating the numerator negates the fraction. */
  lemma NegatedQ(n: int, d: int)
    requires d > 0
    ensures Q(-n, d) == -Q(n, d)
  {
  }

  /** A cross-multiplication identity with positive denominators carries over to absolute values. */
  lemma AbsCross(n1: int, d1: int, n2: int, d2: int)
    requires d1 > 0 && d2 > 0 && n1 * d2 == n2 * d1
    ensures Abs(n1) * d2 == Abs(n2) * d1
  {
    if n1 < 0 && n2 >= 0 {
      MulMonotone(d2, n1, -1);
      MulMonotone(d1, 0, n2);
    } else if n1 >= 0 && n2 < 0 {
      MulMonotone(d1, n2, -1);
      MulMonotone(d2, 0, n1);
    } else if n1 < 0 {
      assert Abs(n1) * d2 == -(n1 * d2);
      assert Abs(n2) * d1 == -(n2 * d1);
    }
  }

  /**
    * Lowest terms with a positive denominator are unique: two such pairs that
    * denote the same rational are the same pair.
    */
  lemma ReducedUnique(n1: int, d1: int, n2: int, d2: int)
    requires Reduced(n1, d1) && Reduced(n2, d2) && n1 * d2 == n2 * d1
    ensures n1 == n2 && d1 == d2
  {
    AbsCross(n1, d1, n2, d2);
    SameDenominator(Abs(n1), d1, Abs(n2), d2);
    SameNumerator(n1, n2, d1, d2);
  }

  lemma SameNumerator(n1: int, n2: int, d1: int, d2: int)
    requires d1 > 0 && d1 == d2 && n1 * d2 == n2 * d1
    ensures n1 == n2
  {
    assert d1 * n1 == d1 * n2;
    CancelFactor(d1, n1, n2);
  }

  lemma SameDenominator(a1: nat, d1: int, a2: nat, d2: int)
    requires d1 > 0 && d2 > 0 && a1 * d2 == a2 * d1
    requires NatGcd(a1, d1) == 1 && NatGcd(a2, d2) == 1
    ensures d1 == d2
  {
    CoprimeSymmetric(a1, d1);
    CoprimeSymmetric(a2, d2);
    assert a1 * d2 == d1 * a2;
    CoprimeDivides(d1, a1, d2, a2);
    assert a2 * d1 == d2 * a1;
    CoprimeDivides(d2, a2, d1, a1);
    MutualMultiples(d1, d2);
  }

  /** Dividing by a positive divisor of |a|, truncating as BigInteger /= does, is exact. */
  lemma ExactTruncDiv(a: int, g: int)
    requires g > 0 && Abs(a) == g * (Abs(a) / g)
    ensures TruncDiv(a, g) * g == a
    ensures Abs(TruncDiv(a, g)) == Abs(a) / g
  {
    var k := Abs(a) / g;
    if a < 0 {
      assert TruncDiv(a, g) == -k;
      assert -k * g == -(g * k);
    }
  }

  /**
    * What norm() leaves of n / d: both parts divided (truncating) by
    * gcd(|n|, |d|), then a negative denominator's sign moved to the
    * numerator.  The result is in lowest terms and denotes n / d.
    */
  function Normalize(n: int, d: int): (r: (int, int))
    requires d != 0
    ensures Reduced(r.0, r.1)
    ensures r.0 * d == n * r.1
  {
    var g := NatGcd(Abs(n), Abs(d));
    GcdOfQuotients(Abs(n), Abs(d));
    ExactTruncDiv(n, g);
    ExactTruncDiv(d, g);
    var n1, d1 := TruncDiv(n, g), TruncDiv(d, g);
    NormalizeCross(n, d, g, n1, d1);
    if d1 < 0 then (-n1, -d1) else (n1, d1)
  }

  lemma NormalizeCross(n: int, d: int, g: int, n1: int, d1: int)
    requires n1 * g == n && d1 * g == d
    ensures n1 * d == n * d1 && -n1 * d == n * -d1
  {
    assert n1 * (d1 * g) == (n1 * g) * d1;
  }

  /** Normalize gives the one reduced pair that denotes n / d. */
  lemma NormalizeUnique(n: int, d: int, p: int, q: int)
    requires d != 0 && Reduced(p, q) && p * d == n * q
    ensures Normalize(n, d) == (p, q)
  {
    var r := Normalize(n, d);
    CrossTransitive(r.0, r.1, n, d, p, q);
    ReducedUnique(r.0, r.1, p, q);
  }

  /** r0/r1 == n/d and p/q == n/d give r0/r1 == p/q, cross-multiplied. */
  lemma CrossTransitive(r0: int, r1: int, n: int, d: int, p: int, q: int)
    requires d != 0 && r0 * d == n * r1 && p * d == n * q
    ensures r0 * q == p * r1
  {
    assert d * (r0 * q) == d * (p * r1) by {
      assert d * (r0 * q) == (r0 * d) * q;
      assert d * (p * r1) == (p * d) * r1;
      assert (n * r1) * q == (n * q) * r1;
    }
    NonZeroCancel(d, r0 * q, p * r1);
  }

  lemma NonZeroCancel(d: int, u: int, v: int)
    requires d != 0 && d * u == d * v
    ensures u == v
  {
    if d > 0 {
      CancelFactor(d, u, v);
    } else {
      assert (-d) * u == (-d) * v;
      CancelFactor(-d, u, v);
    }
  }

  // ---------------------------------------------------------------------
  // Exact rational values
  // ---------------------------------------------------------------------

  /** Two fractions are equal exactly when their cross products are. */
  lemma QEqual(a: int, b: int, c: int, e: int)
    requires b != 0 && e != 0
    ensures Q(a, b) == Q(c, e) <==> a * e == c * b
  {
    var x, y := Q(a, b), Q(c, e);
    assert x * b as real == a as real;
    assert y * e as real == c as real;
    assert (a * e) as real == x * (b as real * e as real);
    assert (c * b) as real == y * (b as real * e as real);
  }

  /** With positive denominators, fractions compare as their cross products. */
  lemma QLess(a: int, b: int, c: int, e: int)
    requires b > 0 && e > 0
    ensures Q(a, b) < Q(c, e) <==> a * e < c * b
    ensures Q(a, b) <= Q(c, e) <==> a * e <= c * b
  {
    var x, y := Q(a, b), Q(c, e);
    assert x * b as real == a as real;
    assert y * e as real == c as real;
    var be := b as real * e as real;
    assert be > 0.0;
    assert (a * e) as real == x * be;
    assert (c * b) as real == y * be;
  }

  lemma QSum(a: int, b: int, c: int, e: int)
    requires b != 0 && e != 0
    ensures b * e != 0
    ensures Q(a * e + c * b, b * e) == Q(a, b) + Q(c, e)
    ensures Q(a * e - c * b, b * e) == Q(a, b) - Q(c, e)
  {
    var x, y := Q(a, b), Q(c, e);
    assert x * b as real == a as real;
    assert y * e as real == c as real;
    assert (b * e) as real == b as real * e as real;
    assert (a * e + c * b) as real == (x + y) * (b as real * e as real);
    assert (a * e - c * b) as real == (x - y) * (b as real * e as real);
  }

  lemma QProduct(a: int, b: int, c: int, e: int)
    requires b != 0 && e != 0
    ensures b * e != 0
    ensures Q(a * c, b * e) == Q(a, b) * Q(c, e)
  {
    var x, y := Q(a, b), Q(c, e);
    assert x * b as real == a as real;
    assert y * e as real == c as real;
    assert (b * e) as real == b as real * e as real;
    assert (a * c) as real == (x * y) * (b as real * e as real);
  }

  /** Everything is coprime with 1. */
  lemma CoprimeWithOne(a: nat)
    ensures NatGcd(a, 1) == 1 && NatGcd(1, a) == 1
  {
    CoprimeByCombination(a, 1, 0, 1);
    CoprimeByCombination(1, a, 1, 0);
  }

  /** Products of numbers that are coprime crosswise are coprime. */
  lemma CrossCoprime(x: nat, y: nat, u: nat, v: nat)
    requires NatGcd(x, u) == 1 && NatGcd(x, v) == 1 && NatGcd(y, u) == 1 && NatGcd(y, v) == 1
    ensures NatGcd(x * y, u * v) == 1
  {
    CoprimeProduct(x, u, v);
    CoprimeProduct(y, u, v);
    CoprimeSymmetric(x, u * v);
    CoprimeSymmetric(y, u * v);
    CoprimeProduct(u * v, x, y);
    CoprimeSymmetric(u * v, x * y);
  }

  /** Dividing g * a by g, truncating, gives a. */
  lemma TruncDivMultiple(g: int, a: int)
    requires g > 0
    ensures TruncDiv(g * a, g) == a
  {
    if a >= 0 {
      DivModUnique(g * a, g, a, 0);
    } else {
      assert Abs(g * a) == g * -a;
      DivModUnique(g * -a, g, -a, 0);
    }
  }

  /**
    * Pairs equal cross-wise denote the same rational, and reduced pairs are
    * equal cross-wise exactly when they are the same pair.
    */
  lemma EqualMeans(n1: int, d1: int, n2: int, d2: int)
    requires Reduced(n1, d1) && Reduced(n2, d2)
    ensures n1 * d2 == n2 * d1 <==> Q(n1, d1) == Q(n2, d2)
    ensures n1 * d2 == n2 * d1 <==> n1 == n2 && d1 == d2
  {
    QEqual(n1, d1, n2, d2);
    if n1 * d2 == n2 * d1 {
      ReducedUnique(n1, d1, n2, d2);
    }
  }

  /** Dividing a pair of multiples of g by g, truncating, is exact and keeps the cross product. */
  lemma ExactPair(s: int, t: int, g: int, a: int, b: int)
    requires g > 0 && s == g * a && t == g * b
    ensures TruncDiv(s, g) == a && TruncDiv(t, g) == b
    ensures a * t == s * b
  {
    TruncDivMultiple(g, a);
    TruncDivMultiple(g, b);
    assert a * (g * b) == (g * a) * b;
  }

  lemma PositiveFactor(g: int, k: int)
    requires g > 0 && g * k > 0
    ensures k > 0
  {
    if k <= 0 {
      MulMonotone(g, k, 0);
    }
  }

  lemma PositiveProduct(x: int, y: int)
    requires x > 0 && y > 0
    ensures x * y > 0
  {
    MulMonotone(x, 1, y);
  }

  lemma FactorSum(n: int, on: int, g: int, k: int, m: int)
    ensures n * (g * k) + on * (g * m) == g * (n * k + on * m)
    ensures n * (g * k) - on * (g * m) == g * (n * k - on * m)
    ensures (g * m) * (g * k) == g * (m * g * k)
  {
  }

  /**
    * The predivision of Matrix.h's += and -=: dividing the cross sum and the
    * denominator product by g = gcd(od, d) is exact, and keeps the value.
    */
  lemma PredivideSum(n: int, d: int, on: int, od: int, sub: bool)
    requires d > 0 && od > 0
    ensures NatGcd(od, d) > 0
    ensures var g := NatGcd(od, d);
            var s := if sub then n * od - on * d else n * od + on * d;
            TruncDiv(d * od, g) > 0 && TruncDiv(s, g) * (d * od) == s * TruncDiv(d * od, g)
  {
    var g := NatGcd(od, d);
    GcdOfQuotients(od, d);
    var k, m := od / g, d / g;
    PositiveFactor(g, k);
    PositiveFactor(g, m);
    PositiveProduct(m * g, k);
    FactorSum(n, on, g, k, m);
    var a := if sub then n * k - on * m else n * k + on * m;
    var s := if sub then n * od - on * d else n * od + on * d;
    ExactPair(s, d * od, g, a, m * g * k);
  }

  lemma FactorProduct(x: int, y: int, g1: int, g2: int)
    ensures (g1 * x) * (g2 * y) == (g1 * g2) * (x * y)
  {
  }

  /** n and |n| / g: n == g * (±(|n| / g)) for a divisor g of |n|. */
  lemma SignedQuotient(n: int, g: int, a: int)
    requires Abs(n) == g * a
    ensures n == g * (if n < 0 then -a else a)
  {
  }

  /** gcd(a, b) with the cofactors it leaves, which are coprime. */
  lemma GcdSplit(a: nat, b: nat) returns (g: nat, k: nat, m: nat)
    requires a != 0 || b != 0
    ensures g == NatGcd(a, b) && g > 0
    ensures a == g * k && b == g * m && NatGcd(k, m) == 1
  {
    GcdOfQuotients(a, b);
    g, k, m := NatGcd(a, b), a / NatGcd(a, b), b / NatGcd(a, b);
  }

  /**
    * The predivision of Matrix.h's *=: with g1 = gcd(n, od) and g2 =
    * gcd(on, d), the product pair divided by g1 * g2 is exact, in lowest
    * terms, and denotes the product.
    */
  lemma PredivideProduct(n: int, d: int, on: int, od: int)
    requires Reduced(n, d) && Reduced(on, od)
    ensures NatGcd(Abs(n), od) * NatGcd(Abs(on), d) > 0
    ensures var g := NatGcd(Abs(n), od) * NatGcd(Abs(on), d);
            Reduced(TruncDiv(n * on, g), TruncDiv(d * od, g))
            && TruncDiv(n * on, g) * (d * od) == (n * on) * TruncDiv(d * od, g)
  {
    var g1, a, b := GcdSplit(Abs(n), od);
    var g2, c, e := GcdSplit(Abs(on), d);
    CoprimeFactors(Abs(n), d, a, e, g1, g2);
    CoprimeFactors(Abs(on), od, c, b, g2, g1);
    CoprimeSymmetric(c, b);
    CrossCoprime(a, c, e, b);
    ProductPieces(n, d, on, od, g1, g2, a, b, c, e);
  }

  lemma ProductPieces(n: int, d: int, on: int, od: int, g1: nat, g2: nat, a: nat, b: nat, c: nat, e: nat)
    requires g1 > 0 && g2 > 0 && d > 0 && od > 0
    requires Abs(n) == g1 * a && od == g1 * b && Abs(on) == g2 * c && d == g2 * e
    requires NatGcd(a * c, e * b) == 1
    ensures g1 * g2 > 0
    ensures Reduced(TruncDiv(n * on, g1 * g2), TruncDiv(d * od, g1 * g2))
    ensures TruncDiv(n * on, g1 * g2) * (d * od) == (n * on) * TruncDiv(d * od, g1 * g2)
  {
    PositiveProduct(g1, g2);
    PositiveFactor(g1, b);
    PositiveFactor(g2, e);
    PositiveProduct(e, b);
    var sa: int := if n < 0 then -(a as int) else a;
    var sc: int := if on < 0 then -(c as int) else c;
    SignedQuotient(n, g1, a);
    SignedQuotient(on, g2, c);
    FactorProduct(sa, sc, g1, g2);
    FactorProduct(e, b, g2, g1);
    ExactPair(n * on, d * od, g1 * g2, sa * sc, e * b);
    AbsProduct(sa, sc);
    assert Reduced(sa * sc, e * b);
  }

  lemma AbsProduct(x: int, y: int)
    ensures Abs(x * y) == Abs(x) * Abs(y)
  {
    if x < 0 && y >= 0 {
      assert x * y == -(Abs(x) * y);
      MulMonotone(Abs(x), 0, y);
    } else if x >= 0 && y < 0 {
      assert x * y == -(x * Abs(y));
      MulMonotone(Abs(y), 0, x);
    } else if x < 0 {
      assert x * y == Abs(x) * Abs(y);
    }
  }

  /**
    * The predivision of Matrix.h's /=: with g1 = gcd(n, on) and g2 =
    * gcd(od, d), the quotient pair divided by g1 * g2 is exact and, after
    * the sign of the denominator moves to the numerator, in lowest terms.
    */
  lemma PredivideQuotient(n: int, d: int, on: int, od: int)
    requires Reduced(n, d) && Reduced(on, od) && on != 0
    ensures NatGcd(Abs(n), Abs(on)) * NatGcd(od, d) > 0
    ensures var g := NatGcd(Abs(n), Abs(on)) * NatGcd(od, d);
            var n' := TruncDiv(n * od, g);
            var d' := TruncDiv(d * on, g);
            d' != 0
            && Reduced(if d' < 0 then -n' else n', if d' < 0 then -d' else d')
            && n' * (d * on) == (n * od) * d'
  {
    var g1, a, c := GcdSplit(Abs(n), Abs(on));
    var g2, b, e := GcdSplit(od, d);
    QuotientCoprime(Abs(n), d, Abs(on), od, g1, g2, a, b, c, e);
    QuotientPieces(n, d, on, od, g1, g2, a, b, c, e);
  }

  lemma QuotientCoprime(an: nat, d: nat, aon: nat, od: nat, g1: nat, g2: nat, a: nat, b: nat, c: nat, e: nat)
    requires NatGcd(an, d) == 1 && NatGcd(aon, od) == 1 && NatGcd(a, c) == 1 && NatGcd(b, e) == 1
    requires an == g1 * a && aon == g1 * c && od == g2 * b && d == g2 * e
    ensures NatGcd(a * b, e * c) == 1
  {
    CoprimeFactors(an, d, a, e, g1, g2);
    CoprimeFactors(aon, od, c, b, g1, g2);
    CoprimeSymmetric(b, e);
    CoprimeSymmetric(c, b);
    CrossCoprime(a, b, e, c);
  }

  lemma QuotientPieces(n: int, d: int, on: int, od: int, g1: nat, g2: nat, a: nat, b: nat, c: nat, e: nat)
    requires g1 > 0 && g2 > 0 && d > 0 && on != 0
    requires Abs(n) == g1 * a && Abs(on) == g1 * c && od == g2 * b && d == g2 * e
    requires NatGcd(a * b, e * c) == 1
    ensures g1 * g2 > 0
    ensures var n' := TruncDiv(n * od, g1 * g2);
            var d' := TruncDiv(d * on, g1 * g2);
            d' != 0
            && Reduced(if d' < 0 then -n' else n', if d' < 0 then -d' else d')
            && n' * (d * on) == (n * od) * d'
  {
    PositiveProduct(g1, g2);
    PositiveFactor(g1, c);
    PositiveFactor(g2, e);
    PositiveProduct(e, c);
    var sa: int := if n < 0 then -(a as int) else a;
    var sc: int := if on < 0 then -(c as int) else c;
    SignedQuotient(n, g1, a);
    SignedQuotient(on, g1, c);
    FactorProduct(sa, b, g1, g2);
    FactorProduct(e, sc, g2, g1);
    ExactPair(n * od, d * on, g1 * g2, sa * b, e * sc);
    AbsProduct(sa, b);
    AbsProduct(e, sc);
  }

  lemma QQuotient(a: int, b: int, c: int, e: int)
    requires b != 0 && e != 0 && c != 0
    ensures b * c != 0
    ensures Q(a * e, b * c) == Q(a, b) / Q(c, e)
  {
    NonZeroProduct(b, c);
    var x, y := Q(a, b), Q(c, e);
    assert x * b as real == a as real;
    assert y * e as real == c as real;
    assert y != 0.0;
    assert (b * c) as real == b as real * c as real;
    assert (a * e) as real == a as real * e as real;
    assert Q(a * e, b * c) * y == x;
  }

  /** A pair cross-equal to (s, p) denotes s / p. */
  lemma SameValue(n: int, d: int, s: int, p: int)
    requires d != 0 && p != 0 && n * p == s * d
    ensures Q(n, d) == Q(s, p)
  {
    QEqual(n, d, s, p);
  }

  // ---------------------------------------------------------------------
  // The class
  // ---------------------------------------------------------------------

  class Rational {
    var numerator: int
    var denominator: int

    /** norm()'s result: lowest terms, positive denominator. */
    ghost predicate Valid()
      reads this
    {
      Reduced(numerator, denominator)
    }

    /** The exact rational this object denotes. */
    ghost function Value(): real
      reads this
      requires Valid()
    {
      Q(numerator, denominator)
    }

    /** Rational(): 0/1. */
    constructor ()
      ensures Valid() && numerator == 0 && denominator == 1 && Value() == 0.0
    {
      numerator, denominator := 0, 1;
      CoprimeWithOne(0);
    }

    /** The defaulted copy constructor. */
    constructor Copy(other: Rational)
      ensures numerator == other.numerator && denominator == other.denominator
    {
      numerator, denominator := other.numerator, other.denominator;
    }

    /** Rational(int num) and Rational(const BigInteger& num): num/1. */
    constructor FromInt(num: int)
      ensures Valid() && numerator == num && denominator == 1 && Value() == num as real
    {
      numerator, denominator := num, 1;
      CoprimeWithOne(Abs(num));
    }

    /** Rational(numerator, denominator): both copied, then norm(). */
    constructor FromFraction(num: BigInteger, den: BigInteger)
      requires num.Valid() && den.Valid() && den.Value() != 0
      ensures Valid() && Value() == Q(num.Value(), den.Value())
    {
      numerator, denominator := num.Value(), den.Value();
      new;
      Norm();
      QEqual(numerator, denominator, num.Value(), den.Value());
    }

    /**
      * norm(): divide both parts by gcd(numerator, denominator) (truncating
      * BigInteger division), then make the denominator positive by negating
      * both parts.
      */
    method Norm()
      requires denominator != 0
      modifies this
      ensures (numerator, denominator) == Normalize(old(numerator), old(denominator))
      ensures Valid() && numerator * old(denominator) == old(numerator) * denominator
    {
      var g := NatGcd(Abs(numerator), Abs(denominator));
      GcdOfQuotients(Abs(numerator), Abs(denominator));
      numerator := TruncDiv(numerator, g);
      denominator := TruncDiv(denominator, g);
      if denominator < 0 {
        denominator := -denominator;
        numerator := -numerator;
      }
    }

    /** operator=: both parts copied. */
    method Assign(other: Rational)
      modifies this
      ensures numerator == old(other.numerator) && denominator == old(other.denominator)
    {
      numerator, denominator := other.numerator, other.denominator;
    }

    /** Unary operator-: a copy with the numerator negated. */
    method Negate() returns (r: Rational)
      requires Valid()
      ensures fresh(r) && r.Valid() && r.Value() == -Value()
    {
      r := new Rational.Copy(this);
      r.numerator := -r.numerator;
      assert Abs(r.numerator) == Abs(numerator);
      NegatedQ(numerator, denominator);
    }

    /** operator+=: cross sum over the denominator product, then norm(). */
    method AddAssign(other: Rational)
      requires Valid() && other.Valid() && other != this
      modifies this
      ensures Valid() && Value() == old(Value()) + old(other.Value())
    {
      ghost var n, d := numerator, denominator;
      var on, od := other.numerator, other.denominator;
      numerator := numerator * od + on * denominator;
      denominator := denominator * od;
      ghost var s, p := numerator, denominator;
      PositiveProduct(d, od);
      Norm();
      SumResult(Value(), old(Value()), old(other.Value()), numerator, denominator, s, p, n, d, on, od);
    }

    /** operator-=: cross difference over the denominator product, then norm(). */
    method SubAssign(other: Rational)
      requires Valid() && other.Valid() && other != this
      modifies this
      ensures Valid() && Value() == old(Value()) - old(other.Value())
    {
      ghost var n, d := numerator, denominator;
      var on, od := other.numerator, other.denominator;
      numerator := numerator * od - on * denominator;
      denominator := denominator * od;
      ghost var s, p := numerator, denominator;
      PositiveProduct(d, od);
      Norm();
      DifferenceResult(Value(), old(Value()), old(other.Value()), numerator, denominator, s, p, n, d, on, od);
    }

    /** Multiplies the numerator by a and the denominator by b, then norm(). */
    method ScaleParts(a: int, b: int)
      requires Valid() && b != 0
      modifies this
      ensures Valid() && Value() == Q(old(numerator) * a, old(denominator) * b)
    {
      NonZeroProduct(denominator, b);
      numerator := numerator * a;
      denominator := denominator * b;
      ghost var s, p := numerator, denominator;
      Norm();
      SameValue(numerator, denominator, s, p);
    }

    /** operator*=: numerators and denominators multiplied, then norm(). */
    method MulAssign(other: Rational)
      requires Valid() && other.Valid() && other != this
      modifies this
      ensures Valid() && Value() == old(Value()) * old(other.Value())
    {
      var on, od := other.numerator, other.denominator;
      ScaleParts(on, od);
      QProduct(old(numerator), old(denominator), on, od);
    }

    /**
      * operator/= with other's parts read before this one changes: the
      * numerator times other's denominator over the denominator times
      * other's numerator, then norm().
      */
    method DivAssign(other: Rational)
      requires Valid() && other.Valid() && other.numerator != 0
      modifies this
      ensures Valid() && Value() == old(Value()) / old(other.Value())
    {
      ghost var n, d := numerator, denominator;
      var on, od := other.numerator, other.denominator;
      numerator := numerator * od;
      denominator := denominator * on;
      ghost var s, p := numerator, denominator;
      NonZeroProduct(d, on);
      Norm();
      QuotientResult(Value(), old(Value()), old(other.Value()), numerator, denominator, s, p, n, d, on, od);
    }

    /**
      * operator/= as written: `numerator *= other.denominator` runs first, so
      * when other is this object the denominator is multiplied by the new
      * numerator, and x /= x leaves 1/d instead of 1.
      */
    method DivAssignAsWritten(other: Rational)
      requires Valid() && other.Valid() && other.numerator != 0
      modifies this
      ensures Valid()
      ensures other != this ==> Value() == old(Value()) / old(other.Value())
      ensures other == this ==> numerator == 1 && denominator == old(denominator)
    {
      ghost var n, d := numerator, denominator;
      numerator := numerator * other.denominator;
      denominator := denominator * other.numerator;
      if other == this {
        SelfQuotient(n, d);
        Norm();
        NormalizeUnique(n * d, d * (n * d), 1, d);
      } else {
        ghost var on, od := other.numerator, other.denominator;
        ghost var s, p := numerator, denominator;
        NonZeroProduct(d, on);
        Norm();
        QuotientResult(Value(), old(Value()), old(other.Value()), numerator, denominator, s, p, n, d, on, od);
      }
    }

    /** operator+= of Matrix.h: both products divided by gcd(other.denominator, denominator) first, then norm(). */
    method AddAssignPredivided(other: Rational)
      requires Valid() && other.Valid() && other != this
      modifies this
      ensures Valid() && Value() == old(Value()) + old(other.Value())
    {
      ghost var n, d := numerator, denominator;
      var on, od := other.numerator, other.denominator;
      var g := NatGcd(Abs(od), Abs(denominator));
      PredivideSum(n, d, on, od, false);
      numerator := numerator * od + on * denominator;
      denominator := denominator * od;
      ghost var s, p := numerator, denominator;
      numerator := TruncDiv(numerator, g);
      denominator := TruncDiv(denominator, g);
      ghost var s', p' := numerator, denominator;
      Norm();
      CrossChain(numerator, denominator, s', p', s, p);
      SumResult(Value(), old(Value()), old(other.Value()), numerator, denominator, s, p, n, d, on, od);
    }

    /** operator-= of Matrix.h: both products divided by gcd(other.denominator, denominator) first, then norm(). */
    method SubAssignPredivided(other: Rational)
      requires Valid() && other.Valid() && other != this
      modifies this
      ensures Valid() && Value() == old(Value()) - old(other.Value())
    {
      ghost var n, d := numerator, denominator;
      var on, od := other.numerator, other.denominator;
      var g := NatGcd(Abs(od), Abs(denominator));
      PredivideSum(n, d, on, od, true);
      numerator := numerator * od - on * denominator;
      denominator := denominator * od;
      ghost var s, p := numerator, denominator;
      numerator := TruncDiv(numerator, g);
      denominator := TruncDiv(denominator, g);
      ghost var s', p' := numerator, denominator;
      Norm();
      CrossChain(numerator, denominator, s', p', s, p);
      DifferenceResult(Value(), old(Value()), old(other.Value()), numerator, denominator, s, p, n, d, on, od);
    }

    /** The parts operator*= of Matrix.h computes from the parts n/d and on/od. */
    static method PredividedProduct(n: int, d: int, on: int, od: int) returns (num: int, den: int)
      requires Reduced(n, d) && Reduced(on, od)
      ensures Reduced(num, den) && Q(num, den) == Q(n, d) * Q(on, od)
    {
      var g1 := NatGcd(Abs(n), Abs(od));
      var g2 := NatGcd(Abs(on), Abs(d));
      PredivideProduct(n, d, on, od);
      var div := g1 * g2;
      num, den := TruncDiv(n * on, div), TruncDiv(d * od, div);
      // the denominator is positive here, so the source's sign check never flips
      if den < 0 {
        num, den := -num, -den;
      }
      SameValue(num, den, n * on, d * od);
      QProduct(n, d, on, od);
    }

    /**
      * operator*= of Matrix.h: the products divided by gcd(numerator,
      * other.denominator) * gcd(other.numerator, denominator), with no
      * norm() afterwards; the result is nevertheless in lowest terms.
      */
    method MulAssignPredivided(other: Rational)
      requires Valid() && other.Valid() && other != this
      modifies this
      ensures Valid() && Value() == old(Value()) * old(other.Value())
    {
      numerator, denominator := PredividedProduct(numerator, denominator, other.numerator, other.denominator);
    }

    /**
      * operator/= of Matrix.h: the cross products divided by
      * gcd(numerator, other.numerator) * gcd(other.denominator, denominator),
      * then the denominator's sign moved to the numerator, with no norm().
      */
    method DivAssignPredivided(other: Rational)
      requires Valid() && other.Valid() && other != this && other.numerator != 0
      modifies this
      ensures Valid() && Value() == old(Value()) / other.Value()
    {
      ghost var n, d, on, od := numerator, denominator, other.numerator, other.denominator;
      var g1 := NatGcd(Abs(numerator), Abs(other.numerator));
      var g2 := NatGcd(Abs(other.denominator), Abs(denominator));
      assert g1 * g2 > 0 by { PredivideQuotient(n, d, on, od); }
      numerator := numerator * other.denominator;
      denominator := denominator * other.numerator;
      ghost var s, p := numerator, denominator;
      var div := g1 * g2;
      numerator := TruncDiv(numerator, div);
      denominator := TruncDiv(denominator, div);
      ghost var s', p' := numerator, denominator;
      assert p' != 0 && s' * p == s * p' by { PredivideQuotient(n, d, on, od); }
      if denominator < 0 {
        denominator := -denominator;
        numerator := -numerator;
        NegatedCross(s', p');
      }
      assert Valid() by { PredivideQuotient(n, d, on, od); }
      assert Value() == Q(s, p) by {
        CrossChain(numerator, denominator, s', p', s, p);
        SameValue(numerator, denominator, s, p);
      }
      QQuotient(old(numerator), old(denominator), other.numerator, other.denominator);
    }

    /** sign(): 1, -1 or 0 as the value is positive, negative or zero. */
    function Sign(): (r: int)
      reads this
      requires Valid()
      ensures r == 1 <==> Value() > 0.0
      ensures r == -1 <==> Value() < 0.0
      ensures r == 0 <==> Value() == 0.0
    {
      QLess(0, 1, numerator, denominator);
      QLess(numerator, denominator, 0, 1);
      if numerator > 0 then 1 else if numerator < 0 then -1 else 0
    }

    /** operator==: equal cross products. */
    function Equal(other: Rational): (r: bool)
      reads this, other
      requires Valid() && other.Valid()
      ensures r <==> Value() == other.Value()
      ensures r <==> numerator == other.numerator && denominator == other.denominator
    {
      EqualMeans(numerator, denominator, other.numerator, other.denominator);
      numerator * other.denominator == other.numerator * denominator
    }

    /** operator<: cross products compared. */
    function Less(other: Rational): (r: bool)
      reads this, other
      requires Valid() && other.Valid()
      ensures r <==> Value() < other.Value()
    {
      QLess(numerator, denominator, other.numerator, other.denominator);
      numerator * other.denominator < other.numerator * denominator
    }

    /** toString(): "n/d", or just "n" when the denominator is 1. */
    function ToString(): (s: string)
      reads this
      requires Valid()
      ensures '/' in s <==> denominator != 1
    {
      DecimalTextReadable(numerator);
      DecimalTextReadable(denominator);
      if denominator != 1 then
        var s := DecimalString(numerator) + "/" + DecimalString(denominator);
        assert s[|DecimalString(numerator)|] == '/';
        s
      else
        DecimalString(numerator)
    }

    /**
      * asDecimal(precision): with precision 0 the truncated quotient;
      * otherwise the magnitude |numerator| * 10^precision / denominator,
      * truncated, written with precision digits after the point, behind a
      * '-' when the value is negative.
      */
    method AsDecimal(precision: nat) returns (ans: string)
      requires Valid()
      ensures precision == 0 ==> ans == DecimalString(TruncDiv(numerator, denominator))
      ensures precision > 0 ==>
        ans == (if numerator < 0 then "-" else "")
               + FixedPoint(Scaled(Abs(numerator), denominator, precision), precision)
    {
      if precision == 0 {
        return DecimalString(TruncDiv(numerator, denominator));
      }
      ans := "";
      var copy := numerator;
      if copy < 0 {
        ans := ans + "-";
        copy := -copy;
      }
      var num := ScaleByPow10(copy % denominator, precision);
      var first := DecimalString(copy / denominator) + ".";
      var second := DecimalString(num / denominator);
      AsDecimalParts(copy, denominator, precision, num);
      first := AppendZeros(first, precision - |second|);
      assert copy == Abs(numerator);
      ans := ans + (first + second);
    }
  }

  /** The loop of asDecimal that multiplies the remainder by 10, p times. */
  method ScaleByPow10(x: int, p: nat) returns (num: int)
    ensures num == x * Pow10(p)
  {
    num := x;
    var i := 0;
    while i < p
      invariant 0 <= i <= p && num == x * Pow10(i)
    {
      num := num * 10;
      i := i + 1;
    }
  }

  /** The loop of asDecimal that appends k zeros. */
  method AppendZeros(s: string, k: nat) returns (r: string)
    ensures r == s + Zeros(k)
  {
    r := s;
    var i := 0;
    while i < k
      invariant 0 <= i <= k && r == s + Zeros(i)
    {
      r := r + "0";
      i := i + 1;
    }
  }

  /** The whole part, the padded fractional part and the point asDecimal joins make up FixedPoint. */
  lemma AsDecimalParts(a: nat, d: int, p: nat, num: int)
    requires d > 0 && p > 0 && num == (a % d) * Pow10(p)
    ensures |DecimalString(num / d)| <= p
    ensures DecimalString(a / d) + "." + Zeros(p - |DecimalString(num / d)|) + DecimalString(num / d)
            == FixedPoint(Scaled(a, d, p), p)
  {
    var P := Pow10(p);
    var t := Scaled(a, d, p);
    TruncatedSplit(a, d, p);
    assert t % P < P;
    PaddedFraction(t % P, p);
  }

  // The results of the compound operators: (r0, r1) is cross-equal to the
  // fraction s / p the operator formed from this = n/d and other = on/od.

  lemma SumResult(v: real, a: real, b: real, r0: int, r1: int, s: int, p: int, n: int, d: int, on: int, od: int)
    requires d != 0 && od != 0 && r1 != 0 && s == n * od + on * d && p == d * od && r0 * p == s * r1
    requires v == Q(r0, r1) && a == Q(n, d) && b == Q(on, od)
    ensures v == a + b
  {
    QSum(n, d, on, od);
    SameValue(r0, r1, s, p);
  }

  lemma DifferenceResult(v: real, a: real, b: real, r0: int, r1: int, s: int, p: int, n: int, d: int, on: int, od: int)
    requires d != 0 && od != 0 && r1 != 0 && s == n * od - on * d && p == d * od && r0 * p == s * r1
    requires v == Q(r0, r1) && a == Q(n, d) && b == Q(on, od)
    ensures v == a - b
  {
    QSum(n, d, on, od);
    SameValue(r0, r1, s, p);
  }

  lemma QuotientResult(v: real, a: real, b: real, r0: int, r1: int, s: int, p: int, n: int, d: int, on: int, od: int)
    requires d != 0 && od != 0 && on != 0 && r1 != 0 && s == n * od && p == d * on && r0 * p == s * r1
    requires v == Q(r0, r1) && a == Q(n, d) && b == Q(on, od)
    ensures v == a / b
  {
    QQuotient(n, d, on, od);
    SameValue(r0, r1, s, p);
  }

  /** Negating both parts of a pair keeps it cross-equal to itself. */
  lemma NegatedCross(a: int, b: int)
    ensures (-a) * b == a * (-b)
  {
  }

  /** Cross-equality through an intermediate pair (s', p'): r0/r1 == s'/p' == s/p. */
  lemma CrossChain(r0: int, r1: int, s': int, p': int, s: int, p: int)
    requires p' != 0 && r0 * p' == s' * r1 && s' * p == s * p'
    ensures r0 * p == s * r1
  {
    assert (r0 * p) * p' == (s * r1) * p' by {
      assert (r0 * p) * p' == (r0 * p') * p;
      assert (s' * r1) * p == (s' * p) * r1;
      assert (s * p') * r1 == (s * r1) * p';
    }
    assert p' * (r0 * p) == p' * (s * r1);
    NonZeroCancel(p', r0 * p, s * r1);
  }

  lemma NonZeroProduct(x: int, y: int)
    requires x != 0 && y != 0
    ensures x * y != 0
  {
    AbsProduct(x, y);
    PositiveProduct(Abs(x), Abs(y));
  }

  /** x /= x as written computes n*d / (d*n*d), which is 1/d. */
  lemma SelfQuotient(n: int, d: int)
    requires Reduced(n, d) && n != 0
    ensures d * (n * d) != 0 && Reduced(1, d)
    ensures 1 * (d * (n * d)) == (n * d) * d
  {
    NonZeroProduct(n, d);
    NonZeroProduct(d, n * d);
    CoprimeWithOne(d);
  }

  /**
    * The digits asDecimal prints are the magnitude truncated to p places:
    * with t = Scaled(a, d, p), t / 10^p <= a / d < (t + 1) / 10^p.
    */
  lemma TruncatedBounds(a: nat, d: int, p: nat)
    requires d > 0
    ensures Q(Scaled(a, d, p), Pow10(p)) <= Q(a, d) < Q(Scaled(a, d, p) + 1, Pow10(p))
  {
    var P := Pow10(p);
    var t := Scaled(a, d, p);
    assert a * P == t * d + (a * P) % d;
    QLess(t, P, a, d);
    QLess(a, d, t + 1, P);
  }

  // ---------------------------------------------------------------------
  // Free comparison and arithmetic operators
  // ---------------------------------------------------------------------

  /** operator>: second < first. */
  function Greater(first: Rational, second: Rational): (r: bool)
    reads first, second
    requires first.Valid() && second.Valid()
    ensures r <==> first.Value() > second.Value()
  {
    second.Less(first)
  }

  /** operator<=: not first > second. */
  function LessOrEqual(first: Rational, second: Rational): (r: bool)
    reads first, second
    requires first.Valid() && second.Valid()
    ensures r <==> first.Value() <= second.Value()
  {
    !Greater(first, second)
  }

  /** operator>=: not first < second. */
  function GreaterOrEqual(first: Rational, second: Rational): (r: bool)
    reads first, second
    requires first.Valid() && second.Valid()
    ensures r <==> first.Value() >= second.Value()
  {
    !first.Less(second)
  }

  /** operator!=: not first == second. */
  function NotEqual(first: Rational, second: Rational): (r: bool)
    reads first, second
    requires first.Valid() && second.Valid()
    ensures r <==> first.Value() != second.Value()
  {
    !first.Equal(second)
  }

  /** operator+: a copy of first, then += second. */
  method Sum(first: Rational, second: Rational) returns (r: Rational)
    requires first.Valid() && second.Valid()
    ensures fresh(r) && r.Valid() && r.Value() == first.Value() + second.Value()
  {
    r := new Rational.Copy(first);
    r.AddAssign(second);
  }

  /** operator-: a copy of first, then -= second. */
  method Difference(first: Rational, second: Rational) returns (r: Rational)
    requires first.Valid() && second.Valid()
    ensures fresh(r) && r.Valid() && r.Value() == first.Value() - second.Value()
  {
    r := new Rational.Copy(first);
    r.SubAssign(second);
  }

  /** operator*: a copy of first, then *= second. */
  method Product(first: Rational, second: Rational) returns (r: Rational)
    requires first.Valid() && second.Valid()
    ensures fresh(r) && r.Valid() && r.Value() == first.Value() * second.Value()
  {
    r := new Rational.Copy(first);
    r.MulAssign(second);
  }

  /** operator/: a copy of first, then /= second; the copy is never second, so the alias defect of /= cannot arise. */
  method Quotient(first: Rational, second: Rational) returns (r: Rational)
    requires first.Valid() && second.Valid() && second.numerator != 0
    ensures fresh(r) && r.Valid() && r.Value() == first.Value() / second.Value()
  {
    r := new Rational.Copy(first);
    r.DivAssignAsWritten(second);
  }

  // ---------------------------------------------------------------------
  // Reading "n/d" (operator>> of Matrix.h)
  // ---------------------------------------------------------------------

  /** The value operator>> gives a readable token: n/d when it holds a '/', n otherwise. */
  ghost function FractionValue(str: string): real
    requires ReadableFraction(str)
  {
    var k := SlashIndex(str);
    if k == |str| then ParseDecimal(str) as real
    else Q(ParseDecimal(str[..k]), ParseDecimal(DropSlashes(str[k + 1..])))
  }

  /**
    * operator>> after the token str is read: characters before the first
    * '/' form the numerator text, the other characters after it (further
    * '/' skipped) the denominator text; with no '/' the result is
    * Rational(numerator), otherwise Rational(numerator, denominator).
    */
  method Read(str: string) returns (num: Rational)
    requires ReadableFraction(str)
    ensures fresh(num) && num.Valid() && num.Value() == FractionValue(str)
  {
    var s1, s2, flag := SplitToken(str);
    assert str[..|str|] == str;
    var numer := new BigInteger.FromString(s1);
    var denom := new BigInteger.FromString(s2);
    if !flag {
      num := new Rational.FromInt(numer.Value());
      return;
    }
    num := new Rational.FromFraction(numer, denom);
  }

  /** The loop of operator>> that splits the token at its first '/'. */
  method SplitToken(str: string) returns (s1: string, s2: string, flag: bool)
    ensures var k := SlashIndex(str);
            (flag <==> k < |str|) && s1 == str[..k] && s2 == (if flag then DropSlashes(str[k + 1..]) else "")
  {
    s1, s2 := "", "";
    flag := false;
    var i := 0;
    ghost var k := SlashIndex(str);
    while i < |str|
      invariant 0 <= i <= |str|
      invariant flag <==> k < i
      invariant !flag ==> s1 == str[..i] && s2 == ""
      invariant flag ==> s1 == str[..k] && s2 == DropSlashes(str[k + 1..i])
    {
      if str[i] == '/' {
        if flag {
          SliceSnoc(str, k + 1, i);
          DropSlashesSnoc(str[k + 1..i], str[i]);
        } else {
          assert str[k + 1..i + 1] == [];
        }
        flag := true;
      } else if flag {
        SliceSnoc(str, k + 1, i);
        DropSlashesSnoc(str[k + 1..i], str[i]);
        s2 := s2 + [str[i]];
      } else {
        SliceSnoc(str, 0, i);
        s1 := s1 + [str[i]];
      }
      i := i + 1;
    }
    assert str[..|str|] == str;
    if flag {
      assert str[k + 1..|str|] == str[k + 1..];
    }
  }

  lemma SliceSnoc(s: string, a: nat, b: nat)
    requires a <= b < |s|
    ensures s[a..b + 1] == s[a..b] + [s[b]]
  {
  }

  /** Reading back what toString printed gives the same value: operator>> inverts toString. */
  lemma ReadToString(x: Rational)
    requires x.Valid()
    ensures ReadableFraction(x.ToString()) && FractionValue(x.ToString()) == x.Value()
  {
    var n, d := x.numerator, x.denominator;
    DecimalTextReadable(n);
    DecimalTextReadable(d);
    if d == 1 {
      WholeText(DecimalString(n));
    } else {
      FractionText(DecimalString(n), DecimalString(d));
    }
  }

  /** A token with no '/' reads as the integer it spells. */
  lemma WholeText(a: string)
    requires SignedDigits(a) && forall i :: 0 <= i < |a| ==> a[i] != '/'
    ensures ReadableFraction(a) && FractionValue(a) == ParseDecimal(a) as real
  {
    assert SlashIndex(a) == |a|;
    assert a[..|a|] == a;
  }

  /** The token a/b, neither part holding a '/', reads as the fraction a / b. */
  lemma FractionText(a: string, b: string)
    requires SignedDigits(a) && forall i :: 0 <= i < |a| ==> a[i] != '/'
    requires SignedDigits(b) && forall i :: 0 <= i < |b| ==> b[i] != '/'
    requires ParseDecimal(b) != 0
    ensures ReadableFraction(a + "/" + b)
    ensures FractionValue(a + "/" + b) == Q(ParseDecimal(a), ParseDecimal(b))
  {
    var s := a + "/" + b;
    assert s[|a|] == '/';
    assert forall i :: 0 <= i < |a| ==> s[i] == a[i];
    assert SlashIndex(s) == |a|;
    assert s[..|a|] == a && s[|a| + 1..] == b;
    DropSlashesNone(b);
  }
}
