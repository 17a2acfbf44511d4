/**
  * Residue<N> of Matrix.h: integers modulo the template parameter N, with
  * division by Fermat inversion, and the is_prime test.  The residue is a
  * class whose compound operators update x in place; the number theory that
  * makes pown(a, N - 2) an inverse for prime N is proved from the binomial
  * theorem.
  */
module ResidueModel {
  import opened Limbs
  import opened BigIntegerModel
  import opened RationalModel

  /**
    * The largest modulus for which Residue's int arithmetic cannot overflow:
    * x + other.x, and v % N + N in the constructor, stay below 2^31.
    */
  const MaxModulus: nat := 0x4000_0000
  /** size_t arithmetic is modulo 2^64. */
  const SizeModulus: int := 0x1_0000_0000_0000_0000

  function Power(b: int, e: nat): int
  {
    if e == 0 then 1 else b * Power(b, e - 1)
  }

  predicate IsPrime(n: nat)
  {
    n >= 2 && forall d :: 2 <= d < n ==> n % d != 0
  }

  // ---------------------------------------------------------------------
  // Arithmetic modulo p
  // ---------------------------------------------------------------------

  lemma ModShift(x: int, p: int, k: int)
    requires p > 0
    ensures (x + p * k) % p == x % p
  {
    var q, r := x / p, x % p;
    assert x + p * k == (q + k) * p + r;
    DivModUnique(x + p * k, p, q + k, r);
  }

  lemma ModMulLeft(a: int, b: int, p: int)
    requires p > 0
    ensures (a * b) % p == ((a % p) * b) % p
  {
    var q, r := a / p, a % p;
    assert a * b == r * b + p * (q * b) by {
      assert a == q * p + r;
    }
    ModShift(r * b, p, q * b);
  }

  lemma ModMul(a: int, b: int, p: int)
    requires p > 0
    ensures (a * b) % p == ((a % p) * (b % p)) % p
  {
    ModMulLeft(a, b, p);
    ModMulLeft(b, a % p, p);
    assert (a % p) * b == b * (a % p);
    assert (b % p) * (a % p) == (a % p) * (b % p);
  }

  lemma ModAdd(a: int, b: int, p: int)
    requires p > 0
    ensures (a + b) % p == ((a % p) + (b % p)) % p
  {
    var qa, qb := a / p, b / p;
    assert a + b == (a % p + b % p) + p * (qa + qb);
    ModShift(a % p + b % p, p, qa + qb);
  }

  lemma ModSmall(a: int, p: int)
    requires 0 <= a < p
    ensures a % p == a
  {
    DivModUnique(a, p, 0, a);
  }

  // ---------------------------------------------------------------------
  // Powers
  // ---------------------------------------------------------------------

  lemma {:induction false} PowerAdd(b: int, e1: nat, e2: nat)
    ensures Power(b, e1 + e2) == Power(b, e1) * Power(b, e2)
    decreases e1
  {
    if e1 > 0 {
      PowerAdd(b, e1 - 1, e2);
      assert Power(b, e1 + e2) == b * Power(b, e1 - 1 + e2);
    }
  }

  lemma {:induction false} PowerSquare(b: int, e: nat)
    ensures Power(b * b, e) == Power(b, 2 * e)
    decreases e
  {
    if e > 0 {
      var r := Power(b, 2 * (e - 1));
      assert Power(b * b, e) == (b * b) * r by {
        PowerSquare(b, e - 1);
      }
      assert Power(b, 2 * e) == Power(b, 2) * r by {
        PowerAdd(b, 2, 2 * (e - 1));
      }
      assert Power(b, 2) == b * b by {
        assert Power(b, 1) == b;
      }
    }
  }

  lemma {:induction false} PowerMod(b: int, e: nat, p: int)
    requires p > 0
    ensures Power(b % p, e) % p == Power(b, e) % p
    decreases e
  {
    if e > 0 {
      PowerMod(b, e - 1, p);
      ModMul(b % p, Power(b % p, e - 1), p);
      ModMul(b, Power(b, e - 1), p);
      assert (b % p) % p == b % p by {
        ModSmall(b % p, p);
      }
    }
  }

  lemma {:induction false} PowerNonNegative(b: nat, e: nat)
    ensures Power(b, e) >= 0
    decreases e
  {
    if e > 0 {
      PowerNonNegative(b, e - 1);
    }
  }

  // ---------------------------------------------------------------------
  // Fermat's little theorem
  // ---------------------------------------------------------------------

  /** The binomial coefficient by Pascal's rule. */
  function Binom(n: nat, k: nat): nat
  {
    if k == 0 then 1 else if n == 0 then 0 else Binom(n - 1, k - 1) + Binom(n - 1, k)
  }

  lemma {:induction false} BinomAbove(n: nat, k: nat)
    requires k > n
    ensures Binom(n, k) == 0
    decreases n
  {
    if n > 0 {
      BinomAbove(n - 1, k - 1);
      BinomAbove(n - 1, k);
    }
  }

  lemma {:induction false} BinomDiagonal(n: nat)
    ensures Binom(n, n) == 1
    decreases n
  {
    if n > 0 {
      BinomDiagonal(n - 1);
      BinomAbove(n - 1, n);
    }
  }

  /** The absorption identity k * C(n, k) == n * C(n - 1, k - 1). */
  lemma {:induction false} Absorption(n: nat, k: nat)
    requires 1 <= k && 1 <= n
    ensures k * Binom(n, k) == n * Binom(n - 1, k - 1)
    decreases n
  {
    if n == 1 {
      if k > 1 {
        BinomAbove(1, k);
        BinomAbove(0, k - 1);
      }
    } else {
      var a, b := Binom(n - 1, k - 1), Binom(n - 1, k);
      assert Binom(n, k) == a + b;
      // k * b == (n - 1) * C(n - 2, k - 1)
      Absorption(n - 1, k);
      if k == 1 {
        assert a == 1;
        assert Binom(n - 2, 0) == 1;
        assert k * Binom(n, k) == n * a;
      } else {
        // (k - 1) * a == (n - 1) * C(n - 2, k - 2)
        Absorption(n - 1, k - 1);
        assert Binom(n - 1, k - 1) == Binom(n - 2, k - 2) + Binom(n - 2, k - 1);
        AbsorptionArith(k, n, a, b, Binom(n - 2, k - 2), Binom(n - 2, k - 1));
      }
    }
  }

  lemma AbsorptionArith(k: int, n: int, a: int, b: int, c: int, e: int)
    requires k * b == (n - 1) * e && (k - 1) * a == (n - 1) * c && a == c + e
    ensures k * (a + b) == n * a
  {
    assert k * a == (n - 1) * c + a;
    assert k * (a + b) == (n - 1) * (c + e) + a;
  }

  /** A prime is coprime to every number strictly between 0 and itself. */
  lemma PrimeCoprime(p: nat, k: nat)
    requires IsPrime(p) && 0 < k < p
    ensures NatGcd(p, k) == 1
  {
    var g := NatGcd(p, k);
    NatGcdIsGcd(p, k, 0);
    NatGcdPositive(p, k);
    assert g <= k < p;
  }

  /** p divides C(p, k) for prime p and 0 < k < p. */
  lemma PrimeDividesBinom(p: nat, k: nat)
    requires IsPrime(p) && 0 < k < p
    ensures Binom(p, k) % p == 0
  {
    Absorption(p, k);
    PrimeCoprime(p, k);
    CoprimeDivides(p, k, Binom(p, k), Binom(p - 1, k - 1));
  }

  /** The first k + 1 terms of the binomial expansion of (a + 1)^n. */
  function BinomSum(a: int, n: nat, k: nat): int
  {
    if k == 0 then 1 else BinomSum(a, n, k - 1) + Binom(n, k) * Power(a, k)
  }

  lemma {:induction false} PascalSum(a: int, n: nat, k: nat)
    requires k >= 1
    ensures BinomSum(a, n + 1, k) == BinomSum(a, n, k) + a * BinomSum(a, n, k - 1)
    decreases k
  {
    if k == 1 {
      assert Binom(n + 1, 1) == 1 + Binom(n, 1);
    } else {
      PascalSum(a, n, k - 1);
      assert Binom(n + 1, k) == Binom(n, k - 1) + Binom(n, k);
      assert Power(a, k) == a * Power(a, k - 1);
      PascalArith(a, BinomSum(a, n, k - 1), BinomSum(a, n, k - 2), Binom(n, k - 1), Binom(n, k),
                  Power(a, k - 1), Power(a, k));
    }
  }

  lemma PascalArith(a: int, s1: int, s2: int, b1: int, b2: int, q: int, pk: int)
    requires pk == a * q && s1 == s2 + b1 * q
    ensures (s1 + a * s2) + (b1 + b2) * pk == (s1 + b2 * pk) + a * s1
  {
    assert a * s1 == a * s2 + b1 * (a * q);
  }

  /** The binomial theorem for (a + 1)^n. */
  lemma {:induction false} BinomialTheorem(a: int, n: nat)
    ensures Power(a + 1, n) == BinomSum(a, n, n)
    decreases n
  {
    if n > 0 {
      BinomialTheorem(a, n - 1);
      PascalSum(a, n - 1, n);
      BinomAbove(n - 1, n);
      FactorOut(a, BinomSum(a, n - 1, n - 1), Power(a + 1, n), Binom(n - 1, n), Power(a, n), BinomSum(a, n, n));
    }
  }

  /** The arithmetic of one step of the binomial theorem: (a + 1) * s == s + a * s. */
  lemma FactorOut(a: int, s: int, p: int, zero: int, x: int, sum: int)
    requires p == (a + 1) * s && zero == 0 && sum == s + zero * x + a * s
    ensures p == sum
  {
  }

  /** The middle terms C(p, i) a^i, 0 < i <= k < p, add up to a multiple of p. */
  lemma {:induction false} MiddleTerms(a: int, p: nat, k: nat)
    requires IsPrime(p) && k < p
    ensures (BinomSum(a, p, k) - 1) % p == 0
    decreases k
  {
    if k > 0 {
      MiddleTerms(a, p, k - 1);
      PrimeDividesBinom(p, k);
      var m := Binom(p, k) / p;
      assert Binom(p, k) == p * m;
      var s := BinomSum(a, p, k - 1) - 1;
      assert BinomSum(a, p, k) - 1 == s + p * (m * Power(a, k));
      ModShift(s, p, m * Power(a, k));
    }
  }

  /** The last term of the expansion of (a + 1)^n is a^n. */
  lemma TopTerm(a: int, n: nat)
    requires n > 0
    ensures BinomSum(a, n, n) == BinomSum(a, n, n - 1) + Power(a, n)
  {
    BinomDiagonal(n);
  }

  /** (a + 1)^p and a^p + 1 agree modulo a prime p. */
  lemma FreshmansDream(a: int, p: nat)
    requires IsPrime(p)
    ensures Power(a + 1, p) % p == (Power(a, p) + 1) % p
  {
    var s := BinomSum(a, p, p - 1) - 1;
    var t := Power(a, p);
    assert Power(a + 1, p) == t + 1 + s by {
      TopTerm(a, p);
      BinomialTheorem(a, p);
    }
    var m := s / p;
    assert s == p * m by {
      MiddleTerms(a, p, p - 1);
    }
    ModShift(t + 1, p, m);
  }

  /** Fermat's little theorem: a^p == a modulo a prime p. */
  lemma {:induction false} FermatLittle(a: nat, p: nat)
    requires IsPrime(p)
    ensures Power(a, p) % p == a % p
    decreases a
  {
    if a == 0 {
      assert Power(0, p) == 0 * Power(0, p - 1);
    } else {
      FermatLittle(a - 1, p);
      FreshmansDream(a - 1, p);
      ModAdd(Power(a - 1, p), 1, p);
      ModAdd(a - 1, 1, p);
    }
  }

  /** For prime p and 0 < a < p, a * a^(p-2) is 1 modulo p: pown(a, p - 2) inverts a. */
  lemma FermatInverse(a: nat, p: nat)
    requires IsPrime(p) && 0 < a < p
    ensures (a * Power(a, p - 2)) % p == 1
  {
    var t := Power(a, p - 2);
    assert Power(a, p - 1) == a * t;
    assert Power(a, p) == a * (a * t);
    FermatLittle(a, p);
    ModSmall(a, p);
    PowerNonNegative(a, p - 1);
    // p divides a^p - a == a * (a^(p-1) - 1)
    var u := a * t;
    assert u >= 1 by {
      PowerPositive(a, p - 1);
    }
    var q := (a * u) / p;
    assert a * u == p * q + a;
    assert a * (u - 1) == p * q;
    PrimeCoprime(p, a);
    CoprimeDivides(p, a, u - 1, q);
    var m := (u - 1) / p;
    assert u == 1 + p * m;
    ModShift(1, p, m);
    ModSmall(1, p);
  }

  lemma {:induction false} PowerPositive(b: nat, e: nat)
    requires b > 0
    ensures Power(b, e) >= 1
    decreases e
  {
    if e > 0 {
      PowerPositive(b, e - 1);
      MulMonotone(b, 1, Power(b, e - 1));
    }
  }

  // ---------------------------------------------------------------------
  // The residue class
  // ---------------------------------------------------------------------

  /** The constructor's (v % N + N) % N, with C++'s truncating %, is v modulo N. */
  lemma IntReduces(v: int, n: int)
    requires n > 0
    ensures 0 < CRem(v, n) + n < 2 * n && (CRem(v, n) + n) % n == v % n
  {
    if v >= 0 {
      ModShift(v % n, n, 1);
      ModSmall(v % n, n);
    } else {
      var q, r := (-v) / n, (-v) % n;
      if r == 0 {
        assert v == n * (-q);
        ModShift(0, n, -q);
        ModShift(0, n, 1);
      } else {
        assert v == (-(q + 1)) * n + (n - r);
        DivModUnique(v, n, -(q + 1), n - r);
        ModSmall(n - r, n);
      }
    }
  }

  /** -x + N evaluated in size_t, then reduced modulo N, is -x modulo N. */
  lemma NegateWrap(x: int, n: int)
    requires 0 <= x < n <= MaxModulus
    ensures var t := ((-x) % SizeModulus + n) % SizeModulus % n;
            0 <= t < n && t == (-x) % n
  {
    if x == 0 {
      ModSmall(n, SizeModulus);
      ModShift(0, n, 1);
    } else {
      WrapAdd(x, n, SizeModulus);
      ModSmall(n - x, n);
      DivModUnique(-x, n, -1, n - x);
    }
  }

  /** In an unsigned type of modulus S, -x + n wraps back to n - x. */
  lemma WrapAdd(x: int, n: int, S: int)
    requires 0 < x < n && n < S
    ensures ((-x) % S + n) % S == n - x
  {
    var r := (-x) % S;
    assert r == S - x by {
      DivModUnique(-x, S, -1, S - x);
    }
    DivModUnique(r + n, S, 1, n - x);
  }

  /** Two representatives in [0, n) are congruent exactly when they are equal. */
  lemma SameClass(a: int, b: int, n: int)
    requires 0 <= a < n && 0 <= b < n
    ensures (a - b) % n == 0 <==> a == b
  {
    if a >= b {
      ModSmall(a - b, n);
    } else {
      DivModUnique(a - b, n, -1, a - b + n);
    }
  }

  /** Adding b and then subtracting it, modulo n, gives back a. */
  lemma SubUndoesAdd(a: int, b: int, n: int)
    requires 0 <= a < n
    ensures ((a + b) % n - b) % n == a
  {
    var q := (a + b) / n;
    assert (a + b) % n - b == a + n * (-q);
    ModShift(a, n, -q);
    ModSmall(a, n);
  }

  /** A residue plus its negation is zero. */
  lemma NegateCancels(a: int, n: int)
    requires n > 0
    ensures (a + (-a) % n) % n == 0
  {
    var q := (-a) / n;
    assert a + (-a) % n == 0 + n * (-q);
    ModShift(0, n, -q);
  }

  /** One round of pown keeps ans * val^k fixed modulo n while k is halved. */
  lemma {:induction false} PownStep(a: int, v: int, e: nat, n: int)
    requires n > 0 && e > 0
    ensures var a1 := if e % 2 == 1 then (a * v) % n else a;
            (a1 * Power((v * v) % n, e / 2)) % n == (a * Power(v, e)) % n
  {
    var h := e / 2;
    var w := Power(v * v, h);
    assert Power((v * v) % n, h) % n == w % n by {
      PowerMod(v * v, h, n);
    }
    assert w == Power(v, 2 * h) by {
      PowerSquare(v, h);
    }
    if e % 2 == 1 {
      assert Power(v, e) == v * w by {
        assert e == 2 * h + 1;
      }
      ModMul((a * v) % n, Power((v * v) % n, h), n);
      ModMul(a * v, w, n);
      ModSmall((a * v) % n, n);
      assert (a * v) * w == a * (v * w);
    } else {
      assert e == 2 * h;
      ModMul(a, Power((v * v) % n, h), n);
      ModMul(a, w, n);
    }
  }

  /** Multiplying by a^(p-2) and then by a gives back x, modulo a prime p. */
  lemma DivisionInverts(x: int, a: nat, p: nat)
    requires IsPrime(p) && 0 <= x < p && 0 < a < p
    ensures ((x * Power(a, p - 2)) % p * a) % p == x
  {
    var t := Power(a, p - 2);
    ModMulLeft(x * t, a, p);
    assert (x * t) * a == x * (a * t);
    ModMul(x, a * t, p);
    FermatInverse(a, p);
    ModSmall(x, p);
  }

  class Residue {
    /** The modulus, the template parameter N. */
    const N: nat
    var x: int

    ghost predicate Valid()
      reads this
    {
      0 < N <= MaxModulus && 0 <= x < N
    }

    /** explicit Residue(int): v reduced into [0, N). */
    constructor (n: nat, v: int)
      requires 0 < n <= MaxModulus && -0x8000_0000 <= v < 0x8000_0000
      ensures N == n && Valid() && x == v % n
    {
      IntReduces(v, n);
      N := n;
      x := (CRem(v, n) + n) % n;
    }

    /** The implicit copy constructor. */
    constructor Copy(other: Residue)
      requires other.Valid()
      ensures N == other.N && Valid() && x == other.x
    {
      N := other.N;
      x := other.x;
    }

    /** Unary minus: -x + N is computed in size_t, where -x wraps around. */
    method Negate() returns (r: Residue)
      requires Valid()
      ensures fresh(r) && r.Valid() && r.N == N && r.x == (-x) % N
    {
      NegateWrap(x, N);
      var t := ((-x) % SizeModulus + N) % SizeModulus % N;
      r := new Residue(N, t);
      ModSmall(t, N);
    }

    method AddAssign(other: Residue)
      requires Valid() && other.Valid() && other.N == N
      modifies this
      ensures Valid() && x == (old(x) + old(other.x)) % N
    {
      x := (x + other.x) % N;
    }

    /** x + N - other.x cannot wrap in size_t: it is positive. */
    method SubAssign(other: Residue)
      requires Valid() && other.Valid() && other.N == N
      modifies this
      ensures Valid() && x == (old(x) - old(other.x)) % N
    {
      ModShift(x - other.x, N, 1);
      x := (x + N - other.x) % N;
    }

    /** The product is taken in long long, where it cannot overflow. */
    method MulAssign(other: Residue)
      requires Valid() && other.Valid() && other.N == N
      modifies this
      ensures Valid() && x == (old(x) * old(other.x)) % N
    {
      x := (x * other.x) % N;
    }

    /** Division multiplies by other^(N-2), the inverse of other when N is prime. */
    method DivAssign(other: Residue)
      requires Valid() && other.Valid() && other.N == N
      modifies this
      ensures Valid() && x == (old(x) * (Power(old(other.x), if N >= 2 then N - 2 else 0) % N)) % N
      ensures IsPrime(N) && old(other.x) != 0 ==> (x * old(other.x)) % N == old(x)
    {
      var inverse := Pown(other, N as int - 2);
      MulAssign(inverse);
      if IsPrime(N) && old(other.x) != 0 {
        DivisionInverts(old(x), old(other.x), N);
        ModMulLeft(old(x) * Power(old(other.x), N - 2), 1, N);
        ModMul(old(x), Power(old(other.x), N - 2), N);
        ModSmall(old(x), N);
        ModMul(old(x), Power(old(other.x), N - 2) % N, N);
        ModSmall(Power(old(other.x), N - 2) % N, N);
      }
    }

    function Equal(other: Residue): (r: bool)
      reads this, other
      requires Valid() && other.Valid() && other.N == N
      ensures r <==> (x - other.x) % N == 0
    {
      SameClass(x, other.x, N);
      x == other.x
    }

    function NotEqual(other: Residue): (r: bool)
      reads this, other
      requires Valid() && other.Valid() && other.N == N
      ensures r <==> (x - other.x) % N != 0
    {
      SameClass(x, other.x, N);
      x != other.x
    }

    /** explicit operator int: the representative in [0, N). */
    function ToInt(): (r: int)
      reads this
      requires Valid()
      ensures 0 <= r < N && (r - x) % N == 0
    {
      SameClass(x, x, N);
      x
    }
  }

  /** pown: binary exponentiation; a non-positive exponent gives 1. */
  method Pown(n: Residue, k: int) returns (ans: Residue)
    requires n.Valid()
    ensures fresh(ans) && ans.Valid() && ans.N == n.N
    ensures ans.x == Power(n.x, if k > 0 then k else 0) % n.N
  {
    var N := n.N;
    ans := new Residue(N, 1);
    var v := new Residue.Copy(n);
    var e := k;
    ModMulLeft(1, Power(n.x, if k > 0 then k else 0), N);
    while e > 0
      invariant fresh(ans) && fresh(v) && ans != v
      invariant ans.Valid() && v.Valid() && ans.N == N && v.N == N
      invariant e < 0 ==> e == k
      invariant (ans.x * Power(v.x, if e > 0 then e else 0)) % N == Power(n.x, if k > 0 then k else 0) % N
      decreases e
    {
      PownStep(ans.x, v.x, e, N);
      if e % 2 == 1 {
        ans.MulAssign(v);
      }
      v.MulAssign(v);
      e := e / 2;
    }
    ModSmall(ans.x, N);
  }

  method Sum(first: Residue, second: Residue) returns (r: Residue)
    requires first.Valid() && second.Valid() && first.N == second.N
    ensures fresh(r) && r.Valid() && r.N == first.N && r.x == (first.x + second.x) % first.N
  {
    r := new Residue.Copy(first);
    r.AddAssign(second);
  }

  method Difference(first: Residue, second: Residue) returns (r: Residue)
    requires first.Valid() && second.Valid() && first.N == second.N
    ensures fresh(r) && r.Valid() && r.N == first.N && r.x == (first.x - second.x) % first.N
  {
    r := new Residue.Copy(first);
    r.SubAssign(second);
  }

  method Product(first: Residue, second: Residue) returns (r: Residue)
    requires first.Valid() && second.Valid() && first.N == second.N
    ensures fresh(r) && r.Valid() && r.N == first.N && r.x == (first.x * second.x) % first.N
  {
    r := new Residue.Copy(first);
    r.MulAssign(second);
  }

  method Quotient(first: Residue, second: Residue) returns (r: Residue)
    requires first.Valid() && second.Valid() && first.N == second.N
    ensures fresh(r) && r.Valid() && r.N == first.N
    ensures IsPrime(first.N) && second.x != 0 ==> (r.x * second.x) % first.N == first.x
  {
    r := new Residue.Copy(first);
    r.DivAssign(second);
  }

  // ---------------------------------------------------------------------
  // is_prime
  // ---------------------------------------------------------------------

  /** A composite n has a divisor f >= 2 with f * f <= n. */
  lemma SmallDivisor(n: nat, e: nat) returns (f: nat)
    requires 2 <= e < n && n % e == 0
    ensures 2 <= f && f * f <= n && n % f == 0
  {
    var c := n / e;
    assert n == e * c;
    assert c != 0 && c != 1;
    if e <= c {
      f := e;
      MulMonotone(e, e, c);
    } else {
      f := c;
      MulMonotone(c, c, e);
      assert n == c * e;
      DivModUnique(n, c, e, 0);
    }
  }

  /**
    * is_prime as written: trial division by d while d * d <= n.  For n < 2 the
    * loop does not run and the answer is true.
    */
  method IsPrimeAsWritten(n: nat) returns (r: bool)
    ensures r <==> (n < 2 || IsPrime(n))
  {
    var d := 2;
    while d * d <= n
      invariant 2 <= d
      invariant forall e :: 2 <= e < d ==> n % e != 0
      decreases n - d
    {
      MulMonotone(d, 2, d);
      if n % d == 0 {
        return false;
      }
      d := d + 1;
    }
    if n >= 2 && !IsPrime(n) {
      var e :| 2 <= e < n && n % e == 0;
      var f := SmallDivisor(n, e);
      if f >= d {
        MulMonotone(d, d, f);
        MulMonotone(f, d, f);
      }
    }
    return true;
  }

  /** is_prime with the cases 0 and 1 answered: true exactly for primes. */
  method IsPrimeChecked(n: nat) returns (r: bool)
    ensures r <==> IsPrime(n)
  {
    var divisorFree := IsPrimeAsWritten(n);
    r := n >= 2 && divisorFree;
  }
}
