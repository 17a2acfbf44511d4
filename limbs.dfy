/**
  * The arithmetic behind BigInteger: little-endian sequences of base-10^9
  * limbs and the decimal strings BigInteger parses and prints.
  * Everything here is a mathematical function on values; the class in
  * big_integer.dfy is proved against these.
  */
module Limbs {

  /** `mod` in Big_integer.h: the base of one limb. */
  const Base: int := 1_000_000_000
  /** `max_length` in Big_integer.h: decimal digits per limb. */
  const LimbWidth: nat := 9

  /** Base^n */
  function Pow(n: nat): (r: int)
    ensures r > 0
  {
    if n == 0 then 1 else Base * Pow(n - 1)
  }

  /** 10^n */
  function Pow10(n: nat): (r: int)
    ensures r > 0
  {
    if n == 0 then 1 else 10 * Pow10(n - 1)
  }

  /** The number a little-endian limb sequence denotes: d[0] + Base*d[1] + Base^2*d[2] + ... */
  function LimbsValue(d: seq<int>): int
  {
    if |d| == 0 then 0 else d[0] + Base * LimbsValue(d[1..])
  }

  /** Every limb lies in [0, Base). */
  predicate InRange(d: seq<int>)
  {
    forall i :: 0 <= i < |d| ==> 0 <= d[i] < Base
  }

  /** No most-significant zero limb. */
  predicate Trimmed(d: seq<int>)
  {
    |d| == 0 || d[|d| - 1] != 0
  }

  // ---------------------------------------------------------------------
  // Limb sequences
  // ---------------------------------------------------------------------

  lemma PowMonotone(m: nat, n: nat)
    requires m <= n
    ensures Pow(m) <= Pow(n)
    decreases n
  {
    if m < n {
      PowMonotone(m, n - 1);
    }
  }

  /** Splitting a limb sequence at i splits its value into low part plus Base^i times the high part. */
  lemma {:induction false} LimbsSplit(d: seq<int>, i: nat)
    requires i <= |d|
    ensures LimbsValue(d) == LimbsValue(d[..i]) + Pow(i) * LimbsValue(d[i..])
    decreases i
  {
    if i == 0 {
      assert d[..0] == [];
      assert d[0..] == d;
    } else {
      var t := d[1..];
      LimbsSplit(t, i - 1);
      assert t[..i - 1] == d[..i][1..];
      assert t[i - 1..] == d[i..];
      var lo := LimbsValue(t[..i - 1]);
      var hi := LimbsValue(d[i..]);
      calc {
        LimbsValue(d);
        d[0] + Base * LimbsValue(t);
        d[0] + Base * (lo + Pow(i - 1) * hi);
        { assert Base * (Pow(i - 1) * hi) == (Base * Pow(i - 1)) * hi; }
        d[0] + Base * lo + Pow(i) * hi;
        LimbsValue(d[..i]) + Pow(i) * hi;
      }
    }
  }

  /** push_back of limb x adds x * Base^|d|. */
  lemma {:induction false} LimbsAppend(d: seq<int>, x: int)
    ensures LimbsValue(d + [x]) == LimbsValue(d) + x * Pow(|d|)
    decreases |d|
  {
    var e := d + [x];
    if |d| == 0 {
      assert e == [x] && e[1..] == [];
    } else {
      assert e[1..] == d[1..] + [x];
      LimbsAppend(d[1..], x);
      var p := Pow(|d| - 1);
      assert LimbsValue(e) == d[0] + Base * (LimbsValue(d[1..]) + x * p);
      assert Base * (x * p) == x * (Base * p);
    }
  }

  /** Extending a prefix by one limb adds that limb times Base^i. */
  lemma LimbsPrefix(d: seq<int>, i: nat)
    requires i < |d|
    ensures LimbsValue(d[..i + 1]) == LimbsValue(d[..i]) + d[i] * Pow(i)
  {
    LimbsAppend(d[..i], d[i]);
    assert d[..i] + [d[i]] == d[..i + 1];
  }

  /** Overwriting limb i with x changes the value by (x - d[i]) * Base^i. */
  lemma LimbsUpdate(d: seq<int>, i: nat, x: int)
    requires i < |d|
    ensures LimbsValue(d[i := x]) == LimbsValue(d) + (x - d[i]) * Pow(i)
  {
    var e := d[i := x];
    LimbsSplit(d, i);
    LimbsSplit(e, i);
    assert e[..i] == d[..i];
    assert e[i..][1..] == d[i..][1..];
    var rest := LimbsValue(d[i..][1..]);
    assert LimbsValue(d[i..]) == d[i] + Base * rest;
    assert LimbsValue(e[i..]) == x + Base * rest;
    assert Pow(i) * (x + Base * rest) - Pow(i) * (d[i] + Base * rest) == (x - d[i]) * Pow(i);
  }

  /** The low limb of d[i..] is d[i]; the rest is d[i+1..]. */
  lemma LimbsSuffix(d: seq<int>, i: nat)
    requires i < |d|
    ensures LimbsValue(d[i..]) == d[i] + Base * LimbsValue(d[i + 1..])
  {
    assert d[i..][1..] == d[i + 1..];
  }

  /** Removing a most-significant zero limb keeps the value. */
  lemma LimbsDropTopZero(d: seq<int>)
    requires |d| > 0 && d[|d| - 1] == 0
    ensures LimbsValue(d[..|d| - 1]) == LimbsValue(d)
  {
    LimbsAppend(d[..|d| - 1], 0);
    assert d[..|d| - 1] + [0] == d;
  }

  /** In-range limbs denote a number in [0, Base^|d|). */
  lemma {:induction false} LimbsBounds(d: seq<int>)
    requires InRange(d)
    ensures 0 <= LimbsValue(d) < Pow(|d|)
    decreases |d|
  {
    if |d| > 0 {
      LimbsBounds(d[1..]);
      assert LimbsValue(d[1..]) <= Pow(|d| - 1) - 1;
      assert Base * LimbsValue(d[1..]) <= Base * Pow(|d| - 1) - Base;
    }
  }

  /** A non-zero top limb puts the value at or above Base^(|d|-1). */
  lemma {:induction false} LimbsTop(d: seq<int>)
    requires InRange(d) && |d| > 0 && d[|d| - 1] != 0
    ensures LimbsValue(d) >= Pow(|d| - 1)
    decreases |d|
  {
    if |d| > 1 {
      LimbsTop(d[1..]);
      LimbsBounds(d[1..]);
    }
  }

  /** Canonical limbs of different lengths compare by length. */
  lemma LimbsLessByLength(a: seq<int>, b: seq<int>)
    requires InRange(a) && InRange(b) && Trimmed(b)
    requires |a| < |b|
    ensures LimbsValue(a) < LimbsValue(b)
  {
    LimbsBounds(a);
    LimbsTop(b);
    PowMonotone(|a|, |b| - 1);
  }

  /**
    * Equal-length limbs that agree above index k compare as their limbs at k:
    * the comparison loop of BigInteger::operator< stops at the first
    * differing limb from the top.
    */
  lemma LimbsLessAt(a: seq<int>, b: seq<int>, k: nat)
    requires InRange(a) && InRange(b) && |a| == |b| && k < |a|
    requires a[k + 1..] == b[k + 1..] && a[k] < b[k]
    ensures LimbsValue(a) < LimbsValue(b)
  {
    LimbsSplit(a, k);
    LimbsSplit(b, k);
    LimbsSuffix(a, k);
    LimbsSuffix(b, k);
    LimbsBounds(a[..k]);
    LimbsBounds(b[..k]);
    assert LimbsValue(a[k + 1..]) == LimbsValue(b[k + 1..]);
    LessAtArith(LimbsValue(a[..k]), LimbsValue(b[..k]), Pow(k), LimbsValue(a[k..]), LimbsValue(b[k..]));
  }

  lemma LessAtArith(la: int, lb: int, p: int, ha: int, hb: int)
    requires 0 <= la < p && 0 <= lb && ha + 1 <= hb
    ensures la + p * ha < lb + p * hb
  {
    MulMonotone(p, ha + 1, hb);
  }

  /** A quotient and remainder with 0 <= r < b are Euclid's. */
  lemma DivModUnique(a: int, b: int, q: int, r: int)
    requires b > 0 && a == q * b + r && 0 <= r < b
    ensures q == a / b && r == a % b
  {
    var q0, r0 := a / b, a % b;
    assert a == q0 * b + r0;
    if q < q0 {
      MulMonotone(b, q + 1, q0);
    } else if q > q0 {
      MulMonotone(b, q0 + 1, q);
    }
  }

  lemma MulMonotone(p: int, x: int, y: int)
    requires p > 0 && x <= y
    ensures p * x <= p * y
  {
  }

  /** A number a divisor divides is that divisor times the quotient. */
  lemma ExactQuotient(a: nat, g: nat)
    requires g > 0 && a % g == 0
    ensures a == g * (a / g)
  {
  }

  /** In-range limb sequences of one length are determined by their value. */
  lemma {:induction false} LimbsInjective(a: seq<int>, b: seq<int>)
    requires InRange(a) && InRange(b) && |a| == |b|
    requires LimbsValue(a) == LimbsValue(b)
    ensures a == b
    decreases |a|
  {
    if |a| > 0 {
      assert a[0] - b[0] == Base * (LimbsValue(b[1..]) - LimbsValue(a[1..]));
      assert a[0] == b[0];
      LimbsInjective(a[1..], b[1..]);
      assert a == [a[0]] + a[1..];
      assert b == [b[0]] + b[1..];
    }
  }

  lemma LimbsSingle(x: int)
    ensures LimbsValue([x]) == x
  {
    assert [x][1..] == [];
  }

  /** Canonical limb sequences (in range, no top zero) are determined by their value. */
  lemma CanonicalLimbsUnique(a: seq<int>, b: seq<int>)
    requires InRange(a) && Trimmed(a) && InRange(b) && Trimmed(b)
    requires LimbsValue(a) == LimbsValue(b)
    ensures a == b
  {
    if |a| < |b| {
      LimbsLessByLength(a, b);
    } else if |b| < |a| {
      LimbsLessByLength(b, a);
    } else {
      LimbsInjective(a, b);
    }
  }

  /** The canonical limbs of n: the limb vector BigInteger keeps for a magnitude n. */
  function ToLimbs(n: nat): (d: seq<int>)
    ensures InRange(d) && Trimmed(d) && LimbsValue(d) == n
    decreases n
  {
    if n == 0 then [] else
      var rest := ToLimbs(n / Base);
      assert ([n % Base] + rest)[1..] == rest;
      [n % Base] + rest
  }

  // ---------------------------------------------------------------------
  // Decimal strings
  // ---------------------------------------------------------------------

  predicate IsDigit(c: char)
  {
    '0' <= c <= '9'
  }

  predicate AllDigits(s: string)
  {
    forall i :: 0 <= i < |s| ==> IsDigit(s[i])
  }

  /** `c - '0'` */
  function DigitOf(c: char): int
  {
    c as int - '0' as int
  }

  /** `'0' + d` */
  function DigitChar(d: int): (c: char)
    requires 0 <= d < 10
    ensures IsDigit(c) && DigitOf(c) == d
  {
    ('0' as int + d) as char
  }

  /** The value of a string of decimal digits, most significant first. */
  function ParseNat(s: string): int
  {
    if |s| == 0 then 0 else DigitOf(s[0]) * Pow10(|s| - 1) + ParseNat(s[1..])
  }

  /** The decimal digits of n, least significant first, with no trailing zero (empty for 0). */
  function DigitsLE(n: nat): seq<char>
  {
    if n == 0 then [] else [DigitChar(n % 10)] + DigitsLE(n / 10)
  }

  /** Exactly k decimal digits of x, least significant first, zero-padded. */
  function PadLE(x: nat, k: nat): seq<char>
  {
    if k == 0 then [] else [DigitChar(x % 10)] + PadLE(x / 10, k - 1)
  }

  function Reverse<T>(s: seq<T>): seq<T>
  {
    if |s| == 0 then [] else Reverse(s[1..]) + [s[0]]
  }

  /** The decimal text of an integer: "0", or an optional '-' and digits without a leading zero. */
  function DecimalString(x: int): string
  {
    if x == 0 then "0"
    else if x < 0 then "-" + Reverse(DigitsLE(-x))
    else Reverse(DigitsLE(x))
  }

  /** The integer a string of an optional '-' followed by decimal digits denotes. */
  function ParseDecimal(s: string): int
  {
    if |s| > 0 && s[0] == '-' then -ParseNat(s[1..]) else ParseNat(s)
  }

  /** Text that DecimalString produces: "0", or an optional '-' and a digit string without a leading zero. */
  predicate CanonicalDecimal(s: string)
  {
    s == "0"
    || (|s| > 0 && s[0] != '-' && AllDigits(s) && s[0] != '0')
    || (|s| > 1 && s[0] == '-' && AllDigits(s[1..]) && s[1] != '0')
  }

  lemma Pow10Nine()
    ensures Pow10(LimbWidth) == Base
  {
  }

  lemma {:induction false} Pow10Add(m: nat, n: nat)
    ensures Pow10(m + n) == Pow10(m) * Pow10(n)
    decreases m
  {
    if m > 0 {
      Pow10Add(m - 1, n);
      assert Pow10(m + n) == 10 * Pow10(m - 1 + n);
    }
  }

  /** k limbs hold exactly 9k decimal digits: Base^k == 10^(9k). */
  lemma {:induction false} PowIsPow10(k: nat)
    ensures Pow(k) == Pow10(LimbWidth * k)
    decreases k
  {
    if k > 0 {
      PowIsPow10(k - 1);
      Pow10Add(LimbWidth, LimbWidth * (k - 1));
      Pow10Nine();
    }
  }

  lemma {:induction false} ParseNatBounds(s: string)
    requires AllDigits(s)
    ensures 0 <= ParseNat(s) < Pow10(|s|)
    decreases |s|
  {
    if |s| > 0 {
      ParseNatBounds(s[1..]);
      var p := Pow10(|s| - 1);
      assert DigitOf(s[0]) * p <= 9 * p;
    }
  }

  /** A leading digit other than '0' puts the value at or above 10^(|s|-1). */
  lemma ParseNatLeading(s: string)
    requires AllDigits(s) && |s| > 0 && s[0] != '0'
    ensures ParseNat(s) >= Pow10(|s| - 1)
  {
    ParseNatBounds(s[1..]);
    assert DigitOf(s[0]) >= 1;
    MulMonotone(Pow10(|s| - 1), 1, DigitOf(s[0]));
  }

  /** Appending a digit c to s multiplies by 10 and adds c. */
  lemma {:induction false} ParseNatSnoc(s: string, c: char)
    ensures ParseNat(s + [c]) == 10 * ParseNat(s) + DigitOf(c)
    decreases |s|
  {
    if |s| == 0 {
      assert ([] + [c])[1..] == [];
    } else {
      var e := s + [c];
      assert e[1..] == s[1..] + [c];
      ParseNatSnoc(s[1..], c);
      assert DigitOf(s[0]) * Pow10(|s|) == 10 * (DigitOf(s[0]) * Pow10(|s| - 1));
    }
  }

  /** Splitting a digit string at k: the high part is scaled by 10^(|s|-k). */
  lemma {:induction false} ParseNatSplit(s: string, k: nat)
    requires k <= |s|
    ensures ParseNat(s) == ParseNat(s[..k]) * Pow10(|s| - k) + ParseNat(s[k..])
    decreases k
  {
    if k == 0 {
      assert s[0..] == s;
    } else {
      ParseNatSplit(s[1..], k - 1);
      assert s[1..][..k - 1] == s[..k][1..];
      assert s[1..][k - 1..] == s[k..];
      Pow10Add(k - 1, |s| - k);
      SplitArith(DigitOf(s[0]), Pow10(k - 1), Pow10(|s| - k), ParseNat(s[..k][1..]));
    }
  }

  lemma SplitArith(d: int, p: int, r: int, lo: int)
    ensures d * (p * r) + lo * r == (d * p + lo) * r
  {
  }

  lemma {:induction false} ReverseAppend<T>(s: seq<T>, t: seq<T>)
    ensures Reverse(s + t) == Reverse(t) + Reverse(s)
    decreases |s|
  {
    if |s| == 0 {
      assert s + t == t;
    } else {
      assert (s + t)[1..] == s[1..] + t;
      ReverseAppend(s[1..], t);
    }
  }

  lemma {:induction false} ReverseLength<T>(s: seq<T>)
    ensures |Reverse(s)| == |s|
    decreases |s|
  {
    if |s| > 0 {
      ReverseLength(s[1..]);
    }
  }

  lemma {:induction false} DigitsLEAreDigits(n: nat)
    ensures AllDigits(DigitsLE(n)) && AllDigits(Reverse(DigitsLE(n)))
    decreases n
  {
    if n > 0 {
      DigitsLEAreDigits(n / 10);
      var r := Reverse(DigitsLE(n / 10));
      assert Reverse(DigitsLE(n)) == r + [DigitChar(n % 10)];
    }
  }

  /** The most significant printed digit of a positive number is not '0'. */
  lemma {:induction false} DigitsLELeading(n: nat)
    requires n > 0
    ensures |DigitsLE(n)| > 0 && Reverse(DigitsLE(n))[0] != '0'
    decreases n
  {
    ReverseLength(DigitsLE(n));
    if n / 10 == 0 {
      assert DigitsLE(n) == [DigitChar(n % 10)];
      assert Reverse(DigitsLE(n)) == [DigitChar(n % 10)];
    } else {
      DigitsLELeading(n / 10);
      ReverseLength(DigitsLE(n / 10));
      assert Reverse(DigitsLE(n)) == Reverse(DigitsLE(n / 10)) + [DigitChar(n % 10)];
    }
  }

  /** Parsing the printed digits of n gives n back. */
  lemma {:induction false} ParsePrintedNat(n: nat)
    ensures ParseNat(Reverse(DigitsLE(n))) == n
    decreases n
  {
    if n > 0 {
      ParsePrintedNat(n / 10);
      assert Reverse(DigitsLE(n)) == Reverse(DigitsLE(n / 10)) + [DigitChar(n % 10)];
      ParseNatSnoc(Reverse(DigitsLE(n / 10)), DigitChar(n % 10));
    }
  }

  /** Printing the value of a digit string without a leading zero gives the string back. */
  lemma {:induction false} PrintParsedNat(s: string)
    requires |s| > 0 && AllDigits(s) && s[0] != '0'
    ensures ParseNat(s) > 0 && Reverse(DigitsLE(ParseNat(s))) == s
    decreases |s|
  {
    ParseNatLeading(s);
    var init := s[..|s| - 1];
    var c := s[|s| - 1];
    assert s == init + [c];
    ParseNatSnoc(init, c);
    var n := ParseNat(s);
    assert n % 10 == DigitOf(c) && n / 10 == ParseNat(init);
    assert DigitChar(DigitOf(c)) == c;
    if |init| == 0 {
      assert ParseNat(init) == 0;
      assert DigitsLE(n) == [c];
    } else {
      PrintParsedNat(init);
      assert DigitsLE(n) == [c] + DigitsLE(ParseNat(init));
    }
  }

  /** Parsing the decimal text of x gives x: BigInteger(b.toString()) has b's value. */
  lemma DecimalRoundTrip(x: int)
    ensures ParseDecimal(DecimalString(x)) == x
    ensures CanonicalDecimal(DecimalString(x))
  {
    if x != 0 {
      var n: nat := if x < 0 then -x else x;
      ParsePrintedNat(n);
      DigitsLEAreDigits(n);
      DigitsLELeading(n);
      var r := Reverse(DigitsLE(n));
      if x < 0 {
        assert ("-" + r)[1..] == r;
      } else {
        assert r[0] != '-' by {
          assert IsDigit(r[0]);
        }
      }
    } else {
      assert "0"[1..] == "";
      assert ParseNat("0") == 0;
    }
  }

  /** Printing the value of canonical decimal text gives the text back: toString(BigInteger(s)) == s. */
  lemma ParseRoundTrip(s: string)
    requires CanonicalDecimal(s)
    ensures DecimalString(ParseDecimal(s)) == s
  {
    if s == "0" {
    } else if s[0] == '-' {
      var t := s[1..];
      PrintParsedNat(t);
      assert "-" + t == s;
    } else {
      PrintParsedNat(s);
    }
  }

  /** x + 10^k * y, for x of at most k digits and y > 0, prints as x padded to k digits, then y. */
  lemma {:induction false} DigitsLEShift(x: nat, y: nat, k: nat)
    requires x < Pow10(k) && y > 0
    ensures DigitsLE(x + Pow10(k) * y) == PadLE(x, k) + DigitsLE(y)
    decreases k
  {
    if k == 0 {
    } else {
      var n := x + Pow10(k) * y;
      var q := x / 10 + Pow10(k - 1) * y;
      assert Pow10(k) * y == 10 * (Pow10(k - 1) * y);
      DivModUnique(n, 10, q, x % 10);
      assert x / 10 < Pow10(k - 1);
      DigitsLEShift(x / 10, y, k - 1);
    }
  }

  /** The nine-digit zero-padded text of every limb, least significant first. */
  function PadLimbs(d: seq<int>): seq<char>
    requires InRange(d)
  {
    if |d| == 0 then [] else PadLE(d[0], LimbWidth) + PadLimbs(d[1..])
  }

  /**
    * The digits of a canonical limb sequence, least significant first, are the
    * padded text of every limb but the top one, followed by the top limb's
    * unpadded digits: how BigInteger::toString assembles its text.
    */
  lemma {:induction false} LimbsDigits(d: seq<int>)
    requires InRange(d) && Trimmed(d) && |d| > 0
    ensures LimbsValue(d) > 0
    ensures PadLimbs(d[..|d| - 1]) + DigitsLE(d[|d| - 1]) == DigitsLE(LimbsValue(d))
    decreases |d|
  {
    LimbsTop(d);
    if |d| == 1 {
      assert d[..0] == [];
      assert LimbsValue(d) == d[0];
    } else {
      var t := d[1..];
      LimbsDigits(t);
      assert d[..|d| - 1][1..] == t[..|t| - 1];
      assert d[|d| - 1] == t[|t| - 1];
      Pow10Nine();
      DigitsLEShift(d[0], LimbsValue(t), LimbWidth);
    }
  }
}
