/**
  * The text a Rational prints and reads: "n/d" fractions (toString and
  * operator>>) and fixed-point decimals (asDecimal).  Everything here is a
  * function on strings and numbers; the methods of the Rational class are
  * proved against it.
  */
module DecimalText {
  import opened Limbs

  // ---------------------------------------------------------------------
  // Fixed-point decimals
  // ---------------------------------------------------------------------

  /** k copies of '0'. */
  function Zeros(k: nat): string
  {
    seq(k, _ => '0')
  }

  /** a / d scaled by 10^p and truncated: the digits asDecimal prints. */
  function Scaled(a: nat, d: int, p: nat): nat
    requires d > 0
  {
    a * Pow10(p) / d
  }

  /**
    * t / 10^p written with p digits after the point: the decimal text of the
    * whole part, '.', then the low p digits of t, zero-padded on the left.
    */
  function FixedPoint(t: nat, p: nat): string
  {
    DecimalString(t / Pow10(p)) + "." + Reverse(PadLE(t % Pow10(p), p))
  }

  /** The last k+1 digits of x are its last k digits after dropping one, then its last digit. */
  lemma ModTen(x: nat, p: int)
    requires p > 0
    ensures x % (10 * p) == 10 * ((x / 10) % p) + x % 10
  {
    var q := x / 10;
    assert x == 10 * q + x % 10;
    assert q == (q / p) * p + q % p;
    assert x == (q / p) * (10 * p) + (10 * (q % p) + x % 10);
    DivModUnique(x, 10 * p, q / p, 10 * (q % p) + x % 10);
  }

  lemma {:induction false} ParsePadded(x: nat, k: nat)
    ensures |Reverse(PadLE(x, k))| == k && AllDigits(Reverse(PadLE(x, k)))
    ensures ParseNat(Reverse(PadLE(x, k))) == x % Pow10(k)
    decreases k
  {
    if k > 0 {
      ParsePadded(x / 10, k - 1);
      var r := Reverse(PadLE(x / 10, k - 1));
      var c := DigitChar(x % 10);
      assert Reverse(PadLE(x, k)) == r + [c];
      ParseNatSnoc(r, c);
      ModTen(x, Pow10(k - 1));
    }
  }

  /** The decimal text of a non-negative number is its digit string. */
  lemma WholeDigits(w: nat)
    ensures AllDigits(DecimalString(w)) && ParseNat(DecimalString(w)) == w
  {
    if w == 0 {
      assert ParseNat("0") == 0;
    } else {
      DigitsLEAreDigits(w);
      ParsePrintedNat(w);
    }
  }

  /** Joining two digit strings w and f: w's value shifted by |f| digits plus f's. */
  lemma JoinDigits(w: string, f: string)
    requires AllDigits(w) && AllDigits(f)
    ensures AllDigits(w + f) && ParseNat(w + f) == ParseNat(w) * Pow10(|f|) + ParseNat(f)
  {
    var e := w + f;
    assert e[..|w|] == w && e[|w|..] == f;
    ParseNatSplit(e, |w|);
  }

  /** Without its point, FixedPoint(t, p) is the digit string of t. */
  lemma FixedPointDigits(t: nat, p: nat)
    ensures var s := FixedPoint(t, p);
            var k := |DecimalString(t / Pow10(p))|;
            k < |s| && s[k] == '.'
            && AllDigits(s[..k] + s[k + 1..]) && ParseNat(s[..k] + s[k + 1..]) == t
  {
    var P := Pow10(p);
    var hi, lo := DivParts(t, P);
    WholeDigits(hi);
    ParsePadded(lo, p);
    PointRemoved(DecimalString(hi), Reverse(PadLE(lo, p)), t, P);
  }

  lemma PointRemoved(w: string, f: string, t: int, P: int)
    requires AllDigits(w) && AllDigits(f) && P > 0 && Pow10(|f|) == P
    requires ParseNat(w) == t / P && ParseNat(f) == t % P
    ensures var s := w + "." + f;
            s[|w|] == '.' && AllDigits(s[..|w|] + s[|w| + 1..]) && ParseNat(s[..|w|] + s[|w| + 1..]) == t
  {
    PointSplit(w, f);
    JoinDigits(w, f);
    Recombine(t, P, ParseNat(w + f), ParseNat(w), ParseNat(f));
  }

  /** Taking the point out of w + "." + f leaves w + f. */
  lemma PointSplit(w: string, f: string)
    ensures var s := w + "." + f; s[|w|] == '.' && s[..|w|] + s[|w| + 1..] == w + f
  {
    var s := w + "." + f;
    assert s[..|w|] == w && s[|w| + 1..] == f;
  }

  lemma DivParts(t: nat, P: int) returns (hi: nat, lo: nat)
    requires P > 0
    ensures hi == t / P && lo == t % P && lo % P == lo
  {
    hi, lo := t / P, t % P;
    DivModUnique(lo, P, 0, lo);
  }

  lemma Recombine(t: int, P: int, v: int, hi: int, lo: int)
    requires P > 0 && hi == t / P && lo == t % P && v == hi * P + lo
    ensures v == t
  {
  }

  /** |DigitsLE(x)| digits of x, then padding zeros: the p-digit padded text of x. */
  lemma {:induction false} PadLEDigits(x: nat, p: nat)
    requires x < Pow10(p)
    ensures |DigitsLE(x)| <= p && PadLE(x, p) == DigitsLE(x) + Zeros(p - |DigitsLE(x)|)
    decreases p
  {
    if p > 0 {
      PadLEDigits(x / 10, p - 1);
      if x == 0 {
        assert PadLE(0, p) == ['0'] + PadLE(0, p - 1);
        assert DigitsLE(0) == [];
        assert ['0'] + Zeros(p - 1) == Zeros(p);
      } else {
        assert DigitsLE(x) == [DigitChar(x % 10)] + DigitsLE(x / 10);
      }
    }
  }

  lemma {:induction false} ReverseZeros(k: nat)
    ensures Reverse(Zeros(k)) == Zeros(k)
    decreases k
  {
    if k > 0 {
      ReverseZeros(k - 1);
      assert Zeros(k)[1..] == Zeros(k - 1);
      assert Zeros(k - 1) + ['0'] == Zeros(k);
    }
  }

  /**
    * asDecimal pads the digits of the fractional part f < 10^p with zeros up
    * to p characters; the result is f's p-digit padded text.
    */
  lemma PaddedFraction(f: nat, p: nat)
    requires 0 < p && f < Pow10(p)
    ensures |DecimalString(f)| <= p
    ensures Zeros(p - |DecimalString(f)|) + DecimalString(f) == Reverse(PadLE(f, p))
  {
    PadLEDigits(f, p);
    var z := Zeros(p - |DigitsLE(f)|);
    ReverseAppend(DigitsLE(f), z);
    ReverseZeros(p - |DigitsLE(f)|);
    ReverseLength(DigitsLE(f));
    if f == 0 {
      assert Zeros(p - 1) + "0" == Zeros(p);
    }
  }

  /**
    * The whole and fractional parts asDecimal computes from a = q*d + r:
    * a*10^p / d split at 10^p is q and r*10^p / d.
    */
  lemma TruncatedSplit(a: nat, d: int, p: nat)
    requires d > 0
    ensures Scaled(a, d, p) / Pow10(p) == a / d
    ensures Scaled(a, d, p) % Pow10(p) == (a % d) * Pow10(p) / d
  {
    ScaledSplit(a, d, Pow10(p));
  }

  /** The arithmetic of TruncatedSplit for any scale P > 0. */
  lemma ScaledSplit(a: nat, d: int, P: int)
    requires d > 0 && P > 0
    ensures a * P / d / P == a / d
    ensures a * P / d % P == (a % d) * P / d
  {
    var q, r := a / d, a % d;
    var f := r * P / d;
    assert r * P == f * d + (r * P) % d;
    assert f < P by {
      if f >= P {
        MulMonotone(d, P, f);
        MulMonotone(P, r + 1, d);
      }
    }
    assert a * P == (q * P + f) * d + (r * P) % d by {
      assert a == q * d + r;
      assert a * P == (q * d) * P + r * P;
      assert (q * d) * P == (q * P) * d;
    }
    DivModUnique(a * P, d, q * P + f, (r * P) % d);
    DivModUnique(q * P + f, P, q, f);
  }

  // ---------------------------------------------------------------------
  // Fractions "n/d"
  // ---------------------------------------------------------------------

  /** What the BigInteger string constructor accepts: an optional '-', then digits. */
  predicate SignedDigits(s: string)
  {
    AllDigits(if |s| > 0 && s[0] == '-' then s[1..] else s)
  }

  /** The index of the first '/' in str, or |str| when there is none. */
  function SlashIndex(str: string): (k: nat)
    ensures k <= |str| && (k < |str| ==> str[k] == '/')
    ensures forall i :: 0 <= i < k ==> str[i] != '/'
  {
    if |str| == 0 || str[0] == '/' then 0 else 1 + SlashIndex(str[1..])
  }

  /** s with every '/' removed. */
  function DropSlashes(s: string): (r: string)
    ensures forall i :: 0 <= i < |r| ==> r[i] != '/'
  {
    if |s| == 0 then [] else (if s[0] == '/' then [] else [s[0]]) + DropSlashes(s[1..])
  }

  lemma {:induction false} DropSlashesSnoc(s: string, c: char)
    ensures DropSlashes(s + [c]) == DropSlashes(s) + (if c == '/' then [] else [c])
    decreases |s|
  {
    if |s| == 0 {
      assert ([] + [c])[1..] == [];
    } else {
      assert (s + [c])[1..] == s[1..] + [c];
      DropSlashesSnoc(s[1..], c);
    }
  }

  lemma {:induction false} DropSlashesNone(s: string)
    requires forall i :: 0 <= i < |s| ==> s[i] != '/'
    ensures DropSlashes(s) == s
    decreases |s|
  {
    if |s| > 0 {
      DropSlashesNone(s[1..]);
    }
  }

  /** The decimal text of an integer holds no '/' and is what the BigInteger string constructor accepts. */
  lemma DecimalTextReadable(x: int)
    ensures SignedDigits(DecimalString(x)) && ParseDecimal(DecimalString(x)) == x
    ensures forall i :: 0 <= i < |DecimalString(x)| ==> DecimalString(x)[i] != '/'
  {
    DecimalRoundTrip(x);
    var s := DecimalString(x);
    if s == "0" {
    } else if s[0] == '-' {
      assert forall i :: 1 <= i < |s| ==> s[i] == s[1..][i - 1];
    } else {
    }
  }

  /**
    * A token operator>> accepts: the text before the first '/' and the text
    * after it (other '/' dropped) are what the BigInteger string constructor
    * accepts, and a denominator that is written is not zero.
    */
  predicate ReadableFraction(str: string)
  {
    var k := SlashIndex(str);
    SignedDigits(str[..k])
    && (k < |str| ==> SignedDigits(DropSlashes(str[k + 1..])) && ParseDecimal(DropSlashes(str[k + 1..])) != 0)
  }
}
