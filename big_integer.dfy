/**
  * BigInteger from Big_integer.h (an identical copy opens Matrix.h): a sign
  * flag and a little-endian vector of base-10^9 limbs, updated in place by
  * the compound operators. Every method is proved against the integer the
  * limbs denote (Value), and keeps the canonical form (Valid).
  */
module BigIntegerModel {
  import opened Limbs

  /** Limbs in range, no most-significant zero limb, and zero is never negative. */
  predicate Canonical(neg: bool, d: seq<int>)
  {
    InRange(d) && Trimmed(d) && (|d| == 0 ==> !neg)
  }

  /** The integer a sign flag and limb sequence denote. */
  function SignedValue(neg: bool, d: seq<int>): int
  {
    if neg then -LimbsValue(d) else LimbsValue(d)
  }

  function Abs(x: int): nat
  {
    if x < 0 then -x else x
  }

  function B2I(b: bool): int
  {
    if b then 1 else 0
  }

  /** Division truncating toward zero, as C++ integer division does. */
  function TruncDiv(a: int, b: int): int
    requires b != 0
  {
    if (a < 0) == (b < 0) then Abs(a) / Abs(b) else -(Abs(a) / Abs(b))
  }

  /** C++ `%` on int: the remainder of truncating division, with the dividend's sign. */
  function CRem(a: int, b: int): int
    requires b > 0
  {
    if a >= 0 then a % b else -((-a) % b)
  }

  /** In canonical form the sign flag is set exactly for negative values. */
  lemma CanonicalSign(neg: bool, d: seq<int>)
    requires Canonical(neg, d)
    ensures neg <==> SignedValue(neg, d) < 0
    ensures Abs(SignedValue(neg, d)) == LimbsValue(d)
    ensures LimbsValue(d) == 0 <==> |d| == 0
  {
    LimbsBounds(d);
    if |d| > 0 {
      LimbsTop(d);
    }
  }

  /** The limbs of a canonical number are the canonical limbs of its magnitude. */
  lemma LimbsOfValue(neg: bool, d: seq<int>)
    requires Canonical(neg, d)
    ensures ToLimbs(Abs(SignedValue(neg, d))) == d
  {
    CanonicalSign(neg, d);
    CanonicalLimbsUnique(ToLimbs(Abs(SignedValue(neg, d))), d);
  }

  /** Two canonical representations of one integer are identical: operator== is value equality. */
  lemma CanonicalUnique(n1: bool, d1: seq<int>, n2: bool, d2: seq<int>)
    requires Canonical(n1, d1) && Canonical(n2, d2)
    ensures SignedValue(n1, d1) == SignedValue(n2, d2) <==> n1 == n2 && d1 == d2
  {
    if SignedValue(n1, d1) == SignedValue(n2, d2) {
      CanonicalSign(n1, d1);
      CanonicalSign(n2, d2);
      CanonicalLimbsUnique(d1, d2);
    }
  }

  /** castSubstringToInt: the value of the digits str[left..right], read right to left. */
  method CastSubstringToInt(str: string, left: int, right: int) returns (answer: int)
    requires 0 <= left <= right <= |str| && AllDigits(str[left..right])
    ensures answer == ParseNat(str[left..right])
  {
    answer := 0;
    var coeff := 1;
    var j := right;
    while j > left
      invariant left <= j <= right
      invariant answer == ParseNat(str[j..right]) && coeff == Pow10(right - j)
    {
      assert str[j - 1..right][1..] == str[j..right];
      assert IsDigit(str[left..right][j - 1 - left]);
      answer := answer + DigitOf(str[j - 1]) * coeff;
      coeff := coeff * 10;
      j := j - 1;
    }
  }

  /**
    * One step of the string constructor: the chunk str[left..i] of at most
    * nine digits is a limb, and pushing it extends the parsed suffix to str[left..].
    */
  lemma ChunkStep(str: string, left: nat, i: nat, d: seq<int>)
    requires left <= i <= |str| && i - left <= LimbWidth && AllDigits(str[left..])
    requires |str| - i == LimbWidth * |d| && LimbsValue(d) == ParseNat(str[i..])
    ensures 0 <= ParseNat(str[left..i]) < Base
    ensures LimbsValue(d + [ParseNat(str[left..i])]) == ParseNat(str[left..])
  {
    var chunk := ParseNat(str[left..i]);
    assert str[left..][..i - left] == str[left..i];
    assert str[left..][i - left..] == str[i..];
    ParseNatBounds(str[left..i]);
    Pow10Add(i - left, LimbWidth - (i - left));
    Pow10Nine();
    MulMonotone(Pow10(i - left), 1, Pow10(LimbWidth - (i - left)));
    ParseNatSplit(str[left..], i - left);
    PowIsPow10(|d|);
    LimbsAppend(d, chunk);
  }

  /** Every piece of a run of digits is a run of digits. */
  lemma DigitsWithin(str: string, start: nat, left: nat, i: nat)
    requires start <= left <= i <= |str| && AllDigits(str[start..])
    ensures AllDigits(str[left..i]) && AllDigits(str[left..])
  {
    forall k | 0 <= k < |str| - left
      ensures IsDigit(str[left..][k])
    {
      assert str[left..][k] == str[start..][left - start + k];
    }
    assert str[left..i] == str[left..][..i - left];
  }

  /** The chunk loop of the string constructor: nine-digit chunks of str[start..] from the right, as limbs. */
  method ParseChunks(str: string, start: nat) returns (d: seq<int>)
    requires start <= |str| && AllDigits(str[start..])
    ensures InRange(d) && LimbsValue(d) == ParseNat(str[start..])
  {
    d := [];
    var i := |str|;
    while i > start
      invariant i <= |str| && InRange(d)
      invariant i > start ==> |str| - i == LimbWidth * |d|
      invariant LimbsValue(d) == ParseNat(str[if i > start then i else start..])
      decreases i
    {
      var left := if i - LimbWidth as int > start then i - LimbWidth as int else start;
      DigitsWithin(str, start, left, i);
      var chunk := CastSubstringToInt(str, left, i);
      ChunkStep(str, left, i, d);
      d := d + [chunk];
      i := i - LimbWidth as int;
    }
  }

  /** The value bookkeeping of one carry step of operator+=: limb v becomes v + w + f - f2 * Base. */
  lemma AddStepArith(v: int, w: int, f: int, nv: int, f2: int, p: int, rest: int)
    requires nv == v + w + f - f2 * Base
    ensures (nv - v) * p + f2 * (Base * p) + (Base * p) * rest == f * p + p * (w + Base * rest)
  {
  }

  /** The value bookkeeping of one borrow step: limb v becomes v - w - f + f2 * Base. */
  lemma SubStepArith(v: int, w: int, f: int, nv: int, f2: int, p: int, rest: int)
    requires nv == v - w - f + f2 * Base
    ensures (nv - v) * p - f2 * (Base * p) - (Base * p) * rest == -f * p - p * (w + Base * rest)
  {
  }

  /** One step of the corrected complement: limb i of orig is negated with the borrow f, giving borrow f2. */
  lemma NegateStep(before: seq<int>, after: seq<int>, orig: seq<int>, i: nat, f: int, f2: int)
    requires i < |before| == |after| == |orig| && InRange(orig)
    requires before[i..] == orig[i..]
    requires after == before[i := 0 - orig[i] - f + f2 * Base]
    requires LimbsValue(before[..i]) == f * Pow(i) - LimbsValue(orig[..i])
    requires (f == 1 <==> LimbsValue(orig[..i]) > 0) && (f == 0 || f == 1)
    requires f2 == 1 <==> orig[i] + f > 0
    requires f2 == 0 || f2 == 1
    ensures after[i + 1..] == orig[i + 1..]
    ensures LimbsValue(after[..i + 1]) == f2 * Pow(i + 1) - LimbsValue(orig[..i + 1])
    ensures f2 == 1 <==> LimbsValue(orig[..i + 1]) > 0
  {
    assert after[..i] == before[..i];
    assert before[i] == orig[i];
    LimbsPrefix(after, i);
    LimbsPrefix(orig, i);
    LimbsBounds(orig[..i]);
    assert Pow(i + 1) == Base * Pow(i);
    NegateArith(LimbsValue(before[..i]), LimbsValue(orig[..i]), orig[i], f, f2, Pow(i));
  }

  lemma NegateArith(lb: int, lo: int, x: int, f: int, f2: int, p: int)
    requires p > 0 && lo >= 0 && x >= 0 && lb == f * p - lo
    requires (f == 1 <==> lo > 0) && (f == 0 || f == 1)
    requires (f2 == 1 <==> x + f > 0) && (f2 == 0 || f2 == 1)
    ensures lb + (0 - x - f + f2 * Base) * p == f2 * (Base * p) - (lo + x * p)
    ensures f2 == 1 <==> lo + x * p > 0
  {
    assert (0 - x - f + f2 * Base) * p == f2 * (Base * p) - x * p - f * p;
    if x > 0 {
      MulMonotone(p, 1, x);
    }
  }

  /** One step of the complement as written: limb i becomes Base - 1 - limb i. */
  lemma FlipStep(before: seq<int>, after: seq<int>, orig: seq<int>, i: nat, lost: int)
    requires 0 < i < |before| == |after| == |orig|
    requires before[i..] == orig[i..]
    requires after == before[i := Base - 1 - before[i]]
    requires LimbsValue(before[..i]) == Pow(i) - LimbsValue(orig[..i]) - lost
    ensures after[i + 1..] == orig[i + 1..]
    ensures LimbsValue(after[..i + 1]) == Pow(i + 1) - LimbsValue(orig[..i + 1]) - lost
  {
    assert after[..i] == before[..i];
    assert before[i] == orig[i];
    LimbsPrefix(after, i);
    LimbsPrefix(orig, i);
    assert Pow(i + 1) == Base * Pow(i);
    assert (Base - 1 - orig[i]) * Pow(i) == Base * Pow(i) - Pow(i) - orig[i] * Pow(i);
  }

  /** The running total of an addition loop: the limbs, the pending carry at i and other's limbs from i. */
  predicate CarryTotal(d: seq<int>, i: nat, f: bool, rest: int, total: int)
  {
    LimbsValue(d) + B2I(f) * Pow(i) + Pow(i) * rest == total
  }

  /** The running difference of a subtraction loop: the limbs, less the pending borrow at i and other's limbs from i. */
  predicate BorrowTotal(d: seq<int>, i: nat, f: bool, rest: int, total: int)
  {
    LimbsValue(d) - B2I(f) * Pow(i) - Pow(i) * rest == total
  }

  /** One carry step keeps the running total: limb i absorbs w and the carry f, passing on f2. */
  lemma CarryStepValue(before: seq<int>, mid: seq<int>, after: seq<int>, i: nat, w: int, f: bool, f2: bool, rest: int, total: int)
    requires i < |before| == |after|
    requires mid == before[i := before[i] + w]
    requires after == mid[i := mid[i] + B2I(f) - B2I(f2) * Base]
    requires CarryTotal(before, i, f, w + Base * rest, total)
    ensures CarryTotal(after, i + 1, f2, rest, total)
  {
    assert after == before[i := before[i] + w + B2I(f) - B2I(f2) * Base];
    LimbsUpdate(before, i, after[i]);
    AddStepArith(before[i], w, B2I(f), after[i], B2I(f2), Pow(i), rest);
    assert Pow(i + 1) == Base * Pow(i);
  }

  /** One borrow step keeps the running difference: limb i gives up w and the borrow f, taking f2. */
  lemma BorrowStepValue(before: seq<int>, after: seq<int>, i: nat, w: int, f: bool, f2: bool, rest: int, total: int)
    requires i < |before| == |after|
    requires after == before[i := before[i] - w - B2I(f) + B2I(f2) * Base]
    requires BorrowTotal(before, i, f, w + Base * rest, total)
    ensures BorrowTotal(after, i + 1, f2, rest, total)
  {
    LimbsUpdate(before, i, after[i]);
    SubStepArith(before[i], w, B2I(f), after[i], B2I(f2), Pow(i), rest);
    assert Pow(i + 1) == Base * Pow(i);
  }

  /** push_back(0) on the limbs: the value does not change. */
  function PushZero(d: seq<int>): (r: seq<int>)
    requires InRange(d)
    ensures r == d + [0] && InRange(r) && LimbsValue(r) == LimbsValue(d)
  {
    LimbsAppend(d, 0);
    d + [0]
  }

  /**
    * What operator+= as Big_integer.h writes it computes: right except when
    * the signs differ, |a| < |b| and |b| - |a| is a multiple of Base, where
    * the complement step drops one Base from the magnitude.
    */
  function AddAsWrittenValue(a: int, b: int): int
  {
    if (a < 0) != (b < 0) && Abs(a) < Abs(b) && (Abs(b) - Abs(a)) % Base == 0 then
      (if b < 0 then a + b + Base else a + b - Base)
    else
      a + b
  }

  /** 5 + (-1000000005) yields 0 instead of -1000000000. */
  lemma AddAsWrittenDropsCarry()
    ensures AddAsWrittenValue(5, -1_000_000_005) == 0 != 5 + -1_000_000_005
  {
  }

  /** Off that case the written operator is exact addition. */
  lemma AddAsWrittenAgrees(a: int, b: int)
    requires (a < 0) == (b < 0) || Abs(b) <= Abs(a) || (Abs(b) - Abs(a)) % Base != 0
    ensures AddAsWrittenValue(a, b) == a + b
  {
  }

  /**
    * The Horner loop of operator*= as Big_integer.h writes it, over the limbs
    * od of the multiplier from the top down: each step shifts by a limb and
    * adds c times the next limb with the written operator+=.
    */
  function HornerAsWritten(c: int, od: seq<int>): int
  {
    if |od| == 0 then 0 else AddAsWrittenValue(HornerAsWritten(c, od[1..]) * Base, c * od[0])
  }

  /** What operator*= as written leaves in a when multiplied by a distinct b. */
  function MulAsWrittenValue(a: int, b: int): int
  {
    var h := HornerAsWritten(a, ToLimbs(Abs(b)));
    if b < 0 then -h else h
  }

  /**
    * What operator%= as written leaves in a: a minus b * (a / b), with the
    * written *= and -=. A zero divisor multiplies b = 0 and subtracts zero.
    */
  function ModAsWrittenValue(a: int, b: int): int
  {
    if b == 0 then a else AddAsWrittenValue(a, -MulAsWrittenValue(b, TruncDiv(a, b)))
  }

  /**
    * A non-negative multiplicand keeps every partial sum and every term
    * non-negative, so the written Horner loop never meets the defect.
    */
  lemma {:induction false} HornerAsWrittenExact(c: int, od: seq<int>)
    requires c >= 0 && InRange(od)
    ensures HornerAsWritten(c, od) == c * LimbsValue(od)
  {
    if |od| > 0 {
      HornerAsWrittenExact(c, od[1..]);
      LimbsBounds(od[1..]);
      var h := HornerAsWritten(c, od[1..]);
      assert h >= 0 by {
        if c > 0 {
          MulMonotone(c, 0, LimbsValue(od[1..]));
        }
      }
      AddAsWrittenAgrees(h * Base, c * od[0]);
      HornerStep(c, LimbsValue(od[1..]), od[0]);
    }
  }

  /** (-1000000000) * 1 yields 0: the only Horner step adds -Base to 0 through the defect. */
  lemma MulAsWrittenDropsCarry()
    ensures MulAsWrittenValue(-1_000_000_000, 1) == 0 != -1_000_000_000 * 1
  {
    assert ToLimbs(1) == [1];
  }

  /** With a non-negative multiplicand operator*= as written is the exact product. */
  lemma MulAsWrittenAgrees(a: int, b: int)
    requires a >= 0
    ensures MulAsWrittenValue(a, b) == a * b
  {
    var d := ToLimbs(Abs(b));
    HornerAsWrittenExact(a, d);
    SignedProduct(a, b, HornerAsWritten(a, d));
  }

  /** Helper for MulAsWrittenAgrees: reattaching the sign of b to a * |b|. */
  lemma SignedProduct(a: int, b: int, h: int)
    requires h == a * Abs(b)
    ensures (if b < 0 then -h else h) == a * b
  {
  }

  /** (-3000000000) % (-1000000000) yields -1000000000 instead of 0. */
  lemma ModAsWrittenDropsCarry()
    ensures ModAsWrittenValue(-3_000_000_000, -1_000_000_000) == -1_000_000_000
    ensures -3_000_000_000 - -1_000_000_000 * TruncDiv(-3_000_000_000, -1_000_000_000) == 0
  {
    assert ToLimbs(3) == [3];
  }

  /**
    * On a non-negative dividend and a positive divisor, the only case gcd
    * feeds it, operator%= as written is the exact remainder.
    */
  lemma ModAsWrittenAgrees(a: int, b: int)
    requires a >= 0 && b > 0
    ensures ModAsWrittenValue(a, b) == a % b
  {
    var q := TruncDiv(a, b);
    MulAsWrittenAgrees(b, q);
    var m := MulAsWrittenValue(b, q);
    EuclidNonNegative(a, b, q, m);
    AddAsWrittenAgrees(a, -m);
  }

  /** Helper for ModAsWrittenAgrees: b times the quotient lies between 0 and a. */
  lemma EuclidNonNegative(a: int, b: int, q: int, m: int)
    requires a >= 0 && b > 0 && q == TruncDiv(a, b) && m == b * q
    ensures 0 <= m <= a && a - m == a % b
  {
    assert q == a / b;
  }

  lemma ModBase(q: int, r: int)
    requires 0 <= r < Base
    ensures (Base * q + r) % Base == r
  {
  }

  /**
    * The lowest limb of Base^n - y is zero exactly when Base divides y:
    * this is when the written complement step loses its carry.
    */
  lemma LowLimbZero(mid: seq<int>, y: int)
    requires InRange(mid) && |mid| > 0
    requires LimbsValue(mid) == Pow(|mid|) - y
    ensures mid[0] == 0 <==> y % Base == 0
  {
    var k := Pow(|mid| - 1) - LimbsValue(mid[1..]);
    assert Pow(|mid|) == Base * Pow(|mid| - 1);
    assert y == Base * k - mid[0];
    if mid[0] == 0 {
      ModBase(k, 0);
    } else {
      assert y == Base * (k - 1) + (Base - mid[0]);
      ModBase(k - 1, Base - mid[0]);
    }
  }

  /** operator-- passing a zero limb: it becomes Base - 1 and the borrow moves up. */
  lemma DecrementBorrow(d: seq<int>, i: nat, total: int)
    requires i < |d| && d[i] == 0 && LimbsValue(d) == total + Pow(i) - 1
    ensures LimbsValue(d[i := Base - 1]) == total + Pow(i + 1) - 1
  {
    LimbsUpdate(d, i, Base - 1);
    assert Pow(i + 1) == Base * Pow(i);
  }

  /** operator-- reaching a non-zero limb: decrementing it completes the subtraction of one. */
  lemma DecrementStop(d: seq<int>, i: nat, total: int)
    requires i < |d| && LimbsValue(d) == total + Pow(i) - 1
    ensures LimbsValue(d[i := d[i] - 1]) == total - 1
  {
    LimbsUpdate(d, i, d[i] - 1);
  }

  /** operator++ passing a limb Base - 1: it becomes zero and the carry moves up. */
  lemma IncrementCarry(d: seq<int>, i: nat, total: int)
    requires i < |d| && d[i] == Base - 1 && LimbsValue(d) == total - Pow(i) + 1
    ensures LimbsValue(d[i := 0]) == total - Pow(i + 1) + 1
  {
    LimbsUpdate(d, i, 0);
    assert Pow(i + 1) == Base * Pow(i);
  }

  /** operator++ reaching a limb below Base - 1: incrementing it completes the addition of one. */
  lemma IncrementStop(d: seq<int>, i: nat, total: int)
    requires i < |d| && LimbsValue(d) == total - Pow(i) + 1
    ensures LimbsValue(d[i := d[i] + 1]) == total + 1
  {
    LimbsUpdate(d, i, d[i] + 1);
  }

  /** Appending the low limb of y and keeping y / Base pending leaves the running value unchanged. */
  lemma PushLimb(d: seq<int>, y: int)
    ensures LimbsValue(d + [y % Base]) + Pow(|d| + 1) * (y / Base) == LimbsValue(d) + Pow(|d|) * y
  {
    LimbsAppend(d, y % Base);
    assert Pow(|d| + 1) == Base * Pow(|d|);
    SplitLimb(Pow(|d|), y);
  }

  lemma SplitLimb(p: int, y: int)
    ensures (y % Base) * p + (Base * p) * (y / Base) == p * y
  {
    var q, r := y / Base, y % Base;
    assert y == Base * q + r;
    assert p * y == p * (Base * q) + p * r;
  }

  lemma MulLimbArith(lv: int, la: int, p: int, a: int, digit: int, add: int, t: int)
    requires lv + add * p == la * digit && t == a * digit + add
    ensures lv + (t % Base) * p + (t / Base) * (Base * p) == (la + a * p) * digit
  {
    assert (t % Base) * p + (t / Base) * (Base * p) == t * p;
  }

  /** The long long carry of operator*=(int) stays bounded: a limb times digit plus a carry up to digit. */
  lemma MulCarryBound(x: int, digit: int, add: int)
    requires 0 <= x < Base && 0 <= add <= digit
    ensures 0 <= x * digit + add <= Base * digit
    ensures 0 <= (x * digit + add) / Base <= digit
  {
    if digit > 0 {
      MulMonotone(digit, x, Base - 1);
      assert x * digit <= (Base - 1) * digit;
    }
  }

  /**
    * One step of operator*=(int): limb i of this (still the original limb
    * a[i]) becomes the low limb of t = a[i] * digit + add, and t / Base is
    * the new carry.
    */
  lemma MulLimbStep(before: seq<int>, a: seq<int>, i: nat, digit: int, add: int, t: int)
    requires i < |before| == |a| && before[i] == a[i] && t == a[i] * digit + add
    requires LimbsValue(before[..i]) + add * Pow(i) == LimbsValue(a[..i]) * digit
    ensures LimbsValue(before[i := t % Base][..i + 1]) + t / Base * Pow(i + 1) == LimbsValue(a[..i + 1]) * digit
  {
    var after := before[i := t % Base];
    LimbsPrefix(after, i);
    LimbsPrefix(a, i);
    assert after[..i] == before[..i];
    assert Pow(i + 1) == Base * Pow(i);
    MulLimbArith(LimbsValue(before[..i]), LimbsValue(a[..i]), Pow(i), a[i], digit, add, t);
  }

  /** Helper: a sign flag can be moved out of a product. */
  lemma SignedTimes(neg: bool, m: int, f: int)
    ensures (if neg then -m else m) * f == (if neg then -(m * f) else m * f)
  {
  }

  /** Helper: negating a factor negates the product. */
  lemma TimesNeg(a: int, b: int)
    ensures a * -b == -(a * b)
  {
  }

  /** Helper: negating both factors keeps the product. */
  lemma NegTimesNeg(a: int, b: int)
    ensures -a * -b == a * b
  {
  }

  /** One Horner step of operator*=: shifting by a limb and adding c times the next limb down. */
  lemma HornerStep(c: int, l: int, x: int)
    ensures c * l * Base + c * x == c * (x + Base * l)
  {
  }

  /** Limbs that are all Base - 1 denote Base^n - 1. */
  lemma {:induction false} AllTopLimbs(q: seq<int>)
    requires forall k | 0 <= k < |q| :: q[k] == Base - 1
    ensures LimbsValue(q) == Pow(|q|) - 1
  {
    if |q| > 0 {
      AllTopLimbs(q[1..]);
    }
  }

  /**
    * One step of the long division in operator/=: bring down limb a[index],
    * append the quotient limb div in front of the quotient q found so far,
    * and keep what is left of the partial remainder.
    */
  lemma LongDivStep(a: seq<int>, index: nat, q: seq<int>, b: int, rem: int, t: int, div: int)
    requires index < |a| && t == rem * Base + a[index]
    requires LimbsValue(a[index + 1..]) == LimbsValue(q) * b + rem
    ensures LimbsValue(a[index..]) == LimbsValue([div] + q) * b + (t - b * div)
  {
    LimbsSuffix(a, index);
    assert ([div] + q)[1..] == q;
    assert LimbsValue([div] + q) == div + Base * LimbsValue(q);
  }

  /** The partial remainder stays below the divisor after each quotient limb. */
  lemma RemainderBound(rem: int, x: int, b: int, div: int, t: int)
    requires 0 <= rem < b && 0 <= x < Base && t == rem * Base + x
    requires div == Base - 1 || t < b * (div + 1)
    ensures t - b * div < b
  {
    if div == Base - 1 {
      MulMonotone(Base, rem, b - 1);
      assert rem * Base <= (b - 1) * Base;
    }
  }

  /** One limb more of the padded text: the text so far followed by limb i's nine digits. */
  lemma PadLimbsStep(low: seq<int>, i: nat, number: seq<char>)
    requires InRange(low) && i < |low|
    ensures InRange(low[i..]) && InRange(low[i + 1..]) && low[i] >= 0
    ensures number + PadLimbs(low[i..]) == (number + PadLE(low[i], LimbWidth)) + PadLimbs(low[i + 1..])
  {
    assert low[i..][1..] == low[i + 1..];
  }

  /** The inner loop of toString for a lower limb: push exactly nine digits of x, least significant first. */
  method AppendPadded(number: seq<char>, limb: int) returns (r: seq<char>)
    requires 0 <= limb
    ensures r == number + PadLE(limb, LimbWidth)
  {
    r := number;
    var x := limb;
    var j := 0;
    while j < LimbWidth
      invariant 0 <= j <= LimbWidth && x >= 0
      invariant r + PadLE(x, LimbWidth - j) == number + PadLE(limb, LimbWidth)
    {
      r := r + [DigitChar(x % 10)];
      x := x / 10;
      j := j + 1;
    }
  }

  /** The top-limb loop of toString: push the digits of x, least significant first, until x is zero. */
  method AppendDigits(number: seq<char>, limb: int) returns (r: seq<char>)
    requires 0 <= limb
    ensures r == number + DigitsLE(limb)
  {
    r := number;
    var x := limb;
    while x > 0
      invariant x >= 0
      invariant r + DigitsLE(x) == number + DigitsLE(limb)
    {
      r := r + [DigitChar(x % 10)];
      x := x / 10;
    }
  }

  /** The last loop of toString: append the collected digits from the back. */
  method AppendReversed(ans: string, number: seq<char>) returns (r: string)
    ensures r == ans + Reverse(number)
  {
    r := ans;
    var i := |number|;
    while i > 0
      invariant 0 <= i <= |number|
      invariant r == ans + Reverse(number[i..])
    {
      assert number[i - 1..][1..] == number[i..];
      r := r + [number[i - 1]];
      i := i - 1;
    }
    assert number[0..] == number;
  }

  class BigInteger {
    var digits: seq<int>
    var isNegative: bool

    predicate Valid()
      reads this
    {
      Canonical(isNegative, digits)
    }

    /** The integer this object denotes. */
    function Value(): int
      reads this
    {
      SignedValue(isNegative, digits)
    }

    /** BigInteger() = default: zero, no limbs. */
    constructor ()
      ensures Valid() && Value() == 0 && digits == []
    {
      digits := [];
      isNegative := false;
    }

    /** The implicit copy constructor. */
    constructor Copy(other: BigInteger)
      ensures digits == other.digits && isNegative == other.isNegative
    {
      digits := other.digits;
      isNegative := other.isNegative;
    }

    /** BigInteger(long long x): the sign, then x's limbs, least significant first. */
    constructor FromInt(x: int)
      requires -0x7FFF_FFFF_FFFF_FFFF <= x <= 0x7FFF_FFFF_FFFF_FFFF
      ensures Valid() && Value() == x
    {
      var neg := x < 0;
      var y := if x < 0 then -x else x;
      var d: seq<int> := [];
      while y > 0
        invariant y >= 0 && InRange(d)
        invariant LimbsValue(d) + Pow(|d|) * y == Abs(x)
        invariant y == 0 ==> Trimmed(d)
      {
        PushLimb(d, y);
        d := d + [y % Base];
        y := y / Base;
      }
      digits := d;
      isNegative := neg;
    }

    /** BigInteger(const std::string&): an optional '-', then nine-digit chunks taken from the right. */
    constructor FromString(str: string)
      requires AllDigits(if |str| > 0 && str[0] == '-' then str[1..] else str)
      ensures Valid() && Value() == ParseDecimal(str)
    {
      var start := 0;
      var neg := false;
      if |str| > 0 && str[0] == '-' {
        start := 1;
        neg := true;
      }
      var d := ParseChunks(str, start);
      digits := d;
      isNegative := neg;
      new;
      DeleteZero();
    }

    /** delete_zero: drop most-significant zero limbs; an empty number is not negative. */
    method DeleteZero()
      requires InRange(digits)
      modifies this
      ensures Valid()
      ensures LimbsValue(digits) == LimbsValue(old(digits)) && Value() == old(Value())
      ensures |digits| <= |old(digits)| && digits == old(digits)[..|digits|]
      ensures Trimmed(old(digits)) ==> digits == old(digits)
      ensures |digits| > 0 ==> isNegative == old(isNegative)
    {
      while |digits| > 0 && digits[|digits| - 1] == 0
        invariant InRange(digits) && LimbsValue(digits) == LimbsValue(old(digits))
        invariant isNegative == old(isNegative)
        invariant |digits| <= |old(digits)| && digits == old(digits)[..|digits|]
        invariant Trimmed(old(digits)) ==> digits == old(digits)
        decreases |digits|
      {
        LimbsDropTopZero(digits);
        digits := digits[..|digits| - 1];
      }
      if |digits| == 0 {
        isNegative := false;
      }
    }

    /** ChangeSign: flip the sign flag, then delete_zero (so zero stays non-negative). */
    method ChangeSign()
      requires InRange(digits)
      modifies this
      ensures Valid() && Value() == -old(Value())
      ensures LimbsValue(digits) == LimbsValue(old(digits))
      ensures Trimmed(old(digits)) ==> digits == old(digits)
    {
      isNegative := !isNegative;
      DeleteZero();
    }

    /** swap: exchange sign and limbs with other. */
    method Swap(other: BigInteger)
      modifies this, other
      ensures digits == old(other.digits) && isNegative == old(other.isNegative)
      ensures other.digits == old(digits) && other.isNegative == old(isNegative)
    {
      isNegative, other.isNegative := other.isNegative, isNegative;
      digits, other.digits := other.digits, digits;
    }

    /** Unary minus: a copy with the sign changed unless it is zero. */
    method Negate() returns (r: BigInteger)
      requires Valid()
      ensures fresh(r) && r.Valid() && r.Value() == -Value()
    {
      r := new BigInteger.Copy(this);
      if |r.digits| > 0 {
        r.ChangeSign();
      }
    }

    /** operator<: by sign, then by limb count, then limbs from the most significant. */
    method Less(other: BigInteger) returns (r: bool)
      requires Valid() && other.Valid()
      ensures r <==> Value() < other.Value()
    {
      CanonicalSign(isNegative, digits);
      CanonicalSign(other.isNegative, other.digits);
      if isNegative != other.isNegative {
        return isNegative;
      }
      if |digits| != |other.digits| {
        if |digits| < |other.digits| {
          LimbsLessByLength(digits, other.digits);
        } else {
          LimbsLessByLength(other.digits, digits);
        }
        return (|digits| < |other.digits|) != isNegative;
      }
      var i := |digits|;
      while i > 0
        invariant 0 <= i <= |digits|
        invariant digits[i..] == other.digits[i..]
      {
        if digits[i - 1] != other.digits[i - 1] {
          if digits[i - 1] < other.digits[i - 1] {
            LimbsLessAt(digits, other.digits, i - 1);
          } else {
            LimbsLessAt(other.digits, digits, i - 1);
          }
          return (digits[i - 1] < other.digits[i - 1]) != isNegative;
        }
        i := i - 1;
      }
      assert digits == digits[0..] && other.digits == other.digits[0..];
      return false;
    }

    /** operator>: other < this. */
    method Greater(other: BigInteger) returns (r: bool)
      requires Valid() && other.Valid()
      ensures r <==> Value() > other.Value()
    {
      r := other.Less(this);
    }

    /** operator<=: !(this > other). */
    method LessOrEqual(other: BigInteger) returns (r: bool)
      requires Valid() && other.Valid()
      ensures r <==> Value() <= other.Value()
    {
      var g := Greater(other);
      r := !g;
    }

    /** operator>=: !(this < other). */
    method GreaterOrEqual(other: BigInteger) returns (r: bool)
      requires Valid() && other.Valid()
      ensures r <==> Value() >= other.Value()
    {
      var l := Less(other);
      r := !l;
    }

    /** operator==: same sign flag, same limb count, same limbs. */
    method Equal(other: BigInteger) returns (r: bool)
      ensures r <==> isNegative == other.isNegative && digits == other.digits
      ensures Valid() && other.Valid() ==> (r <==> Value() == other.Value())
    {
      if Valid() && other.Valid() {
        CanonicalUnique(isNegative, digits, other.isNegative, other.digits);
      }
      if isNegative != other.isNegative {
        return false;
      }
      if |digits| != |other.digits| {
        return false;
      }
      var i := 0;
      while i < |digits|
        invariant 0 <= i <= |digits|
        invariant digits[..i] == other.digits[..i]
      {
        if digits[i] != other.digits[i] {
          return false;
        }
        i := i + 1;
      }
      assert digits == digits[..i] && other.digits == other.digits[..i];
      return true;
    }

    /** operator!=: !(this == other). */
    method NotEqual(other: BigInteger) returns (r: bool)
      requires Valid() && other.Valid()
      ensures r <==> Value() != other.Value()
    {
      var e := Equal(other);
      r := !e;
    }

    /** carry: add the incoming carry to limb index and reduce it below Base, reporting the outgoing carry. */
    method Carry(index: nat, flag: bool) returns (flagOut: bool)
      requires index < |digits| && 0 <= digits[index] + B2I(flag) < 2 * Base
      modifies this
      ensures isNegative == old(isNegative)
      ensures digits == old(digits)[index := old(digits[index]) + B2I(flag) - B2I(flagOut) * Base]
      ensures 0 <= digits[index] < Base
    {
      digits := digits[index := digits[index] + B2I(flag)];
      if digits[index] >= Base {
        flagOut := true;
        digits := digits[index := digits[index] - Base];
      } else {
        flagOut := false;
      }
    }

    /** subtract: take deductible and the incoming borrow from limb index, borrowing Base when needed. */
    method Subtract(index: nat, deductible: int, flag: bool) returns (flagOut: bool)
      requires index < |digits| && 0 <= digits[index] < Base && 0 <= deductible < Base
      modifies this
      ensures isNegative == old(isNegative)
      ensures flagOut <==> deductible + B2I(flag) > old(digits[index])
      ensures digits == old(digits)[index := old(digits[index]) - deductible - B2I(flag) + B2I(flagOut) * Base]
      ensures 0 <= digits[index] < Base
    {
      var ded := deductible + B2I(flag);
      if ded > digits[index] {
        flagOut := true;
        digits := digits[index := digits[index] + Base];
      } else {
        flagOut := false;
      }
      digits := digits[index := digits[index] - ded];
    }

    /** The same-sign branch of operator+=: limb-wise addition with carry (before delete_zero). */
    method AddMagnitude(od: seq<int>)
      requires InRange(digits) && InRange(od)
      modifies this
      ensures isNegative == old(isNegative) && InRange(digits)
      ensures LimbsValue(digits) == LimbsValue(old(digits)) + LimbsValue(od)
    {
      var flag := AddLimbs(od);
      flag := PropagateCarry(|od|, flag);
      if flag {
        LimbsAppend(digits, 1);
        digits := digits + [1];
      }
    }

    /** The first loop of operator+= (same signs): add other's limbs, growing this as needed. */
    method AddLimbs(od: seq<int>) returns (flag: bool)
      requires InRange(digits) && InRange(od)
      modifies this
      ensures isNegative == old(isNegative) && InRange(digits) && |od| <= |digits|
      ensures LimbsValue(digits) + B2I(flag) * Pow(|od|) == LimbsValue(old(digits)) + LimbsValue(od)
    {
      ghost var total := LimbsValue(digits) + LimbsValue(od);
      flag := false;
      var i := 0;
      while i < |od|
        invariant 0 <= i <= |od| && i <= |digits|
        invariant InRange(digits) && isNegative == old(isNegative)
        invariant CarryTotal(digits, i, flag, LimbsValue(od[i..]), total)
      {
        LimbsSuffix(od, i);
        flag := AddLimbAt(i, od[i], flag, LimbsValue(od[i + 1..]), total);
        i := i + 1;
      }
      assert od[i..] == [];
    }

    /** One pass of operator+='s first loop: limb w of other and the carry are added at index i. */
    method AddLimbAt(i: nat, w: int, flag: bool, ghost rest: int, ghost total: int) returns (flagOut: bool)
      requires InRange(digits) && i <= |digits| && 0 <= w < Base
      requires CarryTotal(digits, i, flag, w + Base * rest, total)
      modifies this
      ensures isNegative == old(isNegative) && InRange(digits) && i < |digits|
      ensures CarryTotal(digits, i + 1, flagOut, rest, total)
    {
      if i >= |digits| {
        digits := PushZero(digits);
      }
      ghost var before := digits;
      digits := digits[i := digits[i] + w];
      ghost var mid := digits;
      flagOut := Carry(i, flag);
      CarryStepValue(before, mid, digits, i, w, flag, flagOut, rest, total);
    }

    /** The second loop of operator+= (same signs): carry through this's remaining limbs from index start. */
    method PropagateCarry(start: nat, flag: bool) returns (flagOut: bool)
      requires InRange(digits) && start <= |digits|
      modifies this
      ensures isNegative == old(isNegative) && InRange(digits) && |digits| == |old(digits)|
      ensures LimbsValue(digits) + B2I(flagOut) * Pow(|digits|) == LimbsValue(old(digits)) + B2I(flag) * Pow(start)
    {
      ghost var total := LimbsValue(digits) + B2I(flag) * Pow(start);
      flagOut := flag;
      var i := start;
      while i < |digits|
        invariant start <= i <= |digits| == |old(digits)|
        invariant InRange(digits) && isNegative == old(isNegative)
        invariant CarryTotal(digits, i, flagOut, 0, total)
      {
        ghost var before := digits;
        ghost var f := flagOut;
        flagOut := Carry(i, flagOut);
        CarryStepValue(before, before, digits, i, 0, f, flagOut, 0, total);
        i := i + 1;
      }
    }

    /**
      * The opposite-sign branch of operator+= up to the complement step:
      * limb-wise subtraction with borrow, stopping early once no borrow is left.
      * A final borrow means the result wrapped around Base^|digits|.
      */
    method SubtractMagnitude(od: seq<int>) returns (borrow: bool)
      requires InRange(digits) && InRange(od)
      modifies this
      ensures isNegative == old(isNegative) && InRange(digits)
      ensures LimbsValue(digits) == LimbsValue(old(digits)) - LimbsValue(od) + B2I(borrow) * Pow(|digits|)
      ensures borrow ==> 0 < LimbsValue(digits) && LimbsValue(old(digits)) < LimbsValue(od)
    {
      var flag := SubtractLimbs(od);
      if !flag {
        return false;
      }
      ghost var mid := digits;
      flag := PropagateBorrow(|od|, flag);
      if !flag {
        return false;
      }
      LimbsBounds(digits);
      LimbsBounds(od);
      LimbsBounds(old(digits));
      PowMonotone(|od|, |digits|);
      return true;
    }

    /** The first loop of operator+= (opposite signs): subtract other's limbs, growing this as needed. */
    method SubtractLimbs(od: seq<int>) returns (flag: bool)
      requires InRange(digits) && InRange(od)
      modifies this
      ensures isNegative == old(isNegative) && InRange(digits) && |od| <= |digits|
      ensures LimbsValue(digits) - B2I(flag) * Pow(|od|) == LimbsValue(old(digits)) - LimbsValue(od)
    {
      ghost var total := LimbsValue(digits) - LimbsValue(od);
      flag := false;
      var i := 0;
      while i < |od|
        invariant 0 <= i <= |od| && i <= |digits|
        invariant InRange(digits) && isNegative == old(isNegative)
        invariant BorrowTotal(digits, i, flag, LimbsValue(od[i..]), total)
      {
        LimbsSuffix(od, i);
        flag := SubtractLimbAt(i, od[i], flag, LimbsValue(od[i + 1..]), total);
        i := i + 1;
      }
      assert od[i..] == [];
    }

    /** One pass of the opposite-sign first loop: limb w of other and the borrow are taken from index i. */
    method SubtractLimbAt(i: nat, w: int, flag: bool, ghost rest: int, ghost total: int) returns (flagOut: bool)
      requires InRange(digits) && i <= |digits| && 0 <= w < Base
      requires BorrowTotal(digits, i, flag, w + Base * rest, total)
      modifies this
      ensures isNegative == old(isNegative) && InRange(digits) && i < |digits|
      ensures BorrowTotal(digits, i + 1, flagOut, rest, total)
    {
      if i >= |digits| {
        digits := PushZero(digits);
      }
      ghost var before := digits;
      flagOut := Subtract(i, w, flag);
      BorrowStepValue(before, digits, i, w, flag, flagOut, rest, total);
    }

    /** The second loop of operator+= (opposite signs): borrow through this's remaining limbs from index start. */
    method PropagateBorrow(start: nat, flag: bool) returns (flagOut: bool)
      requires InRange(digits) && start <= |digits|
      modifies this
      ensures isNegative == old(isNegative) && InRange(digits) && |digits| == |old(digits)|
      ensures LimbsValue(digits) - B2I(flagOut) * Pow(|digits|) == LimbsValue(old(digits)) - B2I(flag) * Pow(start)
    {
      ghost var total := LimbsValue(digits) - B2I(flag) * Pow(start);
      flagOut := flag;
      var i := start;
      while i < |digits|
        invariant start <= i <= |digits| == |old(digits)|
        invariant InRange(digits) && isNegative == old(isNegative)
        invariant BorrowTotal(digits, i, flagOut, 0, total)
      {
        ghost var before := digits;
        ghost var f := flagOut;
        flagOut := Subtract(i, 0, flagOut);
        BorrowStepValue(before, digits, i, 0, f, flagOut, 0, total);
        i := i + 1;
      }
    }

    /**
      * The complement step of operator+=, corrected: replace every limb x by
      * 0 - x with the borrow carried upwards, so the limbs denote
      * Base^|digits| - (their old value) for a non-zero old value.
      */
    method Complement()
      requires InRange(digits)
      modifies this
      ensures isNegative == old(isNegative) && InRange(digits) && |digits| == |old(digits)|
      ensures LimbsValue(digits) == (if LimbsValue(old(digits)) == 0 then 0 else Pow(|digits|) - LimbsValue(old(digits)))
    {
      ghost var orig := digits;
      var flag := false;
      var i := 0;
      while i < |digits|
        invariant 0 <= i <= |digits| == |orig|
        invariant InRange(digits) && isNegative == old(isNegative)
        invariant digits[i..] == orig[i..]
        invariant LimbsValue(digits[..i]) == B2I(flag) * Pow(i) - LimbsValue(orig[..i])
        invariant flag <==> LimbsValue(orig[..i]) > 0
      {
        ghost var before := digits;
        ghost var f := B2I(flag);
        var x := digits[i];
        digits := digits[i := 0];
        flag := Subtract(i, x, flag);
        NegateStep(before, digits, orig, i, f, B2I(flag));
        i := i + 1;
      }
      assert digits[..i] == digits && orig[..i] == orig;
      assert orig == old(digits);
      if !flag {
        LimbsBounds(orig);
      }
    }

    /**
      * The complement step of operator+= as Big_integer.h writes it: limb 0
      * becomes (Base - x) % Base and every other limb Base - 1 - x. When limb 0
      * is zero this loses the carry into limb 1: the result is Base too small.
      */
    method ComplementAsWritten()
      requires InRange(digits) && |digits| > 0
      modifies this
      ensures isNegative == old(isNegative) && InRange(digits) && |digits| == |old(digits)|
      ensures LimbsValue(digits) == Pow(|digits|) - LimbsValue(old(digits)) - (if old(digits)[0] == 0 then Base else 0)
    {
      ghost var orig := digits;
      ghost var lost := if digits[0] == 0 then Base else 0;
      digits := digits[0 := (Base - digits[0]) % Base];
      assert digits[..1] == [digits[0]] && orig[..1] == [orig[0]];
      LimbsSingle(digits[0]);
      LimbsSingle(orig[0]);
      var i := 1;
      while i < |digits|
        invariant 1 <= i <= |digits| == |orig|
        invariant InRange(digits) && isNegative == old(isNegative)
        invariant digits[i..] == orig[i..]
        invariant LimbsValue(digits[..i]) == Pow(i) - LimbsValue(orig[..i]) - lost
      {
        ghost var before := digits;
        digits := digits[i := Base - 1 - digits[i]];
        FlipStep(before, digits, orig, i, lost);
        i := i + 1;
      }
      assert digits[..i] == digits && orig[..i] == orig;
    }

    /**
      * operator+= (corrected complement step). Same signs: add magnitudes.
      * Opposite signs: subtract other's magnitude; a final borrow means
      * |other| was larger, so negate the wrapped limbs and flip the sign.
      * other's limbs are read before this changes, so x += x doubles x.
      */
    method AddAssign(other: BigInteger)
      requires Valid() && other.Valid()
      modifies this
      ensures Valid() && Value() == old(Value()) + old(other.Value())
    {
      CanonicalSign(isNegative, digits);
      CanonicalSign(other.isNegative, other.digits);
      var od := other.digits;
      if isNegative == other.isNegative {
        AddMagnitude(od);
        DeleteZero();
        return;
      }
      var borrow := SubtractMagnitude(od);
      if !borrow {
        DeleteZero();
        return;
      }
      Complement();
      ChangeSign();
    }

    /** operator+= exactly as Big_integer.h writes it, with its complement step. */
    method AddAssignAsWritten(other: BigInteger)
      requires Valid() && other.Valid()
      modifies this
      ensures Valid() && Value() == AddAsWrittenValue(old(Value()), old(other.Value()))
    {
      CanonicalSign(isNegative, digits);
      CanonicalSign(other.isNegative, other.digits);
      var od := other.digits;
      if isNegative == other.isNegative {
        AddMagnitude(od);
        DeleteZero();
        return;
      }
      var borrow := SubtractMagnitude(od);
      if !borrow {
        LimbsBounds(digits);
        DeleteZero();
        return;
      }
      LowLimbZero(digits, LimbsValue(od) - LimbsValue(old(digits)));
      ComplementAsWritten();
      ChangeSign();
    }

    /** operator-=: add the negation of other. */
    method SubAssign(other: BigInteger)
      requires Valid() && other.Valid()
      modifies this
      ensures Valid() && Value() == old(Value()) - old(other.Value())
    {
      var negated := other.Negate();
      AddAssign(negated);
    }

    /** operator-= as Big_integer.h writes it: the written operator+= of the negation. */
    method SubAssignAsWritten(other: BigInteger)
      requires Valid() && other.Valid()
      modifies this
      ensures Valid() && Value() == AddAsWrittenValue(old(Value()), -old(other.Value()))
    {
      var negated := other.Negate();
      AddAssignAsWritten(negated);
    }

    /**
      * operator--. Negative: step the magnitude up with ++ and restore the
      * sign. Zero: becomes -1. Positive: borrow through the low zero limbs.
      */
    method Decrement()
      requires Valid()
      modifies this
      ensures Valid() && Value() == old(Value()) - 1
      decreases B2I(isNegative)
    {
      CanonicalSign(isNegative, digits);
      if isNegative {
        isNegative := false;
        Increment();
        CanonicalSign(isNegative, digits);
        isNegative := true;
        return;
      }
      if |digits| == 0 {
        isNegative := true;
        LimbsAppend(digits, 1);
        digits := digits + [1];
        return;
      }
      DecrementMagnitude();
    }

    /**
      * operator++ (corrected). Negative: step the magnitude down with -- and
      * restore the sign, unless that reached zero. Otherwise: carry through
      * the low limbs equal to Base - 1, appending a 1 when all were.
      */
    method Increment()
      requires Valid()
      modifies this
      ensures Valid() && Value() == old(Value()) + 1
      decreases B2I(isNegative)
    {
      CanonicalSign(isNegative, digits);
      if isNegative {
        isNegative := false;
        Decrement();
        CanonicalSign(isNegative, digits);
        isNegative := |digits| > 0;
        return;
      }
      IncrementMagnitude();
    }

    /** operator++ exactly as Big_integer.h writes it: -1 becomes a negative zero. */
    method IncrementAsWritten()
      requires Valid()
      modifies this
      ensures old(Value()) != -1 ==> Valid() && Value() == old(Value()) + 1
      ensures old(Value()) == -1 ==> isNegative && digits == [] && !Valid()
    {
      CanonicalSign(isNegative, digits);
      if isNegative {
        isNegative := false;
        Decrement();
        CanonicalSign(isNegative, digits);
        isNegative := true;
        return;
      }
      IncrementMagnitude();
    }

    /** The non-negative branch of operator++: the carry loop over the limbs. */
    method IncrementMagnitude()
      requires Valid() && !isNegative
      modifies this
      ensures Valid() && Value() == old(Value()) + 1
    {
      ghost var total := LimbsValue(digits);
      var i := 0;
      while i < |digits| + 1
        invariant 0 <= i <= |digits| == |old(digits)| && InRange(digits) && !isNegative
        invariant i < |digits| ==> Trimmed(digits)
        invariant LimbsValue(digits) == total - Pow(i) + 1
      {
        if i == |digits| {
          LimbsAppend(digits, 1);
          digits := digits + [1];
          break;
        }
        if digits[i] != Base - 1 {
          IncrementStop(digits, i, total);
          digits := digits[i := digits[i] + 1];
          break;
        }
        IncrementCarry(digits, i, total);
        digits := digits[i := 0];
        i := i + 1;
      }
    }

    /** The positive branch of operator--: the borrow loop over the low zero limbs, then delete_zero. */
    method DecrementMagnitude()
      requires Valid() && !isNegative && |digits| > 0
      modifies this
      ensures Valid() && Value() == old(Value()) - 1
    {
      LimbsTop(digits);
      ghost var total := LimbsValue(digits);
      var i := 0;
      while i < |digits|
        invariant 0 <= i <= |digits| == |old(digits)| && InRange(digits) && !isNegative
        invariant LimbsValue(digits) == total + Pow(i) - 1
      {
        if digits[i] != 0 {
          DecrementStop(digits, i, total);
          digits := digits[i := digits[i] - 1];
          break;
        }
        DecrementBorrow(digits, i, total);
        digits := digits[i := Base - 1];
        i := i + 1;
      }
      if i == |digits| {
        // running past the top limb would make the value at least Base^|digits|
        LimbsBounds(digits);
        assert false;
      }
      assert InRange(digits) && !isNegative && LimbsValue(digits) == total - 1;
      DeleteZero();
    }

    /**
      * operator*=(int): a negative factor flips the sign first; then each
      * limb is multiplied with the carry added, the carry is appended limb by
      * limb, and delete_zero trims. The carry never exceeds |digit|, so the
      * long long products stay below Base * 2^31.
      */
    method MulAssignInt(digit: int)
      requires Valid() && -0x7FFF_FFFF <= digit <= 0x7FFF_FFFF
      modifies this
      ensures Valid() && Value() == old(Value()) * digit
    {
      var factor := digit;
      if factor < 0 {
        ghost var v := Value();
        ChangeSign();
        factor := -factor;
        MulMagnitude(factor);
        NegTimesNeg(v, digit);
      } else {
        MulMagnitude(factor);
      }
    }

    /** operator*=(int) for a factor that is not negative: the sign stays, the magnitude scales. */
    method MulMagnitude(factor: int)
      requires Valid() && 0 <= factor <= 0x7FFF_FFFF
      modifies this
      ensures Valid() && Value() == old(Value()) * factor
    {
      ghost var a := digits;
      ghost var neg := isNegative;
      var add := MulLimbs(factor);
      PushCarry(add);
      assert LimbsValue(digits) == LimbsValue(a) * factor;
      DeleteZero();
      SignedTimes(neg, LimbsValue(a), factor);
    }

    /** The limb loop of operator*=(int): multiply every limb by factor, returning the final carry. */
    method MulLimbs(factor: int) returns (add: int)
      requires InRange(digits) && 0 <= factor <= 0x7FFF_FFFF
      modifies this
      ensures isNegative == old(isNegative) && InRange(digits) && 0 <= add <= factor
      ensures LimbsValue(digits) + add * Pow(|digits|) == LimbsValue(old(digits)) * factor
    {
      ghost var a := digits;
      add := 0;
      var i := 0;
      while i < |digits|
        invariant 0 <= i <= |digits| == |a| && InRange(digits) && isNegative == old(isNegative)
        invariant digits[i..] == a[i..] && 0 <= add <= factor
        invariant LimbsValue(digits[..i]) + add * Pow(i) == LimbsValue(a[..i]) * factor
      {
        MulCarryBound(digits[i], factor, add);
        MulLimbStep(digits, a, i, factor, add, digits[i] * factor + add);
        add := digits[i] * factor + add;
        assert add <= 0x7FFF_FFFF_FFFF_FFFF;
        digits := digits[i := add % Base];
        add := add / Base;
        i := i + 1;
      }
      assert digits[..i] == digits && a[..i] == a;
    }

    /** The carry loop of operator*=(int): append the carry limb by limb. */
    method PushCarry(add: int)
      requires InRange(digits) && add >= 0
      modifies this
      ensures isNegative == old(isNegative) && InRange(digits)
      ensures LimbsValue(digits) == LimbsValue(old(digits)) + add * Pow(|old(digits)|)
    {
      ghost var total := LimbsValue(digits) + add * Pow(|digits|);
      var rest := add;
      while rest > 0
        invariant rest >= 0 && InRange(digits) && isNegative == old(isNegative)
        invariant LimbsValue(digits) + Pow(|digits|) * rest == total
      {
        PushLimb(digits, rest);
        digits := digits + [rest % Base];
        rest := rest / Base;
      }
    }

    /** operator*(int): a copy multiplied by factor. */
    method Times(factor: int) returns (r: BigInteger)
      requires Valid() && -0x7FFF_FFFF <= factor <= 0x7FFF_FFFF
      ensures fresh(r) && r.Valid() && r.Value() == Value() * factor
    {
      r := new BigInteger.Copy(this);
      r.MulAssignInt(factor);
    }

    /**
      * operator*=(const BigInteger&) as Big_integer.h writes it: this is set
      * to zero before other's limbs are read, so x *= x yields zero.
      */
    method MulAssign(other: BigInteger)
      requires Valid() && other.Valid()
      modifies this
      ensures Valid()
      ensures other != this ==> Value() == MulAsWrittenValue(old(Value()), old(other.Value()))
      ensures other == this ==> Value() == 0
    {
      var copy := new BigInteger.Copy(this);
      digits := [];
      isNegative := false;
      var od := other.digits;
      assert other == this ==> od == [];
      assert other != this ==> od == old(other.digits) && other.isNegative == old(other.isNegative);
      MulAccumulateAsWritten(copy, od);
      if other.isNegative {
        ChangeSign();
      }
      DeleteZero();
      if other != this {
        LimbsOfValue(old(other.isNegative), old(other.digits));
        CanonicalSign(old(other.isNegative), old(other.digits));
      }
    }

    /** operator*=(const BigInteger&) with other's sign and limbs read before this is cleared. */
    method MulAssignAliasSafe(other: BigInteger)
      requires Valid() && other.Valid()
      modifies this
      ensures Valid() && Value() == old(Value()) * old(other.Value())
    {
      var od := other.digits;
      var otherNegative := other.isNegative;
      var copy := new BigInteger.Copy(this);
      digits := [];
      isNegative := false;
      MulAccumulate(copy, od);
      if otherNegative {
        ChangeSign();
        TimesNeg(copy.Value(), LimbsValue(od));
      }
      DeleteZero();
    }

    /** The Horner loop of operator*=: from the top limb of od down, shift this by a limb and add c times the limb. */
    method MulAccumulate(c: BigInteger, od: seq<int>)
      requires Valid() && Value() == 0 && c.Valid() && c != this && InRange(od)
      modifies this
      ensures Valid() && Value() == c.Value() * LimbsValue(od)
    {
      var i := |od|;
      while i > 0
        invariant 0 <= i <= |od| && Valid()
        invariant Value() == c.Value() * LimbsValue(od[i..])
      {
        MulAssignInt(Base);
        var term := c.Times(od[i - 1]);
        AddAssign(term);
        LimbsSuffix(od, i - 1);
        HornerStep(c.Value(), LimbsValue(od[i..]), od[i - 1]);
        i := i - 1;
      }
    }

    /** The Horner loop of operator*= as written: each step adds c times the limb with the written operator+=. */
    method MulAccumulateAsWritten(c: BigInteger, od: seq<int>)
      requires Valid() && Value() == 0 && c.Valid() && c != this && InRange(od)
      modifies this
      ensures Valid() && Value() == HornerAsWritten(c.Value(), od)
    {
      var i := |od|;
      while i > 0
        invariant 0 <= i <= |od| && Valid()
        invariant Value() == HornerAsWritten(c.Value(), od[i..])
      {
        MulAssignInt(Base);
        var term := c.Times(od[i - 1]);
        AddAssignAsWritten(term);
        assert od[i - 1..][1..] == od[i..];
        i := i - 1;
      }
    }

    /**
      * find_div: binary search for the largest q below Base with
      * other * q <= this, for a non-negative partial remainder and divisor.
      */
    method FindDiv(other: BigInteger) returns (q: int)
      requires Valid() && other.Valid() && Value() >= 0 && other.Value() >= 0
      ensures 0 <= q < Base && other.Value() * q <= Value()
      ensures q == Base - 1 || Value() < other.Value() * (q + 1)
    {
      var left := 0;
      var right := Base;
      while right - left > 1
        invariant 0 <= left < right <= Base
        invariant other.Value() * left <= Value()
        invariant right == Base || Value() < other.Value() * right
      {
        var mid := (left + right) / 2;
        var result := other.Times(mid);
        var greater := result.Greater(this);
        if greater {
          right := mid;
        } else {
          left := mid;
        }
      }
      q := left;
    }

    /**
      * operator/=: the sign flips when other is negative; then schoolbook
      * long division of the limbs by |other| from the top limb down, each
      * quotient limb found by find_div. The quotient truncates toward zero.
      * Nothing stops a zero divisor: find_div then answers Base - 1 for every
      * limb.
      */
    method DivAssign(other: BigInteger)
      requires Valid() && other.Valid()
      modifies this
      ensures Valid()
      ensures old(other.Value()) != 0 ==> Value() == TruncDiv(old(Value()), old(other.Value()))
      ensures old(other.Value()) == 0 ==>
        Value() == (if old(Value()) < 0 then 1 - Pow(|old(digits)|) else Pow(|old(digits)|) - 1)
    {
      CanonicalSign(isNegative, digits);
      CanonicalSign(other.isNegative, other.digits);
      if other.isNegative {
        ChangeSign();
      }
      var absOther := new BigInteger.Copy(other);
      absOther.isNegative := false;
      assert absOther.digits == old(other.digits) && digits == old(digits);
      var q := LongDivide(absOther);
      ghost var neg := isNegative;
      digits := q;
      DeleteZero();
      if old(other.Value()) == 0 {
        AllTopLimbs(q);
      }
    }

    /**
      * The long-division loop of operator/=: this's limbs divided by a
      * divisor that is not negative, returning the quotient limbs
      * (result_digits, reversed at the end). The partial remainder
      * initial_part stays in [0, divisor).
      */
    method LongDivide(divisor: BigInteger) returns (q: seq<int>)
      requires InRange(digits) && divisor.Valid() && divisor.Value() >= 0
      ensures InRange(q) && |q| == |digits|
      ensures divisor.Value() > 0 ==> LimbsValue(q) == LimbsValue(digits) / divisor.Value()
      ensures divisor.Value() == 0 ==> forall k | 0 <= k < |q| :: q[k] == Base - 1
    {
      ghost var b := divisor.Value();
      var initialPart := new BigInteger();
      var index := |digits| - 1;
      var resultDigits: seq<int> := [];
      ghost var quotient: seq<int> := [];
      while index >= 0
        invariant -1 <= index < |digits| && |quotient| == |digits| - 1 - index
        invariant quotient == Reverse(resultDigits) && InRange(quotient)
        invariant fresh(initialPart) && initialPart.Valid() && initialPart.Value() >= 0
        invariant LimbsValue(digits[index + 1..]) == LimbsValue(quotient) * b + initialPart.Value()
        invariant b > 0 ==> initialPart.Value() < b
        invariant b == 0 ==> forall k | 0 <= k < |quotient| :: quotient[k] == Base - 1
      {
        ghost var rem := initialPart.Value();
        var div := initialPart.BringDown(divisor, digits[index]);
        LongDivStep(digits, index, quotient, b, rem, rem * Base + digits[index], div);
        ReverseAppend(resultDigits, [div]);
        assert Reverse([div]) == [div];
        resultDigits := resultDigits + [div];
        quotient := [div] + quotient;
        index := index - 1;
      }
      q := Reverse(resultDigits);
      assert digits[0..] == digits;
      if b > 0 {
        DivModUnique(LimbsValue(digits), b, LimbsValue(q), initialPart.Value());
      }
    }

    /**
      * One round of the long division in operator/=, on the partial
      * remainder: shift it up a limb, add the next limb x, find the quotient
      * limb with find_div and subtract divisor times it.
      */
    method BringDown(divisor: BigInteger, x: int) returns (div: int)
      requires Valid() && Value() >= 0 && divisor.Valid() && divisor.Value() >= 0 && divisor != this
      requires 0 <= x < Base
      modifies this
      ensures Valid() && 0 <= div < Base
      ensures Value() == old(Value()) * Base + x - divisor.Value() * div && Value() >= 0
      ensures 0 <= old(Value()) < divisor.Value() ==> Value() < divisor.Value()
      ensures divisor.Value() == 0 ==> div == Base - 1
    {
      ghost var rem := Value();
      ShiftIn(x);
      ghost var t := Value();
      div := SubtractMultiple(divisor);
      if rem < divisor.Value() {
        RemainderBound(rem, x, divisor.Value(), div, t);
      }
    }

    /**
      * The second half of a division step: the largest limb div with
      * divisor * div <= initial_part is found and that multiple subtracted.
      */
    method SubtractMultiple(divisor: BigInteger) returns (div: int)
      requires Valid() && Value() >= 0 && divisor.Valid() && divisor.Value() >= 0 && divisor != this
      modifies this
      ensures Valid() && 0 <= div < Base
      ensures Value() == old(Value()) - divisor.Value() * div && Value() >= 0
      ensures div == Base - 1 || old(Value()) < divisor.Value() * (div + 1)
      ensures divisor.Value() == 0 ==> div == Base - 1
    {
      ghost var b := divisor.Value();
      div := FindDiv(divisor);
      assert b == 0 ==> div == Base - 1;
      var prod := divisor.Times(div);
      SubAssign(prod);
      assert divisor.Value() == b;
    }

    /** initial_part *= mod; initial_part += x: append limb x below the partial remainder. */
    method ShiftIn(x: int)
      requires Valid() && 0 <= x < Base
      modifies this
      ensures Valid() && Value() == old(Value()) * Base + x
    {
      MulAssignInt(Base);
      var limb := new BigInteger.FromInt(x);
      AddAssign(limb);
    }

    /**
      * toString: "0" for no limbs; otherwise an optional '-', then the
      * decimal digits collected least significant first (nine per lower limb,
      * the top limb unpadded) and emitted in reverse.
      */
    method ToString() returns (ans: string)
      requires Valid()
      ensures ans == DecimalString(Value())
      ensures CanonicalDecimal(ans) && ParseDecimal(ans) == Value()
    {
      DecimalRoundTrip(Value());
      if |digits| == 0 {
        return "0";
      }
      ans := "";
      if isNegative {
        ans := ans + "-";
      }
      var number := LowLimbDigits();
      number := AppendDigits(number, digits[|digits| - 1]);
      LimbsDigits(digits);
      ans := AppendReversed(ans, number);
    }

    /** The first loop of toString: nine zero-padded digits of every limb but the top one. */
    method LowLimbDigits() returns (number: seq<char>)
      requires InRange(digits) && |digits| > 0
      ensures number == PadLimbs(digits[..|digits| - 1])
    {
      ghost var low := digits[..|digits| - 1];
      number := [];
      var i := 0;
      while i < |digits| - 1
        invariant 0 <= i <= |low| == |digits| - 1
        invariant number + PadLimbs(low[i..]) == PadLimbs(low)
      {
        PadLimbsStep(low, i, number);
        number := AppendPadded(number, digits[i]);
        i := i + 1;
      }
    }

    /**
      * operator%=: this minus other times (this / other), so the remainder
      * takes the sign of this, as C++'s % does. A zero divisor leaves this
      * unchanged, since other times anything is zero.
      */
    method ModAssign(other: BigInteger)
      requires Valid() && other.Valid()
      modifies this
      ensures Valid()
      ensures old(other.Value()) != 0 ==>
        Value() == old(Value()) - old(other.Value()) * TruncDiv(old(Value()), old(other.Value()))
      ensures old(other.Value()) == 0 ==> Value() == old(Value())
    {
      var div := new BigInteger.Copy(this);
      div.DivAssign(other);
      var result := new BigInteger.Copy(other);
      result.MulAssignAliasSafe(div);
      SubAssign(result);
    }

    /**
      * operator%= as Big_integer.h writes it: the product and the difference
      * go through the written operator*= and operator-=.
      */
    method ModAssignAsWritten(other: BigInteger)
      requires Valid() && other.Valid()
      modifies this
      ensures Valid() && Value() == ModAsWrittenValue(old(Value()), old(other.Value()))
    {
      var div := new BigInteger.Copy(this);
      div.DivAssign(other);
      var result := new BigInteger.Copy(other);
      ghost var quotient := div.Value();
      result.MulAssign(div);
      if old(other.Value()) == 0 {
        MulAsWrittenAgrees(0, quotient);
      }
      SubAssignAsWritten(result);
    }

    /** Postfix ++: the old value is returned as a copy. */
    method PostIncrement() returns (r: BigInteger)
      requires Valid()
      modifies this
      ensures fresh(r) && r.Valid() && r.Value() == old(Value())
      ensures Valid() && Value() == old(Value()) + 1
    {
      r := new BigInteger.Copy(this);
      Increment();
    }

    /** Postfix ++ as written: the copy, then the written prefix ++, which leaves -1 as a negative zero. */
    method PostIncrementAsWritten() returns (r: BigInteger)
      requires Valid()
      modifies this
      ensures fresh(r) && r.Valid() && r.Value() == old(Value())
      ensures old(Value()) != -1 ==> Valid() && Value() == old(Value()) + 1
      ensures old(Value()) == -1 ==> isNegative && digits == [] && !Valid()
    {
      r := new BigInteger.Copy(this);
      IncrementAsWritten();
    }

    /** Postfix --: the old value is returned as a copy. */
    method PostDecrement() returns (r: BigInteger)
      requires Valid()
      modifies this
      ensures fresh(r) && r.Valid() && r.Value() == old(Value())
      ensures Valid() && Value() == old(Value()) - 1
    {
      r := new BigInteger.Copy(this);
      Decrement();
    }

    /** explicit operator bool: true for a non-zero value. */
    method AsBool() returns (r: bool)
      requires Valid()
      ensures r <==> Value() != 0
    {
      CanonicalSign(isNegative, digits);
      r := |digits| != 0;
    }

    /** IsNegative: the sign flag, set exactly for negative values. */
    method IsNegative() returns (r: bool)
      requires Valid()
      ensures r <==> Value() < 0
    {
      CanonicalSign(isNegative, digits);
      r := isNegative;
    }

    /**
      * explicit operator long long: sum of limb times Base^i, negated for a
      * negative value. Only values that fit in a long long convert.
      */
    method ToLongLong() returns (r: int)
      requires Valid() && -0x7FFF_FFFF_FFFF_FFFF <= Value() <= 0x7FFF_FFFF_FFFF_FFFF
      ensures r == Value()
    {
      if |digits| == 0 {
        return 0;
      }
      var ans := 0;
      var kmod := 1;
      var i := 0;
      while i < |digits|
        invariant 0 <= i <= |digits| && kmod == Pow(i)
        invariant ans == LimbsValue(digits[..i])
      {
        LimbsPrefix(digits, i);
        ans := ans + digits[i] * kmod;
        kmod := kmod * Base;
        i := i + 1;
      }
      assert digits[..i] == digits;
      if isNegative {
        return -ans;
      }
      return ans;
    }
  }

  /** operator ""_bi: a literal converted through the long long constructor. */
  method Literal(num: nat) returns (r: BigInteger)
    requires num <= 0x7FFF_FFFF_FFFF_FFFF
    ensures fresh(r) && r.Valid() && r.Value() == num
  {
    r := new BigInteger.FromInt(num);
  }

  /** operator+: a copy of first with second added. */
  method Sum(first: BigInteger, second: BigInteger) returns (r: BigInteger)
    requires first.Valid() && second.Valid()
    ensures fresh(r) && r.Valid() && r.Value() == first.Value() + second.Value()
  {
    r := new BigInteger.Copy(first);
    r.AddAssign(second);
  }

  /** operator+ as written: a copy of first with second added by the written operator+=. */
  method SumAsWritten(first: BigInteger, second: BigInteger) returns (r: BigInteger)
    requires first.Valid() && second.Valid()
    ensures fresh(r) && r.Valid() && r.Value() == AddAsWrittenValue(first.Value(), second.Value())
  {
    r := new BigInteger.Copy(first);
    r.AddAssignAsWritten(second);
  }

  /** operator-: a copy of first with second subtracted. */
  method Difference(first: BigInteger, second: BigInteger) returns (r: BigInteger)
    requires first.Valid() && second.Valid()
    ensures fresh(r) && r.Valid() && r.Value() == first.Value() - second.Value()
  {
    r := new BigInteger.Copy(first);
    r.SubAssign(second);
  }

  /** operator- as written: a copy of first with the written operator-=. */
  method DifferenceAsWritten(first: BigInteger, second: BigInteger) returns (r: BigInteger)
    requires first.Valid() && second.Valid()
    ensures fresh(r) && r.Valid() && r.Value() == AddAsWrittenValue(first.Value(), -second.Value())
  {
    r := new BigInteger.Copy(first);
    r.SubAssignAsWritten(second);
  }

  /** operator*: a copy of first multiplied by second; the copy never aliases second. */
  method Product(first: BigInteger, second: BigInteger) returns (r: BigInteger)
    requires first.Valid() && second.Valid()
    ensures fresh(r) && r.Valid() && r.Value() == first.Value() * second.Value()
  {
    r := new BigInteger.Copy(first);
    r.MulAssignAliasSafe(second);
  }

  /** operator* as written: a copy of first with the written operator*=; the copy never aliases second. */
  method ProductAsWritten(first: BigInteger, second: BigInteger) returns (r: BigInteger)
    requires first.Valid() && second.Valid()
    ensures fresh(r) && r.Valid() && r.Value() == MulAsWrittenValue(first.Value(), second.Value())
  {
    r := new BigInteger.Copy(first);
    r.MulAssign(second);
  }

  /** operator/: a copy of first divided by second, truncating toward zero. */
  method Quotient(first: BigInteger, second: BigInteger) returns (r: BigInteger)
    requires first.Valid() && second.Valid() && second.Value() != 0
    ensures fresh(r) && r.Valid() && r.Value() == TruncDiv(first.Value(), second.Value())
  {
    r := new BigInteger.Copy(first);
    r.DivAssign(second);
  }

  /** operator%: a copy of first reduced modulo second; the remainder has first's sign. */
  method Remainder(first: BigInteger, second: BigInteger) returns (r: BigInteger)
    requires first.Valid() && second.Valid() && second.Value() != 0
    ensures fresh(r) && r.Valid() && r.Value() == first.Value() - second.Value() * TruncDiv(first.Value(), second.Value())
  {
    r := new BigInteger.Copy(first);
    r.ModAssign(second);
  }

  /** operator% as written: a copy of first with the written operator%=. */
  method RemainderAsWritten(first: BigInteger, second: BigInteger) returns (r: BigInteger)
    requires first.Valid() && second.Valid()
    ensures fresh(r) && r.Valid() && r.Value() == ModAsWrittenValue(first.Value(), second.Value())
  {
    r := new BigInteger.Copy(first);
    r.ModAssignAsWritten(second);
  }

  /**
    * Truncating division and its remainder as C++ defines them: the quotient
    * has magnitude |a| / |b| and the remainder is smaller than |b| and takes
    * the sign of a.
    */
  lemma TruncDivMod(a: int, b: int)
    requires b != 0
    ensures Abs(TruncDiv(a, b)) == Abs(a) / Abs(b)
    ensures Abs(a - b * TruncDiv(a, b)) < Abs(b)
    ensures a - b * TruncDiv(a, b) == 0 || (a - b * TruncDiv(a, b) < 0 <==> a < 0)
  {
    var q := Abs(a) / Abs(b);
    var r := Abs(a) % Abs(b);
    assert Abs(a) == Abs(b) * q + r;
    assert q >= 0 by {
      if q < 0 {
        MulMonotone(Abs(b), q, -1);
      }
    }
    assert TruncDiv(a, b) == q || TruncDiv(a, b) == -q;
    var rem := a - b * TruncDiv(a, b);
    if a >= 0 && b > 0 {
      assert rem == r;
    } else if a >= 0 {
      NegTimesNeg(Abs(b), q);
      assert rem == r;
    } else if b > 0 {
      TimesNeg(Abs(b), q);
      assert rem == -r;
    } else {
      TimesNeg(q, Abs(b));
      assert rem == -r;
    }
  }

  /** For operands that are not negative, truncating remainder is Euclid's. */
  lemma NonNegativeRemainder(a: int, b: int)
    requires a >= 0 && b > 0
    ensures a - b * TruncDiv(a, b) == a % b
  {
    assert a == b * (a / b) + a % b;
  }

  /** d divides n (zero divides only zero). */
  predicate Divides(d: nat, n: nat)
  {
    if d == 0 then n == 0 else n % d == 0
  }

  /** The greatest common divisor by Euclid's algorithm, with gcd's two zero checks. */
  function NatGcd(a: nat, b: nat): nat
    decreases b
  {
    if a == 0 then b
    else if b == 0 then a
    else NatGcd(b, a % b)
  }

  lemma MultipleDivides(d: nat, m: nat)
    ensures Divides(d, d * m)
  {
    if d > 0 {
      DivModUnique(d * m, d, m, 0);
    }
  }

  /** A common divisor of b and a % b divides a, and a common divisor of a and b divides a % b. */
  lemma DividesEuclidStep(d: nat, a: nat, b: nat)
    requires b > 0
    ensures Divides(d, b) && Divides(d, a % b) ==> Divides(d, a)
    ensures Divides(d, a) && Divides(d, b) ==> Divides(d, a % b)
  {
    var q, r := a / b, a % b;
    assert a == b * q + r;
    if d > 0 {
      if Divides(d, b) && Divides(d, r) {
        DividesSum(d, b, q, r, a);
      }
      if Divides(d, a) && Divides(d, b) {
        DividesRemainder(d, b, q, r, a);
      }
    }
  }

  /** d divides b * q + r when it divides b and r. */
  lemma DividesSum(d: nat, b: nat, q: nat, r: nat, a: nat)
    requires d > 0 && a == b * q + r && b % d == 0 && r % d == 0
    ensures a % d == 0
  {
    var x, y := b / d, r / d;
    ExactQuotient(b, d);
    ExactQuotient(r, d);
    assert a == d * (x * q + y);
    MultipleDivides(d, x * q + y);
  }

  /** d divides r = a - b * q when it divides a and b. */
  lemma DividesRemainder(d: nat, b: nat, q: nat, r: nat, a: nat)
    requires d > 0 && a == b * q + r && a % d == 0 && b % d == 0
    ensures r % d == 0
  {
    var x, y := a / d, b / d;
    ExactQuotient(a, d);
    ExactQuotient(b, d);
    assert r == d * (x - y * q);
    assert x - y * q >= 0 by {
      if x - y * q < 0 {
        MulMonotone(d, x - y * q, -1);
      }
    }
    MultipleDivides(d, x - y * q);
  }

  /** NatGcd divides both arguments, and every common divisor divides it: it is the greatest common divisor. */
  lemma {:induction false} NatGcdIsGcd(a: nat, b: nat, d: nat)
    ensures Divides(NatGcd(a, b), a) && Divides(NatGcd(a, b), b)
    ensures Divides(d, a) && Divides(d, b) ==> Divides(d, NatGcd(a, b))
    decreases b
  {
    if a == 0 {
      MultipleDivides(b, 0);
      MultipleDivides(b, 1);
    } else if b == 0 {
      MultipleDivides(a, 0);
      MultipleDivides(a, 1);
    } else {
      NatGcdIsGcd(b, a % b, d);
      var g := NatGcd(b, a % b);
      DividesEuclidStep(g, a, b);
      DividesEuclidStep(d, a, b);
    }
  }

  /** NatGcd is zero only for two zeros, and otherwise at most any non-zero argument. */
  lemma NatGcdPositive(a: nat, b: nat)
    ensures NatGcd(a, b) == 0 <==> a == 0 && b == 0
    ensures a > 0 ==> NatGcd(a, b) <= a
    ensures b > 0 ==> NatGcd(a, b) <= b
  {
    NatGcdIsGcd(a, b, 0);
  }

  /** The by-value parameters of gcd made non-negative: a copy with ChangeSign when negative. */
  method AbsCopy(x: BigInteger) returns (r: BigInteger)
    requires x.Valid()
    ensures fresh(r) && r.Valid() && r.Value() == Abs(x.Value())
  {
    r := new BigInteger.Copy(x);
    var negative := r.IsNegative();
    if negative {
      r.ChangeSign();
    }
  }

  /**
    * gcd(first, second): both taken by value and made non-negative; a zero
    * argument returns the other one, else recurse on (second, first % second).
    */
  method Gcd(first: BigInteger, second: BigInteger) returns (r: BigInteger)
    requires first.Valid() && second.Valid()
    ensures fresh(r) && r.Valid() && r.Value() == NatGcd(Abs(first.Value()), Abs(second.Value()))
    decreases Abs(second.Value())
  {
    var f := AbsCopy(first);
    var s := AbsCopy(second);
    var zero := new BigInteger();
    var fZero := f.Equal(zero);
    if fZero {
      return s;
    }
    var sZero := s.Equal(zero);
    if sZero {
      return f;
    }
    var m := RemainderAsWritten(f, s);
    ModAsWrittenAgrees(f.Value(), s.Value());
    r := Gcd(s, m);
  }
}
