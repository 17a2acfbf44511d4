/**
 * The growable C string of String_simple.h.
 *
 * `String` owns a heap buffer of `strCapacity` chars whose first `strSize`
 * chars are the text followed by a terminating NUL; `strSize` counts the
 * terminator, so `Length()` is `strSize - 1`. Every operation is proved
 * against `Contents()`, the text as a sequence, and against the capacity
 * rules of the source (doubling on a full push_back, exact growth on +=).
 * Searching and ordering are specified by the functions `MatchesAt` and
 * `LexLess` at the top of the module.
 */
module StringModel {

  // ---------------------------------------------------------------------------
  // Text as a value: occurrences and lexicographic order
  // ---------------------------------------------------------------------------

  /** t occurs in s starting at index i. */
  predicate MatchesAt(s: seq<char>, t: seq<char>, i: nat)
  {
    i + |t| <= |s| && s[i..i + |t|] == t
  }

  /** Strict lexicographic order, the shorter prefix first. */
  predicate LexLess(a: seq<char>, b: seq<char>)
  {
    if |b| == 0 then false
    else if |a| == 0 then true
    else if a[0] != b[0] then a[0] < b[0]
    else LexLess(a[1..], b[1..])
  }

  /** A text ending in t contains t at the end: find on s + t succeeds. */
  lemma AppendedMatches(s: seq<char>, t: seq<char>)
    ensures MatchesAt(s + t, t, |s|)
  {
    assert (s + t)[|s|..|s| + |t|] == t;
  }

  /** A match inside s survives appending more text. */
  lemma MatchSurvivesAppend(s: seq<char>, u: seq<char>, t: seq<char>, i: nat)
    requires MatchesAt(s, t, i)
    ensures MatchesAt(s + u, t, i)
  {
    assert (s + u)[i..i + |t|] == s[i..i + |t|];
  }

  lemma {:induction false} LexLessIrreflexive(a: seq<char>)
    ensures !LexLess(a, a)
  {
    if |a| > 0 {
      LexLessIrreflexive(a[1..]);
    }
  }

  lemma {:induction false} LexLessAsymmetric(a: seq<char>, b: seq<char>)
    requires LexLess(a, b)
    ensures !LexLess(b, a)
  {
    if |a| > 0 && a[0] == b[0] {
      LexLessAsymmetric(a[1..], b[1..]);
    }
  }

  lemma {:induction false} LexLessTransitive(a: seq<char>, b: seq<char>, c: seq<char>)
    requires LexLess(a, b) && LexLess(b, c)
    ensures LexLess(a, c)
  {
    if |a| > 0 && a[0] == b[0] && b[0] == c[0] {
      LexLessTransitive(a[1..], b[1..], c[1..]);
    }
  }

  /** Any two texts are equal or ordered one way or the other. */
  lemma {:induction false} LexLessTotal(a: seq<char>, b: seq<char>)
    ensures a == b || LexLess(a, b) || LexLess(b, a)
  {
    if |a| > 0 && |b| > 0 && a[0] == b[0] {
      LexLessTotal(a[1..], b[1..]);
      if a[1..] == b[1..] {
        assert a == [a[0]] + a[1..] && b == [b[0]] + b[1..];
      }
    }
  }

  /** A proper prefix comes first. */
  lemma {:induction false} PrefixIsLess(a: seq<char>, b: seq<char>)
    requires |a| < |b| && a == b[..|a|]
    ensures LexLess(a, b)
  {
    if |a| > 0 {
      assert a[1..] == b[1..][..|a| - 1];
      PrefixIsLess(a[1..], b[1..]);
    }
  }

  /** strlen: the index of the first NUL. */
  function StrLen(s: seq<char>): (r: nat)
    requires '\0' in s
    ensures r < |s| && s[r] == '\0' && forall j :: 0 <= j < r ==> s[j] != '\0'
  {
    if s[0] == '\0' then 0 else 1 + StrLen(s[1..])
  }

  /**
   * memcpy of count chars from src[srcFrom..] to dst[dstFrom..]. The ranges
   * do not overlap unless they are the same range.
   */
  method Memcpy(dst: array<char>, dstFrom: nat, src: array<char>, srcFrom: nat, count: nat)
    requires dstFrom + count <= dst.Length && srcFrom + count <= src.Length
    requires dst != src || dstFrom == srcFrom
    modifies dst
    ensures forall j :: 0 <= j < dst.Length ==>
      dst[j] == if dstFrom <= j < dstFrom + count then old(src[srcFrom + (j - dstFrom)]) else old(dst[j])
  {
    var k := 0;
    while k < count
      invariant 0 <= k <= count
      invariant forall j :: 0 <= j < dst.Length ==>
        dst[j] == if dstFrom <= j < dstFrom + k then old(src[srcFrom + (j - dstFrom)]) else old(dst[j])
      invariant forall j :: srcFrom + k <= j < src.Length ==> src[j] == old(src[j])
    {
      dst[dstFrom + k] := src[srcFrom + k];
      k := k + 1;
    }
  }

  // ---------------------------------------------------------------------------
  // class String
  // ---------------------------------------------------------------------------

  class String {
    var str: array<char>
    var strSize: nat
    var strCapacity: nat

    /** 1 <= str_size <= str_capacity, the buffer is str_capacity long and the text is NUL-terminated. */
    predicate Valid()
      reads this, str
    {
      1 <= strSize <= strCapacity && strCapacity == str.Length && str[strSize - 1] == '\0'
    }

    /** The text: the chars before the terminator. */
    function Contents(): (s: seq<char>)
      requires Valid()
      reads this, str
      ensures |s| == strSize - 1
    {
      str[..strSize - 1]
    }

    /** length() and size(): str_size - 1, the length of the text. */
    function Length(): (n: nat)
      requires Valid()
      reads this, str
      ensures n == |Contents()| && n + 1 <= str.Length
    {
      strSize - 1
    }

    /** capacity(): str_capacity - 1, the longest text that fits without growing. */
    function Capacity(): (n: nat)
      requires Valid()
      reads this, str
      ensures n >= Length() && n == str.Length - 1
    {
      strCapacity - 1
    }

    function Empty(): (b: bool)
      requires Valid()
      reads this, str
      ensures b <==> Contents() == []
    {
      Length() == 0
    }

    /** String(size_t): room for length chars, NUL-terminated; the chars themselves are not set. */
    constructor Blank(length: nat)
      ensures Valid() && fresh(str) && Length() == length && Capacity() == length
    {
      str := new char[length + 1];
      strSize := length + 1;
      strCapacity := length + 1;
      new;
      str[length] := '\0';
    }

    /** String(const char*): the chars of a NUL-terminated C string up to its first NUL. */
    constructor FromCString(s: seq<char>)
      requires '\0' in s
      ensures Valid() && fresh(str) && Contents() == s[..StrLen(s)] && Capacity() == Length()
    {
      var n := StrLen(s);
      str := new char[n + 1](j requires 0 <= j < n + 1 => s[j]);
      strSize := n + 1;
      strCapacity := n + 1;
    }

    /** String(int, char): length copies of x. */
    constructor Filled(length: int, x: char)
      requires length >= 0
      ensures Valid() && fresh(str) && Contents() == seq(length, _ => x) && Capacity() == length
    {
      str := new char[length + 1](j => if j < length then x else '\0');
      strSize := length + 1;
      strCapacity := length + 1;
    }

    /** String(): the empty text. */
    constructor ()
      ensures Valid() && fresh(str) && Contents() == [] && Capacity() == 0
    {
      str := new char[1](_ => '\0');
      strSize := 1;
      strCapacity := 1;
    }

    /** The copy constructor: same text, same capacity, a buffer of its own. */
    constructor Copy(other: String)
      requires other.Valid()
      ensures Valid() && fresh(str)
      ensures Contents() == other.Contents() && Capacity() == other.Capacity()
    {
      var buffer := new char[other.strCapacity];
      Memcpy(buffer, 0, other.str, 0, other.strSize);
      str := buffer;
      strSize := other.strSize;
      strCapacity := other.strCapacity;
      new;
      assert str[..strSize - 1] == other.str[..other.strSize - 1];
    }

    /** resize: moves the text into a fresh buffer of new_capacity chars. */
    method Reallocate(newCapacity: nat)
      requires Valid() && newCapacity >= strSize
      modifies this
      ensures Valid() && fresh(str) && Contents() == old(Contents())
      ensures strSize == old(strSize) && strCapacity == newCapacity
    {
      var buffer := new char[newCapacity];
      Memcpy(buffer, 0, str, 0, strSize);
      assert buffer[..strSize - 1] == str[..strSize - 1];
      str := buffer;
      strCapacity := newCapacity;
    }

    /** operator[] for reading: index size() holds the terminator. */
    function At(index: nat): (c: char)
      requires Valid() && index <= Length()
      reads this, str
      ensures c == if index < Length() then Contents()[index] else '\0'
    {
      str[index]
    }

    /** operator[] for writing a char of the text. */
    method SetAt(index: nat, c: char)
      requires Valid() && index < Length()
      modifies str
      ensures Valid() && Contents() == old(Contents())[index := c] && Capacity() == old(Capacity())
    {
      str[index] := c;
    }

    /** front(): the first char, or the terminator of an empty text. */
    function Front(): (c: char)
      requires Valid()
      reads this, str
      ensures c == if Length() > 0 then Contents()[0] else '\0'
    {
      str[0]
    }

    /** back(): the last char. */
    function Back(): (c: char)
      requires Valid() && Length() > 0
      reads this, str
      ensures c == Contents()[Length() - 1]
    {
      str[strSize - 2]
    }

    /** operator=: reuses the buffer when the text fits, otherwise copy-and-swap. */
    method Assign(other: String)
      requires Valid() && other.Valid()
      modifies this, str
      ensures Valid() && Contents() == old(other.Contents())
      ensures Capacity() == if old(strSize) > old(other.Length()) then old(Capacity()) else old(other.Capacity())
    {
      if strSize > other.Length() {
        Overwrite(other);
      } else {
        var copy := new String.Copy(other);
        Swap(copy);
      }
    }

    /** operator='s first branch: other's text and terminator are copied into this buffer, which is large enough. */
    method Overwrite(other: String)
      requires Valid() && other.Valid() && strSize > other.Length()
      modifies this, str
      ensures Valid() && Contents() == old(other.Contents()) && str == old(str)
    {
      var n := other.strSize;
      ghost var text := other.Contents();
      assert forall j :: 0 <= j < n ==> other.str[j] == if j < n - 1 then text[j] else '\0';
      Memcpy(str, 0, other.str, 0, n);
      strSize := n;
      assert str[..n - 1] == text;
    }

    /** swap: exchanges the buffers, sizes and capacities. */
    method Swap(other: String)
      requires Valid() && other.Valid()
      modifies this, other
      ensures Valid() && other.Valid()
      ensures Contents() == old(other.Contents()) && Capacity() == old(other.Capacity())
      ensures other.Contents() == old(Contents()) && other.Capacity() == old(Capacity())
    {
      str, other.str := other.str, str;
      strSize, other.strSize := other.strSize, strSize;
      strCapacity, other.strCapacity := other.strCapacity, strCapacity;
    }

    /** pop_back: drops the last char; the capacity stays. */
    method PopBack()
      requires Valid() && Length() > 0
      modifies this, str
      ensures Valid() && Contents() == old(Contents())[..old(Length()) - 1]
      ensures Capacity() == old(Capacity()) && str == old(str)
    {
      strSize := strSize - 1;
      str[strSize - 1] := '\0';
    }

    /** push_back and operator+=(char): appends c, doubling the buffer when it is full. */
    method PushBack(c: char)
      requires Valid()
      modifies this, str
      ensures Valid() && Contents() == old(Contents()) + [c]
      ensures Capacity() == if old(strSize) == old(strCapacity) then 2 * old(Capacity()) + 1 else old(Capacity())
      ensures str == old(str) || fresh(str)
    {
      if strSize == strCapacity {
        Reallocate(strCapacity * 2);
      }
      ghost var before := str[..strSize - 1];
      str[strSize - 1] := c;
      str[strSize] := '\0';
      strSize := strSize + 1;
      assert str[..strSize - 1] == before + [c];
    }

    /**
     * operator+=(String): grows to exactly the needed size when the buffer
     * is too small, then copies other's text and terminator after the text.
     */
    method Append(other: String)
      requires Valid() && other.Valid() && other.str != str
      modifies this, str
      ensures Valid() && Contents() == old(Contents()) + old(other.Contents())
      ensures Capacity() == if old(strSize) + old(other.Length()) > old(strCapacity)
                            then old(Length()) + old(other.Length()) else old(Capacity())
    {
      if strSize + other.Length() > strCapacity {
        Reallocate(strSize + other.Length());
      }
      CopyAfterText(other);
    }

    /** The copying half of operator+=(String), once the buffer is large enough. */
    method CopyAfterText(other: String)
      requires Valid() && other.Valid() && other.str != str && strSize + other.Length() <= strCapacity
      modifies this, str
      ensures Valid() && Contents() == old(Contents()) + old(other.Contents())
      ensures str == old(str) && strCapacity == old(strCapacity)
    {
      ghost var text := Contents() + other.Contents();
      var n := other.Length();
      Memcpy(str, strSize - 1, other.str, 0, n + 1);
      strSize := strSize + n;
      forall j | 0 <= j < strSize - 1
        ensures str[j] == text[j]
      {
      }
      assert str[..strSize - 1] == text;
    }

    /** are_equal_substrings: substring's text occurs at start; the caller keeps it in range. */
    method MatchesAtIndex(start: nat, substring: String) returns (b: bool)
      requires Valid() && substring.Valid() && start + substring.Length() <= Length()
      ensures b <==> MatchesAt(Contents(), substring.Contents(), start)
    {
      var i := 0;
      while i < substring.Length()
        invariant 0 <= i <= substring.Length()
        invariant forall k :: 0 <= k < i ==> str[start + k] == substring.str[k]
      {
        if str[start + i] != substring.str[i] {
          return false;
        }
        i := i + 1;
      }
      assert Contents()[start..start + substring.Length()] == substring.Contents();
      return true;
    }

    /** find: the first index where substring occurs, or length() when it does not occur. */
    method Find(substring: String) returns (r: nat)
      requires Valid() && substring.Valid()
      ensures (MatchesAt(Contents(), substring.Contents(), r) && forall j :: 0 <= j < r ==> !MatchesAt(Contents(), substring.Contents(), j))
              || (r == Length() && forall j: nat :: !MatchesAt(Contents(), substring.Contents(), j))
    {
      var i := 0;
      while i + substring.Length() <= Length()
        invariant forall j :: 0 <= j < i ==> !MatchesAt(Contents(), substring.Contents(), j)
      {
        var found := MatchesAtIndex(i, substring);
        if found {
          return i;
        }
        i := i + 1;
      }
      return Length();
    }

    /** rfind: the last index where substring occurs, or length() when it does not occur. */
    method RFind(substring: String) returns (r: nat)
      requires Valid() && substring.Valid()
      ensures (MatchesAt(Contents(), substring.Contents(), r) && forall j: nat :: r < j ==> !MatchesAt(Contents(), substring.Contents(), j))
              || (r == Length() && forall j: nat :: !MatchesAt(Contents(), substring.Contents(), j))
    {
      var ans: nat := Length();
      ghost var found := false;
      var i := 0;
      while i + substring.Length() <= Length()
        invariant found ==> MatchesAt(Contents(), substring.Contents(), ans) && ans < i
        invariant !found ==> ans == Length()
        invariant forall j: nat :: (if found then ans else -1) < j < i ==> !MatchesAt(Contents(), substring.Contents(), j)
      {
        var matches := MatchesAtIndex(i, substring);
        if matches {
          ans, found := i, true;
        }
        i := i + 1;
      }
      return ans;
    }

    /**
     * substr(start, count): a new String of count chars copied from start.
     * The copied range may reach the terminator, which then becomes a char.
     */
    method Substr(start: nat, count: nat) returns (r: String)
      requires Valid() && start + count <= strSize
      ensures fresh(r) && fresh(r.str) && r.Valid() && r.Capacity() == count
      ensures r.Contents() == (Contents() + ['\0'])[start..start + count]
      ensures start + count <= Length() ==> r.Contents() == Contents()[start..start + count]
    {
      r := new String.Blank(count);
      Memcpy(r.str, 0, str, start, count);
      assert str[..strSize] == Contents() + ['\0'];
      assert r.str[..count] == str[start..start + count];
    }

    /** clear: the empty text in the same buffer. */
    method Clear()
      requires Valid()
      modifies this, str
      ensures Valid() && Contents() == [] && Capacity() == old(Capacity()) && str == old(str)
    {
      strSize := 1;
      str[0] := '\0';
    }

    /** shrink_to_fit: a buffer exactly as long as the text and its terminator. */
    method ShrinkToFit()
      requires Valid()
      modifies this
      ensures Valid() && Contents() == old(Contents()) && Capacity() == Length()
    {
      Reallocate(strSize);
    }
  }

  // ---------------------------------------------------------------------------
  // Free operators
  // ---------------------------------------------------------------------------

  /** operator==: same length and the same chars. */
  method Equal(first: String, second: String) returns (b: bool)
    requires first.Valid() && second.Valid()
    ensures b <==> first.Contents() == second.Contents()
  {
    if first.Length() != second.Length() {
      return false;
    }
    var i := 0;
    while i < first.Length()
      invariant 0 <= i <= first.Length()
      invariant forall k :: 0 <= k < i ==> first.Contents()[k] == second.Contents()[k]
    {
      if first.At(i) != second.At(i) {
        return false;
      }
      i := i + 1;
    }
    return true;
  }

  method NotEqual(first: String, second: String) returns (b: bool)
    requires first.Valid() && second.Valid()
    ensures b <==> first.Contents() != second.Contents()
  {
    var same := Equal(first, second);
    b := !same;
  }

  /**
   * operator< as written: the loop returns true once it runs off the end of
   * first, so equal texts compare true, and for texts without NUL chars it
   * computes "first <= second". Reading second[i] at i == second.size()
   * sees the terminator.
   */
  method LessAsWritten(first: String, second: String) returns (b: bool)
    requires first.Valid() && second.Valid()
    ensures (forall k :: 0 <= k < first.Length() ==> first.Contents()[k] != '\0') ==>
              (b <==> !LexLess(second.Contents(), first.Contents()))
  {
    ghost var a, c := first.Contents(), second.Contents();
    var i := 0;
    while i < first.Length()
      invariant 0 <= i <= first.Length() && i <= second.Length() + 1
      invariant i <= second.Length() ==> a[..i] == c[..i]
      invariant i == second.Length() + 1 ==> a[..i - 1] == c && a[i - 1] == '\0'
    {
      if second.Length() < i || first.At(i) > second.At(i) {
        if i <= |c| {
          LexLessAfterPrefix(c, a, i);
        }
        return false;
      }
      if first.At(i) < second.At(i) {
        LexLessAfterPrefix(a, c, i);
        LexLessAsymmetric(a, c);
        return true;
      }
      if i < |c| {
        assert a[..i + 1] == c[..i + 1];
      } else {
        assert a[..i] == c;
      }
      i := i + 1;
    }
    if i <= |c| {
      assert a[..|a|] == a;
      assert a == c[..|a|];
      if |a| < |c| {
        PrefixIsLess(a, c);
        LexLessAsymmetric(a, c);
      } else {
        assert c[..|c|] == c;
        LexLessIrreflexive(a);
      }
    } else {
      assert first.Contents()[i - 1] == '\0';
    }
    return true;
  }

  /** Texts that agree before index i and differ at i compare like their chars at i. */
  lemma {:induction false} LexLessAfterPrefix(a: seq<char>, b: seq<char>, i: nat)
    requires i <= |a| && i <= |b| && a[..i] == b[..i]
    requires (i < |a| && i < |b| && a[i] < b[i]) || (i == |a| && i < |b|)
    ensures LexLess(a, b)
  {
    if i > 0 {
      assert a[1..][..i - 1] == b[1..][..i - 1];
      LexLessAfterPrefix(a[1..], b[1..], i - 1);
    }
  }

  /** operator< as evidently intended: strict lexicographic order. */
  method Less(first: String, second: String) returns (b: bool)
    requires first.Valid() && second.Valid()
    ensures b <==> LexLess(first.Contents(), second.Contents())
  {
    var a, c := first.Contents(), second.Contents();
    var i := 0;
    while i < first.Length() && i < second.Length()
      invariant 0 <= i <= first.Length() && i <= second.Length()
      invariant a[..i] == c[..i]
    {
      if first.At(i) > second.At(i) {
        LexLessAfterPrefix(c, a, i);
        LexLessAsymmetric(c, a);
        return false;
      }
      if first.At(i) < second.At(i) {
        LexLessAfterPrefix(a, c, i);
        return true;
      }
      assert a[..i + 1] == c[..i + 1];
      i := i + 1;
    }
    if i < second.Length() {
      LexLessAfterPrefix(a, c, i);
      return true;
    }
    assert a[..|a|] == a && c[..|c|] == c;
    assert c == a[..|c|];
    if |c| < |a| {
      PrefixIsLess(c, a);
      LexLessAsymmetric(c, a);
    } else {
      LexLessIrreflexive(a);
    }
    return false;
  }

  /** operator>: second < first. */
  method Greater(first: String, second: String) returns (b: bool)
    requires first.Valid() && second.Valid()
    ensures b <==> LexLess(second.Contents(), first.Contents())
  {
    b := Less(second, first);
  }

  /** operator<=: not first > second. */
  method LessEq(first: String, second: String) returns (b: bool)
    requires first.Valid() && second.Valid()
    ensures b <==> (first.Contents() == second.Contents() || LexLess(first.Contents(), second.Contents()))
  {
    var greater := Greater(first, second);
    b := !greater;
    LexLessTotal(first.Contents(), second.Contents());
    if LexLess(first.Contents(), second.Contents()) {
      LexLessAsymmetric(first.Contents(), second.Contents());
    }
    if first.Contents() == second.Contents() {
      LexLessIrreflexive(first.Contents());
    }
  }

  /** operator>=: not first < second. */
  method GreaterEq(first: String, second: String) returns (b: bool)
    requires first.Valid() && second.Valid()
    ensures b <==> (first.Contents() == second.Contents() || LexLess(second.Contents(), first.Contents()))
  {
    var less := Less(first, second);
    b := !less;
    LexLessTotal(first.Contents(), second.Contents());
    if LexLess(second.Contents(), first.Contents()) {
      LexLessAsymmetric(second.Contents(), first.Contents());
    }
    if first.Contents() == second.Contents() {
      LexLessIrreflexive(first.Contents());
    }
  }

  /**
   * operator> as written: second < first with the written operator<, so for
   * texts without NUL chars it computes "first >= second".
   */
  method GreaterAsWritten(first: String, second: String) returns (b: bool)
    requires first.Valid() && second.Valid()
    ensures (forall k :: 0 <= k < second.Length() ==> second.Contents()[k] != '\0') ==>
              (b <==> !LexLess(first.Contents(), second.Contents()))
  {
    b := LessAsWritten(second, first);
  }

  /**
   * operator<= as written: not first > second with the written operator>,
   * so for texts without NUL chars it is the strict order.
   */
  method LessEqAsWritten(first: String, second: String) returns (b: bool)
    requires first.Valid() && second.Valid()
    ensures (forall k :: 0 <= k < second.Length() ==> second.Contents()[k] != '\0') ==>
              (b <==> LexLess(first.Contents(), second.Contents()))
  {
    var greater := GreaterAsWritten(first, second);
    b := !greater;
  }

  /**
   * operator>= as written: not first < second with the written operator<,
   * so for texts without NUL chars it is the strict order reversed.
   */
  method GreaterEqAsWritten(first: String, second: String) returns (b: bool)
    requires first.Valid() && second.Valid()
    ensures (forall k :: 0 <= k < first.Length() ==> first.Contents()[k] != '\0') ==>
              (b <==> LexLess(second.Contents(), first.Contents()))
  {
    var less := LessAsWritten(first, second);
    b := !less;
  }

  /** operator+(String, String): a copy of first with second appended. */
  method Concat(first: String, second: String) returns (r: String)
    requires first.Valid() && second.Valid()
    ensures fresh(r) && r.Valid() && r.Contents() == first.Contents() + second.Contents()
  {
    r := new String.Copy(first);
    r.Append(second);
  }

  /** operator+(String, char). */
  method ConcatChar(first: String, c: char) returns (r: String)
    requires first.Valid()
    ensures fresh(r) && r.Valid() && r.Contents() == first.Contents() + [c]
  {
    r := new String.Copy(first);
    r.PushBack(c);
  }

  /** operator+(char, String). */
  method PrependChar(c: char, second: String) returns (r: String)
    requires second.Valid()
    ensures fresh(r) && r.Valid() && r.Contents() == [c] + second.Contents()
  {
    r := new String.Filled(1, c);
    r.Append(second);
  }

  // ---------------------------------------------------------------------------
  // operator>>: one whitespace-delimited token
  // ---------------------------------------------------------------------------

  /**
   * The char that compares equal to EOF (-1) once promoted to int, on a
   * platform where char is signed. The comparisons above order chars by
   * code point instead, which agrees with signed char on ASCII text only.
   */
  const EofChar: char := '\U{FF}'

  /** A char that ends the token operator>> reads. */
  predicate Delimiter(c: char)
  {
    c == ' ' || c == '\n' || c == EofChar
  }

  /** The first index at or after i that is not a space or newline, or |s|. */
  function SkipBlanks(s: seq<char>, i: nat): (r: nat)
    requires i <= |s|
    ensures i <= r <= |s| && (r < |s| ==> s[r] != ' ' && s[r] != '\n')
    ensures forall j :: i <= j < r ==> s[j] == ' ' || s[j] == '\n'
    decreases |s| - i
  {
    if i < |s| && (s[i] == ' ' || s[i] == '\n') then SkipBlanks(s, i + 1) else i
  }

  /** The first index at or after i that holds a delimiter, or |s|. */
  function TokenEnd(s: seq<char>, i: nat): (r: nat)
    requires i <= |s|
    ensures i <= r <= |s| && (r < |s| ==> Delimiter(s[r]))
    ensures forall j :: i <= j < r ==> !Delimiter(s[j])
    decreases |s| - i
  {
    if i < |s| && !Delimiter(s[i]) then TokenEnd(s, i + 1) else i
  }

  /**
   * operator>>: clears the string, skips spaces and newlines, then appends
   * chars up to the next delimiter or the end of the input. `input` is what
   * the stream still holds; `consumed` counts the chars taken from it,
   * including the delimiter that ended the token.
   */
  method Read(input: seq<char>, s: String) returns (consumed: nat)
    requires s.Valid()
    modifies s, s.str
    ensures s.Valid() && consumed <= |input|
    ensures var k := SkipBlanks(input, 0);
      && s.Contents() == input[k..TokenEnd(input, k)]
      && consumed == if TokenEnd(input, k) < |input| then TokenEnd(input, k) + 1 else |input|
  {
    s.Clear();
    var i := 0;
    while i < |input| && (input[i] == ' ' || input[i] == '\n')
      invariant 0 <= i <= |input| && SkipBlanks(input, 0) == SkipBlanks(input, i)
    {
      i := i + 1;
    }
    var start := i;
    while i < |input| && !Delimiter(input[i])
      invariant start <= i <= |input| && TokenEnd(input, start) == TokenEnd(input, i)
      invariant s.Valid() && s.Contents() == input[start..i]
      invariant s.str == old(s.str) || fresh(s.str)
    {
      s.PushBack(input[i]);
      assert input[start..i + 1] == input[start..i] + [input[i]];
      i := i + 1;
    }
    consumed := if i < |input| then i + 1 else i;
  }
}
