/** The two foreign number conversions, `%d` and `strtod`, on exact numbers. */
module Decimal {
  import opened Bytes

  const INT_MAX := 0x7FFF_FFFF
  const INT_MIN := -0x8000_0000

  predicate IsDigit(b: Byte) {
    ZERO <= b <= NINE
  }

  // ---- `%d` ----

  function DigitsOf(n: nat): (s: ByteString)
    ensures |s| > 0 && forall i :: 0 <= i < |s| ==> IsDigit(s[i])
  {
    if n < 10 then [0x30 + n] else DigitsOf(n / 10) + [0x30 + n % 10]
  }

  function PrintInt(n: int): (s: ByteString)
    ensures |s| > 0 && (s[0] == MINUS || IsDigit(s[0]))
    ensures forall i :: 0 <= i < |s| ==> IsNumberByte(s[i])
  {
    if n < 0 then [MINUS] + DigitsOf(-n) else DigitsOf(n)
  }

  /** A printed int fits the 26 bytes set aside for it. */
  lemma PrintIntLength(n: int)
    requires INT_MIN <= n <= INT_MAX
    ensures |PrintInt(n)| <= 11
  {
    DigitsLength(if n < 0 then -n else n, 10);
  }

  function Power10(k: nat): (p: nat)
    ensures p > 0
  {
    if k == 0 then 1 else 10 * Power10(k - 1)
  }

  lemma {:induction false} DigitsLength(n: nat, k: nat)
    requires k > 0 && ((k == 10 && n <= 0x8000_0000) || n < Power10(k))
    ensures |DigitsOf(n)| <= k
  {
    if n >= 10 {
      assert k == 10 ==> n / 10 < Power10(9) by {
        assert Power10(3) == 1000;
        assert Power10(6) == 1000000;
        assert Power10(9) == 1000000000;
      }
      DigitsLength(n / 10, k - 1);
    }
  }

  // ---- `strtod` ----

  /** The bytes that the number scanner collects. */
  predicate IsNumberByte(b: Byte) {
    IsDigit(b) || b == PLUS || b == MINUS || b == LOWER_E || b == UPPER_E || b == DOT
  }

  function DigitValue(b: Byte): (d: nat)
    requires IsDigit(b)
    ensures d < 10
  {
    var code: int := b;
    code - 0x30
  }

  /** The value of the digits t[i..j]. */
  function DigitsValue(t: ByteString, i: nat, j: nat): nat
    requires i <= j <= |t| && forall k :: i <= k < j ==> IsDigit(t[k])
    decreases j
  {
    if i == j then 0 else DigitsValue(t, i, j - 1) * 10 + DigitValue(t[j - 1])
  }

  function DigitRun(t: ByteString, i: nat): (j: nat)
    requires i <= |t|
    ensures i <= j <= |t| && forall k :: i <= k < j ==> IsDigit(t[k])
    ensures j < |t| ==> !IsDigit(t[j])
    decreases |t| - i
  {
    if i < |t| && IsDigit(t[i]) then DigitRun(t, i + 1) else i
  }

  function Scale10(x: real, e: int): real
    decreases if e < 0 then -e else e
  {
    if e == 0 then x else if e > 0 then Scale10(x * 10.0, e - 1) else Scale10(x / 10.0, e + 1)
  }

  function SkipSign(t: ByteString, i: nat): (j: nat)
    requires i <= |t|
    ensures i <= j <= |t|
  {
    if i < |t| && (t[i] == PLUS || t[i] == MINUS) then i + 1 else i
  }

  datatype Conversion = NoConversion | Converted(value: real, used: nat)

  /** The longest number at the start of `t`: an optional sign, digits with an optional point, and an
    * exponent if digits follow it. The value is exact, where `strtod` rounds to a double. */
  function Strtod(t: ByteString): (r: Conversion)
    ensures r.Converted? ==> 0 < r.used <= |t|
  {
    var start := SkipSign(t, 0);
    var whole := DigitRun(t, start);
    var hasPoint := whole < |t| && t[whole] == DOT;
    var fraction := if hasPoint then DigitRun(t, whole + 1) else whole;
    var places := if hasPoint then fraction - (whole + 1) else 0;
    if whole == start && places == 0 then NoConversion
    else
      var magnitude := DigitsValue(t, start, whole) as real
        + (if hasPoint then Scale10(DigitsValue(t, whole + 1, fraction) as real, -places) else 0.0);
      var value := if |t| > 0 && t[0] == MINUS then -magnitude else magnitude;
      if fraction < |t| && (t[fraction] == LOWER_E || t[fraction] == UPPER_E) then
        var digits := SkipSign(t, fraction + 1);
        var end := DigitRun(t, digits);
        if end == digits then Converted(value, fraction)
        else
          var e: int := DigitsValue(t, digits, end);
          Converted(Scale10(value, if t[fraction + 1] == MINUS then -e else e), end)
      else Converted(value, fraction)
  }

  /** The `valueint` that goes with a `valuedouble`: truncated toward zero and saturated. */
  function IntOf(x: real): (n: int)
    ensures INT_MIN <= n <= INT_MAX
  {
    if x >= INT_MAX as real then INT_MAX
    else if x <= INT_MIN as real then INT_MIN
    else if x < 0.0 then -(-x).Floor else x.Floor
  }

  predicate IsInt(x: real) {
    x == IntOf(x) as real
  }

  /** Toward zero, and no further than an int reaches. */
  lemma IntOfTruncates(x: real)
    ensures x >= 2147483647.0 ==> IntOf(x) == 2147483647
    ensures x <= -2147483648.0 ==> IntOf(x) == -2147483648
    ensures 0.0 <= x < 2147483647.0 ==> IntOf(x) as real <= x < IntOf(x) as real + 1.0
    ensures -2147483648.0 < x <= 0.0 ==> IntOf(x) as real - 1.0 < x <= IntOf(x) as real
  {
  }

  lemma IntOfInt(n: int)
    requires INT_MIN <= n <= INT_MAX
    ensures IntOf(n as real) == n && IsInt(n as real)
  {
    assert -(n as real) == (-n) as real;
  }

  // ---- Reading back what was printed ----

  lemma {:induction false} ValueOfDigits(n: nat, t: ByteString, i: nat, j: nat)
    requires i <= j <= |t| && t[i..j] == DigitsOf(n)
    ensures forall k :: i <= k < j ==> IsDigit(t[k])
    ensures DigitsValue(t, i, j) == n
  {
    assert forall k :: i <= k < j ==> t[k] == t[i..j][k - i];
    if n >= 10 {
      var d := DigitsOf(n / 10);
      assert t[i..j - 1] == DigitsOf(n)[..|d|] == d;
      ValueOfDigits(n / 10, t, i, j - 1);
      assert t[j - 1] == DigitsOf(n)[|d|];
    } else {
      assert t[i] == DigitsOf(n)[0] && j == i + 1;
      assert DigitsValue(t, i, i) == 0;
    }
  }

  lemma {:induction false} DigitRunIs(t: ByteString, i: nat, j: nat)
    requires i <= j <= |t| && (forall k :: i <= k < j ==> IsDigit(t[k])) && (j < |t| ==> !IsDigit(t[j]))
    ensures DigitRun(t, i) == j
    decreases j - i
  {
    if i < j {
      DigitRunIs(t, i + 1, j);
    }
  }

  /** `strtod` reads a printed int back exactly, using all of it. */
  lemma StrtodOfPrintInt(n: int)
    ensures Strtod(PrintInt(n)) == Converted(n as real, |PrintInt(n)|)
  {
    var t := PrintInt(n);
    var start := if n < 0 then 1 else 0;
    assert t[start..|t|] == DigitsOf(if n < 0 then -n else n);
    assert forall k :: start <= k < |t| ==> t[k] == t[start..|t|][k - start];
    assert SkipSign(t, 0) == start;
    DigitRunIs(t, start, |t|);
    ValueOfDigits(if n < 0 then -n else n, t, start, |t|);
  }
}
