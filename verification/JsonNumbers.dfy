/** The numbers of the text, piece by piece. */
module JsonNumbers {
  import opened Options
  import opened Bytes
  import opened Decimal
  import opened JsonLayout

  /** An exponent: its letter, its sign or none, its digits. */
  datatype Exponent = Exponent(letter: Byte, sign: ByteString, digits: ByteString)

  datatype Number = Number(
    negative: bool, whole: ByteString, fraction: Option<ByteString>, exponent: Option<Exponent>)

  /** At least one digit in front of the exponent, a minus sign or a digit to start with, and digits behind the
    * letter of the exponent. Digits may be missing on one side of the point. */
  predicate IsNumber(n: Number) {
    && AllDigits(n.whole) && (n.negative || n.whole != [])
    && (n.fraction.Some? ==> AllDigits(n.fraction.value))
    && (n.whole != [] || (n.fraction.Some? && n.fraction.value != []))
    && (n.exponent.Some? ==> IsExponent(n.exponent.value))
  }

  predicate IsExponent(e: Exponent) {
    && (e.letter == 'e' as int || e.letter == 'E' as int)
    && (e.sign == [] || e.sign == Ascii("+") || e.sign == Ascii("-"))
    && e.digits != [] && AllDigits(e.digits)
  }

  function Sign(n: Number): ByteString {
    if n.negative then Ascii("-") else []
  }

  function FractionText(f: Option<ByteString>): ByteString {
    if f.Some? then Ascii(".") + f.value else []
  }

  function ExponentText(e: Option<Exponent>): ByteString {
    if e.Some? then [e.value.letter] + e.value.sign + e.value.digits else []
  }

  function NumberText(n: Number): ByteString {
    Sign(n) + n.whole + FractionText(n.fraction) + ExponentText(n.exponent)
  }

  function Ten(k: nat): real {
    Power10(k) as real
  }

  function Magnitude(n: Number): real
    requires IsNumber(n)
  {
    Places(n.whole) as real
    + (if n.fraction.Some? then Places(n.fraction.value) as real / Ten(|n.fraction.value|) else 0.0)
  }

  /** What the number is worth, exactly. */
  function NumberValue(n: Number): real
    requires IsNumber(n)
  {
    var x := if n.negative then -Magnitude(n) else Magnitude(n);
    match n.exponent
    case None => x
    case Some(e) => if e.sign == Ascii("-") then x / Ten(Places(e.digits)) else x * Ten(Places(e.digits))
  }

  // ---- Values ----

  lemma {:induction false} DigitsValueIs(t: ByteString, i: nat, j: nat)
    requires i <= j <= |t| && forall k :: i <= k < j ==> IsDigit(t[k])
    ensures AllDigits(t[i..j]) && DigitsValue(t, i, j) == Places(t[i..j])
    decreases j
  {
    assert forall k :: 0 <= k < j - i ==> t[i..j][k] == t[i + k];
    if i < j {
      DigitsValueIs(t, i, j - 1);
      PlacesAppend(t[i..j - 1], DigitValue(t[j - 1]));
      assert t[i..j] == t[i..j - 1] + [t[j - 1]];
    }
  }

  lemma {:induction false} ScaleUp(x: real, k: nat)
    ensures Scale10(x, k) == x * Ten(k)
    decreases k
  {
    if k > 0 {
      ScaleUp(x * 10.0, k - 1);
      Product(x, 10.0, Ten(k - 1));
      assert Ten(k) == 10.0 * Ten(k - 1);
    }
  }

  lemma {:induction false} ScaleDown(x: real, k: nat)
    ensures Scale10(x, 0 - (k as int)) == x / Ten(k)
    decreases k
  {
    if k > 0 {
      ScaleDown(x / 10.0, k - 1);
      Quotient(x, 10.0, Ten(k - 1));
      assert Ten(k) == 10.0 * Ten(k - 1);
    }
  }

  lemma Product(x: real, a: real, b: real)
    ensures (x * a) * b == x * (a * b)
  {
  }

  lemma Quotient(x: real, a: real, b: real)
    requires a > 0.0 && b > 0.0
    ensures a * b > 0.0 && (x / a) / b == x / (a * b)
  {
    var q := (x / a) / b;
    assert q * b == x / a;
    assert (x / a) * a == x;
    Product(q, b, a);
    assert b * a == a * b;
    assert q * (a * b) == x;
  }

  // ---- `strtod` reads whole numbers ----

  /** Where the pieces of a number end. */
  lemma TextEnds(n: Number)
    ensures var t, a := NumberText(n), |Sign(n)|;
      var w := a + |n.whole|;
      var f := w + |FractionText(n.fraction)|;
      && |t| == f + |ExponentText(n.exponent)|
      && t[..a] == Sign(n) && t[a..w] == n.whole && t[w..f] == FractionText(n.fraction)
      && t[f..] == ExponentText(n.exponent)
  {
  }

  lemma DigitsAt(t: ByteString, i: nat, j: nat)
    requires i <= j <= |t| && AllDigits(t[i..j])
    ensures forall k :: i <= k < j ==> IsDigit(t[k])
  {
    assert forall k :: i <= k < j ==> t[k] == t[i..j][k - i];
  }

  /** What stands behind each piece. */
  lemma NextBytes(n: Number)
    requires IsNumber(n)
    ensures var t, a := NumberText(n), |Sign(n)|;
      var w := a + |n.whole|;
      var f := w + |FractionText(n.fraction)|;
      && (n.negative ==> t[0] == '-' as int) && (!n.negative ==> '0' as int <= t[0] <= '9' as int)
      && (n.fraction.Some? ==> w < |t| && t[w] == '.' as int)
      && (n.fraction.None? ==> w == f)
      && (n.exponent.Some? ==> f < |t| && t[f] == n.exponent.value.letter)
      && (n.exponent.None? ==> f == |t|)
  {
    var t, a := NumberText(n), |Sign(n)|;
    var w := a + |n.whole|;
    var f := w + |FractionText(n.fraction)|;
    TextEnds(n);
    if n.negative {
      assert t[0] == t[..a][0];
    } else {
      assert t[0] == t[a..w][0];
    }
    if n.fraction.Some? {
      assert t[w] == t[w..f][0];
    }
    if n.exponent.Some? {
      assert t[f] == t[f..][0];
    }
  }

  /** The part in front of the exponent. */
  lemma StrtodFront(n: Number)
    requires IsNumber(n)
    ensures var t, a := NumberText(n), |Sign(n)|;
      var w := a + |n.whole|;
      var f := w + |FractionText(n.fraction)|;
      && f <= |t| && SkipSign(t, 0) == a && DigitRun(t, a) == w
      && (w < |t| && t[w] == DOT <==> n.fraction.Some?)
      && (n.fraction.Some? ==> w < f && DigitRun(t, w + 1) == f)
      && (n.fraction.None? ==> w == f)
  {
    hide NumberText, AllDigits;
    var t, a := NumberText(n), |Sign(n)|;
    var w := a + |n.whole|;
    var f := w + |FractionText(n.fraction)|;
    TextEnds(n);
    NextBytes(n);
    DigitsAt(t, a, w);
    DigitRunIs(t, a, w);
    if n.fraction.Some? {
      assert t[w..f][1..] == n.fraction.value && t[w..f][1..] == t[w + 1..f];
      DigitsAt(t, w + 1, f);
      DigitRunIs(t, w + 1, f);
    }
  }

  /** What is read of the part in front of the exponent. */
  lemma MagnitudeIs(n: Number)
    requires IsNumber(n)
    ensures var t, a := NumberText(n), |Sign(n)|;
      var w := a + |n.whole|;
      var f := w + |FractionText(n.fraction)|;
      && (forall k :: a <= k < w ==> IsDigit(t[k])) && DigitsValue(t, a, w) == Places(n.whole)
      && (n.fraction.Some? ==>
            && w < f <= |t| && (forall k :: w + 1 <= k < f ==> IsDigit(t[k]))
            && Scale10(DigitsValue(t, w + 1, f) as real, 0 - (f - (w + 1)))
               == Places(n.fraction.value) as real / Ten(|n.fraction.value|))
  {
    hide NumberText, AllDigits, DigitsValue, Places, Scale10, Ten;
    var t, a := NumberText(n), |Sign(n)|;
    var w := a + |n.whole|;
    var f := w + |FractionText(n.fraction)|;
    TextEnds(n);
    DigitsAt(t, a, w);
    DigitsValueIs(t, a, w);
    if n.fraction.Some? {
      BehindPoint(t, w, f, n.fraction.value);
      DigitsAt(t, w + 1, f);
      DigitsValueIs(t, w + 1, f);
      ScaleDown(DigitsValue(t, w + 1, f) as real, f - (w + 1));
    }
  }

  lemma BehindPoint(t: ByteString, w: nat, f: nat, fraction: ByteString)
    requires w <= f <= |t| && t[w..f] == Ascii(".") + fraction
    ensures w < f && t[w + 1..f] == fraction
  {
    assert t[w + 1..f] == t[w..f][1..];
  }

  /** The exponent. */
  lemma ExponentIs(n: Number)
    requires IsNumber(n) && n.exponent.Some?
    ensures var t, e := NumberText(n), n.exponent.value;
      var f := |t| - |ExponentText(n.exponent)|;
      var d := f + 1 + |e.sign|;
      && 0 <= f && d < |t| && t[f] == e.letter && SkipSign(t, f + 1) == d && DigitRun(t, d) == |t|
      && (forall k :: d <= k < |t| ==> IsDigit(t[k])) && DigitsValue(t, d, |t|) == Places(e.digits)
      && (t[f + 1] == MINUS <==> e.sign == Ascii("-"))
  {
    hide NumberText, AllDigits, DigitRun, DigitsValue, Places;
    var t, e := NumberText(n), n.exponent.value;
    var d := |t| - |e.digits|;
    TextEnds(n);
    ExponentBytes(t, |t| - |ExponentText(n.exponent)|, e);
    DigitsAt(t, d, |t|);
    DigitRunIs(t, d, |t|);
    DigitsValueIs(t, d, |t|);
  }

  lemma ExponentBytes(t: ByteString, f: nat, e: Exponent)
    requires IsExponent(e) && f <= |t| && t[f..] == [e.letter] + e.sign + e.digits
    ensures var d := f + 1 + |e.sign|;
      && d < |t| && t[f] == e.letter && t[d..|t|] == e.digits && SkipSign(t, f + 1) == d
      && (t[f + 1] == MINUS <==> e.sign == Ascii("-"))
  {
    var tail := t[f..];
    assert t[f] == tail[0] && t[f + 1] == tail[1];
    assert t[f + 1 + |e.sign|..|t|] == tail[1 + |e.sign|..];
    assert tail[1 + |e.sign|..] == e.digits;
    assert tail[1] == if e.sign == [] then e.digits[0] else e.sign[0];
  }

  /** What `strtod` makes of the pieces. */
  lemma StrtodOfPieces(t: ByteString, a: nat, w: nat, f: nat, d: nat)
    requires t != [] && SkipSign(t, 0) == a <= w == DigitRun(t, a) <= f <= |t| && (a < w || w + 1 < f)
    requires if w < |t| && t[w] == DOT then w < f == DigitRun(t, w + 1) else w == f
    requires f < |t| ==> (t[f] == LOWER_E || t[f] == UPPER_E) && f < SkipSign(t, f + 1) == d < DigitRun(t, d) == |t|
    ensures var size := FrontValue(t, a, w, f);
      var x := if t[0] == MINUS then -size else size;
      Strtod(t) == if f == |t| then Converted(x, f) else Converted(Scaled(x, t, f, d), |t|)
  {
    hide SkipSign, DigitRun, DigitsValue, Scale10;
  }

  function FrontValue(t: ByteString, a: nat, w: nat, f: nat): real
    requires a <= w <= f <= |t| && (forall k :: a <= k < w ==> IsDigit(t[k]))
    requires w < f ==> forall k :: w + 1 <= k < f ==> IsDigit(t[k])
  {
    DigitsValue(t, a, w) as real
    + (if w < f then Scale10(DigitsValue(t, w + 1, f) as real, 0 - (f - (w + 1))) else 0.0)
  }

  function Scaled(x: real, t: ByteString, f: nat, d: nat): real
    requires f + 1 < |t| && d <= |t| && forall k :: d <= k < |t| ==> IsDigit(t[k])
  {
    var e: int := DigitsValue(t, d, |t|);
    Scale10(x, if t[f + 1] == MINUS then -e else e)
  }

  /** The part in front of the exponent is worth its magnitude. */
  lemma FrontIs(n: Number)
    requires IsNumber(n)
    ensures var t, a := NumberText(n), |Sign(n)|;
      var w := a + |n.whole|;
      var f := w + |FractionText(n.fraction)|;
      && f <= |t| && (forall k :: a <= k < w ==> IsDigit(t[k])) && (forall k :: w + 1 <= k < f ==> IsDigit(t[k]))
      && FrontValue(t, a, w, f) == Magnitude(n)
  {
    hide NumberText, DigitsValue, Places, Scale10, IsDigit, AllDigits, Ten;
    TextEnds(n);
    MagnitudeIs(n);
  }

  /** And the exponent scales it. */
  lemma ScaledIs(n: Number, x: real)
    requires IsNumber(n) && n.exponent.Some?
    ensures var t, e := NumberText(n), n.exponent.value;
      var f := |t| - |ExponentText(n.exponent)|;
      var d := f + 1 + |e.sign|;
      && 0 <= f && d < |t| && (forall k :: d <= k < |t| ==> IsDigit(t[k]))
      && Scaled(x, t, f, d) == if e.sign == Ascii("-") then x / Ten(Places(e.digits)) else x * Ten(Places(e.digits))
  {
    hide NumberText, SkipSign, DigitRun, DigitsValue, Places, Scale10, IsDigit, AllDigits, Ten;
    ExponentIs(n);
    ScaleUp(x, Places(n.exponent.value.digits));
    ScaleDown(x, Places(n.exponent.value.digits));
  }

  /** A number on its own is read whole, and for what it is worth. */
  lemma StrtodOfNumber(n: Number)
    requires IsNumber(n)
    ensures Strtod(NumberText(n)) == Converted(NumberValue(n), |NumberText(n)|)
  {
    hide NumberText, SkipSign, DigitRun, DigitsValue, Places, Scale10, IsDigit, AllDigits, Ten, Strtod;
    hide FrontValue, Scaled, Magnitude;
    var t, a := NumberText(n), |Sign(n)|;
    var w := a + |n.whole|;
    var f := w + |FractionText(n.fraction)|;
    TextEnds(n);
    NextBytes(n);
    StrtodFront(n);
    FrontIs(n);
    if n.exponent.None? {
      StrtodOfPieces(t, a, w, f, 0);
    } else {
      ExponentIs(n);
      StrtodOfPieces(t, a, w, f, f + 1 + |n.exponent.value.sign|);
      ScaledIs(n, if n.negative then -Magnitude(n) else Magnitude(n));
    }
  }

  // ---- And nothing else ----

  /** What `strtod` takes for the part in front of the exponent. */
  lemma FrontOf(t: ByteString, a: nat, w: nat, f: nat) returns (n: Number)
    requires t != [] && (t[0] == MINUS || IsDigit(t[0]))
    requires a == SkipSign(t, 0) && w == DigitRun(t, a)
    requires f == if w < |t| && t[w] == DOT then DigitRun(t, w + 1) else w
    requires a < w || w + 1 < f
    ensures IsNumber(n) && n.exponent.None? && NumberText(n) == t[..f] && n.negative == (t[0] == MINUS)
    ensures Magnitude(n) == DigitsValue(t, a, w) as real
      + (if w < |t| && t[w] == DOT then Scale10(DigitsValue(t, w + 1, f) as real, 0 - ((f - (w + 1)) as int)) else 0.0)
  {
    hide DigitRun, DigitsValue, Scale10, Places;
    var fraction := if w < |t| && t[w] == DOT then Some(t[w + 1..f]) else None;
    n := Number(t[0] == MINUS, t[a..w], fraction, None);
    DigitsValueIs(t, a, w);
    if fraction.Some? {
      DigitsValueIs(t, w + 1, f);
      ScaleDown(DigitsValue(t, w + 1, f) as real, f - (w + 1));
      assert t[..f] == t[..a] + t[a..w] + ([t[w]] + t[w + 1..f]);
    } else {
      assert t[..f] == t[..a] + t[a..w];
    }
    assert t[..a] == Sign(n);
  }

  /** Whatever `strtod` reads from something that starts like a number is a number, with that value. */
  lemma NumberOf(t: ByteString) returns (n: Number)
    requires t != [] && (t[0] == MINUS || IsDigit(t[0])) && Strtod(t).Converted?
    ensures IsNumber(n) && NumberText(n) == t[..Strtod(t).used] && NumberValue(n) == Strtod(t).value
  {
    hide NumberText, SkipSign, DigitRun, DigitsValue, Places, Scale10, Magnitude, Power10;
    var a := SkipSign(t, 0);
    var w := DigitRun(t, a);
    var f := if w < |t| && t[w] == DOT then DigitRun(t, w + 1) else w;
    n := FrontOf(t, a, w, f);
    if f < |t| && (t[f] == LOWER_E || t[f] == UPPER_E) {
      var d := SkipSign(t, f + 1);
      var end := DigitRun(t, d);
      if d < end {
        n := WithExponent(t, n, f, d, end);
      }
    }
  }

  lemma WithExponent(t: ByteString, n: Number, f: nat, d: nat, end: nat) returns (m: Number)
    requires IsNumber(n) && n.exponent.None? && f < |t| && NumberText(n) == t[..f]
    requires (t[f] == LOWER_E || t[f] == UPPER_E) && d == SkipSign(t, f + 1) < end == DigitRun(t, d)
    ensures IsNumber(m) && NumberText(m) == t[..end] && Magnitude(m) == Magnitude(n) && m.negative == n.negative
    ensures var x := if n.negative then -Magnitude(n) else Magnitude(n);
      var k: int := DigitsValue(t, d, end);
      NumberValue(m) == Scale10(x, if t[f + 1] == MINUS then -k else k)
  {
    hide DigitRun, DigitsValue, Scale10, Places, Magnitude, Power10, IsNumber, NumberText, Ten;
    var e := Exponent(t[f], t[f + 1..d], t[d..end]);
    m := n.(exponent := Some(e));
    DigitsValueIs(t, d, end);
    SignIs(t, f, d);
    MoreText(t, n, e, f, d, end);
    SameMagnitude(m, n);
    var x := if n.negative then -Magnitude(n) else Magnitude(n);
    ScaleUp(x, Places(e.digits));
    ScaleDown(x, Places(e.digits));
  }

  lemma MoreText(t: ByteString, n: Number, e: Exponent, f: nat, d: nat, end: nat)
    requires IsNumber(n) && n.exponent.None? && f < |t| && NumberText(n) == t[..f]
    requires f < d <= end <= |t| && e == Exponent(t[f], t[f + 1..d], t[d..end]) && IsExponent(e)
    ensures IsNumber(n.(exponent := Some(e))) && NumberText(n.(exponent := Some(e))) == t[..end]
  {
    assert t[..end] == t[..f] + ([t[f]] + t[f + 1..d] + t[d..end]);
  }

  lemma SameMagnitude(m: Number, n: Number)
    requires IsNumber(m) && IsNumber(n) && m.whole == n.whole && m.fraction == n.fraction
    ensures Magnitude(m) == Magnitude(n)
  {
  }

  lemma SignIs(t: ByteString, f: nat, d: nat)
    requires f + 1 < |t| && d == SkipSign(t, f + 1)
    ensures t[f + 1..d] == [] || t[f + 1..d] == Ascii("+") || t[f + 1..d] == Ascii("-")
    ensures t[f + 1..d] == Ascii("-") <==> t[f + 1] == MINUS
  {
    assert d == f + 1 ==> t[f + 1..d] == [];
    assert d == f + 2 ==> t[f + 1..d] == [t[f + 1]];
    assert t[f + 1] == MINUS ==> t[f + 1..d] == Ascii("-");
    assert t[f + 1] == PLUS ==> t[f + 1..d] == Ascii("+");
    assert Ascii("-")[0] == MINUS;
  }
}
