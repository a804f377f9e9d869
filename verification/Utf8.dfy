/** `\uXXXX` escapes and the UTF-8 bytes they stand for. */
module Utf8 {
  import opened Options
  import opened Bytes
  import opened Bits

  // ---- UTF-8 as section 3 of RFC 3629 defines it ----

  ghost predicate IsScalar(cp: int) {
    0 <= cp <= 0x10FFFF && !(0xD800 <= cp <= 0xDFFF)
  }

  function Encode(cp: nat): ByteString
    requires cp <= 0x10FFFF
  {
    if cp < 0x80 then [cp]
    else if cp < 0x800 then [0xC0 + cp / 64, Trail(cp)]
    else if cp < 0x10000 then [0xE0 + cp / 4096, Trail(cp / 64), Trail(cp)]
    else [0xF0 + cp / 262144, Trail(cp / 4096), Trail(cp / 64), Trail(cp)]
  }

  predicate IsTrail(b: Byte) {
    0x80 <= b <= 0xBF
  }

  function Trail(x: nat): (b: Byte)
    ensures IsTrail(b)
  {
    0x80 + x % 64
  }

  /** The scalar value at the start of `s` and how many bytes it takes; None unless the bytes are
    * the shortest form of a scalar value. */
  function Decode(s: ByteString): Option<(nat, nat)> {
    if |s| >= 1 && s[0] < 0x80 then Some((s[0], 1))
    else if |s| >= 2 && 0xC2 <= s[0] <= 0xDF && IsTrail(s[1]) then
      Some((Append6(s[0] - 0xC0, s[1]), 2))
    else if |s| >= 3 && 0xE0 <= s[0] <= 0xEF && IsTrail(s[1]) && IsTrail(s[2]) then
      var cp := Append6(Append6(s[0] - 0xE0, s[1]), s[2]);
      if cp < 0x800 || 0xD800 <= cp <= 0xDFFF then None else Some((cp, 3))
    else if |s| >= 4 && 0xF0 <= s[0] <= 0xF4 && IsTrail(s[1]) && IsTrail(s[2]) && IsTrail(s[3]) then
      var cp := Append6(Append6(Append6(s[0] - 0xF0, s[1]), s[2]), s[3]);
      if cp < 0x10000 || 0x10FFFF < cp then None else Some((cp, 4))
    else None
  }

  function Append6(x: nat, trail: Byte): (y: nat)
    requires IsTrail(trail)
    ensures y / 64 == x && Trail(y) == trail
  {
    x * 64 + (trail - 0x80)
  }

  lemma Rejoin(x: nat)
    ensures Append6(x / 64, Trail(x)) == x
  {
  }

  lemma DivideTwice(x: nat)
    ensures x / 64 / 64 == x / 4096 && x / 4096 / 64 == x / 262144
  {
  }

  /** Decoding undoes encoding for every scalar value, whatever follows. */
  lemma DecodeEncode(cp: nat, rest: ByteString)
    requires IsScalar(cp)
    ensures Decode(Encode(cp) + rest) == Some((cp, |Encode(cp)|))
  {
    hide Append6, Trail;
    var s := Encode(cp) + rest;
    DivideTwice(cp);
    LeadRange(cp);
    Rejoin(cp);
    Rejoin(cp / 64);
    Rejoin(cp / 4096);
    if 0x80 <= cp < 0x800 {
      assert s[0] == 0xC0 + cp / 64 && s[1] == Trail(cp);
    } else if 0x800 <= cp < 0x10000 {
      assert s[0] == 0xE0 + cp / 4096 && s[1] == Trail(cp / 64) && s[2] == Trail(cp);
    } else if 0x10000 <= cp {
      assert s[0] == 0xF0 + cp / 262144 && s[1] == Trail(cp / 4096) && s[2] == Trail(cp / 64) && s[3] == Trail(cp);
    }
  }

  lemma LeadRange(cp: nat)
    ensures 0x80 <= cp < 0x800 ==> 2 <= cp / 64 < 32
    ensures 0x800 <= cp < 0x10000 ==> cp / 4096 < 16
    ensures 0x10000 <= cp <= 0x10FFFF ==> cp / 262144 <= 4
  {
  }

  /** And only the encoding of a scalar value decodes. */
  lemma EncodeDecode(s: ByteString)
    requires Decode(s).Some?
    ensures var (cp, n) := Decode(s).value;
      IsScalar(cp) && n == |Encode(cp)| <= |s| && s[..n] == Encode(cp)
  {
    hide Append6, Trail;
    var (cp, n) := Decode(s).value;
    if n == 1 {
      assert s[..1] == [s[0]];
    } else if n == 2 {
      AppendedRange(s[0] - 0xC0, s[1]);
      assert s[..2] == [s[0], s[1]];
    } else if n == 3 {
      AppendedRange(Append6(s[0] - 0xE0, s[1]), s[2]);
      EncodeOfAppended(s[0] - 0xE0, s[1], s[2]);
      assert s[..3] == [s[0], s[1], s[2]];
    } else {
      var x := Append6(s[0] - 0xF0, s[1]);
      EncodeOfAppended(x, s[2], s[3]);
      assert s[..4] == [s[0], s[1], s[2], s[3]];
    }
  }

  lemma AppendedRange(x: nat, trail: Byte)
    requires IsTrail(trail)
    ensures 64 * x <= Append6(x, trail) <= 64 * x + 63
  {
  }

  lemma EncodeOfAppended(x: nat, b: Byte, a: Byte)
    requires IsTrail(b) && IsTrail(a)
    ensures var cp := Append6(Append6(x, b), a);
      && cp / 4096 == x && cp / 262144 == x / 64 && Trail(cp / 64) == b && Trail(cp) == a
      && 4096 * x <= cp <= 4096 * x + 4095
  {
    DivideTwice(Append6(Append6(x, b), a));
  }

  // ---- The escape sequences of a JSON string ----

  predicate IsHex(b: Byte) {
    ZERO <= b <= NINE || 0x41 <= b <= 0x46 || 0x61 <= b <= 0x66
  }

  function HexDigit(b: Byte): (d: nat)
    requires IsHex(b)
    ensures d < 16
  {
    var code: int := b;
    if code <= 0x39 then code - 0x30 else if code <= 0x46 then 10 + code - 0x41 else 10 + code - 0x61
  }

  /** The value of four hexadecimal digits, and 0 when one of them is not a digit. */
  function Hex4(c: ByteString, p: nat): (h: nat)
    requires p + 4 <= |c|
    ensures h < 0x10000
  {
    if IsHex(c[p]) && IsHex(c[p + 1]) && IsHex(c[p + 2]) && IsHex(c[p + 3]) then
      HexDigit(c[p]) * 4096 + HexDigit(c[p + 1]) * 256 + HexDigit(c[p + 2]) * 16 + HexDigit(c[p + 3])
    else 0
  }

  datatype Literal = BadLiteral | Literal(codepoint: nat, length: nat)

  /** The escape that starts at `p` (its backslash) and must end by `e`: one unit, or the two units
    * of a surrogate pair combined as in section 7 of RFC 8259. */
  function ReadLiteral(c: ByteString, p: nat, e: nat): (r: Literal)
    requires p <= e <= |c|
    ensures r.Literal? ==> IsScalar(r.codepoint) && r.length in {6, 12} && p + r.length <= e
    ensures r.Literal? && r.length == 12 ==> r.codepoint >= 0x10000
  {
    if e - p < 6 then BadLiteral
    else
      var first := Hex4(c, p + 2);
      if 0xDC00 <= first <= 0xDFFF then BadLiteral
      else if 0xD800 <= first <= 0xDBFF then
        if e - (p + 6) < 6 || c[p + 6] != BACKSLASH || c[p + 7] != LOWER_U then BadLiteral
        else
          var second := Hex4(c, p + 8);
          if 0xDC00 <= second <= 0xDFFF then
            Literal(0x10000 + (first - 0xD800) * 1024 + (second - 0xDC00), 12)
          else BadLiteral
      else Literal(first, 6)
  }

  /** The nibbles are shifted in one by one; an invalid digit makes the whole value 0. */
  method ParseHex4(c: ByteString, p: nat) returns (h: nat)
    requires p + 4 <= |c|
    ensures h == Hex4(c, p)
  {
    h := 0;
    var i := 0;
    while i < 4
      invariant 0 <= i <= 4
      invariant i > 0 ==> IsHex(c[p])
      invariant i > 1 ==> IsHex(c[p + 1])
      invariant i > 2 ==> IsHex(c[p + 2])
      invariant i == 0 ==> h == 0
      invariant i == 1 ==> h == HexDigit(c[p]) * 16
      invariant i == 2 ==> h == HexDigit(c[p]) * 256 + HexDigit(c[p + 1]) * 16
      invariant i == 3 ==> h == HexDigit(c[p]) * 4096 + HexDigit(c[p + 1]) * 256 + HexDigit(c[p + 2]) * 16
      invariant i == 4 ==> h == Hex4(c, p)
    {
      var digit: int := c[p + i];
      if 0x30 <= digit <= 0x39 {
        h := h + digit - 0x30;
      } else if 0x41 <= digit <= 0x46 {
        h := h + 10 + digit - 0x41;
      } else if 0x61 <= digit <= 0x66 {
        h := h + 10 + digit - 0x61;
      } else {
        return 0;
      }
      if i < 3 {
        h := h * 16;
      }
      i := i + 1;
    }
  }

  lemma CombineSurrogates(first: nat, second: nat)
    requires 0xD800 <= first <= 0xDBFF && 0xDC00 <= second <= 0xDFFF
    ensures Or(And(first, 0x3FF) * 1024, And(second, 0x3FF)) == (first - 0xD800) * 1024 + (second - 0xDC00)
  {
    assert first % 1024 == first - 0xD800;
    assert second % 1024 == second - 0xDC00;
    Mask10(first);
    Mask10(second);
    Join10(first - 0xD800, second - 0xDC00);
  }

  /** The first byte of a sequence of `n` bytes: the mark and the bits left over. */
  lemma LeadByte(x: nat, n: nat)
    requires 2 <= n <= 4 && (n == 2 ==> x < 32) && (n == 3 ==> x < 16) && (n == 4 ==> x < 8)
    ensures And(Or(x, FirstByteMark(n)), 0xFF) == FirstByteMark(n) + x
  {
    if n == 2 {
      Lead2(x);
    } else if n == 3 {
      Lead3(x);
    } else {
      Lead4(x);
    }
  }

  function FirstByteMark(n: nat): Byte {
    if n == 2 then 0xC0 else if n == 3 then 0xE0 else if n == 4 then 0xF0 else 0
  }

  /** Writes the UTF-8 bytes of the escape at `p` into `output` at `o`, last byte first. */
  method Utf16LiteralToUtf8(c: ByteString, p: nat, e: nat, output: array<Byte>, o: nat)
    returns (sequenceLength: nat, o': nat)
    requires p <= e <= |c|
    requires ReadLiteral(c, p, e).Literal? ==> o + |Encode(ReadLiteral(c, p, e).codepoint)| <= output.Length
    requires o <= output.Length
    modifies output
    ensures ReadLiteral(c, p, e).BadLiteral? ==> sequenceLength == 0 && o' == o
    ensures ReadLiteral(c, p, e).Literal? ==>
      var lit := ReadLiteral(c, p, e);
      sequenceLength == lit.length && o' == o + |Encode(lit.codepoint)| <= output.Length
      && output[..o'] == old(output[..o]) + Encode(lit.codepoint)
  {
    ghost var lit := ReadLiteral(c, p, e);
    if e - p < 6 {
      return 0, o;
    }
    var firstCode := ParseHex4(c, p + 2);
    if 0xDC00 <= firstCode <= 0xDFFF {
      return 0, o;
    }
    var codepoint: nat;
    if 0xD800 <= firstCode <= 0xDBFF {
      var second := p + 6;
      sequenceLength := 12;
      if e - second < 6 {
        return 0, o;
      }
      if c[second] != BACKSLASH || c[second + 1] != LOWER_U {
        return 0, o;
      }
      var secondCode := ParseHex4(c, second + 2);
      if secondCode < 0xDC00 || secondCode > 0xDFFF {
        return 0, o;
      }
      CombineSurrogates(firstCode, secondCode);
      codepoint := 0x10000 + Or(And(firstCode, 0x3FF) * 1024, And(secondCode, 0x3FF));
    } else {
      sequenceLength := 6;
      codepoint := firstCode;
    }
    assert lit == Literal(codepoint, sequenceLength);

    var utf8Length :=
      if codepoint < 0x80 then 1
      else if codepoint < 0x800 then 2
      else if codepoint < 0x10000 then 3
      else 4;
    WriteUtf8(codepoint, utf8Length, output, o);
    o' := o + utf8Length;
  }

  /** `cp` after `n` turns of the loop in WriteUtf8. */
  function ShiftedBy(cp: nat, n: nat): nat {
    if n == 0 then cp else ShiftedBy(cp, n - 1) / 64
  }

  lemma EncodeByPosition(cp: nat, k: nat)
    requires cp <= 0x10FFFF && k < |Encode(cp)|
    ensures var n := |Encode(cp)|;
      var x := ShiftedBy(cp, n - 1 - k);
      Encode(cp)[k] == if k > 0 then Trail(x) else FirstByteMark(n) + x
    ensures var n := |Encode(cp)|;
      k == 0 ==> ShiftedBy(cp, n - 1) < if n == 1 then 128 else if n == 2 then 32 else if n == 3 then 16 else 8
  {
    DivideTwice(cp);
    assert ShiftedBy(cp, 1) == cp / 64;
    assert ShiftedBy(cp, 2) == cp / 4096;
    assert ShiftedBy(cp, 3) == cp / 262144;
  }

  /** The mask-and-shift loop agrees with division by 64. */
  method WriteUtf8(cp: nat, utf8Length: nat, output: array<Byte>, o: nat)
    requires cp <= 0x10FFFF && utf8Length == |Encode(cp)| && o + utf8Length <= output.Length
    modifies output
    ensures output[..o + utf8Length] == old(output[..o]) + Encode(cp)
  {
    var codepoint := cp;
    var position := utf8Length - 1;
    ghost var bytes := Encode(cp);
    while position > 0
      invariant 0 <= position < utf8Length
      invariant codepoint == ShiftedBy(cp, utf8Length - 1 - position)
      invariant forall k :: position < k < utf8Length ==> output[o + k] == bytes[k]
      invariant output[..o] == old(output[..o])
    {
      ContinuationBits(codepoint);
      EncodeByPosition(cp, position);
      output[o + position] := And(Or(codepoint, 0x80), 0xBF);
      codepoint := codepoint / 64;
      position := position - 1;
    }
    EncodeByPosition(cp, 0);
    WriteFirstByte(codepoint, utf8Length, output, o);
    assert output[..o + utf8Length] == output[..o] + output[o..o + utf8Length];
    assert output[o..o + utf8Length] == bytes;
  }

  method WriteFirstByte(codepoint: nat, utf8Length: nat, output: array<Byte>, o: nat)
    requires 1 <= utf8Length <= 4 && o + utf8Length <= output.Length
    requires codepoint < if utf8Length == 1 then 128 else if utf8Length == 2 then 32
                         else if utf8Length == 3 then 16 else 8
    modifies output
    ensures output[o] == FirstByteMark(utf8Length) + codepoint
    ensures forall k :: 0 <= k < output.Length && k != o ==> output[k] == old(output[k])
  {
    hide And, Or;
    if utf8Length > 1 {
      LeadByte(codepoint, utf8Length);
      output[o] := And(Or(codepoint, FirstByteMark(utf8Length)), 0xFF);
    } else {
      Mask7(codepoint);
      output[o] := And(codepoint, 0x7F);
    }
  }
}
