/** The escape sequences of a JSON string, character by character. */
module JsonEscapes {
  import opened Options
  import opened Bytes
  import opened Utf8
  import opened JsonStrings

  // ---- Hexadecimal digits ----

  /** The byte is the digit `d` to the base 16, as a small or a capital letter. */
  predicate IsDigit16(b: Byte, d: nat) {
    d < 16 && if d < 10 then b == '0' as int + d else b == 'a' as int + d - 10 || b == 'A' as int + d - 10
  }

  /** The four bytes at `p` are the digits of `n`. */
  predicate Spells16(c: ByteString, p: nat, n: nat) {
    && p + 4 <= |c| && n < 65536
    && IsDigit16(c[p], n / 4096) && IsDigit16(c[p + 1], n / 256 % 16)
    && IsDigit16(c[p + 2], n / 16 % 16) && IsDigit16(c[p + 3], n % 16)
  }

  lemma DigitIs(b: Byte, d: nat)
    ensures IsHex(b) && HexDigit(b) == d <==> IsDigit16(b, d)
  {
  }

  lemma FourDigits(a: nat, b: nat, c: nat, d: nat)
    requires a < 16 && b < 16 && c < 16 && d < 16
    ensures var n := a * 4096 + b * 256 + c * 16 + d;
      n < 65536 && n / 4096 == a && n / 256 % 16 == b && n / 16 % 16 == c && n % 16 == d
  {
    var two := a * 16 + b;
    var three := two * 16 + c;
    LastDigit(two, c);
    LastDigit(three, d);
    LastDigit(a, b);
    var n := three * 16 + d;
    assert n / 256 == n / 16 / 16 && n / 4096 == n / 256 / 16;
  }

  lemma LastDigit(n: nat, d: nat)
    requires d < 16
    ensures (n * 16 + d) / 16 == n && (n * 16 + d) % 16 == d
  {
  }

  lemma DigitsOf16(n: nat)
    requires n < 65536
    ensures n / 4096 < 16 && n == (n / 4096) * 4096 + (n / 256 % 16) * 256 + (n / 16 % 16) * 16 + n % 16
  {
  }

  /** Four digits have the value they spell, in whatever case each of them is written; anything else counts
    * as 0. */
  lemma Hex4Is(c: ByteString, p: nat)
    requires p + 4 <= |c|
    ensures forall n: nat :: Spells16(c, p, n) ==> Hex4(c, p) == n
    ensures Spells16(c, p, Hex4(c, p)) || (Hex4(c, p) == 0 && forall n: nat :: !Spells16(c, p, n))
  {
    hide HexDigit, IsHex, IsDigit16;
    forall n: nat | Spells16(c, p, n)
      ensures Hex4(c, p) == n
    {
      DigitIs(c[p], n / 4096);
      DigitIs(c[p + 1], n / 256 % 16);
      DigitIs(c[p + 2], n / 16 % 16);
      DigitIs(c[p + 3], n % 16);
      DigitsOf16(n);
    }
    if IsHex(c[p]) && IsHex(c[p + 1]) && IsHex(c[p + 2]) && IsHex(c[p + 3]) {
      FourDigits(HexDigit(c[p]), HexDigit(c[p + 1]), HexDigit(c[p + 2]), HexDigit(c[p + 3]));
      DigitIs(c[p], HexDigit(c[p]));
      DigitIs(c[p + 1], HexDigit(c[p + 1]));
      DigitIs(c[p + 2], HexDigit(c[p + 2]));
      DigitIs(c[p + 3], HexDigit(c[p + 3]));
    }
  }

  // ---- Characters ----

  /** At `p` stands `\u` and the digits of `unit`. */
  predicate SpellsUnit(c: ByteString, p: nat, unit: nat) {
    p + 6 <= |c| && c[p] == '\\' as int && c[p + 1] == 'u' as int && Spells16(c, p + 2, unit)
  }

  /** How many bytes the escape of a character takes. */
  function EscapeLength(cp: nat): nat {
    if cp < 65536 then 6 else 12
  }

  /** At `p` stands the escape of the character `cp`: one unit, or the two surrogates of section 7 of RFC 8259. */
  predicate SpellsCharacter(c: ByteString, p: nat, cp: nat) {
    if cp < 65536 then SpellsUnit(c, p, cp)
    else
      && SpellsUnit(c, p, 0xD800 + (cp - 0x10000) / 1024)
      && SpellsUnit(c, p + 6, 0xDC00 + (cp - 0x10000) % 1024)
  }

  /** The escape of every character, with whatever digits it is written, decodes to bytes that say that
    * character in UTF-8. */
  lemma CharacterDecodes(c: ByteString, p: nat, e: nat, cp: nat)
    requires IsScalar(cp) && SpellsCharacter(c, p, cp) && p + EscapeLength(cp) <= e < |c|
    ensures Unescape(c, p, e).Some?
    ensures var (bytes, length) := Unescape(c, p, e).value;
      length == EscapeLength(cp) && Decode(bytes) == Some((cp, |bytes|))
  {
    hide Spells16, Decode, Encode, Hex4;
    Hex4Is(c, p + 2);
    if cp >= 65536 {
      Hex4Is(c, p + 8);
      SurrogatesOf(cp);
    }
    assert ReadLiteral(c, p, e) == Literal(cp, EscapeLength(cp));
    DecodeEncode(cp, []);
    assert Encode(cp) + [] == Encode(cp);
  }

  lemma SurrogatesOf(cp: nat)
    requires 0x10000 <= cp <= 0x10FFFF
    ensures var high, low := 0xD800 + (cp - 0x10000) / 1024, 0xDC00 + (cp - 0x10000) % 1024;
      && 0xD800 <= high <= 0xDBFF && 0xDC00 <= low <= 0xDFFF
      && 0x10000 + (high - 0xD800) * 1024 + (low - 0xDC00) == cp
  {
  }

  ghost predicate LowSurrogateAt(c: ByteString, p: nat) {
    exists low: nat :: 0xDC00 <= low <= 0xDFFF && SpellsUnit(c, p, low)
  }

  /** A surrogate on its own is refused: a low one, and a high one without an escaped low one behind it. */
  lemma LoneSurrogateFails(c: ByteString, p: nat, e: nat, unit: nat)
    requires p + 6 <= e < |c| && SpellsUnit(c, p, unit) && 0xD800 <= unit <= 0xDFFF
    requires unit <= 0xDBFF ==> e < p + 12 || !LowSurrogateAt(c, p + 6)
    ensures Unescape(c, p, e).None?
  {
    hide Spells16, Hex4;
    Hex4Is(c, p + 2);
    if unit <= 0xDBFF && p + 12 <= e && c[p + 6] == '\\' as int && c[p + 7] == 'u' as int {
      Hex4Is(c, p + 8);
      assert Spells16(c, p + 8, Hex4(c, p + 8)) ==> SpellsUnit(c, p + 6, Hex4(c, p + 8));
    }
  }

  // ---- The other escapes ----

  /** What the letter behind a backslash stands for, if it stands for one byte. */
  function Letter(b: Byte): Option<Byte> {
    if b == '\"' as int || b == '\\' as int || b == '/' as int then Some(b)
    else if b == 'b' as int then Some(8)
    else if b == 'f' as int then Some(12)
    else if b == 'n' as int then Some('\n' as int)
    else if b == 'r' as int then Some('\r' as int)
    else if b == 't' as int then Some('\t' as int)
    else None
  }

  lemma LettersDecode(c: ByteString, p: nat, e: nat)
    requires p < e < |c| && c[p + 1] != 'u' as int
    ensures Unescape(c, p, e) == match Letter(c[p + 1]) case Some(b) => Some(([b], 2)) case None => None
  {
  }

  // ---- UTF-8 ----

  /** The table of section 3 of RFC 3629: which bytes stand for which characters. */
  lemma EncodingTable(cp: nat)
    requires cp <= 0x10FFFF
    ensures var s := Encode(cp);
      if cp <= 0x7F then s == [cp]
      else if cp <= 0x7FF then
        |s| == 2 && 0xC0 <= s[0] <= 0xDF && (s[0] as int - 0xC0) * 64 + (s[1] as int - 0x80) == cp
      else if cp <= 0xFFFF then
        |s| == 3 && 0xE0 <= s[0] <= 0xEF
        && (s[0] as int - 0xE0) * 4096 + (s[1] as int - 0x80) * 64 + (s[2] as int - 0x80) == cp
      else
        |s| == 4 && 0xF0 <= s[0] <= 0xF4
        && (s[0] as int - 0xF0) * 262144 + (s[1] as int - 0x80) * 4096 + (s[2] as int - 0x80) * 64
           + (s[3] as int - 0x80) == cp
    ensures forall k :: 0 < k < |Encode(cp)| ==> 0x80 <= Encode(cp)[k] <= 0xBF
  {
    DivideTwice(cp);
    LeadRange(cp);
  }
}
