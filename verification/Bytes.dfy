/** Bytes, NUL-terminated strings and the character codes that the JSON text uses. */
module Bytes {
  type Byte = b: int | 0 <= b < 256

  type ByteString = seq<Byte>

  const NUL: Byte := 0x00
  const BACKSPACE: Byte := 0x08
  const TAB: Byte := 0x09
  const NEWLINE: Byte := 0x0A
  const FORM_FEED: Byte := 0x0C
  const RETURN: Byte := 0x0D
  const SPACE: Byte := 0x20
  const QUOTE: Byte := 0x22
  const PLUS: Byte := 0x2B
  const COMMA: Byte := 0x2C
  const MINUS: Byte := 0x2D
  const DOT: Byte := 0x2E
  const SLASH: Byte := 0x2F
  const ZERO: Byte := 0x30
  const NINE: Byte := 0x39
  const COLON: Byte := 0x3A
  const UPPER_E: Byte := 0x45
  const LBRACKET: Byte := 0x5B
  const BACKSLASH: Byte := 0x5C
  const RBRACKET: Byte := 0x5D
  const LOWER_B: Byte := 0x62
  const LOWER_E: Byte := 0x65
  const LOWER_F: Byte := 0x66
  const LOWER_N: Byte := 0x6E
  const LOWER_R: Byte := 0x72
  const LOWER_T: Byte := 0x74
  const LOWER_U: Byte := 0x75
  const LBRACE: Byte := 0x7B
  const RBRACE: Byte := 0x7D

  /** The bytes of a literal. */
  function Ascii(s: string): (r: ByteString)
    requires forall i :: 0 <= i < |s| ==> s[i] < 128 as char
    ensures |r| == |s| && forall i :: 0 <= i < |s| ==> r[i] == s[i] as int
  {
    seq(|s|, i requires 0 <= i < |s| => s[i] as int)
  }

  /** `text` stands in `c` at position `off`. */
  predicate At(c: ByteString, off: int, text: ByteString) {
    0 <= off <= off + |text| <= |c| && c[off..off + |text|] == text
  }

  /** A text that is a concatenation stands piece by piece. */
  lemma AtSplit(c: ByteString, off: int, a: ByteString, b: ByteString)
    requires At(c, off, a + b)
    ensures At(c, off, a) && At(c, off + |a|, b)
  {
    var whole := c[off..off + |a + b|];
    assert whole[..|a|] == a && whole[|a|..] == b;
  }

  lemma AtByte(c: ByteString, off: int, text: ByteString, i: nat)
    requires At(c, off, text) && i < |text|
    ensures off + i < |c| && c[off + i] == text[i]
  {
    assert c[off..off + |text|][i] == text[i];
  }

  predicate NulFree(s: ByteString) {
    forall i :: 0 <= i < |s| ==> s[i] != NUL
  }

  /** What a C caller sees of `s`: the bytes before the first NUL. */
  function CString(s: ByteString): (r: ByteString)
    ensures NulFree(r) && r <= s
    ensures |r| < |s| ==> s[|r|] == NUL
  {
    if s == [] || s[0] == NUL then [] else [s[0]] + CString(s[1..])
  }

  lemma {:induction false} CStringOfNulFree(s: ByteString)
    requires NulFree(s)
    ensures CString(s) == s
  {
    if s != [] {
      CStringOfNulFree(s[1..]);
    }
  }

  lemma {:induction false} CStringStops(s: ByteString, n: nat)
    requires n < |s| && s[n] == NUL
    ensures CString(s) == CString(s[..n])
  {
    if n > 0 && s[0] != NUL {
      CStringStops(s[1..], n - 1);
      assert s[..n][1..] == s[1..][..n - 1];
    }
  }
}
