/** JSON string literals: what the two passes of the decoder and of the encoder compute. */
module JsonStrings {
  import opened Options
  import opened Bytes
  import opened Utf8

  // ---- Encoding ----

  function LowerHex(d: nat): Byte
    requires d < 16
  {
    if d < 10 then 0x30 + d else 0x61 + d - 10
  }

  /** The letter after the backslash of a two-character escape, or 0 when there is none. */
  function ShortEscape(b: Byte): Byte {
    if b == QUOTE || b == BACKSLASH then b
    else if b == BACKSPACE then LOWER_B
    else if b == FORM_FEED then LOWER_F
    else if b == NEWLINE then LOWER_N
    else if b == RETURN then LOWER_R
    else if b == TAB then LOWER_T
    else 0
  }

  function EscapeByte(b: Byte): ByteString {
    if ShortEscape(b) != 0 then [BACKSLASH, ShortEscape(b)]
    else if b < 32 then [BACKSLASH, LOWER_U, ZERO, ZERO, LowerHex(b / 16), LowerHex(b % 16)]
    else [b]
  }

  function Escape(s: ByteString): ByteString {
    if s == [] then [] else EscapeByte(s[0]) + Escape(s[1..])
  }

  function Quoted(s: ByteString): ByteString {
    [QUOTE] + Escape(s) + [QUOTE]
  }

  lemma {:induction false} EscapeAppend(s: ByteString, b: Byte)
    ensures Escape(s + [b]) == Escape(s) + EscapeByte(b)
  {
    if s == [] {
      assert (s + [b])[1..] == [];
    } else {
      EscapeAppend(s[1..], b);
      assert (s + [b])[1..] == s[1..] + [b];
    }
  }

  lemma {:induction false} EscapeIsNulFree(s: ByteString)
    ensures NulFree(Escape(s))
  {
    if s != [] {
      EscapeIsNulFree(s[1..]);
    }
  }

  lemma {:induction false} EscapeIsNoShorter(s: ByteString)
    ensures |Escape(s)| >= |s|
    ensures |Escape(s)| == |s| ==> Escape(s) == s
  {
    if s != [] {
      EscapeIsNoShorter(s[1..]);
      assert s == [s[0]] + s[1..];
    }
  }

  lemma {:induction false} EscapeOfPrefix(s: ByteString, i: nat)
    requires i <= |s|
    ensures Escape(s[..i]) <= Escape(s)
  {
    if i > 0 {
      EscapeOfPrefix(s[1..], i - 1);
      assert s[..i][1..] == s[1..][..i - 1];
    }
  }

  /** The counting pass: the characters that escaping adds. */
  method CountEscapes(input: ByteString) returns (escapeCharacters: nat)
    requires NulFree(input)
    ensures |input| + escapeCharacters == |Escape(input)|
  {
    escapeCharacters := 0;
    var i := 0;
    while i < |input|
      invariant 0 <= i <= |input|
      invariant i + escapeCharacters == |Escape(input[..i])|
    {
      assert input[..i + 1] == input[..i] + [input[i]];
      EscapeAppend(input[..i], input[i]);
      var b := input[i];
      if b == QUOTE || b == BACKSLASH || b == BACKSPACE || b == FORM_FEED || b == NEWLINE || b == RETURN || b == TAB {
        escapeCharacters := escapeCharacters + 1;
      } else if b < 32 {
        escapeCharacters := escapeCharacters + 5;
      }
      i := i + 1;
    }
    assert input[..|input|] == input;
  }

  // ---- Scanning for the closing quote ----

  function ScanEnd(c: ByteString, i: nat): (r: Option<nat>)
    ensures r.Some? ==> i <= r.value < |c| && c[r.value] == QUOTE
    decreases |c| - i
  {
    if i >= |c| then None
    else if c[i] == QUOTE then Some(i)
    else if c[i] == BACKSLASH then
      if i + 1 >= |c| then None else ScanEnd(c, i + 2)
    else ScanEnd(c, i + 1)
  }

  /** How many characters or escape pairs the scan passes over from `i` up to `e`. */
  function ScanSteps(c: ByteString, i: nat, e: nat): nat
    requires e <= |c|
    decreases |c| - i
  {
    if i >= e then 0
    else if c[i] == BACKSLASH then 1 + ScanSteps(c, i + 2, e)
    else 1 + ScanSteps(c, i + 1, e)
  }

  // ---- Decoding between the quotes ----

  /** The bytes of a literal, or the position of the escape that cannot be decoded. */
  datatype Decoded = Decoded(bytes: ByteString) | BadEscape(at: nat)

  /** One escape sequence: its bytes and its length in the text. */
  function Unescape(c: ByteString, p: nat, e: nat): (r: Option<(ByteString, nat)>)
    requires p < e < |c|
    ensures r.Some? ==> 2 <= r.value.1 <= 12 && (r.value.1 > 2 ==> p + r.value.1 <= e)
  {
    var letter := c[p + 1];
    if letter == LOWER_B then Some(([BACKSPACE], 2))
    else if letter == LOWER_F then Some(([FORM_FEED], 2))
    else if letter == LOWER_N then Some(([NEWLINE], 2))
    else if letter == LOWER_R then Some(([RETURN], 2))
    else if letter == LOWER_T then Some(([TAB], 2))
    else if letter == QUOTE || letter == BACKSLASH || letter == SLASH then Some(([letter], 2))
    else if letter == LOWER_U then
      match ReadLiteral(c, p, e)
      case BadLiteral => None
      case Literal(codepoint, length) => Some((Encode(codepoint), length))
    else None
  }

  function DecodeLiteral(c: ByteString, p: nat, e: nat): Decoded
    requires e < |c|
    decreases |c| - p
  {
    if p >= e then Decoded([])
    else if c[p] != BACKSLASH then Prepend([c[p]], DecodeLiteral(c, p + 1, e))
    else
      match Unescape(c, p, e)
      case None => BadEscape(p)
      case Some((bytes, length)) => Prepend(bytes, DecodeLiteral(c, p + length, e))
  }

  function Prepend(bytes: ByteString, rest: Decoded): Decoded {
    match rest
    case Decoded(more) => Decoded(bytes + more)
    case BadEscape(at) => BadEscape(at)
  }

  lemma PrependTwice(a: ByteString, b: ByteString, rest: Decoded)
    ensures Prepend(a, Prepend(b, rest)) == Prepend(a + b, rest)
  {
    if rest.Decoded? {
      assert a + (b + rest.bytes) == (a + b) + rest.bytes;
    }
  }

  // ---- The size estimate is an upper bound ----

  /** The bytes the decode loop writes from `p`, whether or not it reaches the closing quote. */
  function WrittenFrom(c: ByteString, p: nat, e: nat): nat
    requires e < |c|
    decreases |c| - p
  {
    if p >= e then 0
    else if c[p] != BACKSLASH then 1 + WrittenFrom(c, p + 1, e)
    else
      match Unescape(c, p, e)
      case None => 0
      case Some((bytes, length)) => |bytes| + WrittenFrom(c, p + length, e)
  }

  lemma {:induction false} WrittenIsLength(c: ByteString, p: nat, e: nat)
    requires e < |c| && DecodeLiteral(c, p, e).Decoded?
    ensures |DecodeLiteral(c, p, e).bytes| == WrittenFrom(c, p, e)
    decreases |c| - p
  {
    if p < e {
      if c[p] != BACKSLASH {
        WrittenIsLength(c, p + 1, e);
      } else {
        WrittenIsLength(c, p + Unescape(c, p, e).value.1, e);
      }
    }
  }

  /** Each scan step covers at most two bytes, so four bytes take at least two steps. */
  lemma StepsOverFourBytes(c: ByteString, r: nat, e: nat) returns (q: nat)
    requires r + 4 <= e <= |c|
    ensures r + 4 <= q <= r + 5
    ensures ScanSteps(c, r, e) >= 2 + ScanSteps(c, q, e)
  {
    q := r;
    var steps := 0;
    while q < r + 4
      invariant r <= q <= r + 5 && q <= r + 2 * steps
      invariant ScanSteps(c, r, e) == steps + ScanSteps(c, q, e)
    {
      q := if c[q] == BACKSLASH then q + 2 else q + 1;
      steps := steps + 1;
    }
  }

  lemma StepsOverHex(c: ByteString, r: nat, e: nat)
    requires r + 4 <= e <= |c|
    requires Hex4(c, r) != 0
    ensures ScanSteps(c, r, e) == 4 + ScanSteps(c, r + 4, e)
  {
    assert ScanSteps(c, r + 2, e) == 2 + ScanSteps(c, r + 4, e);
  }

  /** The decode loop may lose step with the scan: an escape with a bad digit swallows four bytes
    * whatever they are. `shift` is 1 while the scan stands one byte ahead. Even so the loop never
    * writes more bytes than the scan made steps, plus one while it lags. */
  lemma {:induction false} WrittenAtMostSteps(c: ByteString, p: nat, shift: nat, e: nat)
    requires e < |c| && shift <= 1
    ensures WrittenFrom(c, p, e) <= ScanSteps(c, p + shift, e) + shift
    decreases |c| - p
  {
    if p < e {
      if c[p] != BACKSLASH {
        WrittenAtMostSteps(c, p + 1, 0, e);
      } else {
        var u := Unescape(c, p, e);
        if u.Some? {
          if u.value.1 == 2 {
            WrittenAtMostSteps(c, p + 2, if shift == 1 && p + 1 < e && c[p + 1] == BACKSLASH then 1 else 0, e);
          } else {
            WrittenByUnicodeEscape(c, p, shift, e);
          }
        }
      }
    }
  }

  lemma {:induction false} WrittenByUnicodeEscape(c: ByteString, p: nat, shift: nat, e: nat)
    requires p < e < |c| && shift <= 1 && c[p] == BACKSLASH
    requires Unescape(c, p, e).Some? && Unescape(c, p, e).value.1 > 2
    ensures WrittenFrom(c, p, e) <= ScanSteps(c, p + shift, e) + shift
    decreases |c| - p, 0
  {
    hide Unescape, Hex4, IsHex;
    var (bytes, length) := Unescape(c, p, e).value;
    UnicodeEscapeShape(c, p, e);
    assert ScanSteps(c, p + shift, e) == 1 + ScanSteps(c, p + 2, e);
    if length == 12 {
      StepsOverHex(c, p + 2, e);
      assert ScanSteps(c, p + 6, e) == 1 + ScanSteps(c, p + 8, e);
      StepsOverHex(c, p + 8, e);
      WrittenAtMostSteps(c, p + 12, 0, e);
    } else if Hex4(c, p + 2) == 0 {
      var q := StepsOverFourBytes(c, p + 2, e);
      WrittenAtMostSteps(c, p + 6, q - (p + 6), e);
    } else {
      StepsOverHex(c, p + 2, e);
      WrittenAtMostSteps(c, p + 6, 0, e);
    }
  }

  lemma UnicodeEscapeShape(c: ByteString, p: nat, e: nat)
    requires p < e < |c| && Unescape(c, p, e).Some? && Unescape(c, p, e).value.1 > 2
    ensures var (bytes, length) := Unescape(c, p, e).value;
      && c[p + 1] == LOWER_U && p + length <= e
      && (length == 6 || length == 12)
      && (length == 6 ==> |bytes| <= if Hex4(c, p + 2) == 0 then 1 else 3)
      && (length == 12 ==> |bytes| == 4 && Hex4(c, p + 2) != 0 && Hex4(c, p + 8) != 0
                           && c[p + 6] == BACKSLASH && c[p + 7] == LOWER_U)
  {
  }

  /** The escape characters that the scan subtracts from the size. */
  function SkippedBytes(c: ByteString, i: nat, e: nat): nat
    requires e <= |c|
    decreases |c| - i
  {
    if i >= e then 0
    else if c[i] == BACKSLASH then 1 + SkippedBytes(c, i + 2, e)
    else SkippedBytes(c, i + 1, e)
  }

  lemma {:induction false} StepsAndSkips(c: ByteString, i: nat, e: nat)
    requires ScanEnd(c, i) == Some(e)
    ensures ScanSteps(c, i, e) + SkippedBytes(c, i, e) == e - i
    decreases |c| - i
  {
    if i < e {
      StepsAndSkips(c, if c[i] == BACKSLASH then i + 2 else i + 1, e);
    }
  }

  /** The allocation for the literal whose opening quote is at `off` holds everything the decode loop
    * writes and the terminator, with a byte to spare, for every input. */
  lemma SizeEstimateSuffices(c: ByteString, off: nat, e: nat)
    requires ScanEnd(c, off + 1) == Some(e)
    ensures var allocationLength := (e - off) - SkippedBytes(c, off + 1, e);
      WrittenFrom(c, off + 1, e) + 1 < allocationLength + 1
  {
    StepsAndSkips(c, off + 1, e);
    WrittenAtMostSteps(c, off + 1, 0, e);
  }

  // ---- Where the two passes agree ----

  /** The scan that stands at `i` stands at `p` some time. */
  ghost predicate ScanVisits(c: ByteString, i: nat, p: nat)
    decreases |c| - i
  {
    i == p || (i < p && i < |c| && ScanVisits(c, if c[i] == BACKSLASH then i + 2 else i + 1, p))
  }

  /** Of the four bytes at `q`, an odd number at the end are backslashes: a scan that stands at `q` takes the
    * last of them together with the byte behind the four. */
  predicate SplitsPair(c: ByteString, q: nat)
    requires q + 4 <= |c|
  {
    c[q + 3] == BACKSLASH && (c[q + 2] != BACKSLASH || (c[q + 1] == BACKSLASH && c[q] != BACKSLASH))
  }

  /** Whether the escape at `p` swallows four bytes of which the scan does not stop behind the last. */
  predicate LosesStep(c: ByteString, p: nat, e: nat)
    requires p < e < |c|
  {
    c[p] == BACKSLASH && Unescape(c, p, e).Some? && Unescape(c, p, e).value.1 == 6 && SplitsPair(c, p + 2)
  }

  /** Where the decode loop goes from `p`. */
  function Next(c: ByteString, p: nat, e: nat): (next: nat)
    requires p < e < |c| && (c[p] == BACKSLASH ==> Unescape(c, p, e).Some?)
    ensures p < next
  {
    if c[p] != BACKSLASH then p + 1 else p + Unescape(c, p, e).value.1
  }

  /** The decode loop goes on from `p`. */
  predicate GoesOn(c: ByteString, p: nat, e: nat)
    requires e < |c|
  {
    p < e && (c[p] == BACKSLASH ==> Unescape(c, p, e).Some?)
  }

  /** Every position the decode loop reaches from `p` is one where the scan from `start` stands. */
  ghost predicate StaysInStep(c: ByteString, start: nat, p: nat, e: nat)
    requires e < |c|
    decreases |c| - p
  {
    ScanVisits(c, start, p) && (GoesOn(c, p, e) ==> StaysInStep(c, start, Next(c, p, e), e))
  }

  /** What can be read off the text: no escape that the decode loop comes to splits a pair. */
  predicate NeverLosesStep(c: ByteString, p: nat, e: nat)
    requires e < |c|
    decreases |c| - p
  {
    GoesOn(c, p, e) ==> !LosesStep(c, p, e) && NeverLosesStep(c, Next(c, p, e), e)
  }

  lemma {:induction false} VisitsOn(c: ByteString, i: nat, p: nat, q: nat)
    requires ScanVisits(c, i, p) && ScanVisits(c, p, q)
    ensures ScanVisits(c, i, q)
    decreases |c| - i
  {
    if i < p {
      VisitsForward(c, p, q);
      VisitsOn(c, if c[i] == BACKSLASH then i + 2 else i + 1, p, q);
    }
  }

  lemma VisitsForward(c: ByteString, p: nat, q: nat)
    requires ScanVisits(c, p, q)
    ensures p <= q
  {
  }

  /** The scan is deterministic: between two of its positions every other one is on the way. */
  lemma {:induction false} VisitsBetween(c: ByteString, i: nat, p: nat, q: nat)
    requires ScanVisits(c, i, p) && ScanVisits(c, i, q) && p <= q
    ensures ScanVisits(c, p, q)
    decreases |c| - i
  {
    if i < p {
      VisitsBetween(c, if c[i] == BACKSLASH then i + 2 else i + 1, p, q);
    }
  }

  /** Over four bytes: the scan stops behind them exactly when they split no pair. */
  lemma ScanOverFour(c: ByteString, q: nat)
    requires q + 4 <= |c|
    ensures ScanVisits(c, q, q + 4) <==> !SplitsPair(c, q)
  {
    assert ScanVisits(c, q + 3, q + 4) <==> c[q + 3] != BACKSLASH;
    assert ScanVisits(c, q + 2, q + 4) <==> c[q + 2] == BACKSLASH || c[q + 3] != BACKSLASH;
    assert ScanVisits(c, q + 1, q + 4)
      <==> if c[q + 1] == BACKSLASH then c[q + 3] != BACKSLASH else ScanVisits(c, q + 2, q + 4);
  }

  /** One step of the decode loop, taken where the scan stands, ends where the scan stands unless it loses
    * step. */
  lemma StepInStep(c: ByteString, p: nat, e: nat)
    requires e < |c| && GoesOn(c, p, e)
    ensures ScanVisits(c, p, Next(c, p, e)) <==> !LosesStep(c, p, e)
  {
    hide SplitsPair, Unescape, Hex4;
    if c[p] == BACKSLASH {
      var length := Unescape(c, p, e).value.1;
      if length > 2 {
        UnicodeEscapeShape(c, p, e);
        ScanOverFour(c, p + 2);
        if length == 12 {
          NoSplitInHex(c, p + 2);
          NoSplitInHex(c, p + 8);
          ScanOverFour(c, p + 8);
          assert ScanVisits(c, p + 6, p + 8);
          VisitsOn(c, p + 2, p + 6, p + 8);
          VisitsOn(c, p + 2, p + 8, p + 12);
        }
      }
    }
  }

  /** Four hexadecimal digits split no pair: well-formed escapes never lose step. */
  lemma NoSplitInHex(c: ByteString, q: nat)
    requires q + 4 <= |c| && (Hex4(c, q) != 0 || IsHex(c[q + 3]))
    ensures !SplitsPair(c, q)
  {
  }

  /** The passes agree on where escapes start if and only if no escape that the decode loop comes to splits a
    * pair. */
  lemma {:induction false} PassesAgree(c: ByteString, start: nat, p: nat, e: nat)
    requires e < |c| && ScanVisits(c, start, p)
    ensures StaysInStep(c, start, p, e) <==> NeverLosesStep(c, p, e)
    decreases |c| - p
  {
    hide LosesStep, ScanVisits, Next, Unescape;
    if GoesOn(c, p, e) {
      var next := Next(c, p, e);
      StepInStep(c, p, e);
      if ScanVisits(c, p, next) {
        VisitsOn(c, start, p, next);
        PassesAgree(c, start, next, e);
      } else if ScanVisits(c, start, next) {
        VisitsBetween(c, start, p, next);
      }
    }
  }

  /** An escape with a byte that is no digit writes NUL, if there is room for four bytes, and takes them. */
  lemma MalformedWritesNul(c: ByteString, p: nat, e: nat)
    requires p + 6 <= e < |c| && c[p] == BACKSLASH && c[p + 1] == LOWER_U
    requires !(IsHex(c[p + 2]) && IsHex(c[p + 3]) && IsHex(c[p + 4]) && IsHex(c[p + 5]))
    ensures Unescape(c, p, e) == Some(([NUL], 6))
  {
  }

  /** What the decode loop writes from `p` until it loses step. */
  function InStepBytes(c: ByteString, p: nat, e: nat): ByteString
    requires e < |c|
    decreases |c| - p
  {
    if !GoesOn(c, p, e) || LosesStep(c, p, e) then []
    else if c[p] != BACKSLASH then [c[p]] + InStepBytes(c, p + 1, e)
    else Unescape(c, p, e).value.0 + InStepBytes(c, Next(c, p, e), e)
  }

  /** What is written out of step stands behind a NUL. */
  lemma {:induction false} OutOfStepIsHidden(c: ByteString, p: nat, e: nat)
    requires e < |c| && DecodeLiteral(c, p, e).Decoded?
    ensures var bytes, visible := DecodeLiteral(c, p, e).bytes, InStepBytes(c, p, e);
      if NeverLosesStep(c, p, e) then bytes == visible else visible + [NUL] <= bytes
    decreases |c| - p
  {
    hide Unescape, SplitsPair;
    if p < e {
      assert GoesOn(c, p, e);
      var next := Next(c, p, e);
      if LosesStep(c, p, e) {
        assert c[p + 5] == BACKSLASH by { SplitEnds(c, p + 2); }
        UnicodeEscapeShape(c, p, e);
        MalformedWritesNul(c, p, e);
      } else {
        OutOfStepIsHidden(c, next, e);
      }
    }
  }

  lemma SplitEnds(c: ByteString, q: nat)
    requires q + 4 <= |c| && SplitsPair(c, q)
    ensures c[q + 3] == BACKSLASH
  {
  }

  lemma CStringOfPrefix(s: ByteString, t: ByteString)
    requires s + [NUL] <= t
    ensures CString(t) == CString(s)
  {
    assert t[|s|] == (s + [NUL])[|s|];
    assert t[..|s|] == s;
    CStringStops(t, |s|);
  }

  /** So the string that is stored is made of what both passes agree on, for every literal that decodes. */
  lemma StoredStringIsInStep(c: ByteString, p: nat, e: nat)
    requires e < |c| && DecodeLiteral(c, p, e).Decoded?
    ensures CString(DecodeLiteral(c, p, e).bytes) == CString(InStepBytes(c, p, e))
  {
    OutOfStepIsHidden(c, p, e);
    if !NeverLosesStep(c, p, e) {
      CStringOfPrefix(InStepBytes(c, p, e), DecodeLiteral(c, p, e).bytes);
    }
  }

  /** A literal on which the passes disagree, `"\uXXX\\"`: the bad escape swallows the first of the two final
    * backslashes, the second one takes the closing quote, and the quote is written. It stands behind the NUL
    * of the bad escape, so the string is empty all the same. */
  lemma PassesCanDisagree()
    ensures var c: ByteString := [QUOTE, BACKSLASH, LOWER_U, 0x58, 0x58, 0x58, BACKSLASH, BACKSLASH, QUOTE];
      && ScanEnd(c, 1) == Some(8) && !NeverLosesStep(c, 1, 8)
      && DecodeLiteral(c, 1, 8) == Decoded([NUL, QUOTE]) && CString([NUL, QUOTE]) == []
  {
    var c: ByteString := [QUOTE, BACKSLASH, LOWER_U, 0x58, 0x58, 0x58, BACKSLASH, BACKSLASH, QUOTE];
    assert ScanEnd(c, 6) == Some(8);
    assert ScanEnd(c, 4) == Some(8);
    assert Hex4(c, 3) == 0;
    assert Unescape(c, 1, 8) == Some(([NUL], 6));
    assert SplitsPair(c, 3) && LosesStep(c, 1, 8);
    assert Unescape(c, 7, 8) == Some(([QUOTE], 2));
    assert DecodeLiteral(c, 7, 8) == Decoded([QUOTE]);
  }

  // ---- Reading back what was written ----

  lemma {:induction false} ScanOfEscaped(c: ByteString, i: nat, s: ByteString)
    requires At(c, i, Escape(s) + [QUOTE])
    ensures ScanEnd(c, i) == Some(i + |Escape(s)|)
    decreases s
  {
    hide At, EscapeByte;
    AtSplit(c, i, Escape(s), [QUOTE]);
    AtByte(c, i + |Escape(s)|, [QUOTE], 0);
    if s != [] {
      var first := EscapeByte(s[0]);
      assert Escape(s) + [QUOTE] == first + (Escape(s[1..]) + [QUOTE]);
      AtSplit(c, i, first, Escape(s[1..]) + [QUOTE]);
      ScanOfEscaped(c, i + |first|, s[1..]);
      ScanOfEscapedByte(c, i, s[0]);
    }
  }

  lemma ScanOfEscapedByte(c: ByteString, i: nat, b: Byte)
    requires At(c, i, EscapeByte(b)) && i + |EscapeByte(b)| < |c|
    ensures ScanEnd(c, i) == ScanEnd(c, i + |EscapeByte(b)|)
  {
    var text := EscapeByte(b);
    AtByte(c, i, text, 0);
    if |text| > 1 {
      AtByte(c, i, text, 1);
      if |text| == 6 {
        AtByte(c, i, text, 2);
        AtByte(c, i, text, 3);
        AtByte(c, i, text, 4);
        AtByte(c, i, text, 5);
        assert ScanEnd(c, i + 2) == ScanEnd(c, i + 4);
      }
    }
  }

  lemma {:induction false} DecodeOfEscaped(c: ByteString, p: nat, s: ByteString, e: nat)
    requires NulFree(s) && At(c, p, Escape(s)) && e == p + |Escape(s)| < |c|
    ensures DecodeLiteral(c, p, e) == Decoded(s)
    decreases s
  {
    hide At, EscapeByte, Unescape;
    if s != [] {
      var first := EscapeByte(s[0]);
      AtSplit(c, p, first, Escape(s[1..]));
      DecodeOfEscaped(c, p + |first|, s[1..], e);
      DecodeOfEscapedByte(c, p, s[0], e);
      assert [s[0]] + s[1..] == s;
    }
  }

  lemma DecodeOfEscapedByte(c: ByteString, p: nat, b: Byte, e: nat)
    requires b != NUL && At(c, p, EscapeByte(b)) && p + |EscapeByte(b)| <= e < |c|
    ensures DecodeLiteral(c, p, e) == Prepend([b], DecodeLiteral(c, p + |EscapeByte(b)|, e))
  {
    hide At, Unescape;
    AtByte(c, p, EscapeByte(b), 0);
    if |EscapeByte(b)| > 1 {
      UnescapeOfEscaped(c, p, b, e);
    }
  }

  lemma UnescapeOfEscaped(c: ByteString, p: nat, b: Byte, e: nat)
    requires b != NUL && At(c, p, EscapeByte(b)) && p + |EscapeByte(b)| <= e < |c| && |EscapeByte(b)| > 1
    ensures c[p] == BACKSLASH && Unescape(c, p, e) == Some(([b], |EscapeByte(b)|))
  {
    hide At;
    var text := EscapeByte(b);
    AtByte(c, p, text, 0);
    AtByte(c, p, text, 1);
    if |text| == 6 {
      AtByte(c, p, text, 2);
      AtByte(c, p, text, 3);
      AtByte(c, p, text, 4);
      AtByte(c, p, text, 5);
      assert HexDigit(LowerHex(b / 16)) == b / 16 && HexDigit(LowerHex(b % 16)) == b % 16;
      assert Hex4(c, p + 2) == b;
      assert ReadLiteral(c, p, e) == Literal(b, 6);
    }
  }
}
