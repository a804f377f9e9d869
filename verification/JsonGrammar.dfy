/** Which texts the parser accepts, stated on its own: pieces of the buffer and the characters they consist of. */
module JsonGrammar {
  import opened Options
  import opened Bytes
  import opened Decimal
  import opened Utf8
  import opened JsonStrings
  import opened JsonEscapes
  import opened JsonNumbers
  import opened JsonTree
  import opened JsonText
  import opened JsonRoundTrip

  // ---- Strings ----

  /** c[p..e] holds no quote but behind a backslash, and ends with no open backslash. */
  ghost predicate Content(c: ByteString, p: nat, e: nat)
    requires e <= |c|
    decreases |c| - p
  {
    p == e || (p < e && c[p] != '\"' as int && Content(c, if c[p] == '\\' as int then p + 2 else p + 1, e))
  }

  ghost predicate Malformed(c: ByteString, q: nat) {
    forall n: nat :: !Spells16(c, q, n)
  }

  /** The `length` bytes at `p` are the escape of the character `cp`. What should be digits and is not counts as
    * the character 0. */
  ghost predicate Character(c: ByteString, p: nat, e: nat, cp: nat, length: nat) {
    && p + length <= e <= |c| && IsScalar(cp)
    && if length == 6 then Spells16(c, p + 2, cp) || (cp == 0 && Malformed(c, p + 2))
       else length == 12 && cp >= 65536 && SpellsCharacter(c, p, cp)
  }

  /** What stands in c[p..e] says `bytes`: bytes as they are, letters behind a backslash, and characters by their
    * number, which are then there in UTF-8. */
  ghost predicate Says(c: ByteString, p: nat, e: nat, bytes: ByteString)
    requires e < |c|
    decreases |c| - p
  {
    if p >= e then bytes == []
    else if c[p] != '\\' as int then bytes != [] && bytes[0] == c[p] && Says(c, p + 1, e, bytes[1..])
    else if c[p + 1] != 'u' as int then
      bytes != [] && Letter(c[p + 1]) == Some(bytes[0]) && Says(c, p + 2, e, bytes[1..])
    else
      match Decode(bytes)
      case None => false
      case Some((cp, k)) =>
        k <= |bytes|
        && ((Character(c, p, e, cp, 6) && Says(c, p + 6, e, bytes[k..]))
            || (Character(c, p, e, cp, 12) && Says(c, p + 12, e, bytes[k..])))
  }

  /** c[i..j] is a string in quotes. What is read of it ends at a NUL, if it says one. */
  ghost predicate IsString(c: ByteString, i: nat, j: nat, s: ByteString) {
    && i + 2 <= j <= |c| && c[i] == '\"' as int && c[j - 1] == '\"' as int && Content(c, i + 1, j - 1)
    && exists bytes :: Says(c, i + 1, j - 1, bytes) && s == CString(bytes)
  }

  lemma {:induction false} ScanIs(c: ByteString, p: nat, e: nat)
    requires e < |c|
    ensures ScanEnd(c, p) == Some(e) <==> c[e] == '\"' as int && Content(c, p, e)
    decreases |c| - p
  {
    if p < e && c[p] != QUOTE {
      ScanIs(c, if c[p] == BACKSLASH then p + 2 else p + 1, e);
    }
  }

  lemma CharacterIs(c: ByteString, p: nat, e: nat, cp: nat, length: nat)
    requires p < e < |c| && c[p] == BACKSLASH && c[p + 1] == LOWER_U
    ensures Character(c, p, e, cp, length) <==> ReadLiteral(c, p, e) == Literal(cp, length)
  {
    hide Spells16, Hex4;
    if p + 6 <= e {
      Hex4Is(c, p + 2);
      if p + 12 <= e {
        Hex4Is(c, p + 8);
        if cp >= 65536 && IsScalar(cp) {
          SurrogatesOf(cp);
        }
      }
    }
  }

  lemma PrependIs(first: ByteString, rest: Decoded, bytes: ByteString)
    ensures Prepend(first, rest) == Decoded(bytes)
       <==> |first| <= |bytes| && bytes[..|first|] == first && rest == Decoded(bytes[|first|..])
  {
    if |first| <= |bytes| && bytes[..|first|] == first {
      assert first + bytes[|first|..] == bytes;
    }
    if rest.Decoded? {
      assert (first + rest.bytes)[..|first|] == first && (first + rest.bytes)[|first|..] == rest.bytes;
    }
  }

  /** The relation and the decode loop agree. */
  lemma {:induction false} SaysIs(c: ByteString, p: nat, e: nat, bytes: ByteString)
    requires e < |c|
    ensures Says(c, p, e, bytes) <==> DecodeLiteral(c, p, e) == Decoded(bytes)
    decreases |c| - p, 1
  {
    hide Unescape, Character;
    if p < e {
      if c[p] != BACKSLASH {
        PrependIs([c[p]], DecodeLiteral(c, p + 1, e), bytes);
        if bytes != [] {
          assert bytes[..1] == [bytes[0]];
          SaysIs(c, p + 1, e, bytes[1..]);
        }
      } else if c[p + 1] != LOWER_U {
        LettersDecode(c, p, e);
        if Letter(c[p + 1]).Some? {
          PrependIs([Letter(c[p + 1]).value], DecodeLiteral(c, p + 2, e), bytes);
          if bytes != [] {
            assert bytes[..1] == [bytes[0]];
            SaysIs(c, p + 2, e, bytes[1..]);
          }
        }
      } else {
        CharacterSaysIs(c, p, e, bytes);
      }
    }
  }

  lemma {:induction false} CharacterSaysIs(c: ByteString, p: nat, e: nat, bytes: ByteString)
    requires p < e < |c| && c[p] == BACKSLASH && c[p + 1] == LOWER_U
    ensures Says(c, p, e, bytes) <==> DecodeLiteral(c, p, e) == Decoded(bytes)
    decreases |c| - p, 0
  {
    hide Unescape, Character, Encode, Decode, ReadLiteral;
    var u := ReadLiteral(c, p, e);
    UnicodeStep(c, p, e);
    if Decode(bytes).Some? {
      var (cp, k) := Decode(bytes).value;
      EncodeDecode(bytes);
      CharacterIs(c, p, e, cp, 6);
      CharacterIs(c, p, e, cp, 12);
      SaysIs(c, p + 6, e, bytes[k..]);
      SaysIs(c, p + 12, e, bytes[k..]);
      if u.Literal? {
        PrependIs(Encode(cp), DecodeLiteral(c, p + u.length, e), bytes);
      }
    }
    if u.Literal? {
      var first := Encode(u.codepoint);
      PrependIs(first, DecodeLiteral(c, p + u.length, e), bytes);
      if DecodeLiteral(c, p, e) == Decoded(bytes) {
        DecodeEncode(u.codepoint, bytes[|first|..]);
        assert first + bytes[|first|..] == bytes;
      }
    }
  }

  lemma UnicodeStep(c: ByteString, p: nat, e: nat)
    requires p < e < |c| && c[p] == BACKSLASH && c[p + 1] == LOWER_U
    ensures DecodeLiteral(c, p, e) == match ReadLiteral(c, p, e)
      case BadLiteral => BadEscape(p)
      case Literal(cp, length) => Prepend(Encode(cp), DecodeLiteral(c, p + length, e))
  {
    hide ReadLiteral, Encode;
  }

  /** The parser of strings accepts exactly the strings. */
  lemma StringIs(c: ByteString, i: nat, j: nat, s: ByteString)
    requires i < |c|
    ensures ParseString(c, i) == Parsed(s, j) <==> IsString(c, i, j, s)
  {
    hide ScanEnd, Content, Says, DecodeLiteral;
    if ParseString(c, i) == Parsed(s, j) {
      var bytes := DecodeLiteral(c, i + 1, j - 1).bytes;
      ScanIs(c, i + 1, j - 1);
      SaysIs(c, i + 1, j - 1, bytes);
      assert s == CString(bytes);
    }
    if IsString(c, i, j, s) {
      var bytes :| Says(c, i + 1, j - 1, bytes) && s == CString(bytes);
      ScanIs(c, i + 1, j - 1);
      SaysIs(c, i + 1, j - 1, bytes);
    }
  }

  // ---- Values ----

  /** Bytes up to the space, NUL among them. */
  ghost predicate Blank(c: ByteString, i: nat, j: nat) {
    i <= j <= |c| && forall k :: i <= k < j ==> c[k] <= ' ' as int
  }

  /** c[i..j] is the value `v`, in which at most `room` arrays and objects enclose each other. */
  ghost predicate IsValue(c: ByteString, i: nat, j: nat, v: Json, room: nat)
    decreases v, 2
  {
    i <= j <= |c| &&
    match v
    case Null => c[i..j] == Ascii("null")
    case False => c[i..j] == Ascii("false")
    case True => c[i..j] == Ascii("true")
    case Number(value) => exists n :: IsNumber(n) && NumberText(n) == c[i..j] && NumberValue(n) == value
    case String(text) => IsString(c, i, j, text)
    case Array(items) =>
      && room > 0 && i + 2 <= j && c[i] == '[' as int && c[j - 1] == ']' as int
      && if items == [] then Blank(c, i + 1, j - 1) else AreElements(c, i + 1, j - 1, items, room - 1)
    case Object(members) =>
      && room > 0 && i + 2 <= j && c[i] == '{' as int && c[j - 1] == '}' as int
      && if members == [] then Blank(c, i + 1, j - 1) else AreMembers(c, i + 1, j - 1, members, room - 1)
  }

  /** c[i..j] holds the elements, with commas between them and blanks around them. */
  ghost predicate AreElements(c: ByteString, i: nat, j: nat, items: seq<Json>, room: nat)
    requires items != []
    decreases items, 1
  {
    exists a: nat, b: nat :: Blank(c, i, a) && IsValue(c, a, b, items[0], room) && MoreElements(c, b, j, items, room)
  }

  ghost predicate MoreElements(c: ByteString, b: nat, j: nat, items: seq<Json>, room: nat)
    requires items != []
    decreases items, 0
  {
    if |items| == 1 then Blank(c, b, j)
    else exists k: nat ::
      Blank(c, b, k) && k < j <= |c| && c[k] == ',' as int && AreElements(c, k + 1, j, items[1..], room)
  }

  /** From `i` up to the colon at `k` stands a key. */
  ghost predicate IsKey(c: ByteString, i: nat, k: nat, key: ByteString) {
    && k < |c| && c[k] == ':' as int
    && exists a: nat, b: nat :: Blank(c, i, a) && IsString(c, a, b, key) && Blank(c, b, k)
  }

  ghost predicate AreMembers(c: ByteString, i: nat, j: nat, members: seq<Member>, room: nat)
    requires members != []
    decreases members, 1
  {
    exists k: nat, a: nat, b: nat ::
      && IsKey(c, i, k, members[0].key) && Blank(c, k + 1, a) && IsValue(c, a, b, members[0].value, room)
      && MoreMembers(c, b, j, members, room)
  }

  ghost predicate MoreMembers(c: ByteString, b: nat, j: nat, members: seq<Member>, room: nat)
    requires members != []
    decreases members, 0
  {
    if |members| == 1 then Blank(c, b, j)
    else exists k: nat ::
      Blank(c, b, k) && k < j <= |c| && c[k] == ',' as int && AreMembers(c, k + 1, j, members[1..], room)
  }

  // ---- Whatever is accepted is JSON ----

  lemma {:induction false} BlanksAreBlank(c: ByteString, i: nat)
    requires i <= |c|
    ensures Blank(c, i, BlanksEnd(c, i))
    decreases |c| - i
  {
    if i < |c| && c[i] <= 32 {
      BlanksAreBlank(c, i + 1);
    }
  }

  lemma SkippedIsBlank(c: ByteString, i: nat)
    requires i <= |c|
    ensures Blank(c, i, SkipBlanks(c, i))
  {
    BlanksAreBlank(c, i);
  }

  lemma NumberIs(c: ByteString, off: nat)
    requires off < |c| && (c[off] == MINUS || IsDigit(c[off])) && ParseNumber(c, off).Parsed?
    ensures IsValue(c, off, ParseNumber(c, off).end, ParseNumber(c, off).value, 0)
  {
    hide Strtod, IsNumber, NumberText, NumberValue;
    var t := c[off..NumberEnd(c, off)];
    assert NumberEnd(c, off) > off && t[0] == c[off];
    var n := NumberOf(t);
    SliceOfSlice(c, off, NumberEnd(c, off), ParseNumber(c, off).end);
  }

  lemma SliceOfSlice(c: ByteString, i: nat, k: nat, j: nat)
    requires i <= j <= k <= |c|
    ensures c[i..k][..j - i] == c[i..j]
  {
  }

  ghost predicate Accepted(c: ByteString, off: nat, depth: nat, r: Parsed<Json>) {
    r.Parsed? ==> depth <= 1000 && IsValue(c, off, r.end, r.value, 1000 - depth)
  }

  /** What the parser reads is the value that stands there. */
  lemma {:induction false} AcceptedValue(c: ByteString, off: nat, depth: nat)
    requires off <= |c| && depth <= 1000
    ensures Accepted(c, off, depth, ParseValue(c, off, depth))
    decreases |c| - off, 2
  {
    hide ParseString, ParseNumber, ParseArray, ParseObject, AreElements, AreMembers;
    var r := ParseValue(c, off, depth);
    if At(c, off, NULL_TEXT) || At(c, off, FALSE_TEXT) || At(c, off, TRUE_TEXT) || off == |c| {
    } else if c[off] == QUOTE {
      if r.Parsed? {
        StringIs(c, off, r.end, r.value.text);
      }
    } else if c[off] == MINUS || IsDigit(c[off]) {
      if r.Parsed? {
        NumberIs(c, off);
      }
    } else if c[off] == LBRACKET {
      AcceptedArray(c, off, depth);
    } else if c[off] == LBRACE {
      AcceptedObject(c, off, depth);
    }
  }

  lemma {:induction false} AcceptedArray(c: ByteString, off: nat, depth: nat)
    requires off < |c| && depth <= 1000
    ensures Accepted(c, off, depth, ParseArray(c, off, depth))
    decreases |c| - off, 1
  {
    hide ParseItems, SkipBlanks, AreElements, Blank;
    var r := ParseArray(c, off, depth);
    if r.Parsed? {
      var first := SkipBlanks(c, off + 1);
      SkippedIsBlank(c, off + 1);
      if c[first] != RBRACKET {
        AcceptedItems(c, first - 1, depth + 1);
        WiderElements(c, off + 1, first, r.end - 1, r.value.items, 1000 - (depth + 1));
      }
    }
  }

  /** Blanks in front of the first element. */
  lemma WiderElements(c: ByteString, i: nat, p: nat, j: nat, items: seq<Json>, room: nat)
    requires items != [] && Blank(c, i, p) && AreElements(c, p, j, items, room)
    ensures AreElements(c, i, j, items, room)
  {
    hide IsValue, MoreElements;
    var a: nat, b: nat :| Blank(c, p, a) && IsValue(c, a, b, items[0], room) && MoreElements(c, b, j, items, room);
    BlankJoins(c, i, p, a);
    ElementsFrom(c, i, a, b, j, items, room);
  }

  lemma BlankJoins(c: ByteString, i: nat, p: nat, a: nat)
    requires Blank(c, i, p) && Blank(c, p, a)
    ensures Blank(c, i, a)
  {
  }

  lemma ElementsFrom(c: ByteString, i: nat, a: nat, b: nat, j: nat, items: seq<Json>, room: nat)
    requires items != [] && Blank(c, i, a) && IsValue(c, a, b, items[0], room) && MoreElements(c, b, j, items, room)
    ensures AreElements(c, i, j, items, room)
  {
    hide Blank, IsValue, MoreElements;
  }

  lemma MoreElementsFrom(c: ByteString, b: nat, k: nat, j: nat, items: seq<Json>, room: nat)
    requires |items| > 1 && Blank(c, b, k) && k < j <= |c| && c[k] == ',' as int
    requires AreElements(c, k + 1, j, items[1..], room)
    ensures MoreElements(c, b, j, items, room)
  {
    hide Blank, AreElements;
  }

  lemma {:induction false} AcceptedItems(c: ByteString, before: nat, depth: nat)
    requires before < |c| && depth <= 1000
    ensures var r := ParseItems(c, before, depth);
      r.Parsed? ==>
        && r.value != [] && 0 < r.end <= |c| && c[r.end - 1] == ']' as int
        && AreElements(c, before + 1, r.end - 1, r.value, 1000 - depth)
    decreases |c| - before, 0
  {
    hide ParseValue, SkipBlanks, IsValue, Blank;
    var start := SkipBlanks(c, before + 1);
    SkippedIsBlank(c, before + 1);
    AcceptedValue(c, start, depth);
    var v := ParseValue(c, start, depth);
    if v.Parsed? {
      var after := SkipBlanks(c, v.end);
      SkippedIsBlank(c, v.end);
      if after < |c| && c[after] == COMMA {
        AcceptedItems(c, after, depth);
        var rest := ParseItems(c, after, depth);
        if rest.Parsed? {
          assert ([v.value] + rest.value)[1..] == rest.value;
          MoreElementsFrom(c, v.end, after, rest.end - 1, [v.value] + rest.value, 1000 - depth);
          ElementsFrom(c, before + 1, start, v.end, rest.end - 1, [v.value] + rest.value, 1000 - depth);
        }
      } else if after < |c| && c[after] == RBRACKET {
        assert MoreElements(c, v.end, after, [v.value], 1000 - depth);
        ElementsFrom(c, before + 1, start, v.end, after, [v.value], 1000 - depth);
      }
    }
  }

  lemma {:induction false} AcceptedObject(c: ByteString, off: nat, depth: nat)
    requires off < |c| && depth <= 1000
    ensures Accepted(c, off, depth, ParseObject(c, off, depth))
    decreases |c| - off, 1
  {
    hide ParseMembers, SkipBlanks, AreMembers, Blank;
    var r := ParseObject(c, off, depth);
    if r.Parsed? {
      var first := SkipBlanks(c, off + 1);
      SkippedIsBlank(c, off + 1);
      if c[first] != RBRACE {
        AcceptedMembers(c, first - 1, depth + 1);
        WiderMembers(c, off + 1, first, r.end - 1, r.value.members, 1000 - (depth + 1));
      }
    }
  }

  /** Blanks in front of the first key. */
  lemma WiderMembers(c: ByteString, i: nat, p: nat, j: nat, members: seq<Member>, room: nat)
    requires members != [] && Blank(c, i, p) && AreMembers(c, p, j, members, room)
    ensures AreMembers(c, i, j, members, room)
  {
    hide IsValue, MoreMembers, IsString;
    var k: nat, s: nat, e: nat :| IsKey(c, p, k, members[0].key) && Blank(c, k + 1, s)
      && IsValue(c, s, e, members[0].value, room)
      && MoreMembers(c, e, j, members, room);
    var a: nat, b: nat :| Blank(c, p, a) && IsString(c, a, b, members[0].key) && Blank(c, b, k);
    BlankJoins(c, i, p, a);
    MembersFrom(c, i, k, s, e, j, members, room);
  }

  lemma KeyIs(c: ByteString, before: nat) returns (colon: nat)
    requires before < |c| && ParseKey(c, before).Parsed?
    ensures var r := ParseKey(c, before); IsKey(c, before + 1, colon, r.value) && Blank(c, colon + 1, r.end)
  {
    hide ParseString, SkipBlanks, IsString, Blank;
    var start := SkipBlanks(c, before + 1);
    SkippedIsBlank(c, before + 1);
    var key := ParseString(c, start);
    StringIs(c, start, key.end, key.value);
    SkippedIsBlank(c, key.end);
    colon := SkipBlanks(c, key.end);
    SkippedIsBlank(c, colon + 1);
    assert IsKey(c, before + 1, colon, key.value);
  }

  lemma MembersFrom(c: ByteString, i: nat, k: nat, a: nat, b: nat, j: nat, members: seq<Member>, room: nat)
    requires members != [] && IsKey(c, i, k, members[0].key) && Blank(c, k + 1, a)
    requires IsValue(c, a, b, members[0].value, room) && MoreMembers(c, b, j, members, room)
    ensures AreMembers(c, i, j, members, room)
  {
    hide IsKey, Blank, IsValue, MoreMembers;
  }

  lemma MoreMembersFrom(c: ByteString, b: nat, k: nat, j: nat, members: seq<Member>, room: nat)
    requires |members| > 1 && Blank(c, b, k) && k < j <= |c| && c[k] == ',' as int
    requires AreMembers(c, k + 1, j, members[1..], room)
    ensures MoreMembers(c, b, j, members, room)
  {
    hide Blank, AreMembers;
  }

  lemma {:induction false} AcceptedMembers(c: ByteString, before: nat, depth: nat)
    requires before < |c| && depth <= 1000
    ensures var r := ParseMembers(c, before, depth);
      r.Parsed? ==>
        && r.value != [] && 0 < r.end <= |c| && c[r.end - 1] == '}' as int
        && AreMembers(c, before + 1, r.end - 1, r.value, 1000 - depth)
    decreases |c| - before, 0
  {
    hide ParseValue, ParseKey, SkipBlanks, IsValue, Blank, IsKey;
    var key := ParseKey(c, before);
    if key.Parsed? {
      var colon := KeyIs(c, before);
      AcceptedValue(c, key.end, depth);
      var v := ParseValue(c, key.end, depth);
      if v.Parsed? {
        var m, after := Member(key.value, v.value), SkipBlanks(c, v.end);
        SkippedIsBlank(c, v.end);
        if after < |c| && c[after] == COMMA {
          AcceptedMembers(c, after, depth);
          var rest := ParseMembers(c, after, depth);
          if rest.Parsed? {
            assert ([m] + rest.value)[1..] == rest.value;
            MoreMembersFrom(c, v.end, after, rest.end - 1, [m] + rest.value, 1000 - depth);
            MembersFrom(c, before + 1, colon, key.end, v.end, rest.end - 1, [m] + rest.value, 1000 - depth);
          }
        } else if after < |c| && c[after] == RBRACE {
          assert MoreMembers(c, v.end, after, [m], 1000 - depth);
          MembersFrom(c, before + 1, colon, key.end, v.end, after, [m], 1000 - depth);
        }
      }
    }
  }

  // ---- Whatever is JSON is accepted ----

  /** No byte that could belong to a number. */
  predicate EndsNumber(c: ByteString, j: nat) {
    j < |c| ==>
      && !('0' as int <= c[j] <= '9' as int)
      && c[j] != '+' as int && c[j] != '-' as int && c[j] != '.' as int && c[j] != 'e' as int && c[j] != 'E' as int
  }

  /** A value starts with a visible character that neither separates nor closes. */
  lemma ValueStarts(c: ByteString, i: nat, j: nat, v: Json, room: nat)
    requires IsValue(c, i, j, v, room)
    ensures i < j <= |c| && c[i] > ' ' as int
    ensures c[i] != ',' as int && c[i] != ':' as int && c[i] != ']' as int && c[i] != '}' as int
    ensures v.Null? ==> At(c, i, NULL_TEXT) && j == i + 4
    ensures v.False? ==> At(c, i, FALSE_TEXT) && j == i + 5
    ensures v.True? ==> At(c, i, TRUE_TEXT) && j == i + 4
    ensures v.Number? ==> c[i] == MINUS || IsDigit(c[i])
    ensures v.String? ==> c[i] == QUOTE
    ensures v.Array? ==> c[i] == LBRACKET
    ensures v.Object? ==> c[i] == LBRACE
  {
    hide AreElements, AreMembers, IsString, Content, Says;
    var text := c[i..j];
    assert j > i ==> c[i] == text[0];
    match v
    case Null => assert NULL_TEXT == Ascii("null") && |text| == 4;
    case False => assert FALSE_TEXT == Ascii("false") && |text| == 5;
    case True => assert TRUE_TEXT == Ascii("true") && |text| == 4;
    case Number(x) =>
      var n :| IsNumber(n) && NumberText(n) == text && NumberValue(n) == x;
      NumberStarts(n);
    case String(s) => StringStarts(c, i, j, s);
    case _ =>
  }

  lemma StringStarts(c: ByteString, i: nat, j: nat, s: ByteString)
    requires IsString(c, i, j, s)
    ensures i + 2 <= j <= |c| && c[i] == QUOTE
  {
  }

  lemma NumberStarts(n: Number)
    requires IsNumber(n)
    ensures NumberText(n) != [] && (NumberText(n)[0] == MINUS || IsDigit(NumberText(n)[0]))
  {
    NextBytes(n);
    TextEnds(n);
  }

  lemma NumberBytes(n: Number)
    requires IsNumber(n)
    ensures forall i :: 0 <= i < |NumberText(n)| ==> IsNumberByte(NumberText(n)[i])
  {
    var sign, fraction, exponent := Sign(n), FractionText(n.fraction), ExponentText(n.exponent);
    assert forall i :: 0 <= i < |sign| ==> IsNumberByte(sign[i]);
    assert forall i :: 0 <= i < |n.whole| ==> IsNumberByte(n.whole[i]);
    assert forall i :: 0 <= i < |fraction| ==> IsNumberByte(fraction[i]);
    assert forall i :: 0 <= i < |exponent| ==> IsNumberByte(exponent[i]);
  }

  lemma NumberParses(c: ByteString, off: nat, end: nat, n: Number)
    requires off <= end <= |c| && IsNumber(n) && NumberText(n) == c[off..end] && EndsNumber(c, end)
    ensures ParseNumber(c, off) == Parsed(Json.Number(NumberValue(n)), end)
  {
    hide NumberText, NumberValue, IsNumber, Strtod;
    NumberBytes(n);
    forall k | off <= k < end ensures IsNumberByte(c[k]) {
      assert c[k] == c[off..end][k - off];
    }
    NumberEndAt(c, off, end);
    StrtodOfNumber(n);
  }

  lemma BlankSkips(c: ByteString, i: nat, j: nat)
    requires Blank(c, i, j) && j < |c| && c[j] > ' ' as int
    ensures SkipBlanks(c, i) == j
  {
    SkipBlanksTo(c, i, j);
  }

  /** The value that stands there is read, if a number does not go on behind it. */
  lemma {:induction false} ValueParses(c: ByteString, off: nat, end: nat, v: Json, depth: nat)
    requires depth <= 1000 && IsValue(c, off, end, v, 1000 - depth) && (v.Number? ==> EndsNumber(c, end))
    ensures ParseValue(c, off, depth) == Parsed(v, end)
    decreases v, 2
  {
    hide At, ParseString, ParseNumber, ParseArray, ParseObject, AreElements, AreMembers;
    hide IsNumber, NumberText, NumberValue;
    ValueStarts(c, off, end, v, 1000 - depth);
    LiteralsDiffer(c, off);
    match v
    case Number(x) =>
      var n :| IsNumber(n) && NumberText(n) == c[off..end] && NumberValue(n) == x;
      NumberParses(c, off, end, n);
    case String(s) => StringIs(c, off, end, s);
    case Array(items) => ArrayParses(c, off, end, items, depth);
    case Object(members) => ObjectParses(c, off, end, members, depth);
    case _ =>
  }

  lemma {:induction false} ArrayParses(c: ByteString, off: nat, end: nat, items: seq<Json>, depth: nat)
    requires depth < 1000 && off + 2 <= end <= |c| && c[off] == LBRACKET && c[end - 1] == RBRACKET
    requires if items == [] then Blank(c, off + 1, end - 1) else AreElements(c, off + 1, end - 1, items, 999 - depth)
    ensures ParseArray(c, off, depth) == Parsed(Array(items), end)
    decreases items, 2
  {
    hide ParseArray, ParseItems, SkipBlanks, AreElements, Blank;
    if items == [] {
      BlankSkips(c, off + 1, end - 1);
      EmptyArrayStep(c, off, depth, end - 1);
    } else {
      var first := ElementsStart(c, off + 1, end - 1, items, 999 - depth);
      ItemsParse(c, first - 1, end - 1, items, depth + 1);
      ArrayStep(c, off, depth, first, items, end);
    }
  }

  lemma EmptyArrayStep(c: ByteString, off: nat, depth: nat, first: nat)
    requires off < |c| && c[off] == LBRACKET && depth < NESTING_LIMIT
    requires SkipBlanks(c, off + 1) == first < |c| && c[first] == RBRACKET
    ensures ParseArray(c, off, depth) == Parsed(Array([]), first + 1)
  {
  }

  lemma ArrayStep(c: ByteString, off: nat, depth: nat, first: nat, items: seq<Json>, end: nat)
    requires off < |c| && c[off] == LBRACKET && depth < NESTING_LIMIT
    requires SkipBlanks(c, off + 1) == first < |c| && c[first] != RBRACKET && first > 0
    requires ParseItems(c, first - 1, depth + 1) == Parsed(items, end)
    ensures ParseArray(c, off, depth) == Parsed(Array(items), end)
  {
    hide ParseItems, SkipBlanks;
  }

  /** Where the first element stands. */
  lemma ElementsStart(c: ByteString, i: nat, j: nat, items: seq<Json>, room: nat) returns (first: nat)
    requires items != [] && i <= |c| && AreElements(c, i, j, items, room)
    ensures SkipBlanks(c, i) == first && i <= first < |c| && c[first] > 32 && c[first] != RBRACKET
    ensures AreElements(c, first, j, items, room)
  {
    hide IsValue, MoreElements, SkipBlanks;
    var a: nat, b: nat :| Blank(c, i, a) && IsValue(c, a, b, items[0], room) && MoreElements(c, b, j, items, room);
    first := a;
    ValueStarts(c, a, b, items[0], room);
    BlankSkips(c, i, a);
    assert Blank(c, a, a);
  }

  lemma {:induction false} ItemsParse(c: ByteString, before: nat, j: nat, items: seq<Json>, depth: nat)
    requires items != [] && depth <= 1000 && before < |c| && j < |c| && c[j] == RBRACKET
    requires AreElements(c, before + 1, j, items, 1000 - depth)
    ensures ParseItems(c, before, depth) == Parsed(items, j + 1)
    decreases items, 1
  {
    hide ParseValue, SkipBlanks, IsValue, Blank;
    var room := 1000 - depth;
    var a: nat, b: nat :|
      Blank(c, before + 1, a) && IsValue(c, a, b, items[0], room) && MoreElements(c, b, j, items, room);
    ValueStarts(c, a, b, items[0], room);
    BlankSkips(c, before + 1, a);
    var k := ElementEnds(c, b, j, items, room);
    ValueParses(c, a, b, items[0], depth);
    if |items| == 1 {
      assert items == [items[0]];
    } else {
      ItemsParse(c, k, j, items[1..], depth);
      assert items == [items[0]] + items[1..];
    }
  }

  /** Behind an element: blanks, then the comma or the bracket. */
  lemma ElementEnds(c: ByteString, b: nat, j: nat, items: seq<Json>, room: nat) returns (k: nat)
    requires items != [] && MoreElements(c, b, j, items, room) && j < |c| && c[j] == RBRACKET
    ensures b <= k < |c| && SkipBlanks(c, b) == k && EndsNumber(c, b)
    ensures if |items| == 1 then k == j else k < j && c[k] == COMMA && AreElements(c, k + 1, j, items[1..], room)
  {
    hide AreElements, SkipBlanks;
    if |items| == 1 {
      k := j;
    } else {
      var l: nat :| Blank(c, b, l) && l < j <= |c| && c[l] == ',' as int && AreElements(c, l + 1, j, items[1..], room);
      k := l;
    }
    BlankSkips(c, b, k);
  }

  lemma {:induction false} ObjectParses(c: ByteString, off: nat, end: nat, members: seq<Member>, depth: nat)
    requires depth < 1000 && off + 2 <= end <= |c| && c[off] == LBRACE && c[end - 1] == RBRACE
    requires if members == [] then Blank(c, off + 1, end - 1) else AreMembers(c, off + 1, end - 1, members, 999 - depth)
    ensures ParseObject(c, off, depth) == Parsed(Object(members), end)
    decreases members, 2
  {
    hide ParseObject, ParseMembers, SkipBlanks, AreMembers, Blank;
    if members == [] {
      BlankSkips(c, off + 1, end - 1);
      EmptyObjectStep(c, off, depth, end - 1);
    } else {
      var first := MembersStart(c, off + 1, end - 1, members, 999 - depth);
      MembersParse(c, first - 1, end - 1, members, depth + 1);
      ObjectStep(c, off, depth, first, members, end);
    }
  }

  /** Where the first key stands. */
  lemma MembersStart(c: ByteString, i: nat, j: nat, members: seq<Member>, room: nat) returns (first: nat)
    requires members != [] && i <= |c| && AreMembers(c, i, j, members, room)
    ensures SkipBlanks(c, i) == first && i <= first < |c| && c[first] == QUOTE
    ensures AreMembers(c, first, j, members, room)
  {
    hide IsValue, MoreMembers, SkipBlanks, IsString;
    var k: nat, s: nat, e: nat :| IsKey(c, i, k, members[0].key) && Blank(c, k + 1, s)
      && IsValue(c, s, e, members[0].value, room) && MoreMembers(c, e, j, members, room);
    var a: nat, b: nat :| Blank(c, i, a) && IsString(c, a, b, members[0].key) && Blank(c, b, k);
    first := a;
    StringStarts(c, a, b, members[0].key);
    BlankSkips(c, i, a);
    assert Blank(c, a, a);
    assert IsKey(c, a, k, members[0].key);
  }

  lemma KeyParses(c: ByteString, before: nat, k: nat, s: nat, key: ByteString)
    requires before < |c| && IsKey(c, before + 1, k, key) && Blank(c, k + 1, s) && s < |c| && c[s] > ' ' as int
    ensures ParseKey(c, before) == Parsed(key, s)
  {
    hide ParseString, SkipBlanks, IsString;
    var a: nat, b: nat :| Blank(c, before + 1, a) && IsString(c, a, b, key) && Blank(c, b, k);
    StringStarts(c, a, b, key);
    BlankSkips(c, before + 1, a);
    StringIs(c, a, b, key);
    BlankSkips(c, b, k);
    BlankSkips(c, k + 1, s);
  }

  lemma {:induction false} MembersParse(c: ByteString, before: nat, j: nat, members: seq<Member>, depth: nat)
    requires members != [] && depth <= 1000 && before < |c| && j < |c| && c[j] == RBRACE
    requires AreMembers(c, before + 1, j, members, 1000 - depth)
    ensures ParseMembers(c, before, depth) == Parsed(members, j + 1)
    decreases members, 1
  {
    hide ParseValue, ParseKey, SkipBlanks, IsValue, Blank, IsKey;
    var room, m := 1000 - depth, members[0];
    var colon: nat, a: nat, b: nat :| IsKey(c, before + 1, colon, m.key) && Blank(c, colon + 1, a)
      && IsValue(c, a, b, m.value, room) && MoreMembers(c, b, j, members, room);
    ValueStarts(c, a, b, m.value, room);
    KeyParses(c, before, colon, a, m.key);
    var k := MemberEnds(c, b, j, members, room);
    ValueParses(c, a, b, m.value, depth);
    if |members| == 1 {
      assert members == [m];
    } else {
      MembersParse(c, k, j, members[1..], depth);
      assert members == [m] + members[1..];
    }
  }

  /** Behind a member: blanks, then the comma or the brace. */
  lemma MemberEnds(c: ByteString, b: nat, j: nat, members: seq<Member>, room: nat) returns (k: nat)
    requires members != [] && MoreMembers(c, b, j, members, room) && j < |c| && c[j] == RBRACE
    ensures b <= k < |c| && SkipBlanks(c, b) == k && EndsNumber(c, b)
    ensures if |members| == 1 then k == j else k < j && c[k] == COMMA && AreMembers(c, k + 1, j, members[1..], room)
  {
    hide AreMembers, SkipBlanks;
    if |members| == 1 {
      k := j;
    } else {
      var l: nat :| Blank(c, b, l) && l < j <= |c| && c[l] == ',' as int && AreMembers(c, l + 1, j, members[1..], room);
      k := l;
    }
    BlankSkips(c, b, k);
  }

  // ---- The parser and the grammar ----

  /** The parser reads a value exactly where one stands, and up to where it ends. */
  lemma ParsesExactly(c: ByteString, off: nat, depth: nat, v: Json, end: nat)
    requires off <= |c| && depth <= 1000 && (v.Number? ==> EndsNumber(c, end))
    ensures ParseValue(c, off, depth) == Parsed(v, end) <==> IsValue(c, off, end, v, 1000 - depth)
  {
    hide ParseValue, IsValue;
    AcceptedValue(c, off, depth);
    if IsValue(c, off, end, v, 1000 - depth) {
      ValueParses(c, off, end, v, depth);
    }
  }

  /** A buffer holds a value: behind a byte order mark, if it has more than four bytes and starts with one, and
    * blanks; and if it has to end there, with nothing but blanks behind it of which the last is a NUL. */
  ghost predicate IsDocument(c: ByteString, toTheEnd: bool, v: Json, end: nat) {
    exists s: nat, e: nat ::
      && Blank(c, if 4 < |c| && c[0] == 0xEF && c[1] == 0xBB && c[2] == 0xBF then 3 else 0, s)
      && IsValue(c, s, e, v, 1000) && (v.Number? ==> EndsNumber(c, e))
      && if toTheEnd then e < |c| && Blank(c, e, |c|) && c[|c| - 1] == 0 && end == |c| - 1 else end == e
  }

  /** What is accepted as a whole is a document, but for a number that goes on. */
  lemma AcceptedDocument(c: ByteString, toTheEnd: bool)
    requires ParseWithLength(c, toTheEnd).Parsed?
    ensures var r := ParseWithLength(c, toTheEnd);
      (toTheEnd || !r.value.Number? || EndsNumber(c, r.end)) ==> IsDocument(c, toTheEnd, r.value, r.end)
  {
    hide ParseValue, SkipBlanks, IsValue, Blank;
    var b := if 4 < |c| && BOM <= c then 3 else 0;
    if 4 < |c| {
      BomIs(c);
    }
    var s := SkipBlanks(c, b);
    SkippedIsBlank(c, b);
    AcceptedValue(c, s, 0);
    var r := ParseValue(c, s, 0);
    if toTheEnd {
      NulAtTheEnd(c, r.end);
    }
  }

  lemma BomIs(c: ByteString)
    requires 4 < |c|
    ensures BOM <= c <==> c[0] == 0xEF && c[1] == 0xBB && c[2] == 0xBF
  {
    if c[0] == 0xEF && c[1] == 0xBB && c[2] == 0xBF {
      assert c[..3] == BOM;
    }
  }

  lemma {:induction false} BlanksStop(c: ByteString, i: nat)
    requires i <= |c|
    ensures BlanksEnd(c, i) < |c| ==> c[BlanksEnd(c, i)] > 32
    decreases |c| - i
  {
    if i < |c| && c[i] <= 32 {
      BlanksStop(c, i + 1);
    }
  }

  /** A NUL behind blanks can only be the last byte: other blanks are passed over. */
  lemma NulAtTheEnd(c: ByteString, e: nat)
    requires e <= |c| && SkipBlanks(c, e) < |c| && c[SkipBlanks(c, e)] == NUL
    ensures e < |c| && Blank(c, e, |c|) && SkipBlanks(c, e) == |c| - 1 && EndsNumber(c, e)
  {
    BlanksStop(c, e);
    BlanksAreBlank(c, e);
  }

  lemma {:induction false} BlankToTheEnd(c: ByteString, e: nat)
    requires Blank(c, e, |c|)
    ensures BlanksEnd(c, e) == |c|
    decreases |c| - e
  {
    if e < |c| {
      BlankToTheEnd(c, e + 1);
    }
  }

  /** And every document is accepted. */
  lemma DocumentParses(c: ByteString, toTheEnd: bool, v: Json, end: nat)
    requires IsDocument(c, toTheEnd, v, end)
    ensures ParseWithLength(c, toTheEnd) == Parsed(v, end)
  {
    hide ParseValue, IsValue;
    var b := if 4 < |c| && c[0] == 0xEF && c[1] == 0xBB && c[2] == 0xBF then 3 else 0;
    if 4 < |c| {
      BomIs(c);
    }
    var s: nat, e: nat :| Blank(c, b, s) && IsValue(c, s, e, v, 1000) && (v.Number? ==> EndsNumber(c, e))
      && if toTheEnd then e < |c| && Blank(c, e, |c|) && c[|c| - 1] == 0 && end == |c| - 1 else end == e;
    ValueStarts(c, s, e, v, 1000);
    BlankSkips(c, b, s);
    ValueParses(c, s, e, v, 0);
    if toTheEnd {
      BlankToTheEnd(c, e);
    }
  }

  /** A whole buffer is accepted exactly when it is a document; without a need to end there, a number has to be
    * at its end. */
  lemma DocumentsExactly(c: ByteString, toTheEnd: bool, v: Json, end: nat)
    requires toTheEnd || !v.Number? || EndsNumber(c, end)
    ensures ParseWithLength(c, toTheEnd) == Parsed(v, end) <==> IsDocument(c, toTheEnd, v, end)
  {
    hide ParseWithLength, IsDocument;
    if ParseWithLength(c, toTheEnd) == Parsed(v, end) {
      AcceptedDocument(c, toTheEnd);
    }
    if IsDocument(c, toTheEnd, v, end) {
      DocumentParses(c, toTheEnd, v, end);
    }
  }

  // ---- What is refused ----

  /** After a key comes a colon. */
  lemma MissingColonFails(c: ByteString, off: nat, depth: nat, a: nat, b: nat, k: nat, key: ByteString)
    requires off < |c| && c[off] == '{' as int && depth <= 1000
    requires Blank(c, off + 1, a) && IsString(c, a, b, key) && Blank(c, b, k)
    requires k < |c| && c[k] > ' ' as int && c[k] != ':' as int
    ensures ParseValue(c, off, depth).Failed?
  {
    hide ParseString, IsString;
    StringStarts(c, a, b, key);
    BlankSkips(c, off + 1, a);
    BlankSkips(c, a, a);
    StringIs(c, a, b, key);
    BlankSkips(c, b, k);
    LiteralsDiffer(c, off);
    if depth < 1000 {
      assert ParseKey(c, a - 1).Failed?;
      assert ParseMembers(c, a - 1, depth + 1).Failed?;
    }
    assert ParseObject(c, off, depth).Failed?;
  }

  /** After an element comes a comma or the bracket. */
  lemma MissingCommaFails(c: ByteString, off: nat, depth: nat, a: nat, b: nat, k: nat, v: Json)
    requires off < |c| && c[off] == '[' as int && depth < 1000
    requires Blank(c, off + 1, a) && IsValue(c, a, b, v, 999 - depth) && (v.Number? ==> EndsNumber(c, b))
    requires Blank(c, b, k) && k < |c| && c[k] > ' ' as int && c[k] != ',' as int && c[k] != ']' as int
    ensures ParseValue(c, off, depth).Failed?
  {
    hide IsValue, ParseString, ParseNumber, ParseObject;
    ValueStarts(c, a, b, v, 999 - depth);
    BlankSkips(c, off + 1, a);
    BlankSkips(c, a, a);
    ValueParses(c, a, b, v, depth + 1);
    BlankSkips(c, b, k);
    LiteralsDiffer(c, off);
    FailedElement(c, a, b, k, depth + 1);
    assert ParseArray(c, off, depth).Failed?;
  }

  lemma FailedElement(c: ByteString, a: nat, b: nat, k: nat, depth: nat)
    requires 0 < a < |c| && SkipBlanks(c, a) == a && b <= |c| && SkipBlanks(c, b) == k < |c|
    requires ParseValue(c, a, depth).Parsed? && ParseValue(c, a, depth).end == b
    requires c[k] != ',' as int && c[k] != ']' as int
    ensures ParseItems(c, a - 1, depth).Failed?
  {
    hide ParseValue, SkipBlanks;
  }

  /** An array that is cut off has no bracket behind it, and an object no brace. */
  lemma CutOffFails(c: ByteString, off: nat, depth: nat)
    requires off < |c| && depth <= 1000
    requires (c[off] == '[' as int && forall k :: off < k < |c| ==> c[k] != ']' as int)
          || (c[off] == '{' as int && forall k :: off < k < |c| ==> c[k] != '}' as int)
    ensures ParseValue(c, off, depth).Failed?
  {
    hide ParseValue, AreElements, AreMembers;
    AcceptedValue(c, off, depth);
    var r := ParseValue(c, off, depth);
    if r.Parsed? {
      ValueStarts(c, off, r.end, r.value, 1000 - depth);
    }
  }
}
