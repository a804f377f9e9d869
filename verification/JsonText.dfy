/** What the parser makes of a buffer: for every position the value found there and the position after
  * it, or the position at which parsing gives up. */
module JsonText {
  import opened Bytes
  import opened Decimal
  import opened JsonStrings
  import opened JsonTree

  datatype Parsed<+T> = Parsed(value: T, end: nat) | Failed(at: nat)

  /** Bytes up to 32 are blank, NUL among them. Blanks that reach the end of the buffer are not all
    * skipped: the position steps back onto the last one. */
  function SkipBlanks(c: ByteString, i: nat): (j: nat)
    requires i <= |c|
    ensures i <= j <= |c| && (i < |c| ==> j < |c|)
  {
    if i == |c| then i
    else if BlanksEnd(c, i) == |c| then |c| - 1
    else BlanksEnd(c, i)
  }

  function BlanksEnd(c: ByteString, i: nat): (j: nat)
    requires i <= |c|
    ensures i <= j <= |c|
    decreases |c| - i
  {
    if i < |c| && c[i] <= 32 then BlanksEnd(c, i + 1) else i
  }

  function NumberEnd(c: ByteString, i: nat): (j: nat)
    requires i <= |c|
    ensures i <= j <= |c|
    decreases |c| - i
  {
    if i < |c| && IsNumberByte(c[i]) then NumberEnd(c, i + 1) else i
  }

  function ParseNumber(c: ByteString, off: nat): (r: Parsed<Json>)
    requires off <= |c|
    ensures r.Parsed? ==> off < r.end <= |c|
  {
    match Strtod(c[off..NumberEnd(c, off)])
    case NoConversion => Failed(off)
    case Converted(value, used) => Parsed(Number(value), off + used)
  }

  /** The string is what C code sees of the decoded bytes: `\u0000` ends it early. */
  function ParseString(c: ByteString, off: nat): (r: Parsed<ByteString>)
    requires off < |c|
    ensures r.Parsed? ==> off < r.end <= |c| && NulFree(r.value)
  {
    if c[off] != QUOTE then Failed(off + 1)
    else
      match ScanEnd(c, off + 1)
      case None => Failed(off + 1)
      case Some(e) =>
        match DecodeLiteral(c, off + 1, e)
        case BadEscape(at) => Failed(at)
        case Decoded(bytes) => Parsed(CString(bytes), e + 1)
  }

  function ParseValue(c: ByteString, off: nat, depth: nat): (r: Parsed<Json>)
    requires off <= |c|
    ensures r.Parsed? ==> off < r.end <= |c|
    decreases |c| - off, 2
  {
    if At(c, off, NULL_TEXT) then Parsed(Null, off + 4)
    else if At(c, off, FALSE_TEXT) then Parsed(False, off + 5)
    else if At(c, off, TRUE_TEXT) then Parsed(True, off + 4)
    else if off == |c| then Failed(off)
    else if c[off] == QUOTE then
      match ParseString(c, off)
      case Failed(at) => Failed(at)
      case Parsed(text, end) => Parsed(String(text), end)
    else if c[off] == MINUS || IsDigit(c[off]) then ParseNumber(c, off)
    else if c[off] == LBRACKET then ParseArray(c, off, depth)
    else if c[off] == LBRACE then ParseObject(c, off, depth)
    else Failed(off)
  }

  function ParseArray(c: ByteString, off: nat, depth: nat): (r: Parsed<Json>)
    requires off < |c|
    ensures r.Parsed? ==> off < r.end <= |c|
    decreases |c| - off, 1
  {
    if depth >= NESTING_LIMIT || c[off] != LBRACKET then Failed(off)
    else
      var first := SkipBlanks(c, off + 1);
      if first == |c| then Failed(off)
      else if c[first] == RBRACKET then Parsed(Array([]), first + 1)
      else
        match ParseItems(c, first - 1, depth + 1)
        case Failed(at) => Failed(at)
        case Parsed(items, end) => Parsed(Array(items), end)
  }

  /** The elements after the bracket or comma at `before`, and the closing bracket. */
  function ParseItems(c: ByteString, before: nat, depth: nat): (r: Parsed<seq<Json>>)
    requires before < |c|
    ensures r.Parsed? ==> before < r.end <= |c|
    decreases |c| - before, 0
  {
    match ParseValue(c, SkipBlanks(c, before + 1), depth)
    case Failed(at) => Failed(at)
    case Parsed(v, e) =>
      var after := SkipBlanks(c, e);
      if after == |c| then Failed(after)
      else if c[after] == COMMA then
        match ParseItems(c, after, depth)
        case Failed(at) => Failed(at)
        case Parsed(rest, end) => Parsed([v] + rest, end)
      else if c[after] == RBRACKET then Parsed([v], after + 1)
      else Failed(after)
  }

  function ParseObject(c: ByteString, off: nat, depth: nat): (r: Parsed<Json>)
    requires off < |c|
    ensures r.Parsed? ==> off < r.end <= |c|
    decreases |c| - off, 1
  {
    if depth >= NESTING_LIMIT || c[off] != LBRACE then Failed(off)
    else
      var first := SkipBlanks(c, off + 1);
      if first == |c| then Failed(off)
      else if c[first] == RBRACE then Parsed(Object([]), first + 1)
      else
        match ParseMembers(c, first - 1, depth + 1)
        case Failed(at) => Failed(at)
        case Parsed(members, end) => Parsed(Object(members), end)
  }

  /** A key and the position of its value. */
  function ParseKey(c: ByteString, before: nat): (r: Parsed<ByteString>)
    requires before < |c|
    ensures r.Parsed? ==> before < r.end <= |c| && NulFree(r.value)
  {
    if before + 1 == |c| then Failed(before)
    else
      match ParseString(c, SkipBlanks(c, before + 1))
      case Failed(at) => Failed(at)
      case Parsed(key, e) =>
        var colon := SkipBlanks(c, e);
        if colon == |c| || c[colon] != COLON then Failed(colon)
        else Parsed(key, SkipBlanks(c, colon + 1))
  }

  /** The members after the brace or comma at `before`, and the closing brace. */
  function ParseMembers(c: ByteString, before: nat, depth: nat): (r: Parsed<seq<Member>>)
    requires before < |c|
    ensures r.Parsed? ==> before < r.end <= |c|
    decreases |c| - before, 0
  {
    match ParseKey(c, before)
    case Failed(at) => Failed(at)
    case Parsed(key, start) =>
      match ParseValue(c, start, depth)
      case Failed(at) => Failed(at)
      case Parsed(v, e) =>
        var after := SkipBlanks(c, e);
        if after == |c| then Failed(after)
        else if c[after] == COMMA then
          match ParseMembers(c, after, depth)
          case Failed(at) => Failed(at)
          case Parsed(rest, end) => Parsed([Member(key, v)] + rest, end)
        else if c[after] == RBRACE then Parsed([Member(key, v)], after + 1)
        else Failed(after)
  }

  const BOM: ByteString := [0xEF, 0xBB, 0xBF]

  /** A whole buffer: an optional byte order mark, blanks, a value and, on demand, nothing after it but
    * blanks and a NUL. */
  function ParseWithLength(c: ByteString, requireNullTerminated: bool): Parsed<Json> {
    if c == [] then Failed(0)
    else
      var start := SkipBlanks(c, if 4 < |c| && BOM <= c then 3 else 0);
      match ParseValue(c, start, 0)
      case Failed(at) => Failed(at)
      case Parsed(v, e) =>
        if requireNullTerminated then
          var after := SkipBlanks(c, e);
          if after >= |c| || c[after] != NUL then Failed(after) else Parsed(v, after)
        else Parsed(v, e)
  }

  /** A C string is parsed with its terminator. */
  function Parse(text: ByteString): Parsed<Json>
    requires NulFree(text)
  {
    ParseWithLength(text + [NUL], false)
  }

  // ---- What every parsed value is like ----

  /** Whatever the bytes are: failure is reported inside the buffer, and a value is a well-formed tree
    * that keeps within the nesting limit. */
  lemma {:induction false} ParseValueSound(c: ByteString, off: nat, depth: nat)
    requires off <= |c| && depth <= NESTING_LIMIT
    ensures SoundValue(c, depth, ParseValue(c, off, depth))
    decreases |c| - off, 2
  {
    hide ParseArray, ParseObject, ParseString, ParseNumber, At;
    if At(c, off, NULL_TEXT) || At(c, off, FALSE_TEXT) || At(c, off, TRUE_TEXT) || off == |c| {
    } else if c[off] == QUOTE {
      ParseStringFailsInside(c, off);
    } else if c[off] == MINUS || IsDigit(c[off]) {
      NumberIsSound(c, off, depth);
    } else if c[off] == LBRACKET {
      ParseArraySound(c, off, depth);
    } else if c[off] == LBRACE {
      ParseObjectSound(c, off, depth);
    }
  }

  ghost predicate SoundValue(c: ByteString, depth: nat, r: Parsed<Json>) {
    if r.Parsed? then WellFormed(r.value) && depth + Nesting(r.value) <= NESTING_LIMIT else r.at <= |c|
  }

  lemma NumberIsSound(c: ByteString, off: nat, depth: nat)
    requires off <= |c| && depth <= NESTING_LIMIT
    ensures SoundValue(c, depth, ParseNumber(c, off))
  {
  }

  lemma {:induction false} ParseArraySound(c: ByteString, off: nat, depth: nat)
    requires off < |c| && depth <= NESTING_LIMIT
    ensures SoundValue(c, depth, ParseArray(c, off, depth))
    decreases |c| - off, 1
  {
    hide ParseItems, SkipBlanks;
    var first := SkipBlanks(c, off + 1);
    if depth < NESTING_LIMIT && first < |c| && c[first] != RBRACKET {
      ParseItemsSound(c, first - 1, depth + 1);
    }
  }

  lemma {:induction false} ParseObjectSound(c: ByteString, off: nat, depth: nat)
    requires off < |c| && depth <= NESTING_LIMIT
    ensures SoundValue(c, depth, ParseObject(c, off, depth))
    decreases |c| - off, 1
  {
    hide ParseMembers, SkipBlanks;
    var first := SkipBlanks(c, off + 1);
    if depth < NESTING_LIMIT && first < |c| && c[first] != RBRACE {
      ParseMembersSound(c, first - 1, depth + 1);
    }
  }

  lemma ParseStringFailsInside(c: ByteString, off: nat)
    requires off < |c|
    ensures ParseString(c, off).Failed? ==> ParseString(c, off).at <= |c|
  {
    if c[off] == QUOTE && ScanEnd(c, off + 1).Some? {
      DecodeFailsInside(c, off + 1, ScanEnd(c, off + 1).value);
    }
  }

  lemma {:induction false} DecodeFailsInside(c: ByteString, p: nat, e: nat)
    requires e < |c|
    ensures DecodeLiteral(c, p, e).BadEscape? ==> DecodeLiteral(c, p, e).at < e
    decreases |c| - p
  {
    if p < e {
      if c[p] != BACKSLASH {
        DecodeFailsInside(c, p + 1, e);
      } else if Unescape(c, p, e).Some? {
        DecodeFailsInside(c, p + Unescape(c, p, e).value.1, e);
      }
    }
  }

  lemma {:induction false} ParseItemsSound(c: ByteString, before: nat, depth: nat)
    requires before < |c| && depth <= NESTING_LIMIT
    ensures var r := ParseItems(c, before, depth);
      if r.Parsed? then
        |r.value| > 0 && (forall i :: 0 <= i < |r.value| ==> WellFormed(r.value[i]))
        && depth + ItemsNesting(r.value) <= NESTING_LIMIT
      else r.at <= |c|
    decreases |c| - before, 0
  {
    var start := SkipBlanks(c, before + 1);
    ParseValueSound(c, start, depth);
    var v := ParseValue(c, start, depth);
    if v.Parsed? {
      var after := SkipBlanks(c, v.end);
      if after < |c| && c[after] == COMMA {
        ParseItemsSound(c, after, depth);
        var rest := ParseItems(c, after, depth);
        if rest.Parsed? {
          assert ([v.value] + rest.value)[1..] == rest.value;
        }
      }
    }
  }

  lemma {:induction false} ParseMembersSound(c: ByteString, before: nat, depth: nat)
    requires before < |c| && depth <= NESTING_LIMIT
    ensures var r := ParseMembers(c, before, depth);
      if r.Parsed? then
        |r.value| > 0
        && (forall i :: 0 <= i < |r.value| ==> NulFree(r.value[i].key) && WellFormed(r.value[i].value))
        && depth + MembersNesting(r.value) <= NESTING_LIMIT
      else r.at <= |c|
    decreases |c| - before, 0
  {
    if before + 1 < |c| {
      ParseStringFailsInside(c, SkipBlanks(c, before + 1));
    }
    var key := ParseKey(c, before);
    if key.Parsed? {
      ParseValueSound(c, key.end, depth);
      var v := ParseValue(c, key.end, depth);
      if v.Parsed? {
        var after := SkipBlanks(c, v.end);
        if after < |c| && c[after] == COMMA {
          ParseMembersSound(c, after, depth);
          var rest := ParseMembers(c, after, depth);
          if rest.Parsed? {
            assert ([Member(key.value, v.value)] + rest.value)[1..] == rest.value;
          }
        }
      }
    }
  }
}
