/** Parsing printed text gives back the tree that was printed, and stops exactly where the text ends. */
module JsonRoundTrip {
  import opened Bytes
  import opened Decimal
  import opened JsonStrings
  import opened JsonTree
  import opened JsonText

  // ---- Blanks, numbers and strings ----

  lemma {:induction false} BlanksEndAt(c: ByteString, i: nat, j: nat)
    requires i <= j < |c| && (forall k :: i <= k < j ==> c[k] <= 32) && c[j] > 32
    ensures BlanksEnd(c, i) == j
    decreases j - i
  {
    if i < j {
      BlanksEndAt(c, i + 1, j);
    }
  }

  /** Blank text up to `j`, where something visible stands. */
  lemma SkipBlanksTo(c: ByteString, i: nat, j: nat)
    requires i <= j < |c| && (forall k :: i <= k < j ==> c[k] <= 32) && c[j] > 32
    ensures SkipBlanks(c, i) == j
  {
    BlanksEndAt(c, i, j);
  }

  predicate Delimited(c: ByteString, end: nat) {
    end < |c| ==> !IsNumberByte(c[end])
  }

  /** A number token ends at the next delimiter. */
  lemma {:induction false} NumberEndAt(c: ByteString, i: nat, j: nat)
    requires i <= j <= |c| && (forall k :: i <= k < j ==> IsNumberByte(c[k])) && Delimited(c, j)
    ensures NumberEnd(c, i) == j
    decreases j - i
  {
    if i < j {
      NumberEndAt(c, i + 1, j);
    }
  }

  lemma NumberReadsBack(c: ByteString, off: nat, n: int)
    requires At(c, off, PrintInt(n)) && Delimited(c, off + |PrintInt(n)|)
    ensures ParseNumber(c, off) == Parsed(Number(n as real), off + |PrintInt(n)|)
  {
    var text := PrintInt(n);
    forall k | off <= k < off + |text| ensures IsNumberByte(c[k]) {
      AtByte(c, off, text, k - off);
    }
    NumberEndAt(c, off, off + |text|);
    StrtodOfPrintInt(n);
  }

  lemma StringReadsBack(c: ByteString, off: nat, s: ByteString)
    requires NulFree(s) && At(c, off, Quoted(s))
    ensures ParseString(c, off) == Parsed(s, off + |Quoted(s)|)
  {
    hide Escape, ScanEnd, DecodeLiteral;
    assert Quoted(s) == [QUOTE] + (Escape(s) + [QUOTE]);
    AtSplit(c, off, [QUOTE], Escape(s) + [QUOTE]);
    AtByte(c, off, [QUOTE], 0);
    AtSplit(c, off + 1, Escape(s), [QUOTE]);
    AtByte(c, off + 1 + |Escape(s)|, [QUOTE], 0);
    ScanOfEscaped(c, off + 1, s);
    DecodeOfEscaped(c, off + 1, s, off + 1 + |Escape(s)|);
    CStringOfNulFree(s);
  }

  // ---- Values ----

  lemma RenderStartsVisible(v: Json, format: bool, depth: nat)
    ensures |Render(v, format, depth)| > 0 && Render(v, format, depth)[0] > 32
    ensures v.String? || v.Number? || v.Array? || v.Object? ==>
      var b := Render(v, format, depth)[0];
      b == match v
           case String(_) => QUOTE
           case Array(_) => LBRACKET
           case Object(_) => LBRACE
           case Number(value) => PrintInt(IntOf(value))[0]
           case _ => NUL
  {
  }

  /** The first byte tells the three literals from everything else. */
  lemma LiteralsDiffer(c: ByteString, off: nat)
    ensures At(c, off, NULL_TEXT) ==> off < |c| && c[off] == 0x6E
    ensures At(c, off, FALSE_TEXT) ==> off < |c| && c[off] == 0x66
    ensures At(c, off, TRUE_TEXT) ==> off < |c| && c[off] == 0x74
  {
    hide At;
    if At(c, off, NULL_TEXT) { AtByte(c, off, NULL_TEXT, 0); }
    if At(c, off, FALSE_TEXT) { AtByte(c, off, FALSE_TEXT, 0); }
    if At(c, off, TRUE_TEXT) { AtByte(c, off, TRUE_TEXT, 0); }
  }

  lemma {:induction false} ValueReadsBack(c: ByteString, off: nat, v: Json, format: bool, depth: nat, parseDepth: nat)
    requires Printable(v) && parseDepth + Nesting(v) <= NESTING_LIMIT
    requires At(c, off, Render(v, format, depth)) && Delimited(c, off + |Render(v, format, depth)|)
    ensures ParseValue(c, off, parseDepth) == Parsed(v, off + |Render(v, format, depth)|)
    decreases v, 2
  {
    hide At, ParseArray, ParseObject, ParseString, ParseNumber, ArrayText, ObjectText, ItemsNesting, MembersNesting;
    LiteralsDiffer(c, off);
    RenderStartsVisible(v, format, depth);
    AtByte(c, off, Render(v, format, depth), 0);
    match v
    case Number(value) =>
      NumberReadsBack(c, off, IntOf(value));
    case String(text) =>
      StringReadsBack(c, off, text);
    case Array(items) =>
      ArrayReadsBack(c, off, items, format, depth, parseDepth);
    case Object(members) =>
      ObjectReadsBack(c, off, members, format, depth, parseDepth);
    case _ =>
  }

  lemma {:induction false} ArrayReadsBack(
    c: ByteString, off: nat, items: seq<Json>, format: bool, depth: nat, parseDepth: nat)
    requires PrintableItems(items) && parseDepth + 1 + ItemsNesting(items) <= NESTING_LIMIT
    requires At(c, off, ArrayText(items, format, depth))
    ensures ParseArray(c, off, parseDepth) == Parsed(Array(items), off + |ArrayText(items, format, depth)|)
    decreases items, 1
  {
    hide At, ParseItems, RenderItems, ItemsNesting, PrintableItems, SkipBlanks;
    var text := RenderItems(items, format, depth + 1);
    assert [LBRACKET] + text + [RBRACKET] == [LBRACKET] + (text + [RBRACKET]);
    AtSplit(c, off, [LBRACKET], text + [RBRACKET]);
    AtByte(c, off, [LBRACKET], 0);
    AtSplit(c, off + 1, text, [RBRACKET]);
    AtByte(c, off + 1 + |text|, [RBRACKET], 0);
    if items == [] {
      RenderNothing(format, depth + 1);
      SkipBlanksTo(c, off + 1, off + 1);
    } else {
      ItemsStartVisible(c, off + 1, items, format, depth + 1);
      SkipBlanksTo(c, off + 1, off + 1);
      ItemsReadBack(c, off, off + 1, items, format, depth + 1, parseDepth + 1);
    }
  }

  lemma ItemsStartVisible(c: ByteString, p: nat, items: seq<Json>, format: bool, depth: nat)
    requires items != [] && At(c, p, RenderItems(items, format, depth))
    ensures p < |c| && c[p] > 32 && c[p] != RBRACKET
  {
    RenderStartsVisible(items[0], format, depth);
    var text := RenderItems(items, format, depth);
    assert text[0] == Render(items[0], format, depth)[0];
    AtByte(c, p, text, 0);
  }

  lemma {:induction false} ItemsReadBack(
    c: ByteString, before: nat, p: nat, items: seq<Json>, format: bool, depth: nat, parseDepth: nat)
    requires PrintableItems(items) && items != [] && parseDepth + ItemsNesting(items) <= NESTING_LIMIT
    requires At(c, p, RenderItems(items, format, depth))
    requires var end := p + |RenderItems(items, format, depth)|; end < |c| && c[end] == RBRACKET
    requires before < |c| && SkipBlanks(c, before + 1) == p
    ensures ParseItems(c, before, parseDepth)
         == Parsed(items, p + |RenderItems(items, format, depth)| + 1)
    decreases items, 0
  {
    hide At, Render, RenderItems, ParseValue, ParseItems, SkipBlanks;
    hide ItemsNesting, Nesting, WellFormed, IntNumbers, Delimited;
    var end := FirstItemStands(c, p, items, format, depth, parseDepth);
    ValueReadsBack(c, p, items[0], format, depth, parseDepth);
    ItemsStep(c, before, parseDepth, items[0], p, end, end);
    if |items| == 1 {
      assert items == [items[0]];
    } else {
      ItemsReadBack(c, end, end + |Separator(format)|, items[1..], format, depth, parseDepth);
      assert [items[0]] + items[1..] == items;
    }
  }

  /** Where the first element stands, where it ends and what comes next. */
  lemma FirstItemStands(c: ByteString, p: nat, items: seq<Json>, format: bool, depth: nat, parseDepth: nat)
    returns (end: nat)
    requires items != [] && At(c, p, RenderItems(items, format, depth))
    requires var close := p + |RenderItems(items, format, depth)|; close < |c| && c[close] == RBRACKET
    requires parseDepth + ItemsNesting(items) <= NESTING_LIMIT
    ensures end == p + |Render(items[0], format, depth)| && At(c, p, Render(items[0], format, depth))
    ensures end < |c| && Delimited(c, end) && SkipBlanks(c, end) == end
    ensures parseDepth + Nesting(items[0]) <= NESTING_LIMIT
    ensures |items| == 1 ==> c[end] == RBRACKET && end == p + |RenderItems(items, format, depth)|
    ensures |items| > 1 ==>
      var next := end + |Separator(format)|;
      && c[end] == COMMA && SkipBlanks(c, end + 1) == next
      && At(c, next, RenderItems(items[1..], format, depth))
      && next + |RenderItems(items[1..], format, depth)| == p + |RenderItems(items, format, depth)|
      && parseDepth + ItemsNesting(items[1..]) <= NESTING_LIMIT
  {
    hide At, Render, RenderItems, SkipBlanks, ItemsNesting, Nesting, Separator;
    RenderItemsStep(items, 0, format, depth);
    assert items[0..] == items;
    var first := Render(items[0], format, depth);
    end := p + |first|;
    if |items| == 1 {
      RenderNothing(format, depth);
      assert items[1..] == [];
      assert RenderItems(items, format, depth) == first;
    } else {
      var sep, rest := Separator(format), RenderItems(items[1..], format, depth);
      AtSplit(c, p, first + sep, rest);
      AtSplit(c, p, first, sep);
      ItemsStartVisible(c, end + |sep|, items[1..], format, depth);
      SeparatorStands(c, end, format);
    }
    SkipBlanksTo(c, end, end);
  }

  /** A comma, and a blank if there is one, in front of something visible. */
  lemma SeparatorStands(c: ByteString, p: nat, format: bool)
    requires At(c, p, Separator(format))
    requires p + |Separator(format)| < |c| && c[p + |Separator(format)|] > 32
    ensures c[p] == COMMA && SkipBlanks(c, p + 1) == p + |Separator(format)|
  {
    hide At;
    var sep := Separator(format);
    AtByte(c, p, sep, 0);
    AtByte(c, p, sep, |sep| - 1);
    SkipBlanksTo(c, p + 1, p + |sep|);
  }

  lemma ItemsStep(c: ByteString, before: nat, parseDepth: nat, v: Json, start: nat, e: nat, after: nat)
    requires before < |c| && SkipBlanks(c, before + 1) == start <= |c|
    requires ParseValue(c, start, parseDepth) == Parsed(v, e) && e <= |c| && SkipBlanks(c, e) == after < |c|
    ensures c[after] == RBRACKET ==> ParseItems(c, before, parseDepth) == Parsed([v], after + 1)
    ensures c[after] == COMMA ==>
      match ParseItems(c, after, parseDepth)
      case Failed(at) => true
      case Parsed(rest, end) => ParseItems(c, before, parseDepth) == Parsed([v] + rest, end)
  {
    hide ParseValue, SkipBlanks;
  }

  lemma {:induction false} ObjectReadsBack(
    c: ByteString, off: nat, members: seq<Member>, format: bool, depth: nat, parseDepth: nat)
    requires PrintableMembers(members) && parseDepth + 1 + MembersNesting(members) <= NESTING_LIMIT
    requires At(c, off, ObjectText(members, format, depth))
    ensures ParseObject(c, off, parseDepth) == Parsed(Object(members), off + |ObjectText(members, format, depth)|)
    decreases members, 1
  {
    hide At, ParseObject, ParseMembers, RenderMembers, MembersNesting, ObjectOpen, ObjectClose, SkipBlanks;
    hide PrintableMembers;
    var open, text, close := ObjectOpen(format), RenderMembers(members, format, depth + 1), ObjectClose(format, depth);
    var p := off + |open|;
    AtSplit(c, off, open + text, close);
    AtSplit(c, off, open, text);
    OpenStands(c, off, format);
    if members == [] {
      RenderNothing(format, depth + 1);
      CloseStands(c, p, format, depth);
      SkipBlanksTo(c, off + 1, p + |close| - 1);
      EmptyObjectStep(c, off, parseDepth, p + |close| - 1);
    } else {
      var quote := FirstKeyStands(c, off, p, members, format, depth + 1);
      MembersReadBack(c, quote - 1, p, members, format, depth + 1, parseDepth + 1);
      ObjectStep(c, off, parseDepth, quote, members, p + |text| + |close|);
    }
  }

  /** The quote of the first key, behind blanks only. */
  lemma FirstKeyStands(c: ByteString, off: nat, p: nat, members: seq<Member>, format: bool, depth: nat)
    returns (quote: nat)
    requires members != [] && At(c, p, RenderMembers(members, format, depth))
    requires off < p && forall k :: off < k < p ==> k < |c| && c[k] <= 32
    ensures quote == p + |Indent(format, depth)| < |c| && c[quote] == QUOTE
    ensures SkipBlanks(c, off + 1) == quote && SkipBlanks(c, quote) == quote
  {
    hide At, RenderMembers;
    KeyStands(c, p, members, format, depth);
    quote := p + |Indent(format, depth)|;
    SkipBlanksTo(c, off + 1, quote);
    SkipBlanksTo(c, quote, quote);
  }

  lemma OpenStands(c: ByteString, off: nat, format: bool)
    requires At(c, off, ObjectOpen(format))
    ensures off + |ObjectOpen(format)| <= |c| && |ObjectOpen(format)| > 0 && c[off] == LBRACE
    ensures forall k :: off < k < off + |ObjectOpen(format)| ==> c[k] <= 32
  {
    AtByte(c, off, ObjectOpen(format), 0);
    AtByte(c, off, ObjectOpen(format), |ObjectOpen(format)| - 1);
  }

  lemma EmptyObjectStep(c: ByteString, off: nat, parseDepth: nat, first: nat)
    requires off < |c| && c[off] == LBRACE && parseDepth < NESTING_LIMIT
    requires SkipBlanks(c, off + 1) == first < |c| && c[first] == RBRACE
    ensures ParseObject(c, off, parseDepth) == Parsed(Object([]), first + 1)
  {
  }

  lemma ObjectStep(c: ByteString, off: nat, parseDepth: nat, first: nat, members: seq<Member>, end: nat)
    requires off < |c| && c[off] == LBRACE && parseDepth < NESTING_LIMIT
    requires SkipBlanks(c, off + 1) == first < |c| && c[first] != RBRACE && first > 0
    requires ParseMembers(c, first - 1, parseDepth + 1) == Parsed(members, end)
    ensures ParseObject(c, off, parseDepth) == Parsed(Object(members), end)
  {
  }

  /** The closing line: blanks, then the brace. */
  lemma CloseStands(c: ByteString, p: nat, format: bool, depth: nat)
    requires At(c, p, ObjectClose(format, depth))
    ensures var brace := p + |ObjectClose(format, depth)| - 1;
      brace < |c| && c[brace] == RBRACE && forall k :: p <= k < brace ==> c[k] <= 32
  {
    var text := ObjectClose(format, depth);
    AtByte(c, p, text, |text| - 1);
    forall k | p <= k < p + |text| - 1 ensures c[k] <= 32 {
      AtByte(c, p, text, k - p);
    }
  }

  /** The first line of the members: blanks, then the quote of the key. */
  lemma KeyStands(c: ByteString, p: nat, members: seq<Member>, format: bool, depth: nat)
    requires members != [] && At(c, p, RenderMembers(members, format, depth))
    ensures var quote := p + |Indent(format, depth)|;
      quote < |c| && c[quote] == QUOTE && forall k :: p <= k < quote ==> c[k] <= 32
  {
    hide At, RenderMembers, Render, KeyText, MembersNesting;
    RenderMembersStep(members, 0, format, depth);
    assert members[0..] == members;
    var m, end := members[0], MemberEnd(format, 1 == |members|);
    AtSplit(c, p, RenderMember(m, format, depth) + end, RenderMembers(members[1..], format, depth));
    AtSplit(c, p, RenderMember(m, format, depth), end);
    AtSplit(c, p, KeyText(m.key, format, depth), Render(m.value, format, depth));
    KeyTextStands(c, p, m.key, format, depth);
  }

  lemma KeyTextStands(c: ByteString, p: nat, key: ByteString, format: bool, depth: nat)
    requires At(c, p, KeyText(key, format, depth))
    ensures var quote := p + |Indent(format, depth)|;
      quote < |c| && c[quote] == QUOTE && forall k :: p <= k < quote ==> c[k] <= 32
  {
    hide At, Escape;
    var indent := Indent(format, depth);
    AtSplit(c, p, indent + Quoted(key), KeyEnd(format));
    AtSplit(c, p, indent, Quoted(key));
    AtByte(c, p + |indent|, Quoted(key), 0);
    forall k | p <= k < p + |indent| ensures c[k] <= 32 {
      AtByte(c, p, indent, k - p);
    }
  }

  /** A key, its colon and the blank after it. */
  lemma KeyReadsBack(c: ByteString, before: nat, p: nat, key: ByteString, format: bool, depth: nat)
    requires NulFree(key) && At(c, p, KeyText(key, format, depth))
    requires before + 1 < |c| && SkipBlanks(c, before + 1) == p + |Indent(format, depth)|
    requires var start := p + |KeyText(key, format, depth)|; start < |c| && c[start] > 32
    ensures ParseKey(c, before) == Parsed(key, p + |KeyText(key, format, depth)|)
  {
    hide At, Quoted, ParseString, SkipBlanks;
    var indent, quoted, end := Indent(format, depth), Quoted(key), KeyEnd(format);
    Assoc(indent, quoted, end);
    AtSplit(c, p, indent, quoted + end);
    AtSplit(c, p + |indent|, quoted, end);
    var colon := p + |indent| + |quoted|;
    AtByte(c, colon, end, 0);
    StringReadsBack(c, p + |indent|, key);
    SkipBlanksTo(c, colon, colon);
    if format {
      AtByte(c, colon, end, 1);
    }
    SkipBlanksTo(c, colon + 1, colon + |end|);
  }

  lemma {:induction false} MembersReadBack(
    c: ByteString, before: nat, p: nat, members: seq<Member>, format: bool, depth: nat, parseDepth: nat)
    requires PrintableMembers(members) && members != [] && parseDepth + MembersNesting(members) <= NESTING_LIMIT
    requires depth > 0 && At(c, p, RenderMembers(members, format, depth))
    requires At(c, p + |RenderMembers(members, format, depth)|, ObjectClose(format, depth - 1))
    requires before + 1 < |c| && SkipBlanks(c, before + 1) == p + |Indent(format, depth)|
    ensures ParseMembers(c, before, parseDepth)
         == Parsed(members, p + |RenderMembers(members, format, depth)| + |ObjectClose(format, depth - 1)|)
    decreases members, 0
  {
    hide At, Render, RenderMember, RenderMembers, ParseValue, ParseKey, ParseMembers, SkipBlanks;
    hide MembersNesting, Nesting, WellFormed, IntNumbers, ObjectClose, KeyText, Delimited;
    var m := members[0];
    var end := FirstMemberStands(c, p, members, format, depth, parseDepth);
    MemberReadsBack(c, before, p, m, format, depth, parseDepth);
    if |members| == 1 {
      LastMemberEnds(c, end, format, depth - 1);
      MembersStep(c, before, parseDepth, m, p + |KeyText(m.key, format, depth)|, end,
                  end + |MemberEnd(format, true)| + |ObjectClose(format, depth - 1)| - 1);
      assert members == [m];
    } else {
      MembersReadBack(c, end, end + |MemberEnd(format, false)|, members[1..], format, depth, parseDepth);
      MembersStep(c, before, parseDepth, m, p + |KeyText(m.key, format, depth)|, end, end);
      assert [m] + members[1..] == members;
    }
  }

  /** Where the first member stands, where it ends and what comes next. */
  lemma FirstMemberStands(c: ByteString, p: nat, members: seq<Member>, format: bool, depth: nat, parseDepth: nat)
    returns (end: nat)
    requires members != [] && At(c, p, RenderMembers(members, format, depth))
    requires depth > 0 && At(c, p + |RenderMembers(members, format, depth)|, ObjectClose(format, depth - 1))
    requires parseDepth + MembersNesting(members) <= NESTING_LIMIT
    ensures end == p + |RenderMember(members[0], format, depth)| && At(c, p, RenderMember(members[0], format, depth))
    ensures Delimited(c, end)
    ensures parseDepth + Nesting(members[0].value) <= NESTING_LIMIT
    ensures |members| == 1 ==>
      && At(c, end, MemberEnd(format, true)) && At(c, end + |MemberEnd(format, true)|, ObjectClose(format, depth - 1))
      && end + |MemberEnd(format, true)| == p + |RenderMembers(members, format, depth)|
    ensures |members| > 1 ==>
      var next := end + |MemberEnd(format, false)|;
      && end + 1 < |c| && c[end] == COMMA && SkipBlanks(c, end) == end
      && SkipBlanks(c, end + 1) == next + |Indent(format, depth)|
      && At(c, next, RenderMembers(members[1..], format, depth))
      && next + |RenderMembers(members[1..], format, depth)| == p + |RenderMembers(members, format, depth)|
      && parseDepth + MembersNesting(members[1..]) <= NESTING_LIMIT
  {
    hide At, Render, RenderMember, RenderMembers, SkipBlanks, ObjectClose, MembersNesting, Nesting, Indent;
    RenderMembersStep(members, 0, format, depth);
    assert members[0..] == members;
    var last := |members| == 1;
    var member, sep := RenderMember(members[0], format, depth), MemberEnd(format, last);
    end := p + |member|;
    AtSplit(c, p, member + sep, RenderMembers(members[1..], format, depth));
    AtSplit(c, p, member, sep);
    if last {
      RenderNothing(format, depth);
      assert members[1..] == [];
      LastMemberEnds(c, end, format, depth - 1);
    } else {
      AtByte(c, end, sep, 0);
      AtByte(c, end, sep, |sep| - 1);
      KeyStands(c, end + |sep|, members[1..], format, depth);
      SkipBlanksTo(c, end, end);
      SkipBlanksTo(c, end + 1, end + |sep| + |Indent(format, depth)|);
    }
  }

  lemma MembersStep(c: ByteString, before: nat, parseDepth: nat, m: Member, start: nat, e: nat, after: nat)
    requires before < |c| && ParseKey(c, before) == Parsed(m.key, start) && start <= |c|
    requires ParseValue(c, start, parseDepth) == Parsed(m.value, e) && e <= |c| && SkipBlanks(c, e) == after < |c|
    ensures c[after] == RBRACE ==> ParseMembers(c, before, parseDepth) == Parsed([m], after + 1)
    ensures c[after] == COMMA ==>
      match ParseMembers(c, after, parseDepth)
      case Failed(at) => true
      case Parsed(rest, end) => ParseMembers(c, before, parseDepth) == Parsed([m] + rest, end)
  {
    hide ParseValue, ParseKey, SkipBlanks;
  }

  lemma {:induction false} MemberReadsBack(
    c: ByteString, before: nat, p: nat, m: Member, format: bool, depth: nat, parseDepth: nat)
    requires NulFree(m.key) && Printable(m.value) && parseDepth + Nesting(m.value) <= NESTING_LIMIT
    requires At(c, p, RenderMember(m, format, depth)) && Delimited(c, p + |RenderMember(m, format, depth)|)
    requires before + 1 < |c| && SkipBlanks(c, before + 1) == p + |Indent(format, depth)|
    ensures ParseKey(c, before) == Parsed(m.key, p + |KeyText(m.key, format, depth)|)
    ensures ParseValue(c, p + |KeyText(m.key, format, depth)|, parseDepth)
         == Parsed(m.value, p + |RenderMember(m, format, depth)|)
    decreases m, 3
  {
    hide At, ParseValue, ParseKey, Nesting, WellFormed, IntNumbers, SkipBlanks, KeyText, Render;
    var key, text := KeyText(m.key, format, depth), Render(m.value, format, depth);
    AtSplit(c, p, key, text);
    RenderStartsVisible(m.value, format, depth);
    AtByte(c, p + |key|, text, 0);
    KeyReadsBack(c, before, p, m.key, format, depth);
    ValueReadsBack(c, p + |key|, m.value, format, depth, parseDepth);
  }

  lemma LastMemberEnds(c: ByteString, end: nat, format: bool, depth: nat)
    requires At(c, end, MemberEnd(format, true)) && At(c, end + |MemberEnd(format, true)|, ObjectClose(format, depth))
    ensures var brace := end + |MemberEnd(format, true)| + |ObjectClose(format, depth)| - 1;
      SkipBlanks(c, end) == brace < |c| && c[brace] == RBRACE
    ensures Delimited(c, end)
  {
    CloseStands(c, end + |MemberEnd(format, true)|, format, depth);
    if format {
      AtByte(c, end, MemberEnd(format, true), 0);
    }
    SkipBlanksTo(c, end, end + |MemberEnd(format, true)| + |ObjectClose(format, depth)| - 1);
  }

  // ---- Whole texts ----

  /** Printing then parsing is the identity on every tree of ints and C strings that nests at most
    * 1000 deep, formatted or not; with a terminator demanded as well as without. */
  lemma RoundTrip(v: Json, format: bool)
    requires Printable(v) && Nesting(v) <= NESTING_LIMIT
    ensures NulFree(Render(v, format, 0))
    ensures Parse(Render(v, format, 0)) == Parsed(v, |Render(v, format, 0)|)
    ensures ParseWithLength(Render(v, format, 0), false) == Parsed(v, |Render(v, format, 0)|)
    ensures ParseWithLength(Render(v, format, 0) + [NUL], true) == Parsed(v, |Render(v, format, 0)|)
  {
    var text := Render(v, format, 0);
    RenderIsText(v, format, 0);
    WholeReadsBack(text, v, format);
    assert (text + [NUL])[..|text|] == text;
    WholeReadsBack(text + [NUL], v, format);
    assert SkipBlanks(text + [NUL], |text|) == |text|;
  }

  lemma WholeReadsBack(c: ByteString, v: Json, format: bool)
    requires Printable(v) && Nesting(v) <= NESTING_LIMIT
    requires At(c, 0, Render(v, format, 0)) && Delimited(c, |Render(v, format, 0)|)
    ensures ParseWithLength(c, false) == Parsed(v, |Render(v, format, 0)|)
    ensures ParseValue(c, 0, 0) == Parsed(v, |Render(v, format, 0)|) && SkipBlanks(c, 0) == 0
    ensures !(BOM <= c)
  {
    hide ParseValue, Render;
    RenderStartsVisible(v, format, 0);
    NotBom(v, format);
    AtByte(c, 0, Render(v, format, 0), 0);
    SkipBlanksTo(c, 0, 0);
    ValueReadsBack(c, 0, v, format, 0, 0);
  }

  lemma NotBom(v: Json, format: bool)
    ensures |Render(v, format, 0)| > 0 && Render(v, format, 0)[0] != 0xEF
  {
  }

  /** Whatever text a tree of ints was parsed from, printing it and parsing again changes nothing. */
  lemma ReparseIsStable(c: ByteString, format: bool)
    requires ParseWithLength(c, false).Parsed? && IntNumbers(ParseWithLength(c, false).value)
    ensures var v := ParseWithLength(c, false).value;
      NulFree(Render(v, format, 0)) && Parse(Render(v, format, 0)) == Parsed(v, |Render(v, format, 0)|)
  {
    ParseValueSound(c, SkipBlanks(c, if 4 < |c| && BOM <= c then 3 else 0), 0);
    RoundTrip(ParseWithLength(c, false).value, format);
  }
}
