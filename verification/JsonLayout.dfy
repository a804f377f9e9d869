/** The printed text, character by character: what stands where, and where the blanks are. */
module JsonLayout {
  import opened Bytes
  import opened Decimal
  import opened JsonStrings
  import opened JsonTree

  // ---- Strings ----

  function HexLetter(d: nat): Byte
    requires d < 16
  {
    Ascii("0123456789abcdef")[d]
  }

  /** How a byte is written inside a string. */
  function EscapedByte(b: Byte): ByteString {
    if b == '\"' as int then Ascii("\\\"")
    else if b == '\\' as int then Ascii("\\\\")
    else if b == 8 then Ascii("\\b")
    else if b == 12 then Ascii("\\f")
    else if b == '\n' as int then Ascii("\\n")
    else if b == '\r' as int then Ascii("\\r")
    else if b == '\t' as int then Ascii("\\t")
    else if b < 32 then Ascii("\\u00") + [HexLetter(b / 16), HexLetter(b % 16)]
    else [b]
  }

  function Escaped(s: ByteString): ByteString {
    if s == [] then [] else EscapedByte(s[0]) + Escaped(s[1..])
  }

  lemma EscapeByteIs(b: Byte)
    ensures EscapeByte(b) == EscapedByte(b)
  {
    assert LowerHex(b / 16) == HexLetter(b / 16) && LowerHex(b % 16) == HexLetter(b % 16);
  }

  lemma {:induction false} EscapeIs(s: ByteString)
    ensures Escape(s) == Escaped(s)
  {
    if s != [] {
      EscapeByteIs(s[0]);
      EscapeIs(s[1..]);
    }
  }

  function InQuotes(s: ByteString): ByteString {
    Ascii("\"") + Escaped(s) + Ascii("\"")
  }

  // ---- Numbers ----

  predicate AllDigits(t: ByteString) {
    forall i :: 0 <= i < |t| ==> '0' as int <= t[i] <= '9' as int
  }

  /** What the decimal digits say, each at its place. */
  function Places(digits: ByteString): nat
    requires AllDigits(digits)
  {
    if digits == [] then 0
    else
      var first: int := digits[0];
      var digit: nat := first - '0' as int;
      digit * Power10(|digits| - 1) + Places(digits[1..])
  }

  /** An int in decimal: a minus sign if it is negative, no leading zero. */
  ghost predicate Numeral(t: ByteString, n: int) {
    var digits := if n < 0 then t[if t == [] then 0 else 1..] else t;
    && (n < 0 ==> t != [] && t[0] == '-' as int)
    && digits != [] && AllDigits(digits)
    && (digits[0] == '0' as int ==> |digits| == 1)
    && Places(digits) == if n < 0 then -n else n
  }

  lemma {:induction false} DigitsAreNumeral(n: nat)
    ensures Numeral(DigitsOf(n), n)
  {
    if n >= 10 {
      DigitsAreNumeral(n / 10);
      PlacesAppend(DigitsOf(n / 10), n % 10);
      OneDigit(DigitsOf(n / 10));
    } else {
      assert DigitsOf(n)[1..] == [];
    }
  }

  lemma OneDigit(digits: ByteString)
    requires AllDigits(digits)
    ensures |digits| == 1 && digits[0] == '0' as int ==> Places(digits) == 0
  {
  }

  lemma {:induction false} PlacesAppend(digits: ByteString, d: nat)
    requires d < 10 && AllDigits(digits)
    ensures var last: Byte := '0' as int + d; Places(digits + [last]) == 10 * Places(digits) + d
  {
    var last: Byte := '0' as int + d;
    if digits == [] {
      assert [last][1..] == [];
      assert ([] + [last])[0] == last;
    } else {
      PlacesAppend(digits[1..], d);
      assert (digits + [last])[1..] == digits[1..] + [last];
      var first: int := digits[0];
      assert Power10(|digits|) == 10 * Power10(|digits| - 1);
      TenTimes(first - '0' as int, Power10(|digits| - 1));
    }
  }

  lemma TenTimes(a: int, p: int)
    ensures a * (10 * p) == 10 * (a * p)
  {
  }

  lemma PrintIntIs(n: int)
    ensures Numeral(PrintInt(n), n)
  {
    DigitsAreNumeral(if n < 0 then -n else n);
    if n < 0 {
      assert PrintInt(n)[1..] == DigitsOf(-n);
    }
  }

  // ---- The whole text ----

  /** Without blanks. */
  function Compact(v: Json): ByteString
    decreases v, 1
  {
    match v
    case Null => Ascii("null")
    case False => Ascii("false")
    case True => Ascii("true")
    case Number(value) => PrintInt(IntOf(value))
    case String(text) => InQuotes(text)
    case Array(items) => Ascii("[") + CompactItems(items) + Ascii("]")
    case Object(members) => Ascii("{") + CompactMembers(members) + Ascii("}")
  }

  function CompactItems(items: seq<Json>): ByteString
    decreases items, 0
  {
    if items == [] then []
    else Compact(items[0]) + (if |items| > 1 then Ascii(",") else []) + CompactItems(items[1..])
  }

  function CompactMembers(members: seq<Member>): ByteString
    decreases members, 0
  {
    if members == [] then []
    else
      InQuotes(members[0].key) + Ascii(":") + Compact(members[0].value)
      + (if |members| > 1 then Ascii(",") else []) + CompactMembers(members[1..])
  }

  /** `depth` tabs. */
  function TabStops(depth: nat): ByteString {
    if depth == 0 then [] else Ascii("\t") + TabStops(depth - 1)
  }

  /** With blanks: a space behind each comma of an array, a tab behind the colon of a key, a line for each
    * member and for the closing brace, and a tab per level in front of a key and of a closing brace. */
  function Pretty(v: Json, depth: nat): ByteString
    decreases v, 1
  {
    match v
    case Null => Ascii("null")
    case False => Ascii("false")
    case True => Ascii("true")
    case Number(value) => PrintInt(IntOf(value))
    case String(text) => InQuotes(text)
    case Array(items) => Ascii("[") + PrettyItems(items, depth + 1) + Ascii("]")
    case Object(members) => Ascii("{\n") + PrettyMembers(members, depth + 1) + TabStops(depth) + Ascii("}")
  }

  function PrettyItems(items: seq<Json>, depth: nat): ByteString
    decreases items, 0
  {
    if items == [] then []
    else Pretty(items[0], depth) + (if |items| > 1 then Ascii(", ") else []) + PrettyItems(items[1..], depth)
  }

  function PrettyMembers(members: seq<Member>, depth: nat): ByteString
    decreases members, 0
  {
    if members == [] then []
    else
      TabStops(depth) + InQuotes(members[0].key) + Ascii(":\t") + Pretty(members[0].value, depth)
      + (if |members| > 1 then Ascii(",\n") else Ascii("\n")) + PrettyMembers(members[1..], depth)
  }

  function Layout(v: Json, format: bool, depth: nat): ByteString {
    if format then Pretty(v, depth) else Compact(v)
  }

  function LayoutItems(items: seq<Json>, format: bool, depth: nat): ByteString {
    if format then PrettyItems(items, depth) else CompactItems(items)
  }

  function LayoutMembers(members: seq<Member>, format: bool, depth: nat): ByteString {
    if format then PrettyMembers(members, depth) else CompactMembers(members)
  }

  lemma {:induction false} TabsAre(n: nat)
    ensures Tabs(n) == TabStops(n)
  {
    if n > 0 {
      TabsAre(n - 1);
      assert Tabs(n) == [TAB] + Tabs(n - 1);
    }
  }

  lemma QuotedIs(s: ByteString)
    ensures Quoted(s) == InQuotes(s)
  {
    EscapeIs(s);
  }

  function Open(format: bool): ByteString {
    if format then Ascii("{\n") else Ascii("{")
  }

  function Close(format: bool, depth: nat): ByteString {
    if format then TabStops(depth) + Ascii("}") else Ascii("}")
  }

  lemma BracesAre(format: bool, depth: nat)
    ensures ObjectOpen(format) == Open(format) && ObjectClose(format, depth) == Close(format, depth)
  {
    hide Tabs, TabStops;
    TabsAre(depth);
  }

  lemma ObjectIs(members: seq<Member>, format: bool, depth: nat)
    ensures Layout(Object(members), format, depth)
         == Open(format) + LayoutMembers(members, format, depth + 1) + Close(format, depth)
  {
    hide PrettyMembers, CompactMembers, TabStops, Ascii;
    if format {
      Regrouped(Ascii("{\n") + PrettyMembers(members, depth + 1), TabStops(depth), Ascii("}"));
    }
  }

  lemma Regrouped(a: ByteString, b: ByteString, c: ByteString)
    ensures a + (b + c) == (a + b) + c
  {
  }

  /** The printed text is laid out like this, for every value. */
  lemma {:induction false} RenderIs(v: Json, format: bool, depth: nat)
    ensures Render(v, format, depth) == Layout(v, format, depth)
    decreases v, 1
  {
    hide RenderItems, RenderMembers, CompactItems, CompactMembers, PrettyItems, PrettyMembers, TabStops;
    hide ObjectOpen, ObjectClose, Open, Close, Quoted, InQuotes;
    match v
    case String(text) => QuotedIs(text);
    case Array(items) => RenderItemsIs(items, format, depth + 1);
    case Object(members) =>
      RenderMembersIs(members, format, depth + 1);
      BracesAre(format, depth);
      ObjectIs(members, format, depth);
    case _ =>
  }

  lemma {:induction false} RenderItemsIs(items: seq<Json>, format: bool, depth: nat)
    ensures RenderItems(items, format, depth) == LayoutItems(items, format, depth)
    decreases items, 0
  {
    hide Render, Compact, Pretty;
    if items != [] {
      RenderIs(items[0], format, depth);
      RenderItemsIs(items[1..], format, depth);
      RenderItemsStep(items, 0, format, depth);
      assert items[0..] == items;
    }
  }

  lemma {:induction false} RenderMembersIs(members: seq<Member>, format: bool, depth: nat)
    ensures RenderMembers(members, format, depth) == LayoutMembers(members, format, depth)
    decreases members, 0
  {
    hide Render, Compact, Pretty, Quoted, InQuotes, Indent, TabStops, RenderMembers, KeyEnd, MemberEnd, Ascii;
    if members == [] {
      RenderNothing(format, depth);
    } else {
      var m, rest := members[0], RenderMembers(members[1..], format, depth);
      RenderIs(m.value, format, depth);
      RenderMembersIs(members[1..], format, depth);
      QuotedIs(m.key);
      IndentIs(format, depth);
      EndsAre(format, |members| == 1);
      RenderMembersStep(members, 0, format, depth);
      assert members[0..] == members;
      MemberPieces(Indent(format, depth), Quoted(m.key), KeyEnd(format), Render(m.value, format, depth),
                   MemberEnd(format, |members| == 1), rest);
    }
  }

  lemma IndentIs(format: bool, depth: nat)
    ensures Indent(format, depth) == if format then TabStops(depth) else []
  {
    TabsAre(depth);
  }

  lemma EndsAre(format: bool, last: bool)
    ensures KeyEnd(format) == if format then Ascii(":\t") else Ascii(":")
    ensures MemberEnd(format, last)
         == if format then (if last then Ascii("\n") else Ascii(",\n")) else if last then [] else Ascii(",")
  {
  }

  lemma MemberPieces(a: ByteString, b: ByteString, c: ByteString, d: ByteString, e: ByteString, f: ByteString)
    ensures ((a + b + c) + d) + e + f == a + b + c + d + e + f
    ensures a == [] ==> a + b + c + d + e + f == b + c + d + e + f
  {
  }

  // ---- Blanks outside strings ----

  /** Where a reader of the text stands. */
  datatype Where = Outside | Inside | Behind

  function Step(w: Where, b: Byte): Where {
    match w
    case Outside => if b == '\"' as int then Inside else Outside
    case Inside => if b == '\"' as int then Outside else if b == '\\' as int then Behind else Inside
    case Behind => Inside
  }

  function Walk(t: ByteString, w: Where): Where {
    if t == [] then w else Walk(t[1..], Step(w, t[0]))
  }

  /** The text without the blanks outside its strings. */
  function Squeeze(t: ByteString, w: Where): ByteString {
    if t == [] then []
    else Kept(t[0], w) + Squeeze(t[1..], Step(w, t[0]))
  }

  /** What the first byte leaves of itself. */
  function Kept(b: Byte, w: Where): ByteString {
    if w == Outside && b <= ' ' as int then [] else [b]
  }

  lemma {:induction false} SqueezeConcat(a: ByteString, b: ByteString, w: Where)
    ensures Walk(a + b, w) == Walk(b, Walk(a, w))
    ensures Squeeze(a + b, w) == Squeeze(a, w) + Squeeze(b, Walk(a, w))
  {
    hide Step, Kept;
    if a == [] {
      assert a + b == b;
    } else {
      SqueezeConcat(a[1..], b, Step(w, a[0]));
      assert (a + b)[0] == a[0] && (a + b)[1..] == a[1..] + b;
      Regrouped(Kept(a[0], w), Squeeze(a[1..], Step(w, a[0])), Squeeze(b, Walk(a, w)));
    }
  }

  /** A piece of text that starts and ends outside strings, and what is left of it without blanks. */
  ghost predicate Squeezes(t: ByteString, to: ByteString) {
    Walk(t, Outside) == Outside && Squeeze(t, Outside) == to
  }

  lemma SqueezesConcat(a: ByteString, x: ByteString, b: ByteString, y: ByteString)
    requires Squeezes(a, x) && Squeezes(b, y)
    ensures Squeezes(a + b, x + y)
  {
    SqueezeConcat(a, b, Outside);
  }

  lemma {:induction false} SqueezesPlain(t: ByteString)
    requires forall i :: 0 <= i < |t| ==> t[i] != '\"' as int && t[i] > ' ' as int
    ensures Squeezes(t, t)
  {
    if t != [] {
      SqueezesPlain(t[1..]);
    }
  }

  lemma {:induction false} SqueezesBlank(t: ByteString)
    requires forall i :: 0 <= i < |t| ==> t[i] <= ' ' as int
    ensures Squeezes(t, [])
  {
    if t != [] {
      SqueezesBlank(t[1..]);
    }
  }

  lemma InsideByte(b: Byte)
    ensures Walk(EscapedByte(b), Inside) == Inside && Squeeze(EscapedByte(b), Inside) == EscapedByte(b)
  {
    var t := EscapedByte(b);
    if |t| == 1 {
      assert t[1..] == [];
    } else {
      assert t[1..][1..] == t[2..];
      InsidePlain(t[2..]);
    }
  }

  lemma {:induction false} InsidePlain(t: ByteString)
    requires forall i :: 0 <= i < |t| ==> t[i] != '\"' as int && t[i] != '\\' as int
    ensures Walk(t, Inside) == Inside && Squeeze(t, Inside) == t
  {
    if t != [] {
      InsidePlain(t[1..]);
    }
  }

  lemma {:induction false} InsideEscaped(s: ByteString)
    ensures Walk(Escaped(s), Inside) == Inside && Squeeze(Escaped(s), Inside) == Escaped(s)
  {
    hide EscapedByte;
    if s != [] {
      InsideByte(s[0]);
      InsideEscaped(s[1..]);
      SqueezeConcat(EscapedByte(s[0]), Escaped(s[1..]), Inside);
    }
  }

  lemma SqueezesQuotes(s: ByteString)
    ensures Squeezes(InQuotes(s), InQuotes(s))
  {
    hide Escaped;
    var q := Ascii("\"");
    InsideEscaped(s);
    assert q[1..] == [];
    assert Walk(q, Outside) == Inside && Squeeze(q, Outside) == q;
    assert Walk(q, Inside) == Outside && Squeeze(q, Inside) == q;
    SqueezeConcat(q, Escaped(s), Outside);
    SqueezeConcat(q + Escaped(s), q, Outside);
  }

  /** Every text, formatted or not, is the compact one once the blanks outside strings are gone; so the compact
    * one has none. */
  lemma {:induction false} OnlyBlanksDiffer(v: Json, format: bool, depth: nat)
    ensures Squeezes(Layout(v, format, depth), Compact(v))
    decreases v, 1
  {
    hide CompactItems, CompactMembers, PrettyItems, PrettyMembers, Squeezes, TabStops;
    match v
    case Number(value) => SqueezesPlain(PrintInt(IntOf(value)));
    case String(text) => SqueezesQuotes(text);
    case Array(items) =>
      SqueezesPlain(Ascii("["));
      SqueezesPlain(Ascii("]"));
      ItemsOnlyBlanksDiffer(items, format, depth + 1);
      SqueezesConcat(Ascii("["), Ascii("["), LayoutItems(items, format, depth + 1), CompactItems(items));
      SqueezesConcat(Ascii("[") + LayoutItems(items, format, depth + 1), Ascii("[") + CompactItems(items),
                     Ascii("]"), Ascii("]"));
    case Object(members) =>
      MembersOnlyBlanksDiffer(members, format, depth + 1);
      var text, compact := LayoutMembers(members, format, depth + 1), CompactMembers(members);
      BracesSqueeze(format, depth);
      SqueezesConcat(Open(format), Ascii("{"), text, compact);
      SqueezesConcat(Open(format) + text, Ascii("{") + compact, Close(format, depth), Ascii("}"));
      ObjectIs(members, format, depth);
    case _ => SqueezesPlain(Compact(v));
  }

  lemma BracesSqueeze(format: bool, depth: nat)
    ensures Squeezes(Open(format), Ascii("{")) && Squeezes(Close(format, depth), Ascii("}"))
  {
    hide Squeezes;
    SqueezesPlain(Ascii("{"));
    SqueezesPlain(Ascii("}"));
    if format {
      SqueezesBlank(Ascii("\n"));
      SqueezesConcat(Ascii("{"), Ascii("{"), Ascii("\n"), []);
      assert Ascii("{") + Ascii("\n") == Ascii("{\n") && Ascii("{") + [] == Ascii("{");
      TabsSqueeze(depth);
      SqueezesConcat(TabStops(depth), [], Ascii("}"), Ascii("}"));
      assert [] + Ascii("}") == Ascii("}");
    }
  }

  lemma {:induction false} TabsSqueeze(depth: nat)
    ensures Squeezes(TabStops(depth), [])
  {
    if depth == 0 {
      SqueezesBlank([]);
    } else {
      SqueezesBlank(Ascii("\t"));
      TabsSqueeze(depth - 1);
      SqueezesConcat(Ascii("\t"), [], TabStops(depth - 1), []);
    }
  }

  /** Something visible with blanks behind it. */
  lemma SqueezesMark(mark: ByteString, blanks: ByteString)
    requires forall i :: 0 <= i < |mark| ==> mark[i] != '\"' as int && mark[i] > ' ' as int
    requires forall i :: 0 <= i < |blanks| ==> blanks[i] <= ' ' as int
    ensures Squeezes(mark + blanks, mark)
  {
    SqueezesPlain(mark);
    SqueezesBlank(blanks);
    SqueezesConcat(mark, mark, blanks, []);
    assert mark + [] == mark;
  }

  lemma {:induction false} ItemsOnlyBlanksDiffer(items: seq<Json>, format: bool, depth: nat)
    ensures Squeezes(LayoutItems(items, format, depth), CompactItems(items))
    decreases items, 0
  {
    hide Squeezes, Pretty, Compact;
    if items == [] {
      SqueezesBlank([]);
    } else {
      var first, compact := Layout(items[0], format, depth), Compact(items[0]);
      var comma := if |items| > 1 then Ascii(",") else [];
      var blank := if |items| > 1 && format then Ascii(" ") else [];
      OnlyBlanksDiffer(items[0], format, depth);
      ItemsOnlyBlanksDiffer(items[1..], format, depth);
      SqueezesMark(comma, blank);
      SqueezesConcat(first, compact, comma + blank, comma);
      SqueezesConcat(first + (comma + blank), compact + comma,
                     LayoutItems(items[1..], format, depth), CompactItems(items[1..]));
      assert comma + blank == if |items| > 1 then (if format then Ascii(", ") else Ascii(",")) else [];
    }
  }

  lemma {:induction false} MembersOnlyBlanksDiffer(members: seq<Member>, format: bool, depth: nat)
    ensures Squeezes(LayoutMembers(members, format, depth), CompactMembers(members))
    decreases members, 0
  {
    hide Squeezes, Pretty, Compact, InQuotes;
    if members == [] {
      SqueezesBlank([]);
    } else {
      OnlyBlanksDiffer(members[0].value, format, depth);
      MembersOnlyBlanksDiffer(members[1..], format, depth);
      KeyOnlyBlanksDiffer(members[0].key, format, depth);
      var key := LayoutKey(members[0].key, format, depth);
      var value, compact := Layout(members[0].value, format, depth), Compact(members[0].value);
      var comma := if |members| > 1 then Ascii(",") else [];
      var blank := if format then Ascii("\n") else [];
      SqueezesMark(comma, blank);
      SqueezesConcat(key, InQuotes(members[0].key) + Ascii(":"), value, compact);
      SqueezesConcat(key + value, InQuotes(members[0].key) + Ascii(":") + compact, comma + blank, comma);
      SqueezesConcat(key + value + (comma + blank), InQuotes(members[0].key) + Ascii(":") + compact + comma,
                     LayoutMembers(members[1..], format, depth), CompactMembers(members[1..]));
      assert comma + blank == if |members| > 1 then (if format then Ascii(",\n") else Ascii(",")) else blank;
    }
  }

  function LayoutKey(key: ByteString, format: bool, depth: nat): ByteString {
    if format then TabStops(depth) + InQuotes(key) + Ascii(":\t") else InQuotes(key) + Ascii(":")
  }

  lemma KeyOnlyBlanksDiffer(key: ByteString, format: bool, depth: nat)
    ensures Squeezes(LayoutKey(key, format, depth), InQuotes(key) + Ascii(":"))
  {
    hide Squeezes, InQuotes;
    var indent, tab := if format then TabStops(depth) else [], if format then Ascii("\t") else [];
    TabsSqueeze(depth);
    SqueezesBlank([]);
    SqueezesQuotes(key);
    SqueezesMark(Ascii(":"), tab);
    SqueezesConcat(indent, [], InQuotes(key), InQuotes(key));
    SqueezesConcat(indent + InQuotes(key), [] + InQuotes(key), Ascii(":") + tab, Ascii(":"));
    assert [] + InQuotes(key) == InQuotes(key);
    assert Ascii(":") + tab == if format then Ascii(":\t") else Ascii(":");
    assert [] + InQuotes(key) + Ascii(":") == InQuotes(key) + Ascii(":");
  }

  /** The compact text has no byte below 32 at all. */
  lemma {:induction false} CompactIsVisible(v: Json)
    ensures forall i :: 0 <= i < |Compact(v)| ==> Compact(v)[i] >= ' ' as int
    decreases v, 1
  {
    hide CompactItems, CompactMembers;
    match v
    case String(text) => QuotesAreVisible(text);
    case Array(items) => ItemsAreVisible(items);
    case Object(members) => MembersAreVisible(members);
    case _ =>
  }

  lemma EscapedByteIsVisible(b: Byte)
    ensures forall i :: 0 <= i < |EscapedByte(b)| ==> EscapedByte(b)[i] >= ' ' as int
  {
  }

  lemma {:induction false} EscapedIsVisible(s: ByteString)
    ensures forall i :: 0 <= i < |Escaped(s)| ==> Escaped(s)[i] >= ' ' as int
  {
    hide EscapedByte;
    if s != [] {
      EscapedByteIsVisible(s[0]);
      EscapedIsVisible(s[1..]);
    }
  }

  lemma QuotesAreVisible(s: ByteString)
    ensures forall i :: 0 <= i < |InQuotes(s)| ==> InQuotes(s)[i] >= ' ' as int
  {
    hide Escaped;
    EscapedIsVisible(s);
  }

  lemma {:induction false} ItemsAreVisible(items: seq<Json>)
    ensures forall i :: 0 <= i < |CompactItems(items)| ==> CompactItems(items)[i] >= ' ' as int
    decreases items, 0
  {
    hide Compact;
    if items != [] {
      CompactIsVisible(items[0]);
      ItemsAreVisible(items[1..]);
    }
  }

  lemma {:induction false} MembersAreVisible(members: seq<Member>)
    ensures forall i :: 0 <= i < |CompactMembers(members)| ==> CompactMembers(members)[i] >= ' ' as int
    decreases members, 0
  {
    hide Compact, InQuotes;
    if members != [] {
      QuotesAreVisible(members[0].key);
      CompactIsVisible(members[0].value);
      MembersAreVisible(members[1..]);
    }
  }

  // ---- What can be printed ----

  /** At most `room` arrays and objects enclose each other. */
  predicate NestsWithin(v: Json, room: nat) {
    match v
    case Array(items) => room > 0 && forall i :: 0 <= i < |items| ==> NestsWithin(items[i], room - 1)
    case Object(members) => room > 0 && forall i :: 0 <= i < |members| ==> NestsWithin(members[i].value, room - 1)
    case _ => true
  }

  lemma {:induction false} NestingIs(v: Json, room: nat)
    ensures NestsWithin(v, room) <==> Nesting(v) <= room
    decreases v, 1
  {
    match v
    case Array(items) =>
      if room > 0 {
        ItemsNestingIs(items, room - 1);
      }
    case Object(members) =>
      if room > 0 {
        MembersNestingIs(members, room - 1);
      }
    case _ =>
  }

  lemma {:induction false} ItemsNestingIs(items: seq<Json>, room: nat)
    ensures (forall i :: 0 <= i < |items| ==> NestsWithin(items[i], room)) <==> ItemsNesting(items) <= room
    decreases items, 0
  {
    hide NestsWithin;
    if items != [] {
      NestingIs(items[0], room);
      ItemsNestingIs(items[1..], room);
      assert forall i :: 0 < i < |items| ==> items[i] == items[1..][i - 1];
    }
  }

  lemma {:induction false} MembersNestingIs(members: seq<Member>, room: nat)
    ensures (forall i :: 0 <= i < |members| ==> NestsWithin(members[i].value, room))
       <==> MembersNesting(members) <= room
    decreases members, 0
  {
    hide NestsWithin;
    if members != [] {
      NestingIs(members[0].value, room);
      MembersNestingIs(members[1..], room);
      assert forall i :: 0 < i < |members| ==> members[i] == members[1..][i - 1];
    }
  }
}
