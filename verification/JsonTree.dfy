/** The value of a cJSON tree, and the text that prints it. */
module JsonTree {
  import opened Arithmetic
  import opened Bytes
  import opened Decimal
  import opened JsonStrings

  /** Both `next` chains, of array elements and of object members, are sequences here. */
  datatype Json =
    | Null
    | False
    | True
    | Number(value: real)
    | String(text: ByteString)
    | Array(items: seq<Json>)
    | Object(members: seq<Member>)

  datatype Member = Member(key: ByteString, value: Json)

  const NESTING_LIMIT := 1000

  const NULL_TEXT: ByteString := [0x6E, 0x75, 0x6C, 0x6C]
  const TRUE_TEXT: ByteString := [0x74, 0x72, 0x75, 0x65]
  const FALSE_TEXT: ByteString := [0x66, 0x61, 0x6C, 0x73, 0x65]

  /** How many arrays and objects enclose each other at the deepest point. */
  function Nesting(v: Json): nat
    decreases v, 1
  {
    match v
    case Array(items) => 1 + ItemsNesting(items)
    case Object(members) => 1 + MembersNesting(members)
    case _ => 0
  }

  function ItemsNesting(items: seq<Json>): nat
    decreases items, 0
  {
    if items == [] then 0 else Max(Nesting(items[0]), ItemsNesting(items[1..]))
  }

  function MembersNesting(members: seq<Member>): nat
    decreases members, 0
  {
    if members == [] then 0 else Max(Nesting(members[0].value), MembersNesting(members[1..]))
  }

  /** Every string and key is a C string. */
  predicate WellFormed(v: Json) {
    match v
    case String(text) => NulFree(text)
    case Array(items) => forall i :: 0 <= i < |items| ==> WellFormed(items[i])
    case Object(members) => forall i :: 0 <= i < |members| ==> NulFree(members[i].key) && WellFormed(members[i].value)
    case _ => true
  }

  /** Every number is an int, so that it is printed with `%d`. */
  predicate IntNumbers(v: Json) {
    match v
    case Number(value) => IsInt(value)
    case Array(items) => forall i :: 0 <= i < |items| ==> IntNumbers(items[i])
    case Object(members) => forall i :: 0 <= i < |members| ==> IntNumbers(members[i].value)
    case _ => true
  }

  predicate Printable(v: Json) {
    WellFormed(v) && IntNumbers(v)
  }

  predicate PrintableItems(items: seq<Json>) {
    forall i :: 0 <= i < |items| ==> Printable(items[i])
  }

  predicate PrintableMembers(members: seq<Member>) {
    forall i :: 0 <= i < |members| ==> NulFree(members[i].key) && Printable(members[i].value)
  }

  // ---- The text of a tree ----

  function Tabs(n: nat): (s: ByteString)
    ensures |s| == n && forall i :: 0 <= i < n ==> s[i] == TAB
  {
    seq(n, _ => TAB)
  }

  function Separator(format: bool): ByteString {
    if format then [COMMA, SPACE] else [COMMA]
  }

  function ObjectOpen(format: bool): ByteString {
    if format then [LBRACE, NEWLINE] else [LBRACE]
  }

  function KeyEnd(format: bool): ByteString {
    if format then [COLON, TAB] else [COLON]
  }

  function MemberEnd(format: bool, last: bool): ByteString {
    (if last then [] else [COMMA]) + (if format then [NEWLINE] else [])
  }

  function Indent(format: bool, depth: nat): ByteString {
    if format then Tabs(depth) else []
  }

  function ObjectClose(format: bool, depth: nat): ByteString {
    Indent(format, depth) + [RBRACE]
  }

  function KeyText(key: ByteString, format: bool, depth: nat): ByteString {
    Indent(format, depth) + Quoted(key) + KeyEnd(format)
  }

  /** The text of `v` when it stands inside `depth` arrays and objects. */
  function Render(v: Json, format: bool, depth: nat): ByteString
    decreases v, 1
  {
    match v
    case Null => NULL_TEXT
    case False => FALSE_TEXT
    case True => TRUE_TEXT
    case Number(value) => PrintInt(IntOf(value))
    case String(text) => Quoted(text)
    case Array(items) => ArrayText(items, format, depth)
    case Object(members) => ObjectText(members, format, depth)
  }

  function ArrayText(items: seq<Json>, format: bool, depth: nat): ByteString
    decreases items, 1
  {
    [LBRACKET] + RenderItems(items, format, depth + 1) + [RBRACKET]
  }

  function ObjectText(members: seq<Member>, format: bool, depth: nat): ByteString
    decreases members, 1
  {
    ObjectOpen(format) + RenderMembers(members, format, depth + 1) + ObjectClose(format, depth)
  }

  function RenderItems(items: seq<Json>, format: bool, depth: nat): ByteString
    decreases items, 0
  {
    if items == [] then []
    else if |items| == 1 then Render(items[0], format, depth)
    else Render(items[0], format, depth) + Separator(format) + RenderItems(items[1..], format, depth)
  }

  function RenderMember(m: Member, format: bool, depth: nat): ByteString
    decreases m, 2
  {
    KeyText(m.key, format, depth) + Render(m.value, format, depth)
  }

  function RenderMembers(members: seq<Member>, format: bool, depth: nat): ByteString
    decreases members, 0
  {
    if members == [] then []
    else
      RenderMember(members[0], format, depth) + MemberEnd(format, |members| == 1)
      + RenderMembers(members[1..], format, depth)
  }

  // ---- Facts about the text ----

  lemma Assoc(a: ByteString, b: ByteString, c: ByteString)
    ensures (a + b) + c == a + (b + c)
  {
  }

  lemma QuotedIsNulFree(s: ByteString)
    ensures NulFree(Quoted(s))
  {
    EscapeIsNulFree(s);
  }

  lemma {:induction false} RenderIsText(v: Json, format: bool, depth: nat)
    ensures NulFree(Render(v, format, depth)) && |Render(v, format, depth)| > 0
    decreases v, 1
  {
    match v
    case Number(value) => assert PrintInt(IntOf(value)) != [];
    case String(text) => QuotedIsNulFree(text);
    case Array(items) => RenderItemsIsText(items, format, depth + 1);
    case Object(members) => RenderMembersIsText(members, format, depth + 1);
    case _ =>
  }

  lemma {:induction false} RenderItemsIsText(items: seq<Json>, format: bool, depth: nat)
    ensures NulFree(RenderItems(items, format, depth))
    decreases items, 0
  {
    if items != [] {
      RenderIsText(items[0], format, depth);
      RenderItemsIsText(items[1..], format, depth);
    }
  }

  lemma {:induction false} RenderMemberIsText(m: Member, format: bool, depth: nat)
    ensures NulFree(RenderMember(m, format, depth)) && |RenderMember(m, format, depth)| > 0
    decreases m, 2
  {
    QuotedIsNulFree(m.key);
    RenderIsText(m.value, format, depth);
  }

  lemma {:induction false} RenderMembersIsText(members: seq<Member>, format: bool, depth: nat)
    ensures NulFree(RenderMembers(members, format, depth))
    decreases members, 0
  {
    if members != [] {
      RenderMemberIsText(members[0], format, depth);
      RenderMembersIsText(members[1..], format, depth);
    }
  }

  lemma RenderNothing(format: bool, depth: nat)
    ensures RenderItems([], format, depth) == [] && RenderMembers([], format, depth) == []
    ensures ItemsNesting([]) == 0 && MembersNesting([]) == 0
  {
  }

  /** Taking the first element off the rest of the list. */
  lemma RenderItemsStep(items: seq<Json>, i: nat, format: bool, depth: nat)
    requires i < |items|
    ensures RenderItems(items[i..], format, depth)
         == Render(items[i], format, depth)
            + (if i + 1 < |items| then Separator(format) else [])
            + RenderItems(items[i + 1..], format, depth)
    ensures ItemsNesting(items[i..]) == Max(Nesting(items[i]), ItemsNesting(items[i + 1..]))
  {
    assert items[i..][1..] == items[i + 1..];
    assert items[i..][0] == items[i];
  }

  lemma RenderMembersStep(members: seq<Member>, i: nat, format: bool, depth: nat)
    requires i < |members|
    ensures RenderMembers(members[i..], format, depth)
         == RenderMember(members[i], format, depth) + MemberEnd(format, i + 1 == |members|)
            + RenderMembers(members[i + 1..], format, depth)
    ensures MembersNesting(members[i..]) == Max(Nesting(members[i].value), MembersNesting(members[i + 1..]))
  {
    assert members[i..][1..] == members[i + 1..];
    assert members[i..][0] == members[i];
  }
}
