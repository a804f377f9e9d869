/** The text that is published for a record: the record inside a device shadow. */
module ShadowPayload {
  import opened Options
  import opened Bytes
  import opened Decimal
  import opened FileNames
  import opened JsonTree
  import opened JsonLayout
  import opened JsonText
  import opened JsonRoundTrip
  import opened JsonNodes
  import opened JsonLists
  import opened JsonTrees
  import JsonDuplicate
  import JsonParser
  import JsonPrinter

  const KEY_STATE: ByteString := [0x73, 0x74, 0x61, 0x74, 0x65]
  const KEY_REPORTED: ByteString := [0x72, 0x65, 0x70, 0x6F, 0x72, 0x74, 0x65, 0x64]
  const KEY_TOKEN: ByteString := [0x63, 0x6C, 0x69, 0x65, 0x6E, 0x74, 0x54, 0x6F, 0x6B, 0x65, 0x6E]
  const KEY_VERSION: ByteString := [0x76, 0x65, 0x72, 0x73, 0x69, 0x6F, 0x6E]

  const TIMESTAMP_SIZE := 64
  const TOKEN_SIZE := 256
  const THING_NAME_SIZE := 128

  // ---- The name of a record without its directory and extension ----

  /** The position of the last slash. */
  function LastSlash(s: ByteString): (r: Option<nat>)
    ensures match r
      case None => SLASH !in s
      case Some(i) => i < |s| && s[i] == SLASH && SLASH !in s[i + 1..]
  {
    if s == [] then None
    else if s[|s| - 1] == SLASH then Some(|s| - 1)
    else
      var r := LastSlash(s[..|s| - 1]);
      if r.None? then None else (assert s[r.value + 1..] == s[r.value + 1..|s| - 1] + [s[|s| - 1]]; r)
  }

  function BaseName(s: ByteString): ByteString {
    match LastSlash(s)
    case None => s
    case Some(i) => s[i + 1..]
  }

  /** How many bytes stand before the first dot, but no more than `limit`. */
  function StemLength(base: ByteString, i: nat, limit: nat): (n: nat)
    requires i <= |base| && i <= limit
    ensures i <= n <= |base| && n <= limit && (forall j :: i <= j < n ==> base[j] != DOT)
    ensures n == limit || n == |base| || base[n] == DOT
    decreases |base| - i
  {
    if i < limit && i < |base| && base[i] != DOT then StemLength(base, i + 1, limit) else i
  }

  function Stem(filename: ByteString, size: nat): ByteString
    requires size > 0
  {
    BaseName(filename)[..StemLength(BaseName(filename), 0, size - 1)]
  }

  /** The stem is what stands between the directory and the first dot behind it, cut to one byte less than
    * `size`. */
  lemma StemParts(filename: ByteString, size: nat) returns (directory: ByteString, rest: ByteString)
    requires size > 0
    ensures filename == directory + Stem(filename, size) + rest
    ensures directory == [] || directory[|directory| - 1] == '/' as int
    ensures forall b <- Stem(filename, size) + rest :: b != '/' as int
    ensures forall b <- Stem(filename, size) :: b != '.' as int
    ensures |Stem(filename, size)| < size
    ensures rest == [] || rest[0] == '.' as int || |Stem(filename, size)| == size - 1
  {
    hide StemLength, LastSlash, BaseName;
    directory := DirectoryOf(filename);
    rest := StemAndRest(BaseName(filename), size);
    var stem := Stem(filename, size);
    assert directory + (stem + rest) == directory + stem + rest;
  }

  lemma StemAndRest(base: ByteString, size: nat) returns (rest: ByteString)
    requires size > 0
    ensures var stem := base[..StemLength(base, 0, size - 1)];
      && base == stem + rest && |stem| < size && (forall b <- stem :: b != '.' as int)
      && (rest == [] || rest[0] == '.' as int || |stem| == size - 1)
  {
    hide StemLength;
    rest := base[StemLength(base, 0, size - 1)..];
  }

  lemma DirectoryOf(filename: ByteString) returns (directory: ByteString)
    ensures filename == directory + BaseName(filename)
    ensures directory == [] || directory[|directory| - 1] == '/' as int
    ensures forall b <- BaseName(filename) :: b != '/' as int
  {
    hide LastSlash;
    match LastSlash(filename)
    case None => directory := [];
    case Some(i) =>
      directory := filename[..i + 1];
  }

  method BasenameNoExt(filename: ByteString, out: array<Byte>)
    requires NulFree(filename) && out.Length > 0
    modifies out
    ensures var stem := Stem(filename, out.Length);
      |stem| < out.Length && out[..|stem|] == stem && out[|stem|] == NUL
  {
    var base := BaseName(filename);
    var i := 0;
    while i < out.Length - 1 && i < |base| && base[i] != DOT
      invariant 0 <= i <= |base| && i <= out.Length - 1
      invariant StemLength(base, i, out.Length - 1) == StemLength(base, 0, out.Length - 1)
      invariant out[..i] == base[..i]
    {
      out[i] := base[i];
      i := i + 1;
    }
    out[i] := NUL;
  }

  lemma BaseNameOfPath(directory: ByteString, name: ByteString)
    requires SLASH !in name
    ensures BaseName(name) == name && BaseName(directory + [SLASH] + name) == name
  {
    var path := directory + [SLASH] + name;
    assert path[|directory|] == SLASH;
    var slash := LastSlash(path).value;
    assert forall k :: slash < k < |path| ==> path[k] == path[slash + 1..][k - slash - 1] != SLASH;
    assert forall k :: |directory| < k < |path| ==> path[k] == name[k - |directory| - 1] != SLASH;
    assert path[|directory| + 1..] == name;
  }

  lemma StemEnds(base: ByteString, stem: ByteString, limit: nat)
    requires |stem| <= limit && DOT !in stem && stem < base && base[|stem|] == DOT
    ensures base[..StemLength(base, 0, limit)] == stem
  {
    assert forall j :: 0 <= j < |stem| ==> base[j] == stem[j] != DOT;
  }

  lemma RecordNameParts(ts: int)
    requires LONG_MIN <= ts <= LONG_MAX
    ensures SLASH !in RecordName(ts) && DOT !in PrintInt(ts) && |PrintInt(ts)| < TIMESTAMP_SIZE
    ensures PrintInt(ts) < RecordName(ts) && RecordName(ts)[|PrintInt(ts)|] == DOT
    ensures NulFree(PrintInt(ts))
  {
    RecordNameIsListable(ts);
    assert forall b <- PrintInt(ts) :: b == MINUS || IsDigit(b);
  }

  /** Of a record's file, in whatever directory, the timestamp is left. */
  lemma StemOfRecord(directory: ByteString, ts: int)
    requires LONG_MIN <= ts <= LONG_MAX
    ensures Stem(RecordName(ts), TIMESTAMP_SIZE) == PrintInt(ts)
    ensures Stem(directory + [SLASH] + RecordName(ts), TIMESTAMP_SIZE) == PrintInt(ts)
  {
    hide RecordName, PrintInt, BaseName, StemLength;
    RecordNameParts(ts);
    BaseNameOfPath(directory, RecordName(ts));
    StemEnds(RecordName(ts), PrintInt(ts), TIMESTAMP_SIZE - 1);
  }

  // ---- The payload ----

  function ClientToken(thingName: ByteString, ts: ByteString): ByteString {
    var whole := thingName + [MINUS] + ts;
    if |whole| < TOKEN_SIZE then whole else whole[..TOKEN_SIZE - 1]
  }

  function Shadow(reported: Json, token: ByteString): Json {
    Object([Member(KEY_STATE, Object([Member(KEY_REPORTED, reported)])),
            Member(KEY_TOKEN, String(token)),
            Member(KEY_VERSION, Number(1.0))])
  }

  lemma ShadowIsPrintable(v: Json, token: ByteString)
    requires Printable(v) && NulFree(token)
    ensures Printable(Shadow(v, token)) && Nesting(Shadow(v, token)) == 2 + Nesting(v)
  {
    var m1, m2, m3 := Member(KEY_STATE, Object([Member(KEY_REPORTED, v)])), Member(KEY_TOKEN, String(token)),
                      Member(KEY_VERSION, Number(1.0));
    OneMemberNesting(Member(KEY_REPORTED, v));
    OneMemberNesting(m3);
    assert [m1, m2, m3][1..] == [m2, m3] && [m2, m3][1..] == [m3];
    assert Nesting(m1.value) == 1 + Nesting(v) && Nesting(m2.value) == 0 && Nesting(m3.value) == 0;
    assert MembersNesting([m2, m3]) == 0 && MembersNesting([m1, m2, m3]) == 1 + Nesting(v);
    assert Shadow(v, token) == Object([m1, m2, m3]);
    assert Printable(m1.value) && Printable(m2.value) && Printable(m3.value);
  }

  lemma OneMemberNesting(m: Member)
    ensures MembersNesting([m]) == Nesting(m.value)
  {
    assert [m][1..] == [];
  }

  lemma {:induction false} HeightWithinNesting(v: Json, name: Option<ByteString>)
    ensures JsonDuplicate.Height(TreeOf(v, name)) <= Nesting(v)
    decreases v, 1
  {
    match v
    case Array(items) => ItemsHeightWithinNesting(items);
    case Object(members) => MembersHeightWithinNesting(members);
    case _ =>
  }

  lemma {:induction false} ItemsHeightWithinNesting(items: seq<Json>)
    ensures JsonDuplicate.HeightOfKids(ItemTrees(items)) <= 1 + ItemsNesting(items)
    decreases items, 0
  {
    if items != [] {
      HeightWithinNesting(items[0], None);
      ItemsHeightWithinNesting(items[1..]);
      assert ItemTrees(items)[1..] == ItemTrees(items[1..]);
    }
  }

  lemma {:induction false} MembersHeightWithinNesting(members: seq<Member>)
    ensures JsonDuplicate.HeightOfKids(MemberTrees(members)) <= 1 + MembersNesting(members)
    decreases members, 0
  {
    if members != [] {
      HeightWithinNesting(members[0].value, Some(members[0].key));
      MembersHeightWithinNesting(members[1..]);
      assert MemberTrees(members)[1..] == MemberTrees(members[1..]);
    }
  }

  /** The shadow of a record, read back: the record is what is reported, and its timestamp is in the token. */
  lemma ShadowReadsBack(canonicalJson: ByteString, thingName: ByteString, ts: int)
    requires NulFree(canonicalJson) && NulFree(thingName) && |thingName| < THING_NAME_SIZE
    requires LONG_MIN <= ts <= LONG_MAX
    requires Parse(canonicalJson).Parsed? && IntNumbers(Parse(canonicalJson).value)
    requires Nesting(Parse(canonicalJson).value) <= NESTING_LIMIT - 2
    ensures var record := Parse(canonicalJson).value;
            var text := Render(Shadow(record, ClientToken(thingName, Stem(RecordName(ts), TIMESTAMP_SIZE))), false, 0);
            NulFree(text) && Parse(text) == Parsed(Shadow(record, thingName + [MINUS] + PrintInt(ts)), |text|)
  {
    hide ParseValue, Render;
    var v := Parse(canonicalJson).value;
    ParsedIsPrintable(canonicalJson);
    RecordNameParts(ts);
    StemOfRecord([], ts);
    var token := thingName + [MINUS] + PrintInt(ts);
    ShadowIsPrintable(v, token);
    RoundTrip(Shadow(v, token), false);
  }

  lemma ParsedIsPrintable(text: ByteString)
    requires NulFree(text) && Parse(text).Parsed? && IntNumbers(Parse(text).value)
    ensures Printable(Parse(text).value) && Nesting(Parse(text).value) <= NESTING_LIMIT
  {
    hide ParseValue;
    var c := text + [NUL];
    ParseValueSound(c, SkipBlanks(c, if 4 < |c| && BOM <= c then 3 else 0), 0);
  }

  /** What the payload is for a parsed record. */
  ghost predicate IsPayload(out: array?<Byte>, v: Json, token: ByteString)
    reads out
  {
    var text := Render(Shadow(v, token), false, 0);
    && (out != null <==> Nesting(v) <= NESTING_LIMIT - 2 && |text| + 2 <= INT_MAX)
    && (out != null ==> out[..] == text + [NUL])
  }

  // ---- The payload, character by character ----

  function PayloadText(v: Json, thingName: ByteString, ts: ByteString): ByteString {
    Ascii("{\"state\":{\"reported\":") + Compact(v)
    + Ascii("},\"clientToken\":\"") + Escaped(thingName + Ascii("-") + ts)
    + Ascii("\",\"version\":1}")
  }

  /** What is published for a record: the payload, if the record nests no deeper than 998 and the text has a
    * length that an int can hold. */
  ghost predicate IsPublished(out: array?<Byte>, v: Json, thingName: ByteString, ts: ByteString)
    reads out
  {
    && (out != null <==> NestsWithin(v, 998) && |PayloadText(v, thingName, ts)| + 2 <= 2147483647)
    && (out != null ==> out[..] == PayloadText(v, thingName, ts) + [0])
  }

  lemma {:induction false} PlainIsEscaped(s: ByteString)
    requires forall i :: 0 <= i < |s| ==> s[i] >= 32 && s[i] != '\"' as int && s[i] != '\\' as int
    ensures Escaped(s) == s
  {
    if s != [] {
      PlainIsEscaped(s[1..]);
      assert s == [s[0]] + s[1..];
    }
  }

  lemma StateInQuotes()
    ensures InQuotes(KEY_STATE) == Ascii("\"state\"")
  {
    hide Escaped;
    PlainIsEscaped(KEY_STATE);
  }

  lemma ReportedInQuotes()
    ensures InQuotes(KEY_REPORTED) == Ascii("\"reported\"")
  {
    hide Escaped;
    PlainIsEscaped(KEY_REPORTED);
  }

  lemma TokenInQuotes()
    ensures InQuotes(KEY_TOKEN) == Ascii("\"clientToken\"")
  {
    hide Escaped;
    PlainIsEscaped(KEY_TOKEN);
  }

  lemma VersionInQuotes()
    ensures InQuotes(KEY_VERSION) == Ascii("\"version\"")
  {
    hide Escaped;
    PlainIsEscaped(KEY_VERSION);
  }

  lemma CompactStep(members: seq<Member>)
    requires members != []
    ensures CompactMembers(members) == InQuotes(members[0].key) + Ascii(":") + Compact(members[0].value)
                                       + (if |members| > 1 then Ascii(",") else []) + CompactMembers(members[1..])
  {
    hide InQuotes, Compact, Ascii;
  }

  lemma FirstPiece()
    ensures Ascii("{") + InQuotes(KEY_STATE) + Ascii(":") + Ascii("{") + InQuotes(KEY_REPORTED) + Ascii(":")
         == Ascii("{\"state\":{\"reported\":")
  {
    hide InQuotes;
    StateInQuotes();
    ReportedInQuotes();
  }

  lemma SecondPiece()
    ensures Ascii("}") + Ascii(",") + InQuotes(KEY_TOKEN) + Ascii(":") + Ascii("\"")
         == Ascii("},\"clientToken\":\"")
  {
    hide InQuotes;
    TokenInQuotes();
  }

  lemma ThirdPiece()
    ensures Ascii("\"") + Ascii(",") + InQuotes(KEY_VERSION) + Ascii(":") + Ascii("1") + Ascii("}")
         == Ascii("\",\"version\":1}")
  {
    hide InQuotes;
    VersionInQuotes();
  }

  lemma OneIs()
    ensures Compact(Number(1.0)) == Ascii("1")
  {
    assert IntOf(1.0) == 1;
    assert PrintInt(1) == Ascii("1");
  }

  /** The compact text of an object with one member, and of one with three. */
  lemma CompactOne(m: Member)
    ensures Compact(Object([m])) == Ascii("{") + (InQuotes(m.key) + Ascii(":") + Compact(m.value)) + Ascii("}")
  {
    hide InQuotes, CompactMembers;
    CompactStep([m]);
    NoMembers();
    assert [m][1..] == [];
  }

  lemma CompactThree(k: Member, l: Member, m: Member)
    ensures Compact(Object([k, l, m]))
         == Ascii("{") + (InQuotes(k.key) + Ascii(":") + Compact(k.value) + Ascii(",")
                          + (InQuotes(l.key) + Ascii(":") + Compact(l.value) + Ascii(",")
                             + (InQuotes(m.key) + Ascii(":") + Compact(m.value)))) + Ascii("}")
  {
    hide InQuotes, CompactMembers;
    CompactStep([k, l, m]);
    CompactStep([l, m]);
    CompactStep([m]);
    NoMembers();
    assert [k, l, m][1..] == [l, m] && [l, m][1..] == [m] && [m][1..] == [];
  }

  /** Sequences in a row, however they are grouped. */
  lemma Flatten(
    open: ByteString, state: ByteString, colon: ByteString, reported: ByteString, v: ByteString, close: ByteString,
    comma: ByteString, client: ByteString, quote: ByteString, token: ByteString, version: ByteString, one: ByteString)
    ensures open + (state + colon + (open + (reported + colon + v) + close) + comma
                    + (client + colon + (quote + token + quote) + comma + (version + colon + one))) + close
         == (open + state + colon + open + reported + colon) + v + (close + comma + client + colon + quote) + token
            + (quote + comma + version + colon + one + close)
  {
  }

  lemma ShadowText(v: Json, token: ByteString)
    ensures Compact(Shadow(v, token))
         == Ascii("{\"state\":{\"reported\":") + Compact(v)
            + Ascii("},\"clientToken\":\"") + Escaped(token) + Ascii("\",\"version\":1}")
  {
    hide *;
    var inner := Member(KEY_REPORTED, v);
    ShadowIs(v, token);
    CompactOne(inner);
    CompactThree(Member(KEY_STATE, Object([inner])), Member(KEY_TOKEN, String(token)),
                 Member(KEY_VERSION, Number(1.0)));
    CompactString(token);
    OneIs();
    Flatten(Ascii("{"), InQuotes(KEY_STATE), Ascii(":"), InQuotes(KEY_REPORTED), Compact(v), Ascii("}"), Ascii(","),
            InQuotes(KEY_TOKEN), Ascii("\""), Escaped(token), InQuotes(KEY_VERSION), Ascii("1"));
    FirstPiece();
    SecondPiece();
    ThirdPiece();
  }

  lemma ShadowIs(v: Json, token: ByteString)
    ensures Shadow(v, token)
         == Object([Member(KEY_STATE, Object([Member(KEY_REPORTED, v)])), Member(KEY_TOKEN, String(token)),
                    Member(KEY_VERSION, Number(1.0))])
  {
  }

  lemma CompactString(token: ByteString)
    ensures Compact(String(token)) == Ascii("\"") + Escaped(token) + Ascii("\"")
  {
    hide Escaped;
  }

  /** A thing name of at most 127 bytes and a stem of at most 63 are never cut. */
  lemma TokenIsWhole(thingName: ByteString, ts: ByteString)
    requires |thingName| <= 127 && |ts| <= 63
    ensures ClientToken(thingName, ts) == thingName + Ascii("-") + ts
  {
  }

  lemma PayloadIs(v: Json, thingName: ByteString, ts: ByteString)
    requires |thingName| <= 127 && |ts| <= 63
    ensures Render(Shadow(v, ClientToken(thingName, ts)), false, 0) == PayloadText(v, thingName, ts)
    ensures Nesting(v) <= NESTING_LIMIT - 2 <==> NestsWithin(v, 998)
  {
    hide Render, Shadow, ClientToken, Compact, Escaped;
    var token := ClientToken(thingName, ts);
    TokenIsWhole(thingName, ts);
    RenderIs(Shadow(v, token), false, 0);
    ShadowText(v, token);
    NestingIs(v, 998);
  }

  lemma NoMembers()
    ensures CompactMembers([]) == []
  {
  }

  method BuildShadowPayload(thingName: ByteString, canonicalJson: ByteString, filename: ByteString)
    returns (out: array?<Byte>)
    requires NulFree(thingName) && |thingName| < THING_NAME_SIZE && NulFree(canonicalJson) && NulFree(filename)
    requires Parse(canonicalJson).Parsed? ==> IntNumbers(Parse(canonicalJson).value)
    ensures match Parse(canonicalJson)
      case Failed(_) => out == null
      case Parsed(v, _) =>
        && IsPayload(out, v, ClientToken(thingName, Stem(filename, TIMESTAMP_SIZE)))
        && IsPublished(out, v, thingName, Stem(filename, 64))
  {
    hide Node.Is, PayloadText, NestsWithin, ParseValue, Stem, Shadow, Render, TreeOf, Shows, WellFormed, IntNumbers;
    var canonical := JsonParser.ParseText(canonicalJson);
    if canonical == null {
      return null;
    }
    ghost var v := Parse(canonicalJson).value;
    ParsedIsPrintable(canonicalJson);
    var ts := new Byte[TIMESTAMP_SIZE];
    BasenameNoExt(filename, ts);
    ghost var stem := Stem(filename, TIMESTAMP_SIZE);
    CStringStops(ts[..], |stem|);
    assert ts[..][..|stem|] == stem;
    StemIsNulFree(filename);
    CStringOfNulFree(stem);
    var token := ClientToken(thingName, CString(ts[..]));
    HeightWithinNesting(v, None);
    var reported := JsonDuplicate.Duplicate(canonical, true, TreeOf(v, None));
    var root := WrapReported(reported, v, token);
    ShadowIsPrintable(v, token);
    TreeOfShows(Shadow(v, token), None);
    PayloadIs(v, thingName, stem);
    out := JsonPrinter.Print(root, false, ShadowTree(v, token), Shadow(v, token));
  }

  /** The tree of the shadow. */
  ghost function ShadowTree(v: Json, token: ByteString): Tree {
    TreeOf(Shadow(v, token), None)
  }

  method WrapReported(reported: Node, ghost v: Json, token: ByteString) returns (root: Node)
    requires reported.Is(TreeOf(v, None)) && reported in reported.repr && reported.next == null
    modifies reported
    ensures root.Is(ShadowTree(v, token))
  {
    hide Node.Is, Shadow, ShadowTree, TreeOf;
    root := CreateObject();
    var state := CreateObject();
    ghost var t0, t1 := Tree(ObjectKind, None, 0, 0.0, None, []), TreeOf(v, None);
    EmptyObject();
    var ok := AddItemToObject(state, Some(KEY_REPORTED), reported, t0, t1);
    ghost var t2 := t0.(kids := [t1.(name := Some(KEY_REPORTED))]);
    assert t0.kids + t2.kids == t2.kids;
    ok := AddItemToObject(root, Some(KEY_STATE), state, t0, t2);
    ghost var t3 := t0.(kids := [t2.(name := Some(KEY_STATE))]);
    assert t0.kids + t3.kids == t3.kids;
    var tokenItem := CreateString(token);
    ghost var t4 := TreeOf(String(token), None);
    ok := AddItemToObject(root, Some(KEY_TOKEN), tokenItem, t3, t4);
    var versionItem := CreateNumber(1.0);
    ghost var t5 := t3.(kids := t3.kids + [t4.(name := Some(KEY_TOKEN))]);
    ok := AddItemToObject(root, Some(KEY_VERSION), versionItem, t5, TreeOf(Number(1.0), None));
    ShadowTreeIs(v, token);
    assert root.Is(ShadowTree(v, token)) by {
      assert t5.kids + [TreeOf(Number(1.0), None).(name := Some(KEY_VERSION))]
          == t3.kids + [t4.(name := Some(KEY_TOKEN)), TreeOf(Number(1.0), None).(name := Some(KEY_VERSION))];
    }
  }

  lemma ShadowTreeIs(v: Json, token: ByteString)
    ensures var empty := Tree(ObjectKind, None, 0, 0.0, None, []);
      var state := empty.(kids := [TreeOf(v, None).(name := Some(KEY_REPORTED))], name := Some(KEY_STATE));
      var others := [TreeOf(String(token), None).(name := Some(KEY_TOKEN)),
                     TreeOf(Number(1.0), None).(name := Some(KEY_VERSION))];
      ShadowTree(v, token) == empty.(kids := [state] + others)
  {
    var state := Object([Member(KEY_REPORTED, v)]);
    Renamed(v, KEY_REPORTED);
    assert MemberTrees(state.members) == [TreeOf(v, Some(KEY_REPORTED))];
    assert MemberTrees(Shadow(v, token).members)
        == [TreeOf(state, Some(KEY_STATE)), TreeOf(String(token), Some(KEY_TOKEN)),
            TreeOf(Number(1.0), Some(KEY_VERSION))];
  }

  lemma EmptyObject()
    ensures TreeOf(Object([]), None) == Tree(ObjectKind, None, 0, 0.0, None, [])
  {
  }

  lemma Renamed(v: Json, name: ByteString)
    ensures TreeOf(v, None).(name := Some(name)) == TreeOf(v, Some(name))
  {
  }

  lemma StemIsNulFree(filename: ByteString)
    requires NulFree(filename)
    ensures NulFree(Stem(filename, TIMESTAMP_SIZE))
  {
  }
}
