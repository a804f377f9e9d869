/** The parser: a buffer with an offset that moves forward, and sometimes one step back. */
module JsonParser {
  import opened Options
  import opened Bytes
  import opened Decimal
  import opened Utf8
  import opened JsonStrings
  import opened JsonTree
  import opened JsonText
  import opened JsonNodes
  import opened JsonLists
  import opened JsonTrees

  /** A node that says nothing yet but its name. */
  predicate Blank(t: Tree) {
    t == Tree(t.kind, None, 0, 0.0, t.name, [])
  }

  class ParseBuffer {
    const content: ByteString
    var offset: nat
    var depth: nat

    ghost predicate Valid()
      reads this
    {
      offset <= |content| && depth <= NESTING_LIMIT
    }

    /** The state after an attempt to parse from depth `d`, as the specification has it. A failure leaves
      * the depth where it happened. */
    ghost predicate Did<T>(item: Option<T>, r: Parsed<T>, d: nat)
      reads this
    {
      && Valid()
      && match r
         case Parsed(value, end) => item == Some(value) && offset == end && depth == d
         case Failed(at) => item == None && offset == at
    }

    /** The same for an attempt that fills in `item`. */
    ghost predicate Filled(ok: bool, item: Node, t: Tree, r: Parsed<Json>, d: nat)
      reads this, item, item.repr
    {
      && Valid()
      && match r
         case Parsed(value, end) =>
           ok && item.Is(TreeOf(value, t.name)) && item in item.repr && offset == end && depth == d
         case Failed(at) => !ok && offset == at
    }

    constructor (content: ByteString)
      ensures this.content == content && offset == depth == 0
    {
      this.content := content;
      offset := 0;
      depth := 0;
    }

    method SkipWhitespace()
      requires Valid()
      modifies this`offset
      ensures offset == SkipBlanks(content, old(offset))
    {
      if offset >= |content| {
        return;
      }
      while offset < |content| && content[offset] <= 32
        invariant offset <= |content| && BlanksEnd(content, offset) == BlanksEnd(content, old(offset))
      {
        offset := offset + 1;
      }
      if offset == |content| {
        offset := offset - 1;
      }
    }

    method ParseNumber(item: Node, ghost t: Tree) returns (ok: bool)
      requires Valid() && item.Is(t) && Blank(t) && item.repr == {item}
      modifies this`offset, item`kind, item`valueint, item`valuedouble
      ensures Filled(ok, item, t, JsonText.ParseNumber(content, old(offset)), old(depth))
    {
      var i := 0;
      while offset + i < |content| && IsNumberByte(content[offset + i])
        invariant offset + i <= |content| && NumberEnd(content, offset + i) == NumberEnd(content, offset)
      {
        i := i + 1;
      }
      var numberString := content[offset..offset + i];
      match Strtod(numberString)
      case NoConversion => return false;
      case Converted(value, used) =>
        item.valuedouble := value;
        item.valueint := IntOf(value);
        item.kind := NumberKind;
        offset := offset + used;
        return true;
    }

    /** First pass: find the closing quote and estimate the size. Second pass: decode into an array of
      * that size. That every write stays inside the array is the point of the estimate. */
    method ParseString(item: Node) returns (ok: bool)
      requires Valid() && offset < |content|
      modifies this`offset, item`kind, item`valuestring
      ensures Did(if ok then item.valuestring else None, JsonText.ParseString(content, old(offset)), old(depth))
      ensures ok ==> item.valuestring.Some? && item.kind == StringKind
    {
      ParseStringFailsInside(content, offset);
      var inputPointer := offset + 1;
      if content[offset] != QUOTE {
        offset := inputPointer;
        return false;
      }
      var inputEnd, skippedBytes := FindClosingQuote();
      if inputEnd >= |content| || content[inputEnd] != QUOTE {
        offset := inputPointer;
        return false;
      }
      SizeEstimateSuffices(content, offset, inputEnd);
      var allocationLength := inputEnd - offset - skippedBytes;
      var output := new Byte[allocationLength + 1];
      var written, at := DecodeInto(inputPointer, inputEnd, output);
      if written < 0 {
        offset := at;
        return false;
      }
      output[written] := NUL;
      offset := inputEnd + 1;
      CStringStops(output[..], written);
      var text := CString(output[..]);
      item.kind := StringKind;
      item.valuestring := Some(text);
      return true;
    }

    method FindClosingQuote() returns (inputEnd: nat, skippedBytes: nat)
      requires Valid() && offset < |content|
      ensures match ScanEnd(content, offset + 1)
        case None => inputEnd >= |content| || content[inputEnd] != QUOTE
        case Some(e) =>
          inputEnd == e && skippedBytes == SkippedBytes(content, offset + 1, e)
    {
      ghost var start := offset + 1;
      ghost var scanned := ScanEnd(content, start);
      ghost var e := if scanned.Some? then scanned.value else |content|;
      inputEnd, skippedBytes := offset + 1, 0;
      while inputEnd < |content| && content[inputEnd] != QUOTE
        invariant start <= inputEnd
        invariant ScanEnd(content, inputEnd) == scanned
        invariant scanned.Some? ==>
          inputEnd <= e && SkippedBytes(content, start, e) == skippedBytes + SkippedBytes(content, inputEnd, e)
      {
        if content[inputEnd] == BACKSLASH {
          if inputEnd + 1 >= |content| {
            return;
          }
          skippedBytes := skippedBytes + 1;
          inputEnd := inputEnd + 1;
        }
        inputEnd := inputEnd + 1;
      }
    }

    /** Decodes content[start..end] into `output`; `written` is -1 when an escape at `at` is bad. */
    method DecodeInto(start: nat, end: nat, output: array<Byte>) returns (written: int, at: nat)
      requires start <= end < |content|
      requires WrittenFrom(content, start, end) + 1 <= output.Length
      modifies output
      ensures match DecodeLiteral(content, start, end)
        case Decoded(bytes) => 0 <= written == |bytes| < output.Length && output[..written] == bytes
        case BadEscape(p) => written == -1 && at == p
    {
      var inputPointer, outputPointer: nat := start, 0;
      assert output[..0] == [];
      PrependNothing(DecodeLiteral(content, start, end));
      while inputPointer < end
        invariant outputPointer + WrittenFrom(content, inputPointer, end) + 1 <= output.Length
        invariant Prepend(output[..outputPointer], DecodeLiteral(content, inputPointer, end))
               == DecodeLiteral(content, start, end)
        decreases |content| - inputPointer
      {
        ghost var before := output[..outputPointer];
        if content[inputPointer] != BACKSLASH {
          PrependTwice(before, [content[inputPointer]], DecodeLiteral(content, inputPointer + 1, end));
          output[outputPointer] := content[inputPointer];
          assert output[..outputPointer + 1] == before + [content[inputPointer]];
          inputPointer, outputPointer := inputPointer + 1, outputPointer + 1;
        } else {
          var sequenceLength, next := DecodeEscape(inputPointer, end, output, outputPointer);
          if sequenceLength == 0 {
            return -1, inputPointer;
          }
          var u := Unescape(content, inputPointer, end).value;
          PrependTwice(before, u.0, DecodeLiteral(content, inputPointer + u.1, end));
          inputPointer, outputPointer := inputPointer + sequenceLength, next;
        }
      }
      written, at := outputPointer, 0;
    }

    static lemma PrependNothing(d: Decoded)
      ensures Prepend([], d) == d
    {
      if d.Decoded? {
        assert [] + d.bytes == d.bytes;
      }
    }

    /** One escape sequence; a length of 0 means that it is bad. */
    method DecodeEscape(p: nat, end: nat, output: array<Byte>, o: nat) returns (sequenceLength: nat, o': nat)
      requires p < end < |content| && content[p] == BACKSLASH && o < output.Length
      requires Unescape(content, p, end).Some? ==> o + |Unescape(content, p, end).value.0| <= output.Length
      modifies output
      ensures match Unescape(content, p, end)
        case None => sequenceLength == 0
        case Some((bytes, length)) =>
          sequenceLength == length && o' == o + |bytes| <= output.Length && output[..o'] == old(output[..o]) + bytes
    {
      sequenceLength, o' := 2, o;
      var letter := content[p + 1];
      if letter == LOWER_U {
        sequenceLength, o' := Utf16LiteralToUtf8(content, p, end, output, o);
        return;
      }
      var decoded: Byte;
      if letter == LOWER_B {
        decoded := BACKSPACE;
      } else if letter == LOWER_F {
        decoded := FORM_FEED;
      } else if letter == LOWER_N {
        decoded := NEWLINE;
      } else if letter == LOWER_R {
        decoded := RETURN;
      } else if letter == LOWER_T {
        decoded := TAB;
      } else if letter == QUOTE || letter == BACKSLASH || letter == SLASH {
        decoded := letter;
      } else {
        return 0, o;
      }
      output[o] := decoded;
      o' := o + 1;
      assert output[..o'] == old(output[..o]) + [decoded];
    }

    method ParseValue(item: Node, ghost t: Tree) returns (ok: bool)
      requires Valid() && item.Is(t) && Blank(t) && item.repr == {item}
      modifies this, item
      ensures Filled(ok, item, t, JsonText.ParseValue(content, old(offset), old(depth)), old(depth))
      ensures ok ==> fresh(item.repr - {item})
      ensures item.next == old(item.next) && item.prev == old(item.prev)
      decreases |content| - offset, 3
    {
      hide JsonText.ParseNumber, JsonText.ParseString, JsonText.ParseArray, JsonText.ParseObject;
      ParseValueSound(content, offset, depth);
      if offset + 4 <= |content| && content[offset..offset + 4] == NULL_TEXT {
        item.kind := NullKind;
        offset := offset + 4;
        return true;
      }
      if offset + 5 <= |content| && content[offset..offset + 5] == FALSE_TEXT {
        item.kind := FalseKind;
        offset := offset + 5;
        return true;
      }
      if offset + 4 <= |content| && content[offset..offset + 4] == TRUE_TEXT {
        item.kind := TrueKind;
        item.valueint := 1;
        offset := offset + 4;
        return true;
      }
      if offset < |content| && content[offset] == QUOTE {
        ok := ParseString(item);
        return;
      }
      if offset < |content| && (content[offset] == MINUS || ZERO <= content[offset] <= NINE) {
        ok := ParseNumber(item, t);
        return;
      }
      if offset < |content| && content[offset] == LBRACKET {
        ok := ParseArray(item, t);
        return;
      }
      if offset < |content| && content[offset] == LBRACE {
        ok := ParseObject(item, t);
        return;
      }
      return false;
    }

    method ParseArray(item: Node, ghost t: Tree) returns (ok: bool)
      requires Valid() && offset < |content|
      requires item.Is(t) && Blank(t) && item.repr == {item}
      modifies this, item
      ensures Filled(ok, item, t, JsonText.ParseArray(content, old(offset), old(depth)), old(depth))
      ensures ok ==> fresh(item.repr - {item})
      ensures item.next == old(item.next) && item.prev == old(item.prev)
      decreases |content| - offset, 2
    {
      hide Node.Is, JsonText.ParseItems, Chained, SkipBlanks, ItemTrees;
      ParseArraySound(content, offset, depth);
      if depth >= NESTING_LIMIT {
        return false;
      }
      depth := depth + 1;
      if content[offset] != LBRACKET {
        return false;
      }
      offset := offset + 1;
      SkipWhitespace();
      if offset < |content| && content[offset] == RBRACKET {
        depth := depth - 1;
        NothingChained();
        CloseList(item, ArrayKind, null, null, t, [], ItemTrees([]), {});
        offset := offset + 1;
        return true;
      }
      if offset >= |content| {
        offset := offset - 1;
        return false;
      }
      offset := offset - 1;
      var head, currentItem;
      ghost var kids, items, nodes;
      ok, head, currentItem, kids, items, nodes := ParseElements();
      if !ok {
        return;
      }
      depth := depth - 1;
      CloseList(item, ArrayKind, head, currentItem, t, kids, ItemTrees(items), nodes);
    }

    /** The comma-separated elements, from the character in front of the first one. */
    method ParseElements()
      returns (ok: bool, head: Node?, currentItem: Node?,
               ghost kids: seq<Node>, ghost items: seq<Json>, ghost nodes: set<Node>)
      requires Valid() && offset < |content|
      modifies this
      ensures Did(if ok then Some(items) else None, JsonText.ParseItems(content, old(offset), old(depth)), old(depth))
      ensures ok ==> Chained(head, currentItem, kids, ItemTrees(items), nodes) && fresh(nodes)
      decreases |content| - offset, 1
    {
      hide JsonText.ParseValue, JsonText.ParseItems, SkipBlanks, Chained;
      ghost var all: Parsed<seq<Json>> := ParseItems(content, offset, depth);
      ParseItemsSound(content, offset, depth);
      JoinNothing(all);
      NothingChained();
      head, currentItem, kids, items, nodes := null, null, [], [], {};
      var more := true;
      while more
        invariant Valid() && old(offset) <= offset && depth == old(depth)
        invariant Chained(head, currentItem, kids, ItemTrees(items), nodes) && fresh(nodes)
        invariant more ==> offset < |content| && all == Join(items, ParseItems(content, offset, depth))
        invariant !more ==> all == ClosedAt(content, offset, RBRACKET, items)
        decreases |content| - offset, more
      {
        ItemsUnfold(content, offset, depth, items);
        ghost var v: Json;
        ok, head, currentItem, kids, v, nodes := ParseElement(head, currentItem, kids, items, nodes);
        if !ok {
          return;
        }
        SkipWhitespace();
        items := items + [v];
        more := offset < |content| && content[offset] == COMMA;
      }
      if offset >= |content| || content[offset] != RBRACKET {
        ok := false;
        return;
      }
      offset := offset + 1;
      ok := true;
    }

    /** One turn of the loop: a new item at the end of the chain, and its value. */
    method ParseElement(
      head: Node?, currentItem: Node?, ghost kids: seq<Node>, ghost items: seq<Json>, ghost nodes: set<Node>)
      returns (ok: bool, head': Node?, newItem: Node, ghost kids': seq<Node>, ghost v: Json, ghost nodes': set<Node>)
      requires Valid() && offset < |content|
      requires Chained(head, currentItem, kids, ItemTrees(items), nodes)
      modifies this, nodes
      ensures Did(if ok then Some(v) else None,
                  JsonText.ParseValue(content, SkipBlanks(content, old(offset) + 1), old(depth)), old(depth))
      ensures ok ==> Chained(head', newItem, kids', ItemTrees(items + [v]), nodes') && fresh(nodes' - nodes)
      decreases |content| - offset, 0
    {
      hide Node.Is, JsonText.ParseValue, SkipBlanks, TreeOf, Forest;
      head', newItem := AttachNew(head, currentItem, kids, ItemTrees(items), nodes);
      offset := offset + 1;
      SkipWhitespace();
      ghost var r := JsonText.ParseValue(content, offset, depth);
      ok := ParseValue(newItem, BLANK);
      v, kids', nodes' := if ok then r.value else Null, kids + [newItem], nodes + newItem.repr;
      if ok {
        assert ItemTrees(items + [v]) == ItemTrees(items) + [TreeOf(v, None)];
        ChainGrows(head', kids, ItemTrees(items), nodes, newItem, TreeOf(v, None));
      }
    }

    method ParseObject(item: Node, ghost t: Tree) returns (ok: bool)
      requires Valid() && offset < |content|
      requires item.Is(t) && Blank(t) && item.repr == {item}
      modifies this, item
      ensures Filled(ok, item, t, JsonText.ParseObject(content, old(offset), old(depth)), old(depth))
      ensures ok ==> fresh(item.repr - {item})
      ensures item.next == old(item.next) && item.prev == old(item.prev)
      decreases |content| - offset, 2
    {
      hide Node.Is, JsonText.ParseMembers, Chained, SkipBlanks, MemberTrees;
      ParseObjectSound(content, offset, depth);
      if depth >= NESTING_LIMIT {
        return false;
      }
      depth := depth + 1;
      if content[offset] != LBRACE {
        return false;
      }
      offset := offset + 1;
      SkipWhitespace();
      if offset < |content| && content[offset] == RBRACE {
        depth := depth - 1;
        NothingChained();
        CloseList(item, ObjectKind, null, null, t, [], MemberTrees([]), {});
        offset := offset + 1;
        return true;
      }
      if offset >= |content| {
        offset := offset - 1;
        return false;
      }
      offset := offset - 1;
      var head, currentItem;
      ghost var kids, members, nodes;
      ok, head, currentItem, kids, members, nodes := ParseMemberList();
      if !ok {
        return;
      }
      depth := depth - 1;
      CloseList(item, ObjectKind, head, currentItem, t, kids, MemberTrees(members), nodes);
    }

    /** A key and its colon; the offset is then at the value. */
    method ParseKey(item: Node) returns (ok: bool)
      requires Valid() && offset < |content| && item.Is(BLANK) && item.repr == {item}
      modifies this`offset, item`kind, item`valuestring, item`name
      ensures Did(if ok then item.name else None, JsonText.ParseKey(content, old(offset)), old(depth))
      ensures ok ==> item.name.Some? && item.Is(BLANK.(kind := StringKind, name := item.name))
    {
      hide JsonText.ParseString, SkipBlanks;
      if offset + 1 >= |content| {
        return false;
      }
      offset := offset + 1;
      SkipWhitespace();
      ParseStringFailsInside(content, offset);
      ok := ParseString(item);
      if !ok {
        return;
      }
      SkipWhitespace();
      item.name := item.valuestring;
      item.valuestring := None;
      if offset >= |content| || content[offset] != COLON {
        return false;
      }
      offset := offset + 1;
      SkipWhitespace();
    }

    /** The comma-separated members, from the character in front of the first one. */
    method ParseMemberList()
      returns (ok: bool, head: Node?, currentItem: Node?,
               ghost kids: seq<Node>, ghost members: seq<Member>, ghost nodes: set<Node>)
      requires Valid() && offset < |content|
      modifies this
      ensures Did(if ok then Some(members) else None,
                  JsonText.ParseMembers(content, old(offset), old(depth)), old(depth))
      ensures ok ==> Chained(head, currentItem, kids, MemberTrees(members), nodes) && fresh(nodes)
      decreases |content| - offset, 1
    {
      hide JsonText.ParseValue, JsonText.ParseMembers, JsonText.ParseKey, SkipBlanks, Chained;
      ghost var all: Parsed<seq<Member>> := ParseMembers(content, offset, depth);
      ParseMembersSound(content, offset, depth);
      JoinNothing(all);
      NothingChained();
      head, currentItem, kids, members, nodes := null, null, [], [], {};
      var more := true;
      while more
        invariant Valid() && old(offset) <= offset && depth == old(depth)
        invariant Chained(head, currentItem, kids, MemberTrees(members), nodes) && fresh(nodes)
        invariant more ==> offset < |content| && all == Join(members, ParseMembers(content, offset, depth))
        invariant !more ==> all == ClosedAt(content, offset, RBRACE, members)
        decreases |content| - offset, more
      {
        MembersUnfold(content, offset, depth, members);
        ghost var m: Member;
        ok, head, currentItem, kids, m, nodes := ParseMember(head, currentItem, kids, members, nodes);
        if !ok {
          return;
        }
        SkipWhitespace();
        members := members + [m];
        more := offset < |content| && content[offset] == COMMA;
      }
      if offset >= |content| || content[offset] != RBRACE {
        ok := false;
        return;
      }
      offset := offset + 1;
      ok := true;
    }

    /** One turn of the loop: a new item at the end of the chain, its key and its value. */
    method ParseMember(
      head: Node?, currentItem: Node?, ghost kids: seq<Node>, ghost members: seq<Member>, ghost nodes: set<Node>)
      returns (ok: bool, head': Node?, newItem: Node, ghost kids': seq<Node>, ghost m: Member, ghost nodes': set<Node>)
      requires Valid() && offset < |content|
      requires Chained(head, currentItem, kids, MemberTrees(members), nodes)
      modifies this, nodes
      ensures Did(if ok then Some(m) else None, OneMember(content, old(offset), old(depth)), old(depth))
      ensures ok ==> Chained(head', newItem, kids', MemberTrees(members + [m]), nodes') && fresh(nodes' - nodes)
      decreases |content| - offset, 0
    {
      hide Node.Is, JsonText.ParseValue, JsonText.ParseKey, SkipBlanks, TreeOf, Forest;
      head', newItem := AttachNew(head, currentItem, kids, MemberTrees(members), nodes);
      m, kids', nodes' := Member([], Null), kids + [newItem], nodes;
      ok := ParseKey(newItem);
      if !ok {
        return;
      }
      ghost var name, r := newItem.name, JsonText.ParseValue(content, offset, depth);
      ok := ParseValue(newItem, BLANK.(kind := StringKind, name := newItem.name));
      if ok {
        m, nodes' := Member(name.value, r.value), nodes + newItem.repr;
        assert MemberTrees(members + [m]) == MemberTrees(members) + [TreeOf(m.value, name)];
        ChainGrows(head', kids, MemberTrees(members), nodes, newItem, TreeOf(m.value, name));
      }
    }
  }

  /** The key and the value after the brace or comma at `before`. */
  ghost function OneMember(c: ByteString, before: nat, depth: nat): Parsed<Member>
    requires before < |c|
  {
    match ParseKey(c, before)
    case Failed(at) => Failed(at)
    case Parsed(key, start) =>
      match ParseValue(c, start, depth)
      case Failed(at) => Failed(at)
      case Parsed(v, end) => Parsed(Member(key, v), end)
  }

  // ---- Chains of new items ----

  /** A chain from `head` to `current` whose ring is not closed, of trees among `nodes`. */
  ghost predicate Chained(head: Node?, current: Node?, kids: seq<Node>, ts: seq<Tree>, nodes: set<Node>)
    reads nodes
  {
    && Forest(kids, ts, nodes)
    && Linked(head, kids)
    && current == (if kids == [] then null else kids[|kids| - 1])
  }

  const BLANK := Tree(Invalid, None, 0, 0.0, None, [])

  /** A new item at the end of the chain. */
  method AttachNew(head: Node?, currentItem: Node?, ghost kids: seq<Node>, ghost ts: seq<Tree>, ghost nodes: set<Node>)
    returns (head': Node?, newItem: Node)
    requires Chained(head, currentItem, kids, ts, nodes)
    modifies nodes
    ensures fresh(newItem) && newItem.Is(BLANK) && newItem.repr == {newItem}
    ensures Forest(kids, ts, nodes) && Linked(head', kids + [newItem])
  {
    hide Node.Is;
    newItem := new Node();
    head' := head;
    if head == null {
      head' := newItem;
    } else {
      currentItem.next := newItem;
      newItem.prev := currentItem;
    }
    forall i | 0 <= i < |kids|
      ensures kids[i].Is(ts[i]) && kids[i].repr == old(kids[i].repr)
    {
      assert old(kids[i].Is(ts[i]));
    }
  }

  lemma ChainGrows(head: Node?, kids: seq<Node>, ts: seq<Tree>, nodes: set<Node>, item: Node, t: Tree)
    requires Forest(kids, ts, nodes) && Linked(head, kids + [item])
    requires item.Is(t) && item in item.repr && item.repr !! nodes
    ensures Chained(head, item, kids + [item], ts + [t], nodes + item.repr)
  {
    hide Node.Is, Linked;
  }

  lemma NothingChained()
    ensures Chained(null, null, [], ItemTrees([]), {}) && Chained(null, null, [], MemberTrees([]), {})
  {
  }

  /** Closes the ring and hangs the chain below `item`. */
  method CloseList(
    item: Node, kind: Kind, head: Node?, currentItem: Node?,
    ghost t: Tree, ghost kids: seq<Node>, ghost ts: seq<Tree>, ghost nodes: set<Node>)
    requires item.Is(t) && Blank(t) && item !in nodes
    requires Chained(head, currentItem, kids, ts, nodes)
    modifies item`kind, item`child, item`kids, item`repr, nodes
    ensures item.Is(t.(kind := kind, kids := ts)) && item.repr == {item} + nodes
  {
    hide Node.Is;
    Disassembled(item, t);
    if head != null {
      head.prev := currentItem;
    }
    item.kind := kind;
    item.child := head;
    item.kids := kids;
    item.repr := {item} + nodes;
    forall i | 0 <= i < |kids|
      ensures kids[i].Is(ts[i]) && kids[i].repr == old(kids[i].repr)
    {
      assert old(kids[i].Is(ts[i]));
    }
    assert Forest(kids, ts, nodes);
    assert item.repr - {item} == nodes;
    Assembled(item, t.(kind := kind, kids := ts));
  }

  // ---- The element loops ----

  /** Elements read earlier, then the outcome for the rest. */
  ghost function Join<T>(head: seq<T>, r: Parsed<seq<T>>): Parsed<seq<T>> {
    match r
    case Parsed(rest, end) => Parsed(head + rest, end)
    case Failed(at) => Failed(at)
  }

  /** The outcome once no comma follows. */
  ghost function ClosedAt<T>(c: ByteString, after: nat, bracket: Byte, all: seq<T>): Parsed<seq<T>> {
    if after < |c| && c[after] == bracket then Parsed(all, after + 1) else Failed(after)
  }

  lemma JoinNothing<T>(r: Parsed<seq<T>>)
    ensures Join([], r) == r
  {
    if r.Parsed? {
      assert [] + r.value == r.value;
    }
  }

  lemma JoinTwice<T>(head: seq<T>, x: T, r: Parsed<seq<T>>)
    ensures match r
      case Parsed(rest, end) => Join(head + [x], r) == Parsed(head + ([x] + rest), end)
      case Failed(at) => Join(head + [x], r) == Failed(at)
  {
    if r.Parsed? {
      assert head + [x] + r.value == head + ([x] + r.value);
    }
  }

  /** One turn of the element loop. */
  ghost function ItemsTurn(c: ByteString, before: nat, depth: nat, head: seq<Json>): Parsed<seq<Json>>
    requires before < |c|
  {
    var r := ParseValue(c, SkipBlanks(c, before + 1), depth);
    if r.Failed? then Failed(r.at)
    else
      var after := SkipBlanks(c, r.end);
      if after < |c| && c[after] == COMMA then Join(head + [r.value], ParseItems(c, after, depth))
      else ClosedAt(c, after, RBRACKET, head + [r.value])
  }

  lemma ItemsUnfold(c: ByteString, before: nat, depth: nat, head: seq<Json>)
    requires before < |c|
    ensures Join(head, ParseItems(c, before, depth)) == ItemsTurn(c, before, depth, head)
  {
    hide ParseValue, SkipBlanks;
    var r := ParseValue(c, SkipBlanks(c, before + 1), depth);
    if r.Parsed? {
      var after := SkipBlanks(c, r.end);
      if after < |c| && c[after] == COMMA {
        JoinTwice(head, r.value, ParseItems(c, after, depth));
      }
    }
  }

  /** One turn of the member loop. */
  ghost function MembersTurn(c: ByteString, before: nat, depth: nat, head: seq<Member>): Parsed<seq<Member>>
    requires before < |c|
  {
    var r := OneMember(c, before, depth);
    if r.Failed? then Failed(r.at)
    else
      var after := SkipBlanks(c, r.end);
      if after < |c| && c[after] == COMMA then Join(head + [r.value], ParseMembers(c, after, depth))
      else ClosedAt(c, after, RBRACE, head + [r.value])
  }

  lemma MembersUnfold(c: ByteString, before: nat, depth: nat, head: seq<Member>)
    requires before < |c|
    ensures Join(head, ParseMembers(c, before, depth)) == MembersTurn(c, before, depth, head)
  {
    hide ParseValue, ParseKey, SkipBlanks;
    var key := ParseKey(c, before);
    if key.Parsed? {
      var r := ParseValue(c, key.end, depth);
      if r.Parsed? {
        var after := SkipBlanks(c, r.end);
        if after < |c| && c[after] == COMMA {
          JoinTwice(head, Member(key.value, r.value), ParseMembers(c, after, depth));
        }
      }
    }
  }

  // ---- Entry points ----

  /** Parses a whole buffer into a tree of new nodes; a failure is reported at a position inside it. */
  method ParseWithLengthOpts(value: ByteString, requireNullTerminated: bool) returns (item: Node?, position: nat)
    ensures match ParseWithLength(value, requireNullTerminated)
      case Parsed(v, end) =>
        && item != null && item.Is(TreeOf(v, None)) && item in item.repr && fresh(item.repr)
        && item.next == null && item.prev == null && position == end
      case Failed(at) =>
        && item == null
        && (at < |value| ==> position == at)
        && (at >= |value| ==> position == if |value| > 0 then |value| - 1 else 0)
  {
    hide Node.Is, JsonText.ParseValue, SkipBlanks;
    if |value| == 0 {
      return null, 0;
    }
    var buffer := new ParseBuffer(value);
    item := new Node();
    if 4 < |value| && value[..3] == BOM {
      buffer.offset := buffer.offset + 3;
    }
    buffer.SkipWhitespace();
    var ok := buffer.ParseValue(item, BLANK);
    if !ok {
      return null, if buffer.offset < |value| then buffer.offset else |value| - 1;
    }
    if requireNullTerminated {
      buffer.SkipWhitespace();
      if buffer.offset >= |value| || value[buffer.offset] != NUL {
        return null, if buffer.offset < |value| then buffer.offset else |value| - 1;
      }
    }
    position := buffer.offset;
  }

  /** The text is a C string; its terminator is part of the buffer. */
  method ParseText(value: ByteString) returns (item: Node?)
    requires NulFree(value)
    ensures match Parse(value)
      case Parsed(v, _) =>
        && item != null && item.Is(TreeOf(v, None)) && item in item.repr && fresh(item.repr)
        && item.next == null && item.prev == null
      case Failed(_) => item == null
  {
    hide Node.Is;
    var position;
    item, position := ParseWithLengthOpts(value + [NUL], false);
  }
}
