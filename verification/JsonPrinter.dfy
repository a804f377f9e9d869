/** The printer: a buffer that grows, written through an offset that sub-printers leave at different
  * places and that only `strlen` brings back to the end of the text. */
module JsonPrinter {
  import opened Bytes
  import opened Decimal
  import opened JsonStrings
  import opened JsonTree
  import opened JsonLayout
  import opened JsonNodes
  import opened JsonLists
  import opened JsonTrees

  class PrintBuffer {
    var buffer: array<Byte>
    var length: nat
    var offset: nat
    var depth: nat
    const noalloc: bool
    const format: bool

    ghost predicate Valid()
      reads this
    {
      depth <= NESTING_LIMIT && length == buffer.Length <= INT_MAX && (offset < length || (offset == 0 && length == 0))
    }

    /** What has been printed for good. */
    ghost function Prefix(): ByteString
      reads this, buffer
      requires Valid()
    {
      buffer[..offset]
    }

    /** The buffer holds `text` as a C string. */
    ghost predicate Holds(text: ByteString)
      reads this, buffer
    {
      |text| < buffer.Length && buffer[..|text|] == text && buffer[|text|] == NUL
    }

    /** How long the buffer can become. */
    ghost function Room(): nat
      reads this
    {
      if noalloc then length else INT_MAX
    }

    constructor (prebuffer: nat, noalloc: bool, format: bool)
      requires prebuffer <= INT_MAX
      ensures Valid() && fresh(buffer) && length == prebuffer && offset == depth == 0
      ensures this.noalloc == noalloc && this.format == format
    {
      buffer := new Byte[prebuffer];
      length := prebuffer;
      offset := 0;
      depth := 0;
      this.noalloc := noalloc;
      this.format := format;
    }

    constructor Preallocated(buffer: array<Byte>, format: bool)
      requires buffer.Length <= INT_MAX
      ensures Valid() && this.buffer == buffer && offset == depth == 0
      ensures noalloc && this.format == format
    {
      this.buffer := buffer;
      length := buffer.Length;
      offset := 0;
      depth := 0;
      noalloc := true;
      this.format := format;
    }

    /** Makes place for `needed` bytes after the offset and one more. */
    method Ensure(needed: nat) returns (ok: bool)
      requires Valid()
      modifies this`buffer, this`length
      ensures Valid() && (buffer == old(buffer) || (!noalloc && fresh(buffer))) && Room() == old(Room())
      ensures ok == (offset + needed + 1 <= Room())
      ensures ok ==> offset + needed + 1 <= length
      ensures buffer[..offset] == old(buffer[..offset])
      ensures !ok || offset + needed + 1 <= old(length) ==> buffer == old(buffer) && length == old(length)
      ensures ok && offset + needed + 1 > old(length) ==>
        length == if offset + needed + 1 <= 1073741823 then 2 * (offset + needed + 1) else 2147483647
    {
      if length > 0 && offset >= length {
        return false;
      }
      if needed > INT_MAX {
        return false;
      }
      var total := needed + offset + 1;
      if total <= length {
        return true;
      }
      if noalloc {
        return false;
      }
      var newSize: nat;
      if total > INT_MAX / 2 {
        if total <= INT_MAX {
          newSize := INT_MAX;
        } else {
          return false;
        }
      } else {
        newSize := total * 2;
      }
      var newBuffer := new Byte[newSize];
      forall i | 0 <= i < length {
        newBuffer[i] := buffer[i];
      }
      length := newSize;
      buffer := newBuffer;
      return true;
    }

    /** `strlen` from the offset finds the end of the text. */
    method UpdateOffset(ghost text: ByteString)
      requires Valid() && Holds(text) && offset <= |text|
      requires forall k :: offset <= k < |text| ==> text[k] != NUL
      modifies this`offset
      ensures Valid() && offset == |text| && Prefix() == text
    {
      assert forall k :: 0 <= k < |text| ==> buffer[k] == buffer[..|text|][k] == text[k];
      var n := 0;
      while buffer[offset + n] != NUL
        invariant offset + n <= |text|
        decreases |text| - n
      {
        n := n + 1;
      }
      offset := offset + n;
    }

    /** The counting pass and the writing pass agree on the length. */
    method PrintStringPtr(input: ByteString) returns (ok: bool)
      requires Valid() && NulFree(input)
      modifies this`buffer, this`length, buffer
      ensures Valid() && (buffer == old(buffer) || (!noalloc && fresh(buffer))) && Room() == old(Room())
      ensures ok == (offset + |Quoted(input)| + 2 <= Room())
      ensures ok ==> Holds(old(Prefix()) + Quoted(input))
    {
      var escapeCharacters := CountEscapes(input);
      ok := Ensure(|input| + escapeCharacters + 3);
      if !ok {
        return;
      }
      WriteQuoted(input, escapeCharacters);
    }

    method WriteQuoted(input: ByteString, escapeCharacters: nat)
      requires Valid() && NulFree(input)
      requires |input| + escapeCharacters == |Escape(input)| && offset + |Escape(input)| + 2 < length
      modifies buffer
      ensures Holds(old(Prefix()) + Quoted(input))
    {
      hide Escape;
      ghost var start := Prefix();
      OpenQuote();
      if escapeCharacters == 0 {
        CopyPlain(input);
      } else {
        WriteEscaped(input);
      }
      EndWith(QUOTE, offset + |input| + escapeCharacters + 1);
      Regroup(start, [QUOTE], Escape(input), [QUOTE]);
    }

    method OpenQuote()
      requires Valid() && offset + 1 < length
      modifies buffer
      ensures buffer[..offset + 1] == old(buffer[..offset]) + [QUOTE]
    {
      buffer[offset] := QUOTE;
      assert buffer[..offset] == old(buffer[..offset]);
    }

    /** One last byte and the terminator. */
    method EndWith(last: Byte, end: nat)
      requires Valid() && end + 1 < length
      modifies buffer
      ensures Holds(old(buffer[..end]) + [last])
    {
      buffer[end] := last;
      buffer[end + 1] := NUL;
      assert buffer[..end] == old(buffer[..end]);
    }

    /** Nothing to escape: the string is copied. */
    method CopyPlain(input: ByteString)
      requires Valid() && |Escape(input)| == |input| && offset + 1 + |input| + 1 < length
      modifies buffer
      ensures buffer[..offset + 1 + |input|] == old(buffer[..offset + 1]) + Escape(input)
    {
      hide Escape;
      EscapeIsNoShorter(input);
      forall i | 0 <= i < |input| {
        buffer[offset + 1 + i] := input[i];
      }
      assert buffer[..offset + 1 + |input|] == buffer[..offset + 1] + buffer[offset + 1..offset + 1 + |input|];
      assert buffer[offset + 1..offset + 1 + |input|] == input;
      assert buffer[..offset + 1] == old(buffer[..offset + 1]);
    }

    method WriteEscaped(input: ByteString)
      requires Valid() && NulFree(input) && offset + 1 + |Escape(input)| + 1 < length
      modifies buffer
      ensures buffer[..offset + 1 + |Escape(input)|] == old(buffer[..offset + 1]) + Escape(input)
    {
      ghost var start := buffer[..offset + 1];
      var out := offset + 1;
      var i := 0;
      assert input[..0] == [];
      while i < |input|
        invariant 0 <= i <= |input|
        invariant out == offset + 1 + |Escape(input[..i])| < length
        invariant buffer[..out] == start + Escape(input[..i])
      {
        WriteNext(input, i);
        Assoc(start, Escape(input[..i]), EscapeByte(input[i]));
        out := WriteEscape(input[i], out);
        i := i + 1;
      }
      assert input[..|input|] == input;
    }

    static lemma WriteNext(input: ByteString, i: nat)
      requires i < |input|
      ensures Escape(input[..i + 1]) == Escape(input[..i]) + EscapeByte(input[i])
      ensures |Escape(input[..i + 1])| <= |Escape(input)|
    {
      assert input[..i + 1] == input[..i] + [input[i]];
      EscapeAppend(input[..i], input[i]);
      EscapeOfPrefix(input, i + 1);
    }

    static lemma EscapeCases(b: Byte)
      ensures b > 31 && b != QUOTE && b != BACKSLASH ==> EscapeByte(b) == [b]
      ensures !(b > 31 && b != QUOTE && b != BACKSLASH) ==>
        if ShortEscape(b) != 0 then EscapeByte(b) == [BACKSLASH, ShortEscape(b)]
        else b < 32 && EscapeByte(b) == [BACKSLASH] + [LOWER_U, ZERO, ZERO, LowerHex(b / 16), LowerHex(b % 16)]
    {
    }

    /** One character of the string, copied or escaped. */
    method WriteEscape(b: Byte, out: nat) returns (next: nat)
      requires Valid() && b != NUL && out + |EscapeByte(b)| < length
      modifies buffer
      ensures next == out + |EscapeByte(b)|
      ensures buffer[..next] == old(buffer[..out]) + EscapeByte(b)
    {
      hide EscapeByte, ShortEscape, LowerHex;
      EscapeCases(b);
      next := out;
      if b > 31 && b != QUOTE && b != BACKSLASH {
        buffer[next] := b;
        next := next + 1;
      } else {
        buffer[next] := BACKSLASH;
        next := WriteSequence(b, next + 1);
        assert buffer[out..next] == [BACKSLASH] + buffer[out + 1..next];
      }
      assert buffer[..next] == buffer[..out] + buffer[out..next];
    }

    /** What stands behind the backslash. */
    method WriteSequence(b: Byte, out: nat) returns (next: nat)
      requires if ShortEscape(b) != 0 then out < buffer.Length else b < 32 && out + 5 < buffer.Length
      modifies buffer
      ensures forall i :: 0 <= i < out ==> buffer[i] == old(buffer[i])
      ensures next == out + if ShortEscape(b) != 0 then 1 else 5
      ensures buffer[out..next]
           == if ShortEscape(b) != 0 then [ShortEscape(b)]
              else [LOWER_U, ZERO, ZERO, LowerHex(b / 16), LowerHex(b % 16)]
    {
      hide ShortEscape, LowerHex;
      next := out;
      var letter := ShortEscape(b);
      if letter != 0 {
        buffer[next] := letter;
      } else {
        SprintfUnicode(b, next);
        next := next + 4;
      }
      next := next + 1;
    }

    /** A copy that holds the text and its terminator only. */
    method Trimmed() returns (printed: array<Byte>)
      requires Valid() && offset < length
      ensures fresh(printed) && printed[..] == buffer[..offset + 1]
    {
      printed := new Byte[offset + 1](
        i requires 0 <= i < offset + 1 <= buffer.Length reads this, buffer => buffer[i]);
    }

    /** `sprintf` with `u%04x`, which also writes a terminator. */
    method SprintfUnicode(b: Byte, out: nat)
      requires b < 32 && out + 5 < buffer.Length
      modifies buffer
      ensures forall i :: 0 <= i < out ==> buffer[i] == old(buffer[i])
      ensures buffer[out..out + 5] == [LOWER_U, ZERO, ZERO, LowerHex(b / 16), LowerHex(b % 16)]
    {
      hide LowerHex;
      buffer[out], buffer[out + 1], buffer[out + 2] := LOWER_U, ZERO, ZERO;
      buffer[out + 3], buffer[out + 4] := LowerHex(b / 16), LowerHex(b % 16);
      buffer[out + 5] := NUL;
    }

    method PrintLiteral(text: ByteString) returns (ok: bool)
      requires Valid() && NulFree(text)
      modifies this`buffer, this`length, buffer
      ensures Valid() && (buffer == old(buffer) || (!noalloc && fresh(buffer))) && Room() == old(Room())
      ensures ok == (offset + |text| + 2 <= Room())
      ensures ok ==> Holds(old(Prefix()) + text)
    {
      ok := Ensure(|text| + 1);
      if ok {
        Strcpy(text);
      }
    }

    method Strcpy(text: ByteString)
      requires Valid() && offset + |text| < length
      modifies buffer
      ensures Holds(old(Prefix()) + text)
    {
      forall i | 0 <= i < |text| {
        buffer[offset + i] := text[i];
      }
      buffer[offset + |text|] := NUL;
      assert buffer[..offset + |text|] == buffer[..offset] + buffer[offset..offset + |text|];
      assert buffer[offset..offset + |text|] == text;
      assert buffer[..offset] == old(buffer[..offset]);
    }

    /** Unlike the other printers, this one moves the offset itself. */
    method PrintNumber(valueint: int) returns (ok: bool)
      requires Valid() && INT_MIN <= valueint <= INT_MAX
      modifies this`buffer, this`length, this`offset, buffer
      ensures Valid() && (buffer == old(buffer) || (!noalloc && fresh(buffer))) && Room() == old(Room())
      ensures ok == (old(offset) + |PrintInt(valueint)| + 2 <= Room())
      ensures ok ==> Holds(old(Prefix()) + PrintInt(valueint)) && offset == old(offset) + |PrintInt(valueint)|
      ensures !ok ==> offset == old(offset)
    {
      var numberBuffer := PrintInt(valueint);
      PrintIntLength(valueint);
      if |numberBuffer| > 25 {
        return false;
      }
      ok := Ensure(|numberBuffer| + 1);
      if ok {
        Strcpy(numberBuffer);
        offset := offset + |numberBuffer|;
      }
    }

    /** Prints the value that the node shows at the offset. It succeeds exactly when the nesting is allowed
      * and two bytes more than the text can be had; the offset is then somewhere between the start and the
      * end of the text. */
    method PrintValue(item: Node, ghost t: Tree, ghost v: Json) returns (ok: bool)
      requires Valid() && item.Is(t) && Shows(t, v) && Printable(v)
      modifies this, buffer
      ensures Valid() && (buffer == old(buffer) || (!noalloc && fresh(buffer))) && Room() == old(Room())
      ensures ok == (Nesting(v) + old(depth) <= NESTING_LIMIT
                     && old(offset) + |Render(v, format, old(depth))| + 2 <= Room())
      ensures ok ==> Holds(old(Prefix()) + Render(v, format, old(depth)))
      ensures ok ==> depth == old(depth) && old(offset) <= offset <= old(offset) + |Render(v, format, old(depth))|
      decreases v, 1
    {
      hide Node.Is, Render, Nesting, ItemsNesting, MembersNesting, ArrayText, ObjectText, Shows;
      Children(item, t);
      PrintStep(t, v, format, depth);
      match item.kind {
        case NullKind => ok := PrintLiteral(NULL_TEXT);
        case FalseKind => ok := PrintLiteral(FALSE_TEXT);
        case TrueKind => ok := PrintLiteral(TRUE_TEXT);
        case NumberKind => ok := PrintNumber(item.valueint);
        case StringKind => ok := PrintStringPtr(Text(item.valuestring));
        case ArrayKind => ok := PrintArray(item, t, v.items);
        case ObjectKind => ok := PrintObject(item, t, v.members);
      }
    }

    method PrintArray(item: Node, ghost t: Tree, ghost items: seq<Json>) returns (ok: bool)
      requires Valid() && item.Is(t) && ShowItems(t.kids, items) && PrintableItems(items)
      modifies this, buffer
      ensures Valid() && (buffer == old(buffer) || (!noalloc && fresh(buffer))) && Room() == old(Room())
      ensures ok == (1 + ItemsNesting(items) + old(depth) <= NESTING_LIMIT
                     && old(offset) + |ArrayText(items, format, old(depth))| + 2 <= Room())
      ensures ok ==> Holds(old(Prefix()) + ArrayText(items, format, old(depth)))
      ensures ok ==> depth == old(depth)
                     && old(offset) <= offset <= old(offset) + |ArrayText(items, format, depth)|
      decreases items, 1
    {
      hide Node.Is, RenderItems, ItemsNesting, ShowItems, PrintableItems, ArrayText;
      ghost var start := Prefix();
      ArrayPieces(start, items, format, depth);
      if depth >= NESTING_LIMIT {
        return false;
      }
      ok := OpenArray();
      if !ok {
        return;
      }
      ok := PrintItems(item, t, items);
      if !ok {
        return;
      }
      ok := CloseArray();
    }

    static lemma ArrayPieces(start: ByteString, items: seq<Json>, format: bool, depth: nat)
      ensures var text, whole := RenderItems(items, format, depth + 1), ArrayText(items, format, depth);
        start + whole == start + [LBRACKET] + text + [RBRACKET] && |whole| == |text| + 2
    {
      hide RenderItems;
      Regroup(start, [LBRACKET], RenderItems(items, format, depth + 1), [RBRACKET]);
    }

    method PrintItems(item: Node, ghost t: Tree, ghost items: seq<Json>) returns (ok: bool)
      requires Valid() && item.Is(t) && ShowItems(t.kids, items) && PrintableItems(items)
      modifies this, buffer
      ensures Valid() && (buffer == old(buffer) || (!noalloc && fresh(buffer))) && Room() == old(Room())
      ensures ok ==> depth == old(depth) && ItemsNesting(items) + depth <= NESTING_LIMIT
                     && Prefix() == old(Prefix()) + RenderItems(items, format, depth)
      ensures !ok ==> ItemsNesting(items) + old(depth) > NESTING_LIMIT
                      || old(offset) + |RenderItems(items, format, old(depth))| + 2 > Room()
      decreases items, 0
    {
      hide Node.Is, Render, RenderItems, Nesting, ItemsNesting, Shows, ShowItems, Printable, PrintableItems, Separator;
      Children(item, t);
      ghost var inner := depth;
      ghost var whole := Prefix() + RenderItems(items, format, inner);
      ghost var fits := ItemsNesting(items) + inner <= NESTING_LIMIT;
      ok := true;
      var currentElement := item.child;
      ghost var i := 0;
      assert items[0..] == items;
      ItemsShown(t.kids, items);
      while currentElement != null
        invariant 0 <= i <= |items| && ok && item.Is(t) && currentElement == Nth(item.kids, i)
        invariant Valid() && (buffer == old(buffer) || (!noalloc && fresh(buffer))) && Room() == old(Room())
        invariant depth == inner
        invariant Prefix() + RenderItems(items[i..], format, inner) == whole
        invariant fits == (ItemsNesting(items[i..]) + inner <= NESTING_LIMIT)
        decreases |items| - i
      {
        Children(item, t);
        Child(item, t, i);
        ItemsStep(Prefix(), items, i, format, inner);
        ok := PrintItem(currentElement, t.kids[i], items[i], currentElement.next == null);
        if !ok {
          return;
        }
        Children(item, t);
        currentElement := currentElement.next;
        i := i + 1;
      }
      RenderNothing(format, inner);
      assert items[|items|..] == [];
    }

    static lemma ItemsShown(kids: seq<Tree>, items: seq<Json>)
      requires ShowItems(kids, items) && PrintableItems(items)
      ensures |kids| == |items|
      ensures forall i :: 0 <= i < |items| ==> Shows(kids[i], items[i]) && Printable(items[i])
    {
    }

    /** What one turn of the loop adds to what is in front of it. */
    static lemma ItemsStep(start: ByteString, items: seq<Json>, i: nat, format: bool, depth: nat)
      requires i < |items|
      ensures var text := Render(items[i], format, depth);
        var separator := if i + 1 == |items| then [] else Separator(format);
        var rest := RenderItems(items[i + 1..], format, depth);
        && start + RenderItems(items[i..], format, depth) == start + text + separator + rest
        && |start + RenderItems(items[i..], format, depth)| >= |start| + |text| + |separator|
      ensures ItemsNesting(items[i..]) + depth <= NESTING_LIMIT
         <==> Nesting(items[i]) + depth <= NESTING_LIMIT && ItemsNesting(items[i + 1..]) + depth <= NESTING_LIMIT
    {
      hide Render, RenderItems, Nesting, ItemsNesting;
      RenderItemsStep(items, i, format, depth);
      Regroup(start, Render(items[i], format, depth), if i + 1 < |items| then Separator(format) else [],
              RenderItems(items[i + 1..], format, depth));
    }

    method OpenArray() returns (ok: bool)
      requires Valid() && depth < NESTING_LIMIT
      modifies this, buffer
      ensures Valid() && (buffer == old(buffer) || (!noalloc && fresh(buffer))) && Room() == old(Room())
      ensures ok == (old(offset) + 2 <= Room())
      ensures ok ==> Prefix() == old(Prefix()) + [LBRACKET] && depth == old(depth) + 1
    {
      ok := Ensure(1);
      if ok {
        buffer[offset] := LBRACKET;
        offset := offset + 1;
        depth := depth + 1;
      }
    }

    /** Leaves the offset at the closing bracket. */
    method CloseArray() returns (ok: bool)
      requires Valid() && depth > 0
      modifies this`buffer, this`length, this`depth, buffer
      ensures Valid() && (buffer == old(buffer) || (!noalloc && fresh(buffer))) && Room() == old(Room())
      ensures ok == (offset + 3 <= Room())
      ensures ok ==> Holds(old(Prefix()) + [RBRACKET]) && depth == old(depth) - 1
    {
      ok := Ensure(2);
      if ok {
        EndWith(RBRACKET, offset);
        depth := depth - 1;
      }
    }

    static lemma Regroup(a: ByteString, b: ByteString, c: ByteString, d: ByteString)
      ensures a + (b + c + d) == a + b + c + d
    {
    }

    /** One turn of the loop over the elements. */
    method PrintItem(item: Node, ghost t: Tree, ghost v: Json, last: bool) returns (ok: bool)
      requires Valid() && item.Is(t) && Shows(t, v) && Printable(v)
      modifies this, buffer
      ensures Valid() && (buffer == old(buffer) || (!noalloc && fresh(buffer))) && Room() == old(Room())
      ensures ok == (Nesting(v) + old(depth) <= NESTING_LIMIT
                     && old(offset) + |Render(v, format, old(depth))|
                        + (if last then 0 else |Separator(format)|) + 2 <= Room())
      ensures ok ==> depth == old(depth)
                     && Prefix() == old(Prefix()) + Render(v, format, depth) + (if last then [] else Separator(format))
      decreases v, 2
    {
      hide Node.Is, Render, RenderItems, RenderMembers, Nesting, ItemsNesting, MembersNesting;
      hide Shows, WellFormed, IntNumbers;
      ghost var before := Prefix();
      ghost var text := Render(v, format, depth);
      RenderIsText(v, format, depth);
      ok := PrintValue(item, t, v);
      if !ok {
        return;
      }
      UpdateOffset(before + text);
      if !last {
        ok := PrintSeparator();
      }
    }

    method PrintSeparator() returns (ok: bool)
      requires Valid()
      modifies this`buffer, this`length, this`offset, buffer
      ensures Valid() && (buffer == old(buffer) || (!noalloc && fresh(buffer))) && Room() == old(Room())
      ensures ok == (old(offset) + |Separator(format)| + 2 <= Room())
      ensures ok ==> Prefix() == old(Prefix()) + Separator(format)
      ensures !ok ==> offset == old(offset)
    {
      var length := if format then 2 else 1;
      ok := Ensure(length + 1);
      if !ok {
        return;
      }
      buffer[offset] := COMMA;
      if format {
        buffer[offset + 1] := SPACE;
      }
      buffer[offset + length] := NUL;
      offset := offset + length;
      assert Prefix() == old(Prefix()) + Separator(format);
    }

    method PrintObject(item: Node, ghost t: Tree, ghost members: seq<Member>) returns (ok: bool)
      requires Valid() && item.Is(t) && ShowMembers(t.kids, members) && PrintableMembers(members)
      modifies this, buffer
      ensures Valid() && (buffer == old(buffer) || (!noalloc && fresh(buffer))) && Room() == old(Room())
      ensures ok == (1 + MembersNesting(members) + old(depth) <= NESTING_LIMIT
                     && old(offset) + |ObjectText(members, format, old(depth))| + 2 <= Room())
      ensures ok ==> Holds(old(Prefix()) + ObjectText(members, format, old(depth)))
      ensures ok ==> depth == old(depth)
                     && old(offset) <= offset <= old(offset) + |ObjectText(members, format, depth)|
      decreases members, 1
    {
      hide Node.Is, RenderMembers, MembersNesting, ShowMembers, PrintableMembers, ObjectOpen, ObjectClose, ObjectText;
      ghost var start := Prefix();
      ObjectPieces(start, members, format, depth);
      if depth >= NESTING_LIMIT {
        return false;
      }
      ok := OpenObject();
      if !ok {
        return;
      }
      ok := PrintMembers(item, t, members);
      if !ok {
        return;
      }
      ok := CloseObject();
    }

    static lemma ObjectPieces(start: ByteString, members: seq<Member>, format: bool, depth: nat)
      ensures var open, close := ObjectOpen(format), ObjectClose(format, depth);
        var text, whole := RenderMembers(members, format, depth + 1), ObjectText(members, format, depth);
        start + whole == start + open + text + close && |whole| == |open| + |text| + |close| && |close| > 0
    {
      hide RenderMembers, ObjectOpen;
      Regroup(start, ObjectOpen(format), RenderMembers(members, format, depth + 1), ObjectClose(format, depth));
    }

    method PrintMembers(item: Node, ghost t: Tree, ghost members: seq<Member>) returns (ok: bool)
      requires Valid() && item.Is(t) && ShowMembers(t.kids, members) && PrintableMembers(members)
      modifies this, buffer
      ensures Valid() && (buffer == old(buffer) || (!noalloc && fresh(buffer))) && Room() == old(Room())
      ensures ok ==> depth == old(depth) && MembersNesting(members) + depth <= NESTING_LIMIT
                     && Prefix() == old(Prefix()) + RenderMembers(members, format, depth)
      ensures !ok ==> MembersNesting(members) + old(depth) > NESTING_LIMIT
                      || old(offset) + |RenderMembers(members, format, old(depth))| + 2 > Room()
      decreases members, 0
    {
      hide Node.Is, RenderMember, RenderMembers, MemberEnd, Nesting, MembersNesting;
      hide Shows, ShowMembers, Printable, PrintableMembers;
      Children(item, t);
      ghost var inner := depth;
      ghost var whole := Prefix() + RenderMembers(members, format, inner);
      ghost var fits := MembersNesting(members) + inner <= NESTING_LIMIT;
      ok := true;
      var currentItem := item.child;
      ghost var i := 0;
      assert members[0..] == members;
      MembersShown(t.kids, members);
      while currentItem != null
        invariant 0 <= i <= |members| && ok && item.Is(t) && currentItem == Nth(item.kids, i)
        invariant Valid() && (buffer == old(buffer) || (!noalloc && fresh(buffer))) && Room() == old(Room())
        invariant depth == inner
        invariant Prefix() + RenderMembers(members[i..], format, inner) == whole
        invariant fits == (MembersNesting(members[i..]) + inner <= NESTING_LIMIT)
        decreases |members| - i
      {
        Children(item, t);
        Child(item, t, i);
        MembersStep(Prefix(), members, i, format, inner);
        ok := PrintMember(currentItem, t.kids[i], members[i], currentItem.next == null);
        if !ok {
          return;
        }
        Children(item, t);
        currentItem := currentItem.next;
        i := i + 1;
      }
      RenderNothing(format, inner);
      assert members[|members|..] == [];
    }

    static lemma MembersShown(kids: seq<Tree>, members: seq<Member>)
      requires ShowMembers(kids, members) && PrintableMembers(members)
      ensures |kids| == |members|
      ensures forall i :: 0 <= i < |members| ==>
        && Text(kids[i].name) == members[i].key && Shows(kids[i], members[i].value)
        && NulFree(members[i].key) && Printable(members[i].value)
    {
    }

    /** What one turn of the loop adds to what is in front of it. */
    static lemma MembersStep(start: ByteString, members: seq<Member>, i: nat, format: bool, depth: nat)
      requires i < |members|
      ensures var text, end := RenderMember(members[i], format, depth), MemberEnd(format, i + 1 == |members|);
        var rest := RenderMembers(members[i + 1..], format, depth);
        && start + RenderMembers(members[i..], format, depth) == start + text + end + rest
        && |start + RenderMembers(members[i..], format, depth)| >= |start| + |text| + |end|
      ensures MembersNesting(members[i..]) + depth <= NESTING_LIMIT
         <==> Nesting(members[i].value) + depth <= NESTING_LIMIT
              && MembersNesting(members[i + 1..]) + depth <= NESTING_LIMIT
    {
      hide RenderMember, RenderMembers, Nesting, MembersNesting;
      RenderMembersStep(members, i, format, depth);
      Regroup(start, RenderMember(members[i], format, depth), MemberEnd(format, i + 1 == |members|),
              RenderMembers(members[i + 1..], format, depth));
    }

    method OpenObject() returns (ok: bool)
      requires Valid() && depth < NESTING_LIMIT
      modifies this, buffer
      ensures Valid() && (buffer == old(buffer) || (!noalloc && fresh(buffer))) && Room() == old(Room())
      ensures ok == (old(offset) + |ObjectOpen(format)| + 2 <= Room())
      ensures ok ==> Prefix() == old(Prefix()) + ObjectOpen(format) && depth == old(depth) + 1
    {
      var length := if format then 2 else 1;
      ok := Ensure(length + 1);
      if ok {
        buffer[offset] := LBRACE;
        depth := depth + 1;
        if format {
          buffer[offset + 1] := NEWLINE;
        }
        offset := offset + length;
      }
    }

    /** Leaves the offset where the closing line starts. */
    method CloseObject() returns (ok: bool)
      requires Valid() && depth > 0
      modifies this`buffer, this`length, this`depth, buffer
      ensures Valid() && (buffer == old(buffer) || (!noalloc && fresh(buffer))) && Room() == old(Room())
      ensures ok == (offset + |ObjectClose(format, old(depth) - 1)| + 2 <= Room())
      ensures ok ==> Holds(old(Prefix()) + ObjectClose(format, depth)) && depth == old(depth) - 1
    {
      ok := Ensure(if format then depth + 1 else 2);
      if ok {
        var tabs := if format then depth - 1 else 0;
        WriteTabs(tabs);
        EndWith(RBRACE, offset + tabs);
        Assoc(old(Prefix()), Tabs(tabs), [RBRACE]);
        depth := depth - 1;
      }
    }

    method WriteTabs(n: nat)
      requires Valid() && offset + n <= length
      modifies buffer
      ensures buffer[..offset + n] == old(buffer[..offset]) + Tabs(n)
    {
      var i := 0;
      while i < n
        invariant 0 <= i <= n
        invariant buffer[..offset] == old(buffer[..offset])
        invariant forall k :: offset <= k < offset + i ==> buffer[k] == TAB
      {
        buffer[offset + i] := TAB;
        i := i + 1;
      }
      assert buffer[..offset + n] == buffer[..offset] + buffer[offset..offset + n];
      assert buffer[offset..offset + n] == Tabs(n);
    }

    /** One turn of the loop over the members. */
    method PrintMember(item: Node, ghost t: Tree, ghost m: Member, last: bool) returns (ok: bool)
      requires Valid() && item.Is(t) && Text(t.name) == m.key && Shows(t, m.value)
      requires NulFree(m.key) && Printable(m.value)
      modifies this, buffer
      ensures Valid() && (buffer == old(buffer) || (!noalloc && fresh(buffer))) && Room() == old(Room())
      ensures ok == (Nesting(m.value) + old(depth) <= NESTING_LIMIT
                     && old(offset) + |RenderMember(m, format, old(depth))| + |MemberEnd(format, last)| + 2 <= Room())
      ensures ok ==> depth == old(depth)
                     && Prefix() == old(Prefix()) + RenderMember(m, format, depth) + MemberEnd(format, last)
      decreases m, 2
    {
      hide Node.Is, Render, RenderItems, RenderMembers, Nesting, ItemsNesting, MembersNesting;
      hide Shows, WellFormed, IntNumbers;
      Children(item, t);
      ghost var start, key, text := Prefix(), KeyText(m.key, format, depth), Render(m.value, format, depth);
      RenderIsText(m.value, format, depth);
      Assoc(start, key, text);
      ok := PrintKey(Text(item.name));
      if !ok {
        return;
      }
      ok := PrintValue(item, t, m.value);
      if !ok {
        return;
      }
      UpdateOffset((start + key) + text);
      ok := PrintMemberEnd(last);
    }

    method PrintKey(key: ByteString) returns (ok: bool)
      requires Valid() && NulFree(key)
      modifies this`buffer, this`length, this`offset, buffer
      ensures Valid() && (buffer == old(buffer) || (!noalloc && fresh(buffer))) && Room() == old(Room())
      ensures !ok ==> old(offset) + |KeyText(key, format, depth)| + 1 > Room()
      ensures ok ==> Prefix() == old(Prefix()) + KeyText(key, format, depth)
    {
      ghost var start := Prefix();
      ok := PrintIndent();
      if !ok {
        return;
      }
      Regroup(start, Indent(format, depth), Quoted(key), KeyEnd(format));
      ok := PrintStringPtr(key);
      if !ok {
        return;
      }
      QuotedIsNulFree(key);
      UpdateOffset(start + Indent(format, depth) + Quoted(key));
      ok := PrintKeyEnd();
    }

    method PrintIndent() returns (ok: bool)
      requires Valid()
      modifies this`buffer, this`length, this`offset, buffer
      ensures Valid() && (buffer == old(buffer) || (!noalloc && fresh(buffer))) && Room() == old(Room())
      ensures !ok ==> old(offset) + |Indent(format, depth)| + 1 > Room()
      ensures ok ==> Prefix() == old(Prefix()) + Indent(format, depth)
    {
      ok := true;
      if format {
        ok := Ensure(depth);
        if ok {
          WriteTabs(depth);
          offset := offset + depth;
        }
      }
    }

    method PrintKeyEnd() returns (ok: bool)
      requires Valid()
      modifies this`buffer, this`length, this`offset, buffer
      ensures Valid() && (buffer == old(buffer) || (!noalloc && fresh(buffer))) && Room() == old(Room())
      ensures !ok ==> old(offset) + |KeyEnd(format)| + 1 > Room()
      ensures ok ==> Prefix() == old(Prefix()) + KeyEnd(format)
    {
      var length := if format then 2 else 1;
      ok := Ensure(length);
      if ok {
        buffer[offset] := COLON;
        if format {
          buffer[offset + 1] := TAB;
        }
        offset := offset + length;
      }
    }

    method PrintMemberEnd(last: bool) returns (ok: bool)
      requires Valid()
      modifies this`buffer, this`length, this`offset, buffer
      ensures Valid() && (buffer == old(buffer) || (!noalloc && fresh(buffer))) && Room() == old(Room())
      ensures ok == (old(offset) + |MemberEnd(format, last)| + 2 <= Room())
      ensures ok ==> Prefix() == old(Prefix()) + MemberEnd(format, last)
    {
      var length := (if format then 1 else 0) + (if last then 0 else 1);
      ok := Ensure(length + 1);
      if ok {
        WriteMemberEnd(last);
        offset := offset + length;
        assert buffer[..offset] == buffer[..old(offset)] + buffer[old(offset)..offset];
      }
    }

    method WriteMemberEnd(last: bool)
      requires Valid() && offset + |MemberEnd(format, last)| + 1 <= buffer.Length
      modifies buffer
      ensures var end := offset + |MemberEnd(format, last)|;
        && buffer[..offset] == old(buffer[..offset])
        && buffer[offset..end] == MemberEnd(format, last)
        && buffer[end] == NUL
    {
      var out := offset;
      if !last {
        buffer[out] := COMMA;
        out := out + 1;
      }
      if format {
        buffer[out] := NEWLINE;
        out := out + 1;
      }
      buffer[out] := NUL;
    }
  }

  /** What the cases of the printer have to know. */
  lemma PrintStep(t: Tree, v: Json, format: bool, depth: nat)
    requires Shows(t, v) && Printable(v)
    ensures t.kind != Invalid
    ensures t.kind == NullKind ==> Render(v, format, depth) == NULL_TEXT && Nesting(v) == 0
    ensures t.kind == FalseKind ==> Render(v, format, depth) == FALSE_TEXT && Nesting(v) == 0
    ensures t.kind == TrueKind ==> Render(v, format, depth) == TRUE_TEXT && Nesting(v) == 0
    ensures t.kind == NumberKind ==>
      Render(v, format, depth) == PrintInt(t.valueint) && Nesting(v) == 0 && INT_MIN <= t.valueint <= INT_MAX
    ensures t.kind == StringKind ==>
      Render(v, format, depth) == Quoted(Text(t.valuestring)) && Nesting(v) == 0 && NulFree(Text(t.valuestring))
    ensures t.kind == ArrayKind ==>
      && v.Array? && ShowItems(t.kids, v.items) && PrintableItems(v.items) && Nesting(v) == 1 + ItemsNesting(v.items)
      && Render(v, format, depth) == ArrayText(v.items, format, depth)
    ensures t.kind == ObjectKind ==>
      && v.Object? && ShowMembers(t.kids, v.members) && PrintableMembers(v.members)
      && Nesting(v) == 1 + MembersNesting(v.members)
      && Render(v, format, depth) == ObjectText(v.members, format, depth)
  {
  }

  /** What is printed, in terms of characters. */
  lemma LaidOut(v: Json, format: bool)
    ensures Render(v, format, 0) == Layout(v, format, 0)
    ensures Nesting(v) <= NESTING_LIMIT <==> NestsWithin(v, 1000)
  {
    RenderIs(v, format, 0);
    NestingIs(v, 1000);
  }

  // ---- Entry points ----

  /** Prints into a growing buffer and hands back exactly the text and its terminator. */
  method Print(item: Node, format: bool, ghost t: Tree, ghost v: Json) returns (printed: array?<Byte>)
    requires item.Is(t) && Shows(t, v) && Printable(v)
    ensures printed != null
       <==> Nesting(v) <= NESTING_LIMIT && |Render(v, format, 0)| + 2 <= INT_MAX
    ensures printed != null ==> printed[..] == Render(v, format, 0) + [NUL]
    ensures printed != null <==> NestsWithin(v, 1000) && |Layout(v, format, 0)| + 2 <= 2147483647
    ensures printed != null ==> printed[..] == Layout(v, format, 0) + [0]
  {
    hide Node.Is, Shows, Render, Layout, WellFormed, IntNumbers, NestsWithin, Nesting, ItemsNesting, MembersNesting;
    LaidOut(v, format);
    var p := new PrintBuffer(256, false, format);
    var ok := p.PrintValue(item, t, v);
    if !ok {
      return null;
    }
    ghost var text := Render(v, format, 0);
    RenderIsText(v, format, 0);
    assert [] + text == text;
    p.UpdateOffset(text);
    printed := p.Trimmed();
  }

  /** The initial size is only a guess: unless it is negative, it decides nothing about the outcome. */
  method PrintBuffered(item: Node, prebuffer: int, format: bool, ghost t: Tree, ghost v: Json)
    returns (buffer: array?<Byte>)
    requires item.Is(t) && Shows(t, v) && Printable(v) && prebuffer <= INT_MAX
    ensures buffer != null
       <==> prebuffer >= 0 && Nesting(v) <= NESTING_LIMIT && |Render(v, format, 0)| + 2 <= INT_MAX
    ensures buffer != null ==>
      var n := |Render(v, format, 0)|;
      n < buffer.Length && buffer[..n] == Render(v, format, 0) && buffer[n] == NUL
    ensures buffer != null <==> prebuffer >= 0 && NestsWithin(v, 1000) && |Layout(v, format, 0)| + 2 <= 2147483647
    ensures buffer != null ==> Layout(v, format, 0) + [0] <= buffer[..]
  {
    hide Node.Is, Shows, Render, Layout, WellFormed, IntNumbers, NestsWithin, Nesting, ItemsNesting, MembersNesting;
    LaidOut(v, format);
    if prebuffer < 0 {
      return null;
    }
    var p := new PrintBuffer(prebuffer, false, format);
    var ok := p.PrintValue(item, t, v);
    if !ok {
      return null;
    }
    assert [] + Render(v, format, 0) == Render(v, format, 0);
    return p.buffer;
  }

  /** The exact capacity: two bytes more than the text, so the terminator and one spare byte. */
  method PrintPreallocated(item: Node, buffer: array?<Byte>, length: int, format: bool, ghost t: Tree, ghost v: Json)
    returns (ok: bool)
    requires item.Is(t) && Shows(t, v) && Printable(v)
    requires length <= INT_MAX && (buffer != null && length >= 0 ==> length == buffer.Length)
    modifies buffer
    ensures ok <==> buffer != null && Nesting(v) <= NESTING_LIMIT && |Render(v, format, 0)| + 2 <= length
    ensures ok ==>
      var n := |Render(v, format, 0)|;
      buffer[..n] == Render(v, format, 0) && buffer[n] == NUL
    ensures ok <==> buffer != null && NestsWithin(v, 1000) && |Layout(v, format, 0)| + 2 <= length
    ensures ok ==> Layout(v, format, 0) + [0] <= buffer[..]
  {
    hide Node.Is, Shows, Render, Layout, WellFormed, IntNumbers, NestsWithin, Nesting, ItemsNesting, MembersNesting;
    LaidOut(v, format);
    if length < 0 || buffer == null {
      return false;
    }
    var p := new PrintBuffer.Preallocated(buffer, format);
    ok := p.PrintValue(item, t, v);
    assert [] + Render(v, format, 0) == Render(v, format, 0);
  }
}
