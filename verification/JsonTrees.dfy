/** How JSON values are told by the nodes. */
module JsonTrees {
  import opened Options
  import opened Bytes
  import opened Decimal
  import opened JsonTree
  import opened JsonNodes

  /** What the parser makes of a value. */
  function TreeOf(v: Json, name: Option<ByteString>): Tree
    decreases v, 1
  {
    match v
    case Null => Tree(NullKind, None, 0, 0.0, name, [])
    case False => Tree(FalseKind, None, 0, 0.0, name, [])
    case True => Tree(TrueKind, None, 1, 0.0, name, [])
    case Number(value) => Tree(NumberKind, None, IntOf(value), value, name, [])
    case String(text) => Tree(StringKind, Some(text), 0, 0.0, name, [])
    case Array(items) => Tree(ArrayKind, None, 0, 0.0, name, ItemTrees(items))
    case Object(members) => Tree(ObjectKind, None, 0, 0.0, name, MemberTrees(members))
  }

  function ItemTrees(items: seq<Json>): (ts: seq<Tree>)
    ensures |ts| == |items|
    decreases items, 0
  {
    seq(|items|, i requires 0 <= i < |items| => TreeOf(items[i], None))
  }

  function MemberTrees(members: seq<Member>): (ts: seq<Tree>)
    ensures |ts| == |members|
    decreases members, 0
  {
    seq(|members|, i requires 0 <= i < |members| => TreeOf(members[i].value, Some(members[i].key)))
  }

  /** What the fields of a parsed node hold: those that its kind does not use are as a new node has them, but
    * for the 1 of a true. */
  lemma ParsedFields(v: Json, name: Option<ByteString>)
    ensures var t := TreeOf(v, name);
      && t.name == name
      && t.valuestring == (if v.String? then Some(v.text) else None)
      && t.valueint == (if v.True? then 1 else if v.Number? then IntOf(v.value) else 0)
      && t.valuedouble == (if v.Number? then v.value else 0.0)
      && (v.Array? ==> |t.kids| == |v.items| && forall i :: 0 <= i < |t.kids| ==> t.kids[i] == TreeOf(v.items[i], None))
      && (v.Object? ==> |t.kids| == |v.members| && forall i :: 0 <= i < |t.kids| ==>
            t.kids[i] == TreeOf(v.members[i].value, Some(v.members[i].key)))
      && (!v.Array? && !v.Object? ==> t.kids == [])
  {
  }

  /** A string that is not there prints like an empty one. */
  lemma NullPrintsEmpty(t: Tree, text: ByteString)
    requires t.kind == StringKind && t.valuestring.None?
    ensures Shows(t, String(text)) <==> text == []
  {
  }

  /** What the printer makes of a null pointer: an empty string. */
  function Text(s: Option<ByteString>): ByteString {
    if s.None? then [] else s.value
  }

  /** The printer sees `v` in the tree. */
  predicate Shows(t: Tree, v: Json)
    decreases v
  {
    match v
    case Null => t.kind == NullKind
    case False => t.kind == FalseKind
    case True => t.kind == TrueKind
    case Number(value) => t.kind == NumberKind && t.valuedouble == value && t.valueint == IntOf(value)
    case String(text) => t.kind == StringKind && Text(t.valuestring) == text
    case Array(items) => t.kind == ArrayKind && ShowItems(t.kids, items)
    case Object(members) => t.kind == ObjectKind && ShowMembers(t.kids, members)
  }

  predicate ShowItems(kids: seq<Tree>, items: seq<Json>)
    decreases items, 0
  {
    |kids| == |items| && forall i :: 0 <= i < |items| ==> Shows(kids[i], items[i])
  }

  predicate ShowMembers(kids: seq<Tree>, members: seq<Member>)
    decreases members, 0
  {
    && |kids| == |members|
    && forall i :: 0 <= i < |members| ==> Text(kids[i].name) == members[i].key && Shows(kids[i], members[i].value)
  }

  /** What was parsed shows what was read. */
  lemma {:induction false} TreeOfShows(v: Json, name: Option<ByteString>)
    ensures Shows(TreeOf(v, name), v)
    decreases v
  {
    match v
    case Array(items) =>
      forall i | 0 <= i < |items|
        ensures Shows(ItemTrees(items)[i], items[i])
      {
        TreeOfShows(items[i], None);
      }
    case Object(members) =>
      forall i | 0 <= i < |members|
        ensures Text(MemberTrees(members)[i].name) == members[i].key && Shows(MemberTrees(members)[i], members[i].value)
      {
        TreeOfShows(members[i].value, Some(members[i].key));
      }
    case _ =>
  }

  /** A tree shows one value at most. */
  lemma {:induction false} ShowsOne(t: Tree, v: Json, w: Json)
    requires Shows(t, v) && Shows(t, w)
    ensures v == w
    decreases v
  {
    match v
    case Array(items) =>
      forall i | 0 <= i < |items|
        ensures items[i] == w.items[i]
      {
        ShowsOne(t.kids[i], items[i], w.items[i]);
      }
    case Object(members) =>
      forall i | 0 <= i < |members|
        ensures members[i] == w.members[i]
      {
        ShowsOne(t.kids[i], members[i].value, w.members[i].value);
      }
    case _ =>
  }

  // ---- New nodes ----

  method CreateObject() returns (item: Node)
    ensures fresh(item) && item.repr == {item} && item.next == null && item.prev == null
    ensures item.Is(TreeOf(Object([]), None))
  {
    item := new Node();
    item.kind := ObjectKind;
    assert MemberTrees([]) == [];
  }

  method CreateString(text: ByteString) returns (item: Node)
    ensures fresh(item) && item.repr == {item} && item.next == null && item.prev == null
    ensures item.Is(TreeOf(String(text), None))
  {
    item := new Node();
    item.kind := StringKind;
    item.valuestring := Some(text);
  }

  method CreateNumber(num: real) returns (item: Node)
    ensures fresh(item) && item.repr == {item} && item.next == null && item.prev == null
    ensures item.Is(TreeOf(Number(num), None))
  {
    item := new Node();
    item.kind := NumberKind;
    item.valuedouble := num;
    item.valueint := IntOf(num);
  }
}
