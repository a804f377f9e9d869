/** The nodes of a cJSON tree: a chain of siblings linked both ways, in which the `prev` of the first one
  * is the last one. */
module JsonNodes {
  import opened Options
  import opened Bytes

  datatype Kind = Invalid | FalseKind | TrueKind | NullKind | NumberKind | StringKind | ArrayKind | ObjectKind

  /** What a node and its children say. A string is what stands before its terminator, and None is a null
    * pointer. */
  datatype Tree = Tree(
    kind: Kind, valuestring: Option<ByteString>, valueint: int, valuedouble: real, name: Option<ByteString>,
    kids: seq<Tree>)

  class Node {
    var next: Node?
    var prev: Node?
    var child: Node?
    var kind: Kind
    var valuestring: Option<ByteString>
    var valueint: int
    var valuedouble: real
    var name: Option<ByteString>
    /** The children in order, and all nodes of the tree. */
    ghost var kids: seq<Node>
    ghost var repr: set<Node>

    /** A zeroed node. */
    constructor ()
      ensures next == null && prev == null && Is(Tree(Invalid, None, 0, 0.0, None, [])) && repr == {this}
    {
      next, prev, child := null, null, null;
      kind, valuestring, valueint, valuedouble, name := Invalid, None, 0, 0.0, None;
      kids, repr := [], {this};
    }

    /** The node is the root of a tree that says `t`. Its own place among its siblings is left open. */
    ghost predicate Is(t: Tree)
      reads this`child, this`kind, this`valuestring, this`valueint, this`valuedouble, this`name, this`kids, this`repr
      reads repr - {this}
      decreases t
    {
      && t == Tree(kind, valuestring, valueint, valuedouble, name, t.kids)
      && this in repr
      && |kids| == |t.kids|
      && (forall i :: 0 <= i < |kids| ==> kids[i] in repr - {this} && kids[i].repr <= repr - {this})
      && (forall i, j :: 0 <= i < j < |kids| ==> kids[i].repr !! kids[j].repr)
      && (forall i :: 0 <= i < |kids| ==> kids[i].Is(t.kids[i]))
      && Ring(child, kids)
    }
  }

  /** `head` starts a chain of exactly `kids`, linked forward to null and backward in a ring. */
  ghost predicate Ring(head: Node?, kids: seq<Node>)
    reads kids
  {
    && Linked(head, kids)
    && (kids != [] ==> kids[0].prev == kids[|kids| - 1])
  }

  /** The same before the ring is closed. */
  ghost predicate Linked(head: Node?, kids: seq<Node>)
    reads kids
  {
    && head == (if kids == [] then null else kids[0])
    && (forall i {:trigger kids[i].next} :: 0 <= i < |kids| ==>
         kids[i].next == if i + 1 < |kids| then kids[i + 1] else null)
    && (forall i {:trigger kids[i].prev} :: 0 < i < |kids| ==> kids[i].prev == kids[i - 1])
  }

  ghost function Nth(kids: seq<Node>, i: nat): (n: Node?)
    ensures n == null <==> i >= |kids|
  {
    if i < |kids| then kids[i] else null
  }

  // ---- Walking ----

  method GetArrayItem(list: Node?, index: int, ghost kids: seq<Node>) returns (item: Node?)
    requires list != null ==> Ring(list.child, kids)
    ensures item == if list == null || index < 0 then null else Nth(kids, index)
  {
    if list == null || index < 0 {
      return null;
    }
    item := list.child;
    var left := index;
    while item != null && left > 0
      invariant 0 <= left <= index && item == Nth(kids, index - left)
      decreases left
    {
      left := left - 1;
      item := item.next;
    }
  }

  method GetArraySize(list: Node?, ghost kids: seq<Node>) returns (size: nat)
    requires list != null ==> Ring(list.child, kids)
    ensures size == if list == null then 0 else |kids|
  {
    size := 0;
    if list == null {
      return;
    }
    var child := list.child;
    while child != null
      invariant size <= |kids| && child == Nth(kids, size)
      decreases |kids| - size
    {
      size := size + 1;
      child := child.next;
    }
  }
}
