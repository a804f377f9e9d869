/** Deep copies. */
module JsonDuplicate {
  import opened JsonNodes
  import opened JsonLists

  const CIRCULAR_LIMIT := 10000

  /** How far down the children go. */
  function Height(t: Tree): nat
    decreases t, 1
  {
    HeightOfKids(t.kids)
  }

  function HeightOfKids(kids: seq<Tree>): nat
    decreases kids, 0
  {
    if kids == [] then 0
    else
      var first, rest := 1 + Height(kids[0]), HeightOfKids(kids[1..]);
      if first < rest then rest else first
  }

  /** The height is that of the highest child and one more, and that of a childless tree is 0. */
  lemma {:induction false} HeightIs(kids: seq<Tree>, h: nat)
    ensures HeightOfKids(kids) <= h <==> forall i :: 0 <= i < |kids| ==> Height(kids[i]) + 1 <= h
  {
    hide Height;
    if kids != [] {
      HeightIs(kids[1..], h);
      assert forall i :: 0 < i < |kids| ==> kids[i] == kids[1..][i - 1];
    }
  }

  lemma {:induction false} KidIsLower(kids: seq<Tree>, i: nat)
    requires i < |kids|
    ensures Height(kids[i]) < HeightOfKids(kids)
    decreases |kids|
  {
    if i > 0 {
      KidIsLower(kids[1..], i - 1);
    }
  }

  /** Hangs `newchild` behind the last child; the ring is not closed. */
  method LinkNext(newitem: Node, last: Node?, newchild: Node)
    requires Linked(newitem.child, newitem.kids) && Distinct(newitem.kids)
    requires newchild !in newitem.kids && newchild != newitem && newitem !in newitem.kids && newchild.next == null
    requires last == Last(newitem.kids)
    modifies newitem`child, newitem`kids, newitem`repr, newitem.kids`next, newchild`prev
    ensures newitem.kids == old(newitem.kids) + [newchild] && newitem.repr == old(newitem.repr) + newchild.repr
    ensures Linked(newitem.child, newitem.kids) && newchild.next == null
  {
    if last != null {
      last.next := newchild;
      newchild.prev := last;
    } else {
      newitem.child := newchild;
    }
    newitem.kids := newitem.kids + [newchild];
    newitem.repr := newitem.repr + newchild.repr;
  }

  ghost function Last(kids: seq<Node>): Node? {
    if kids == [] then null else kids[|kids| - 1]
  }

  lemma FitsStep(kids: seq<Tree>, n: nat, depth: nat)
    requires n < |kids|
    ensures Fits(kids[n..], depth) <==> depth + 1 + Height(kids[n]) <= CIRCULAR_LIMIT && Fits(kids[n + 1..], depth)
  {
    hide Height;
    assert kids[n..][1..] == kids[n + 1..];
  }

  predicate Fits(kids: seq<Tree>, depth: nat) {
    depth + HeightOfKids(kids) <= CIRCULAR_LIMIT
  }

  lemma FitsNone(kids: seq<Tree>, depth: nat)
    requires kids == [] && depth <= CIRCULAR_LIMIT
    ensures Fits(kids, depth)
  {
  }

  method CopyNode(item: Node, ghost t: Tree) returns (newitem: Node)
    requires item.Is(t)
    ensures fresh(newitem) && newitem.Is(t.(kids := [])) && newitem.kids == [] && newitem.repr == {newitem}
    ensures newitem.next == null && newitem.prev == null && newitem.child == null
  {
    newitem := new Node();
    newitem.kind, newitem.valueint, newitem.valuedouble := item.kind, item.valueint, item.valuedouble;
    newitem.valuestring, newitem.name := item.valuestring, item.name;
  }

  /** The copy of the first `n` children stands. */
  ghost predicate Partial(newitem: Node, t: Tree, n: nat)
    reads newitem, newitem.repr
    requires n <= |t.kids|
  {
    && t == Tree(newitem.kind, newitem.valuestring, newitem.valueint, newitem.valuedouble, newitem.name, t.kids)
    && newitem in newitem.repr
    && Forest(newitem.kids, t.kids[..n], newitem.repr - {newitem}) && Linked(newitem.child, newitem.kids)
  }

  method Extend(newitem: Node, last: Node?, newchild: Node, ghost t: Tree, ghost n: nat)
    requires n < |t.kids| && Partial(newitem, t, n) && last == Last(newitem.kids)
    requires newchild.Is(t.kids[n]) && newchild.repr !! newitem.repr && newchild.next == null
    modifies newitem.repr, newchild
    ensures Partial(newitem, t, n + 1) && newitem.kids == old(newitem.kids) + [newchild]
    ensures newitem.repr == old(newitem.repr) + old(newchild.repr)
    ensures newitem.next == old(newitem.next) && newitem.prev == old(newitem.prev)
  {
    hide Node.Is, Linked;
    ghost var all := newitem.kids;
    Disassembled(newchild, t.kids[n]);
    LinkNext(newitem, last, newchild);
    forall i | 0 <= i < |all|
      ensures all[i].Is(t.kids[i]) && all[i].repr == old(all[i].repr)
    {
      assert old(all[i].Is(t.kids[..n][i]));
    }
    assert newchild.Is(t.kids[n]) && newchild.repr == old(newchild.repr);
  }

  method CloseRing(newitem: Node, last: Node?, ghost t: Tree)
    requires Partial(newitem, t, |t.kids|) && last == Last(newitem.kids)
    modifies newitem.repr
    ensures newitem.Is(t) && newitem.repr == old(newitem.repr)
    ensures newitem.next == old(newitem.next) && newitem.prev == old(newitem.prev)
  {
    hide Node.Is;
    ghost var all := newitem.kids;
    assert t.kids[..|t.kids|] == t.kids;
    if newitem.child != null {
      newitem.child.prev := last;
    }
    forall i | 0 <= i < |all|
      ensures all[i].Is(t.kids[i]) && all[i].repr == old(all[i].repr)
    {
      assert old(all[i].Is(t.kids[i]));
    }
    Assembled(newitem, t);
  }

  lemma CopyBegins(newitem: Node, t: Tree)
    requires newitem.Is(t.(kids := [])) && newitem.kids == []
    ensures Partial(newitem, t, 0) && Last(newitem.kids) == null && t.kids[0..] == t.kids
  {
  }

  /** The copy is a tree of new nodes only. */
  method DuplicateRec(item: Node?, depth: nat, recurse: bool, ghost t: Tree) returns (newitem: Node?)
    requires item != null ==> item.Is(t)
    requires depth <= CIRCULAR_LIMIT
    ensures newitem != null <==> item != null && (recurse ==> depth + Height(t) <= CIRCULAR_LIMIT)
    ensures newitem != null ==>
      && newitem in newitem.repr && fresh(newitem.repr) && newitem.Is(if recurse then t else t.(kids := []))
      && newitem.next == null && newitem.prev == null
    decreases t, 1
  {
    hide Node.Is, Ring, Linked, HeightOfKids;
    if item == null {
      return null;
    }
    newitem := CopyNode(item, t);
    if !recurse {
      return;
    }
    var copied := DuplicateKids(item, newitem, depth, t);
    if !copied {
      return null;
    }
  }

  method DuplicateKids(item: Node, newitem: Node, depth: nat, ghost t: Tree) returns (copied: bool)
    requires item.Is(t) && depth <= CIRCULAR_LIMIT
    requires newitem.repr == {newitem} && newitem.Is(t.(kids := [])) && newitem.kids == [] && item.repr !! newitem.repr
    requires newitem.next == null && newitem.prev == null
    modifies newitem
    ensures copied <==> Fits(t.kids, depth)
    ensures copied ==>
      && newitem in newitem.repr && fresh(newitem.repr - {newitem}) && newitem.Is(t)
      && newitem.next == null && newitem.prev == null
    decreases t, 0
  {
    hide Node.Is, Ring, Linked, Height, Fits;
    copied := false;
    Children(item, t);
    CopyBegins(newitem, t);
    var child, next: Node? := item.child, null;
    ghost var n, fits := 0, Fits(t.kids, depth);
    while child != null
      invariant n <= |t.kids| && |newitem.kids| == n
      invariant item.Is(t) && child == Nth(item.kids, n)
      invariant fresh(newitem.repr - {newitem}) && newitem.next == null && newitem.prev == null
      invariant Partial(newitem, t, n) && next == Last(newitem.kids)
      invariant fits == Fits(t.kids[n..], depth)
      decreases |t.kids| - n
    {
      FitsStep(t.kids, n, depth);
      Children(item, t);
      Child(item, t, n);
      if depth >= CIRCULAR_LIMIT {
        return;
      }
      var newchild := DuplicateRec(child, depth + 1, true, t.kids[n]);
      if newchild == null {
        return;
      }
      Extend(newitem, next, newchild, t, n);
      next := newchild;
      child := child.next;
      n := n + 1;
    }
    CloseRing(newitem, next, t);
    FitsNone(t.kids[n..], depth);
    copied := true;
  }

  method Duplicate(item: Node?, recurse: bool, ghost t: Tree) returns (newitem: Node?)
    requires item != null ==> item.Is(t)
    ensures newitem != null <==> item != null && (recurse ==> Height(t) <= 10000)
    ensures newitem != null ==>
      && newitem in newitem.repr && fresh(newitem.repr) && newitem.Is(if recurse then t else t.(kids := []))
      && newitem.next == null && newitem.prev == null
  {
    newitem := DuplicateRec(item, 0, recurse, t);
  }
}
