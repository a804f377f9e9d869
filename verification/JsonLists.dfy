/** Changing the list of children: each operation keeps the ring and does to the children what its name
  * says to a sequence. */
module JsonLists {
  import opened Options
  import opened Bytes
  import opened JsonNodes

  /** The kids are roots of disjoint trees among `nodes` that say `ts`. */
  ghost predicate Forest(kids: seq<Node>, ts: seq<Tree>, nodes: set<Node>)
    reads nodes
  {
    && |kids| == |ts|
    && (forall i :: 0 <= i < |kids| ==>
         kids[i] in nodes && kids[i] in kids[i].repr && kids[i].repr <= nodes && kids[i].Is(ts[i]))
    && (forall i, j :: 0 <= i < j < |kids| ==> kids[i].repr !! kids[j].repr)
  }

  lemma Assembled(list: Node, t: Tree)
    requires t == Tree(list.kind, list.valuestring, list.valueint, list.valuedouble, list.name, t.kids)
    requires list in list.repr
    requires Forest(list.kids, t.kids, list.repr - {list}) && Ring(list.child, list.kids)
    ensures list.Is(t)
  {
  }

  lemma Disassembled(list: Node, t: Tree)
    requires list.Is(t)
    ensures t == Tree(list.kind, list.valuestring, list.valueint, list.valuedouble, list.name, t.kids)
    ensures list in list.repr
    ensures Forest(list.kids, t.kids, list.repr - {list}) && Ring(list.child, list.kids)
  {
  }

  lemma Child(list: Node, t: Tree, i: nat)
    requires list.Is(t) && i < |list.kids|
    ensures |list.kids| == |t.kids| && list.kids[i].Is(t.kids[i])
    ensures list.kids[i] in list.kids[i].repr && list.kids[i].repr <= list.repr - {list}
  {
  }

  lemma Children(list: Node, t: Tree)
    requires list.Is(t)
    ensures t == Tree(list.kind, list.valuestring, list.valueint, list.valuedouble, list.name, t.kids)
    ensures |list.kids| == |t.kids| && list.child == Nth(list.kids, 0)
    ensures forall i :: 0 <= i < |list.kids| ==> list.kids[i].next == Nth(list.kids, i + 1)
  {
  }

  ghost predicate Distinct(kids: seq<Node>) {
    forall i, j :: 0 <= i < j < |kids| ==> kids[i] != kids[j]
  }

  // ---- Append ----

  method LinkLast(list: Node, item: Node)
    requires Ring(list.child, list.kids) && Distinct(list.kids)
    requires list !in list.kids && item !in list.kids && item != list
    modifies list`child, list`kids, list`repr, item`next, item`prev, list.kids`next, list.kids`prev
    ensures list.kids == old(list.kids) + [item] && list.repr == old(list.repr) + item.repr
    ensures Ring(list.child, list.kids) <==> old(list.kids) == [] || old(item.next) == null
  {
    var child := list.child;
    if child == null {
      list.child := item;
      item.prev := item;
      item.next := null;
    } else if child.prev != null {
      child.prev.next := item;
      item.prev := child.prev;
      list.child.prev := item;
    }
    list.kids := list.kids + [item];
    list.repr := list.repr + item.repr;
    if Linked(list.child, list.kids) {
      ghost var last := |list.kids| - 1;
      assert list.kids[last].next == Nth(list.kids, last + 1);
    }
  }

  /** Only an empty list clears the `next` of the item: if it is not null otherwise, the ring is broken. */
  method AddItemToArray(list: Node?, item: Node?, ghost t: Tree, ghost u: Tree) returns (ok: bool)
    requires list != null ==> list.Is(t)
    requires item != null ==> item.Is(u)
    requires list != null && item != null && list != item ==> list.repr !! item.repr
    modifies list, if list == null then [] else list.kids, item
    ensures ok <==> list != null && item != null && list != item
    ensures ok && (t.kids == [] || old(item.next) == null) ==>
      && list.Is(t.(kids := t.kids + [u]))
      && list.kids == old(list.kids) + [item] && list.repr == old(list.repr) + old(item.repr)
    ensures ok && t.kids != [] && old(item.next) != null ==> !Ring(list.child, list.kids)
  {
    hide Node.Is, Ring;
    if item == null || list == null || list == item {
      return false;
    }
    Disassembled(list, t);
    Disassembled(item, u);
    ghost var kids, ts := list.kids + [item], t.kids + [u];
    LinkLast(list, item);
    if t.kids == [] || old(item.next) == null {
      forall i | 0 <= i < |kids|
        ensures kids[i].Is(ts[i]) && kids[i].repr == old(kids[i].repr)
      {
        assert old(kids[i].Is(ts[i]));
      }
      Assembled(list, t.(kids := ts));
    }
    return true;
  }

  method SetName(item: Node, key: ByteString, ghost u: Tree)
    requires item.Is(u)
    modifies item`name
    ensures item.Is(u.(name := Some(key)))
  {
    hide Node.Is, Ring;
    Disassembled(item, u);
    item.name := Some(key);
    forall i | 0 <= i < |item.kids|
      ensures item.kids[i].Is(u.kids[i])
    {
      assert old(item.kids[i].Is(u.kids[i]));
    }
    assert Ring(item.child, item.kids);
    Assembled(item, u.(name := Some(key)));
  }

  /** The item takes the key for its name and goes to the end. */
  method AddItemToObject(parent: Node?, key: Option<ByteString>, item: Node?, ghost t: Tree, ghost u: Tree)
    returns (ok: bool)
    requires parent != null ==> parent.Is(t)
    requires item != null ==> item.Is(u)
    requires parent != null && item != null && parent != item ==> parent.repr !! item.repr
    modifies parent, if parent == null then [] else parent.kids, item
    ensures ok <==> parent != null && key.Some? && item != null && parent != item
    ensures ok && (t.kids == [] || old(item.next) == null) ==>
      && parent.Is(t.(kids := t.kids + [u.(name := key)]))
      && parent.kids == old(parent.kids) + [item] && parent.repr == old(parent.repr) + old(item.repr)
  {
    hide Node.Is, Ring;
    if parent == null || key.None? || item == null || parent == item {
      return false;
    }
    Disassembled(parent, t);
    Disassembled(item, u);
    SetName(item, key.value, u);
    ok := AddItemToArray(parent, item, t, u.(name := key));
  }

  // ---- Detach ----

  function Without<T>(s: seq<T>, k: nat): seq<T>
    requires k < |s|
  {
    s[..k] + s[k + 1..]
  }

  lemma WithoutAt<T>(s: seq<T>, k: nat)
    requires k < |s|
    ensures |Without(s, k)| == |s| - 1
    ensures forall i :: 0 <= i < |s| - 1 ==> Without(s, k)[i] == s[if i < k then i else i + 1]
  {
  }

  /** What stands before and behind child `k` in the ring. */
  lemma Neighbours(list: Node, k: nat)
    requires Ring(list.child, list.kids) && k < |list.kids|
    ensures list.kids[k].next == Nth(list.kids, k + 1)
    ensures list.kids[k].prev == list.kids[if k == 0 then |list.kids| - 1 else k - 1]
    ensures list.child == list.kids[k] ==> Distinct(list.kids) ==> k == 0
  {
  }

  method Bypass(list: Node, item: Node, ghost k: nat)
    requires Ring(list.child, list.kids) && Distinct(list.kids) && list !in list.kids
    requires k < |list.kids| && item == list.kids[k]
    modifies list`child, list.kids`next, list.kids`prev
    ensures Ring(list.child, Without(list.kids, k))
  {
    Neighbours(list, k);
    if item != list.child {
      item.prev.next := item.next;
    }
    if item.next != null {
      item.next.prev := item.prev;
    }
    if item == list.child {
      list.child := item.next;
    } else if item.next == null {
      list.child.prev := item.prev;
    }
  }

  /** The item is out of the chain and stands alone. */
  method Unlink(list: Node, item: Node, ghost k: nat)
    requires Ring(list.child, list.kids) && Distinct(list.kids) && list !in list.kids
    requires k < |list.kids| && item == list.kids[k]
    modifies list`child, list`kids, list`repr, list.kids`next, list.kids`prev
    ensures list.kids == Without(old(list.kids), k) && list.repr == old(list.repr) - item.repr
    ensures Ring(list.child, list.kids) && item.next == null && item.prev == null
  {
    hide Ring;
    Bypass(list, item, k);
    item.prev, item.next := null, null;
    list.kids := Without(list.kids, k);
    list.repr := list.repr - item.repr;
  }

  lemma RingLinks(list: Node, item: Node)
    requires Ring(list.child, list.kids)
    ensures item in list.kids ==> item.prev != null
    ensures item == list.child ==> item in list.kids
  {
  }

  lemma AssembledWithout(list: Node, t: Tree, all: seq<Node>, k: nat)
    requires t == Tree(list.kind, list.valuestring, list.valueint, list.valuedouble, list.name, t.kids)
    requires k < |all| && list.kids == Without(all, k) && Ring(list.child, list.kids)
    requires list in list.repr && Forest(all, t.kids, list.repr + all[k].repr - {list})
    ensures list.Is(t.(kids := Without(t.kids, k)))
  {
    hide Node.Is, Ring;
    ghost var kids, ts := Without(all, k), Without(t.kids, k);
    forall i | 0 <= i < |kids|
      ensures kids[i].Is(ts[i]) && kids[i] in kids[i].repr && kids[i].repr <= list.repr - {list}
    {
      ghost var was := if i < k then i else i + 1;
      assert kids[i] == all[was] && ts[i] == t.kids[was];
    }
    Assembled(list, t.(kids := ts));
  }

  method DetachChild(parent: Node, item: Node, ghost t: Tree, ghost k: nat)
    requires parent.Is(t) && k < |parent.kids| && item == parent.kids[k]
    modifies parent, parent.kids
    ensures parent.Is(t.(kids := Without(t.kids, k))) && parent.kids == Without(old(parent.kids), k)
    ensures item.Is(t.kids[k]) && item.next == null && item.prev == null
    ensures parent.repr == old(parent.repr) - item.repr
  {
    hide Node.Is, Ring, Without;
    Disassembled(parent, t);
    ghost var all := parent.kids;
    Unlink(parent, item, k);
    forall i | 0 <= i < |all|
      ensures all[i].Is(t.kids[i]) && all[i].repr == old(all[i].repr)
    {
      assert old(all[i].Is(t.kids[i]));
    }
    AssembledWithout(parent, t, all, k);
  }

  /** An item is recognised as no child by its null `prev`. */
  method DetachItemViaPointer(parent: Node?, item: Node?, ghost t: Tree, ghost k: nat) returns (detached: Node?)
    requires parent != null ==> parent.Is(t)
    requires parent != null && item != null ==>
      if item in parent.kids then k < |parent.kids| && item == parent.kids[k] else item.prev == null
    modifies parent, if parent == null then [] else parent.kids
    ensures detached == if parent != null && item != null && item in old(parent.kids) then item else null
    ensures detached == null && parent != null ==> unchanged(parent) && unchanged(parent.kids)
    ensures detached != null ==>
      && parent.Is(t.(kids := Without(t.kids, k))) && parent.kids == Without(old(parent.kids), k)
      && item.Is(t.kids[k]) && item.next == null && item.prev == null
      && parent.repr == old(parent.repr) - item.repr
  {
    hide Node.Is, Ring;
    if parent == null || item == null {
      return null;
    }
    Disassembled(parent, t);
    RingLinks(parent, item);
    if item != parent.child && item.prev == null {
      return null;
    }
    DetachChild(parent, item, t, k);
    return item;
  }

  method DetachItemFromArray(list: Node?, which: int, ghost t: Tree) returns (detached: Node?)
    requires list != null ==> list.Is(t)
    modifies list, if list == null then [] else list.kids
    ensures detached == if list != null && 0 <= which then Nth(old(list.kids), which) else null
    ensures detached == null && list != null ==> unchanged(list) && unchanged(list.kids)
    ensures detached != null ==>
      && list.Is(t.(kids := Without(t.kids, which))) && list.kids == Without(old(list.kids), which)
      && detached.Is(t.kids[which]) && detached.next == null && detached.prev == null
      && list.repr == old(list.repr) - detached.repr
  {
    hide Node.Is, Ring;
    if which < 0 {
      return null;
    }
    if list != null {
      Disassembled(list, t);
    }
    var item := GetArrayItem(list, which, if list == null then [] else list.kids);
    detached := DetachItemViaPointer(list, item, t, which);
  }

  // ---- Insert ----

  function With<T>(s: seq<T>, k: nat, x: T): seq<T>
    requires k <= |s|
  {
    s[..k] + [x] + s[k..]
  }

  lemma WithAt<T>(s: seq<T>, k: nat, x: T)
    requires k <= |s|
    ensures |With(s, k, x)| == |s| + 1
    ensures forall i :: 0 <= i <= |s| ==> With(s, k, x)[i] == if i < k then s[i] else if i == k then x else s[i - 1]
  {
  }

  method LinkBefore(list: Node, after: Node, item: Node, ghost k: nat)
    requires Ring(list.child, list.kids) && Distinct(list.kids)
    requires list !in list.kids && item !in list.kids && item != list
    requires k < |list.kids| && after == list.kids[k]
    modifies list`child, list`kids, list`repr, item`next, item`prev, list.kids`next, list.kids`prev
    ensures list.kids == With(old(list.kids), k, item) && list.repr == old(list.repr) + item.repr
    ensures Ring(list.child, list.kids)
  {
    WithAt(list.kids, k, item);
    item.next := after;
    item.prev := after.prev;
    after.prev := item;
    if after == list.child {
      list.child := item;
    } else {
      item.prev.next := item;
    }
    list.kids := With(list.kids, k, item);
    list.repr := list.repr + item.repr;
  }

  lemma AssembledWith(list: Node, t: Tree, all: seq<Node>, k: nat, item: Node, u: Tree)
    requires t == Tree(list.kind, list.valuestring, list.valueint, list.valuedouble, list.name, t.kids)
    requires Forest(all, t.kids, list.repr - {list} - item.repr) && item.Is(u) && item in item.repr
    requires k <= |all| && list.kids == With(all, k, item) && Ring(list.child, list.kids)
    requires list in list.repr && item.repr <= list.repr - {list}
    ensures list.Is(t.(kids := With(t.kids, k, u)))
  {
    hide Node.Is, Ring;
    ghost var kids, ts := With(all, k, item), With(t.kids, k, u);
    forall i | 0 <= i < |kids|
      ensures kids[i].Is(ts[i]) && kids[i] in kids[i].repr && kids[i].repr <= list.repr - {list}
    {
      if i != k {
        ghost var was := if i < k then i else i - 1;
        assert kids[i] == all[was] && ts[i] == t.kids[was];
      }
    }
    Assembled(list, t.(kids := ts));
  }

  method InsertBefore(list: Node, after: Node, item: Node, ghost t: Tree, ghost u: Tree, ghost k: nat)
    requires list.Is(t) && item.Is(u) && list.repr !! item.repr
    requires k < |list.kids| && after == list.kids[k]
    modifies list, list.kids, item
    ensures list.Is(t.(kids := With(t.kids, k, u)))
    ensures list.kids == With(old(list.kids), k, item) && list.repr == old(list.repr) + old(item.repr)
  {
    hide Node.Is, Ring;
    Disassembled(list, t);
    Disassembled(item, u);
    ghost var all := list.kids;
    LinkBefore(list, after, item, k);
    forall i | 0 <= i < |all|
      ensures all[i].Is(t.kids[i]) && all[i].repr == old(all[i].repr)
    {
      assert old(all[i].Is(t.kids[i]));
    }
    AssembledWith(list, t, all, k, item, u);
  }

  /** Behind the end it appends, with what that asks of the item. */
  method InsertItemInArray(list: Node?, which: int, item: Node?, ghost t: Tree, ghost u: Tree) returns (ok: bool)
    requires list != null ==> list.Is(t)
    requires item != null ==> item.Is(u)
    requires list != null && item != null ==> list.repr !! item.repr
    modifies list, if list == null then [] else list.kids, item
    ensures ok <==> list != null && item != null && which >= 0
    ensures ok && which < |t.kids| ==>
      && list.Is(t.(kids := With(t.kids, which, u)))
      && list.kids == With(old(list.kids), which, item) && list.repr == old(list.repr) + old(item.repr)
    ensures ok && which >= |t.kids| && (t.kids == [] || old(item.next) == null) ==>
      && list.Is(t.(kids := t.kids + [u]))
      && list.kids == old(list.kids) + [item] && list.repr == old(list.repr) + old(item.repr)
  {
    hide Node.Is, Ring;
    if which < 0 || item == null {
      return false;
    }
    if list != null {
      Disassembled(list, t);
    }
    var after := GetArrayItem(list, which, if list == null then [] else list.kids);
    if after == null {
      ok := AddItemToArray(list, item, t, u);
      return;
    }
    RingLinks(list, after);
    if after != list.child && after.prev == null {
      return false;
    }
    InsertBefore(list, after, item, t, u, which);
    return true;
  }

  // ---- Replace ----

  method LinkInstead(parent: Node, item: Node, replacement: Node, ghost k: nat)
    requires Ring(parent.child, parent.kids) && Distinct(parent.kids) && parent !in parent.kids
    requires replacement !in parent.kids && replacement != parent
    requires k < |parent.kids| && item == parent.kids[k]
    modifies parent`child, replacement`next, replacement`prev, parent.kids`next, parent.kids`prev
    ensures Ring(parent.child, parent.kids[k := replacement])
  {
    Neighbours(parent, k);
    replacement.next := item.next;
    replacement.prev := item.prev;
    if replacement.next != null {
      replacement.next.prev := replacement;
    }
    if parent.child == item {
      if parent.child.prev == parent.child {
        replacement.prev := replacement;
      }
      parent.child := replacement;
    } else {
      if replacement.prev != null {
        replacement.prev.next := replacement;
      }
      if replacement.next == null {
        parent.child.prev := replacement;
      }
    }
  }

  /** The replacement stands where the item stood, and the item stands alone. */
  method Exchange(parent: Node, item: Node, replacement: Node, ghost k: nat)
    requires Ring(parent.child, parent.kids) && Distinct(parent.kids) && parent !in parent.kids
    requires replacement !in parent.kids && replacement != parent
    requires k < |parent.kids| && item == parent.kids[k]
    modifies parent`child, parent`kids, parent`repr, replacement`next, replacement`prev
    modifies parent.kids`next, parent.kids`prev
    ensures parent.kids == old(parent.kids)[k := replacement]
    ensures parent.repr == old(parent.repr) - item.repr + replacement.repr
    ensures Ring(parent.child, parent.kids) && item.next == null && item.prev == null
  {
    hide Ring;
    LinkInstead(parent, item, replacement, k);
    item.next, item.prev := null, null;
    parent.kids := parent.kids[k := replacement];
    parent.repr := parent.repr - item.repr + replacement.repr;
  }

  /** The replaced item is deleted: nothing is said about it. */
  method ReplaceItemViaPointer(
    parent: Node?, item: Node?, replacement: Node?, ghost t: Tree, ghost u: Tree, ghost k: nat)
    returns (ok: bool)
    requires parent != null ==> parent.Is(t)
    requires replacement != null ==> replacement.Is(u)
    requires parent != null && item != null && t.kids != [] ==> k < |parent.kids| && item == parent.kids[k]
    requires parent != null && replacement != null && replacement != item ==> parent.repr !! replacement.repr
    modifies parent, if parent == null then [] else parent.kids, replacement
    ensures ok <==> parent != null && item != null && replacement != null && t.kids != []
    ensures ok && replacement != item ==>
      && parent.Is(t.(kids := t.kids[k := u])) && parent.kids == old(parent.kids)[k := replacement]
      && parent.repr == old(parent.repr) - old(item.repr) + old(replacement.repr)
    ensures ok && replacement == item ==> parent.Is(t)
  {
    hide Node.Is, Ring;
    if parent == null || replacement == null || item == null {
      return false;
    }
    Disassembled(parent, t);
    Childless(parent);
    if parent.child == null {
      return false;
    }
    if replacement == item {
      return true;
    }
    Disassembled(replacement, u);
    ghost var all := parent.kids;
    Exchange(parent, item, replacement, k);
    forall i | 0 <= i < |all|
      ensures all[i].Is(t.kids[i]) && all[i].repr == old(all[i].repr)
    {
      assert old(all[i].Is(t.kids[i]));
    }
    AssembledInstead(parent, t, all, k, replacement, u);
    return true;
  }

  lemma Childless(list: Node)
    requires Ring(list.child, list.kids)
    ensures list.child == null <==> list.kids == []
  {
  }

  lemma AssembledInstead(list: Node, t: Tree, all: seq<Node>, k: nat, item: Node, u: Tree)
    requires t == Tree(list.kind, list.valuestring, list.valueint, list.valuedouble, list.name, t.kids)
    requires k < |all| && list.kids == all[k := item] && Ring(list.child, list.kids)
    requires Forest(all, t.kids, list.repr - {list} - item.repr + all[k].repr) && item.Is(u) && item in item.repr
    requires list in list.repr && item.repr <= list.repr - {list}
    requires all[k].repr !! item.repr
    ensures list.Is(t.(kids := t.kids[k := u]))
  {
    hide Node.Is, Ring;
    Assembled(list, t.(kids := t.kids[k := u]));
  }
}
