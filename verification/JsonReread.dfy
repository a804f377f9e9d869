/** Printing, parsing and comparing together. */
module JsonReread {
  import opened Options
  import opened Bytes
  import opened JsonTree
  import opened JsonText
  import opened JsonRoundTrip
  import opened JsonNodes
  import opened JsonTrees
  import opened JsonCompare

  /** Trees that show one value compare equal, as long as the members of each object have different names. */
  lemma {:induction false} ShownTreesCompareEqual(s: Tree, t: Tree, v: Json, caseSensitive: bool)
    requires Shows(s, v) && Shows(t, v) && NamedApart(s, caseSensitive) && NamedApart(t, caseSensitive)
    ensures Equal(s, t, caseSensitive)
    decreases v
  {
    match v
    case Array(items) =>
      forall i | 0 <= i < |items|
        ensures Equal(s.kids[i], t.kids[i], caseSensitive)
      {
        ShownTreesCompareEqual(s.kids[i], t.kids[i], items[i], caseSensitive);
      }
    case Object(members) =>
      forall i | 0 <= i < |members|
        ensures Matched(s, i, t, caseSensitive) && Matched(t, i, s, caseSensitive)
      {
        MembersMatch(s, t, members, i, caseSensitive);
        ShownTreesCompareEqual(s.kids[i], t.kids[i], members[i].value, caseSensitive);
        ShownTreesCompareEqual(t.kids[i], s.kids[i], members[i].value, caseSensitive);
      }
    case _ =>
  }

  lemma {:induction false} MembersMatch(s: Tree, t: Tree, members: seq<Member>, i: nat, caseSensitive: bool)
    requires ShowMembers(s.kids, members) && ShowMembers(t.kids, members) && i < |members|
    requires AllNamed(s.kids) && DifferentNames(s.kids, caseSensitive)
    requires AllNamed(t.kids) && DifferentNames(t.kids, caseSensitive)
    ensures s.kids[i].name == t.kids[i].name
    ensures Lookup(t.kids, s.kids[i].name.value, caseSensitive) == Some(i)
    ensures Lookup(s.kids, t.kids[i].name.value, caseSensitive) == Some(i)
  {
    LookupFindsItself(s.kids, 0, i, caseSensitive);
    LookupFindsItself(t.kids, 0, i, caseSensitive);
  }

  lemma {:induction false} ParsedIsNamedApart(t: Tree, v: Json, name: Option<ByteString>, caseSensitive: bool)
    requires Shows(t, v) && NamedApart(t, caseSensitive)
    ensures NamedApart(TreeOf(v, name), caseSensitive)
    decreases v
  {
    match v
    case Array(items) =>
      forall i | 0 <= i < |items|
        ensures NamedApart(ItemTrees(items)[i], caseSensitive)
      {
        ParsedIsNamedApart(t.kids[i], items[i], None, caseSensitive);
      }
    case Object(members) =>
      var kids := MemberTrees(members);
      forall i | 0 <= i < |members|
        ensures NamedApart(kids[i], caseSensitive) && kids[i].name == t.kids[i].name
      {
        ParsedIsNamedApart(t.kids[i], members[i].value, Some(members[i].key), caseSensitive);
      }
      forall i, j | 0 <= i < j < |kids|
        ensures !SameName(kids[i], kids[j], caseSensitive)
      {
        assert !SameName(t.kids[i], t.kids[j], caseSensitive);
      }
    case _ =>
  }

  /** Print any tree with different names, formatted or not, and parse the text: the tree that comes back
    * compares equal to the one that was printed. */
  lemma RereadComparesEqual(t: Tree, v: Json, format: bool, caseSensitive: bool)
    requires Shows(t, v) && Printable(v) && Nesting(v) <= NESTING_LIMIT && NamedApart(t, caseSensitive)
    ensures var text := Render(v, format, 0);
      NulFree(text) && Parse(text) == Parsed(v, |text|) && Equal(t, TreeOf(v, None), caseSensitive)
  {
    hide Render, Equal, Shows, NamedApart, TreeOf;
    RoundTrip(v, format);
    TreeOfShows(v, None);
    ParsedIsNamedApart(t, v, None, caseSensitive);
    ShownTreesCompareEqual(t, TreeOf(v, None), v, caseSensitive);
  }
}
