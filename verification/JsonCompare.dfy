/** Looking up members by name, and comparing trees. */
module JsonCompare {
  import opened Options
  import opened Bytes
  import opened JsonNodes
  import opened JsonLists
  import opened JsonDuplicate

  // ---- Names ----

  function ToLower(b: Byte): Byte {
    var code: int := b;
    if 0x41 <= code <= 0x5A then code + 32 else b
  }

  function Lower(s: ByteString): (r: ByteString)
    ensures |r| == |s|
  {
    seq(|s|, i requires 0 <= i < |s| => ToLower(s[i]))
  }

  /** Two names are the same when they fold to the same. */
  function Fold(name: ByteString, caseSensitive: bool): ByteString {
    if caseSensitive then name else Lower(name)
  }

  function CharAt(s: ByteString, i: nat): Byte {
    if i < |s| then s[i] else NUL
  }

  method CaseInsensitiveStrcmp(string1: Option<ByteString>, string2: Option<ByteString>) returns (order: int)
    requires string1.Some? ==> NulFree(string1.value)
    requires string2.Some? ==> NulFree(string2.value)
    ensures order == 0 <==> string1.Some? && string2.Some? && Lower(string1.value) == Lower(string2.value)
  {
    if string1.None? || string2.None? {
      return 1;
    }
    var s1, s2 := string1.value, string2.value;
    var i := 0;
    while ToLower(CharAt(s1, i)) == ToLower(CharAt(s2, i))
      invariant 0 <= i <= |s1| && i <= |s2|
      invariant forall j :: 0 <= j < i ==> ToLower(s1[j]) == ToLower(s2[j])
      decreases |s1| - i
    {
      if CharAt(s1, i) == NUL {
        return 0;
      }
      i := i + 1;
    }
    order := (ToLower(CharAt(s1, i)) as int) - (ToLower(CharAt(s2, i)) as int);
    assert i < |s1| && i < |s2| ==> Lower(s1)[i] != Lower(s2)[i];
  }

  /** Two names are the same, if case matters, when they are equal, and otherwise when they differ only in
    * the case of letters. */
  lemma SameFold(a: ByteString, b: ByteString, caseSensitive: bool)
    ensures Fold(a, caseSensitive) == Fold(b, caseSensitive)
       <==> if caseSensitive then a == b else |a| == |b| && forall i :: 0 <= i < |a| ==> SameLetter(a[i], b[i])
  {
    assert forall i :: 0 <= i < |a| ==> Lower(a)[i] == ToLower(a[i]);
    assert forall i :: 0 <= i < |b| ==> Lower(b)[i] == ToLower(b[i]);
    assert |a| == |b| ==> forall i :: 0 <= i < |a| ==>
      (Lower(a)[i] == Lower(b)[i] <==> SameLetter(a[i], b[i]));
  }

  predicate SameLetter(x: Byte, y: Byte) {
    x == y || OtherCase(x, y) || OtherCase(y, x)
  }

  /** A capital letter and the small one. */
  predicate OtherCase(capital: Byte, small: Byte) {
    'A' as int <= capital <= 'Z' as int && small as int - 'a' as int == capital as int - 'A' as int
  }

  // ---- Lookup ----

  /** Where the search for a name stops. Only the case-sensitive one stops at a child without a name. */
  predicate Stops(kid: Tree, name: ByteString, caseSensitive: bool) {
    if kid.name.None? then caseSensitive else Fold(kid.name.value, caseSensitive) == Fold(name, caseSensitive)
  }

  function LookupFrom(kids: seq<Tree>, n: nat, name: ByteString, caseSensitive: bool): (found: Option<nat>)
    requires n <= |kids|
    ensures found.Some? ==> n <= found.value < |kids| && kids[found.value].name.Some?
    decreases |kids| - n
  {
    if n == |kids| then None
    else if !Stops(kids[n], name, caseSensitive) then LookupFrom(kids, n + 1, name, caseSensitive)
    else if kids[n].name.None? then None
    else Some(n)
  }

  function Lookup(kids: seq<Tree>, name: ByteString, caseSensitive: bool): (found: Option<nat>)
    ensures found.Some? ==> found.value < |kids| && kids[found.value].name.Some?
  {
    LookupFrom(kids, 0, name, caseSensitive)
  }

  ghost predicate Names(kid: Tree, name: ByteString, caseSensitive: bool) {
    kid.name.Some? && Fold(kid.name.value, caseSensitive) == Fold(name, caseSensitive)
  }

  /** The search finds the first child with the name; if case matters, only in front of every child without a
    * name. */
  lemma {:induction false} LookupFinds(kids: seq<Tree>, n: nat, name: ByteString, caseSensitive: bool, i: nat)
    requires n <= |kids|
    ensures LookupFrom(kids, n, name, caseSensitive) == Some(i)
       <==> n <= i < |kids| && Names(kids[i], name, caseSensitive)
            && forall j :: n <= j < i ==> !Names(kids[j], name, caseSensitive) && (caseSensitive ==> kids[j].name.Some?)
    decreases |kids| - n
  {
    hide Fold;
    if n < |kids| {
      LookupFinds(kids, n + 1, name, caseSensitive, i);
    }
  }

  predicate NameIsCString(t: Tree) {
    t.name.Some? ==> NulFree(t.name.value)
  }

  method GetObjectItem(parent: Node?, name: Option<ByteString>, caseSensitive: bool, ghost t: Tree)
    returns (item: Node?)
    requires parent != null ==> parent.Is(t)
    requires name.Some? ==> NulFree(name.value)
    requires forall i :: 0 <= i < |t.kids| ==> NameIsCString(t.kids[i])
    ensures item == if parent == null || name.None? then null
                    else
                      match Lookup(t.kids, name.value, caseSensitive)
                      case None => null
                      case Some(i) => Nth(parent.kids, i)
  {
    hide Node.Is, Lower, ToLower;
    if parent == null || name.None? {
      return null;
    }
    Children(parent, t);
    item := parent.child;
    ghost var n := 0;
    if caseSensitive {
      while item != null && item.name.Some? && name.value != item.name.value
        invariant 0 <= n <= |t.kids| && item == Nth(parent.kids, n)
        invariant LookupFrom(t.kids, n, name.value, caseSensitive) == Lookup(t.kids, name.value, caseSensitive)
        decreases |t.kids| - n
      {
        Child(parent, t, n);
        assert item.name == t.kids[n].name by { Children(item, t.kids[n]); }
        item := item.next;
        n := n + 1;
      }
    } else {
      while item != null
        invariant 0 <= n <= |t.kids| && item == Nth(parent.kids, n)
        invariant LookupFrom(t.kids, n, name.value, caseSensitive) == Lookup(t.kids, name.value, caseSensitive)
        decreases |t.kids| - n
      {
        Child(parent, t, n);
        assert item.name == t.kids[n].name by { Children(item, t.kids[n]); }
        var order := CaseInsensitiveStrcmp(name, item.name);
        if order == 0 {
          break;
        }
        item := item.next;
        n := n + 1;
      }
    }
    if item != null {
      Child(parent, t, n);
      assert item.name == t.kids[n].name by { Children(item, t.kids[n]); }
    }
    if item == null || item.name.None? {
      return null;
    }
  }

  // ---- Comparison ----

  const EPSILON: real := 1.0 / 4503599627370496.0

  function Abs(x: real): real {
    if x < 0.0 then -x else x
  }

  function Larger(x: real, y: real): real {
    if x > y then x else y
  }

  predicate CompareDouble(a: real, b: real) {
    Abs(a - b) <= Larger(Abs(a), Abs(b)) * EPSILON
  }

  /** Two numbers compare equal when they are no further apart than a 2^52th part of the larger one. */
  lemma CompareDoubleIs(a: real, b: real)
    ensures var distance := (if a < b then b - a else a - b) * 4503599627370496.0;
      CompareDouble(a, b) <==> distance <= a || distance <= -a || distance <= b || distance <= -b
  {
    var m := Larger(Abs(a), Abs(b));
    assert m * EPSILON * 4503599627370496.0 == m;
  }

  /** What a comparison of two trees with no common node answers. */
  predicate Equal(a: Tree, b: Tree, caseSensitive: bool)
    decreases Height(a) + Height(b), 2
  {
    a.kind == b.kind &&
    match a.kind
    case Invalid => false
    case FalseKind => true
    case TrueKind => true
    case NullKind => true
    case NumberKind => CompareDouble(a.valuedouble, b.valuedouble)
    case StringKind => a.valuestring.Some? && b.valuestring.Some? && a.valuestring == b.valuestring
    case ArrayKind =>
      |a.kids| == |b.kids| &&
      forall i :: 0 <= i < |a.kids| ==>
        (KidIsLower(a.kids, i); KidIsLower(b.kids, i); Equal(a.kids[i], b.kids[i], caseSensitive))
    case ObjectKind =>
      AllMatched(a, b, caseSensitive) && AllMatched(b, a, caseSensitive)
  }

  /** One pass over the members of `a`. */
  predicate AllMatched(a: Tree, b: Tree, caseSensitive: bool)
    decreases Height(a) + Height(b), 1
  {
    forall i :: 0 <= i < |a.kids| ==> Matched(a, i, b, caseSensitive)
  }

  /** Member `i` of `a` equals the first one of `b` with its name. */
  predicate Matched(a: Tree, i: nat, b: Tree, caseSensitive: bool)
    requires i < |a.kids|
    decreases Height(a) + Height(b), 0
  {
    var name := a.kids[i].name;
    name.Some? &&
    match Lookup(b.kids, name.value, caseSensitive)
    case None => false
    case Some(j) =>
      KidIsLower(a.kids, i);
      KidIsLower(b.kids, j);
      Equal(a.kids[i], b.kids[j], caseSensitive)
  }

  lemma {:induction false} EqualIsSymmetric(a: Tree, b: Tree, caseSensitive: bool)
    requires Equal(a, b, caseSensitive)
    ensures Equal(b, a, caseSensitive)
    decreases Height(a) + Height(b)
  {
    if a.kind == ArrayKind {
      forall i | 0 <= i < |a.kids|
        ensures Equal(b.kids[i], a.kids[i], caseSensitive)
      {
        KidIsLower(a.kids, i);
        KidIsLower(b.kids, i);
        EqualIsSymmetric(a.kids[i], b.kids[i], caseSensitive);
      }
    }
  }

  // ---- What a tree means ----

  /** A value in which the order of members has gone, and of members with one name only the first is left. */
  datatype Meaning =
    | Nothing
    | Constant(kind: Kind)
    | Amount(number: real)
    | Text(text: Option<ByteString>)
    | List(elements: seq<Meaning>)
    | Fields(fields: map<ByteString, Meaning>)

  function MeaningOf(t: Tree, caseSensitive: bool): Meaning
    decreases t, 1
  {
    match t.kind
    case Invalid => Nothing
    case NumberKind => Amount(t.valuedouble)
    case StringKind => Text(t.valuestring)
    case ArrayKind => List(seq(|t.kids|, i requires 0 <= i < |t.kids| => MeaningOf(t.kids[i], caseSensitive)))
    case ObjectKind => Fields(FieldsOf(t.kids, caseSensitive))
    case _ => Constant(t.kind)
  }

  function FieldsOf(kids: seq<Tree>, caseSensitive: bool): map<ByteString, Meaning>
    decreases kids, 0
  {
    if kids == [] then map[]
    else
      var rest := FieldsOf(kids[1..], caseSensitive);
      if kids[0].name.None? then rest
      else rest[Fold(kids[0].name.value, caseSensitive) := MeaningOf(kids[0], caseSensitive)]
  }

  /** Every part has a kind, every string its bytes, every member a name, and members with one name mean
    * the same. */
  predicate Comparable(t: Tree, caseSensitive: bool) {
    match t.kind
    case Invalid => false
    case StringKind => t.valuestring.Some?
    case ArrayKind => forall i :: 0 <= i < |t.kids| ==> Comparable(t.kids[i], caseSensitive)
    case ObjectKind =>
      && (forall i :: 0 <= i < |t.kids| ==> t.kids[i].name.Some? && Comparable(t.kids[i], caseSensitive))
      && OneMeaningPerName(t.kids, caseSensitive)
    case _ => true
  }

  predicate OneMeaningPerName(kids: seq<Tree>, caseSensitive: bool)
    requires forall i :: 0 <= i < |kids| ==> kids[i].name.Some?
  {
    forall i, j :: 0 <= i < j < |kids| && SameName(kids[i], kids[j], caseSensitive) ==>
      MeaningOf(kids[i], caseSensitive) == MeaningOf(kids[j], caseSensitive)
  }

  predicate SameName(a: Tree, b: Tree, caseSensitive: bool)
    requires a.name.Some? && b.name.Some?
  {
    Fold(a.name.value, caseSensitive) == Fold(b.name.value, caseSensitive)
  }

  /** Every number is an integer that a double holds with its neighbours. */
  predicate WholeNumbers(t: Tree) {
    && (t.kind == NumberKind ==> Whole(t.valuedouble))
    && (forall i :: 0 <= i < |t.kids| ==> WholeNumbers(t.kids[i]))
  }

  predicate Whole(x: real) {
    x == x.Floor as real && -4503599627370496.0 < x < 4503599627370496.0
  }

  lemma WholeNumbersCompareExactly(a: real, b: real)
    requires Whole(a) && Whole(b)
    ensures CompareDouble(a, b) <==> a == b
  {
    var larger := Larger(Abs(a), Abs(b));
    assert larger * EPSILON < 1.0;
    if a != b {
      assert a.Floor - b.Floor >= 1 || b.Floor - a.Floor >= 1;
      assert Abs(a - b) >= 1.0;
    }
  }

  // ---- Lookup finds the field ----

  predicate AllNamed(kids: seq<Tree>) {
    forall i :: 0 <= i < |kids| ==> kids[i].name.Some?
  }

  /** With all children named, the search finds the first one with the name, which is the field. */
  lemma {:induction false} LookupIsField(kids: seq<Tree>, n: nat, name: ByteString, caseSensitive: bool)
    requires n <= |kids| && AllNamed(kids)
    ensures LookupIs(kids, n, name, caseSensitive)
    decreases |kids| - n
  {
    hide MeaningOf;
    if n < |kids| {
      LookupIsField(kids, n + 1, name, caseSensitive);
      assert kids[n..][1..] == kids[n + 1..];
    }
  }

  ghost predicate LookupIs(kids: seq<Tree>, n: nat, name: ByteString, caseSensitive: bool)
    requires n <= |kids| && AllNamed(kids)
  {
    var fields, key := FieldsOf(kids[n..], caseSensitive), Fold(name, caseSensitive);
    match LookupFrom(kids, n, name, caseSensitive)
    case None => key !in fields
    case Some(i) =>
      && key in fields && fields[key] == MeaningOf(kids[i], caseSensitive)
      && Fold(kids[i].name.value, caseSensitive) == key
  }

  lemma {:induction false} FieldHasMember(kids: seq<Tree>, key: ByteString, caseSensitive: bool) returns (i: nat)
    requires key in FieldsOf(kids, caseSensitive) && AllNamed(kids)
    ensures i < |kids| && Fold(kids[i].name.value, caseSensitive) == key
    ensures MeaningOf(kids[i], caseSensitive) == FieldsOf(kids, caseSensitive)[key]
  {
    hide MeaningOf;
    if Fold(kids[0].name.value, caseSensitive) == key {
      i := 0;
    } else {
      i := FieldHasMember(kids[1..], key, caseSensitive);
      i := i + 1;
    }
  }

  lemma {:induction false} MemberHasField(kids: seq<Tree>, i: nat, caseSensitive: bool)
    requires i < |kids| && AllNamed(kids)
    ensures Fold(kids[i].name.value, caseSensitive) in FieldsOf(kids, caseSensitive)
  {
    hide MeaningOf;
    if i > 0 {
      MemberHasField(kids[1..], i - 1, caseSensitive);
    }
  }

  /** The field with the name of `x` means what `x` means. */
  predicate Meant(x: Tree, kids: seq<Tree>, caseSensitive: bool)
    requires x.name.Some?
  {
    var fields, key := FieldsOf(kids, caseSensitive), Fold(x.name.value, caseSensitive);
    key in fields && fields[key] == MeaningOf(x, caseSensitive)
  }

  predicate AllMeant(xs: seq<Tree>, kids: seq<Tree>, caseSensitive: bool)
    requires AllNamed(xs)
  {
    forall i :: 0 <= i < |xs| ==> Meant(xs[i], kids, caseSensitive)
  }

  lemma OneMeaningIsMeant(kids: seq<Tree>, caseSensitive: bool)
    requires AllNamed(kids)
    ensures OneMeaningPerName(kids, caseSensitive) <==> AllMeant(kids, kids, caseSensitive)
  {
    hide MeaningOf, FieldsOf;
    if OneMeaningPerName(kids, caseSensitive) {
      forall i | 0 <= i < |kids|
        ensures Meant(kids[i], kids, caseSensitive)
      {
        MemberHasField(kids, i, caseSensitive);
        var j := FieldHasMember(kids, Fold(kids[i].name.value, caseSensitive), caseSensitive);
        assert SameName(kids[i], kids[j], caseSensitive) && SameName(kids[j], kids[i], caseSensitive);
      }
    } else {
      var i, j :| 0 <= i < j < |kids| && SameName(kids[i], kids[j], caseSensitive)
        && MeaningOf(kids[i], caseSensitive) != MeaningOf(kids[j], caseSensitive);
      assert !Meant(kids[i], kids, caseSensitive) || !Meant(kids[j], kids, caseSensitive);
    }
  }

  /** Both passes together see the same fields, and one meaning for each name. */
  lemma PassesSeeFields(a: seq<Tree>, b: seq<Tree>, caseSensitive: bool)
    requires AllNamed(a) && AllNamed(b)
    ensures AllMeant(a, b, caseSensitive) && AllMeant(b, a, caseSensitive)
       <==> FieldsOf(a, caseSensitive) == FieldsOf(b, caseSensitive)
            && OneMeaningPerName(a, caseSensitive) && OneMeaningPerName(b, caseSensitive)
  {
    hide MeaningOf, FieldsOf;
    OneMeaningIsMeant(a, caseSensitive);
    OneMeaningIsMeant(b, caseSensitive);
    if AllMeant(a, b, caseSensitive) && AllMeant(b, a, caseSensitive) {
      FieldsAreIn(a, b, caseSensitive);
      FieldsAreIn(b, a, caseSensitive);
      assert FieldsOf(a, caseSensitive) == FieldsOf(b, caseSensitive);
    }
  }

  lemma FieldsAreIn(a: seq<Tree>, b: seq<Tree>, caseSensitive: bool)
    requires AllNamed(a) && AllNamed(b) && AllMeant(a, b, caseSensitive)
    ensures forall key <- FieldsOf(a, caseSensitive) ::
      key in FieldsOf(b, caseSensitive) && FieldsOf(a, caseSensitive)[key] == FieldsOf(b, caseSensitive)[key]
  {
    hide MeaningOf, FieldsOf;
    forall key <- FieldsOf(a, caseSensitive)
      ensures key in FieldsOf(b, caseSensitive) && FieldsOf(a, caseSensitive)[key] == FieldsOf(b, caseSensitive)[key]
    {
      var i := FieldHasMember(a, key, caseSensitive);
      assert Meant(a[i], b, caseSensitive);
    }
  }

  // ---- Comparing is comparing meanings ----

  ghost predicate Agrees(a: Tree, b: Tree, caseSensitive: bool) {
    Equal(a, b, caseSensitive)
    <==> Comparable(a, caseSensitive) && Comparable(b, caseSensitive)
         && MeaningOf(a, caseSensitive) == MeaningOf(b, caseSensitive)
  }

  lemma {:induction false} CompareIsMeaning(a: Tree, b: Tree, caseSensitive: bool)
    requires WholeNumbers(a) && WholeNumbers(b)
    ensures Equal(a, b, caseSensitive)
       <==> Comparable(a, caseSensitive) && Comparable(b, caseSensitive)
            && MeaningOf(a, caseSensitive) == MeaningOf(b, caseSensitive)
    decreases Height(a) + Height(b)
  {
    if a.kind == b.kind {
      if a.kind == NumberKind {
        WholeNumbersCompareExactly(a.valuedouble, b.valuedouble);
      } else if a.kind == ArrayKind || a.kind == ObjectKind {
        forall i, j | 0 <= i < |a.kids| && 0 <= j < |b.kids|
          ensures Agrees(a.kids[i], b.kids[j], caseSensitive) && Agrees(b.kids[j], a.kids[i], caseSensitive)
        {
          KidIsLower(a.kids, i);
          KidIsLower(b.kids, j);
          CompareIsMeaning(a.kids[i], b.kids[j], caseSensitive);
          CompareIsMeaning(b.kids[j], a.kids[i], caseSensitive);
        }
        if a.kind == ArrayKind {
          ArraysAgree(a, b, caseSensitive);
        } else {
          ObjectsAgree(a, b, caseSensitive);
        }
      }
    }
  }

  lemma ArraysAgree(a: Tree, b: Tree, caseSensitive: bool)
    requires a.kind == ArrayKind && b.kind == ArrayKind
    requires forall i, j :: 0 <= i < |a.kids| && 0 <= j < |b.kids| ==> Agrees(a.kids[i], b.kids[j], caseSensitive)
    ensures Agrees(a, b, caseSensitive)
  {
    hide MeaningOf, Equal, Comparable, Height;
    ListMeaning(a, caseSensitive);
    ListMeaning(b, caseSensitive);
    EqualLists(a, b, caseSensitive);
    assert |a.kids| == |b.kids| ==> forall i :: 0 <= i < |a.kids| ==> Agrees(a.kids[i], b.kids[i], caseSensitive);
    if |a.kids| == |b.kids| && MeaningOf(a, caseSensitive) != MeaningOf(b, caseSensitive) {
      assert exists i ::
          0 <= i < |a.kids| && MeaningOf(a.kids[i], caseSensitive) != MeaningOf(b.kids[i], caseSensitive);
    }
  }

  lemma ListMeaning(t: Tree, caseSensitive: bool)
    requires t.kind == ArrayKind
    ensures MeaningOf(t, caseSensitive).List? && |MeaningOf(t, caseSensitive).elements| == |t.kids|
    ensures forall i :: 0 <= i < |t.kids| ==>
      MeaningOf(t, caseSensitive).elements[i] == MeaningOf(t.kids[i], caseSensitive)
    ensures Comparable(t, caseSensitive) <==> forall i :: 0 <= i < |t.kids| ==> Comparable(t.kids[i], caseSensitive)
  {
  }

  lemma EqualLists(a: Tree, b: Tree, caseSensitive: bool)
    requires a.kind == ArrayKind && b.kind == ArrayKind
    ensures Equal(a, b, caseSensitive)
       <==> |a.kids| == |b.kids| && forall i :: 0 <= i < |a.kids| ==> Equal(a.kids[i], b.kids[i], caseSensitive)
  {
  }

  /** What both passes ask, with the children compared by meaning. */
  lemma PassesByMeaning(a: Tree, b: Tree, caseSensitive: bool)
    requires forall i, j :: 0 <= i < |a.kids| && 0 <= j < |b.kids| ==> Agrees(a.kids[i], b.kids[j], caseSensitive)
    requires AllNamed(a.kids) && AllNamed(b.kids)
    requires AllComparable(b.kids, caseSensitive)
    ensures AllMatched(a, b, caseSensitive)
       <==> AllComparable(a.kids, caseSensitive) && AllMeant(a.kids, b.kids, caseSensitive)
  {
    hide Equal, MeaningOf, FieldsOf, Comparable, LookupFrom;
    assert b.kids[0..] == b.kids;
    forall i | 0 <= i < |a.kids|
      ensures Matched(a, i, b, caseSensitive)
         <==> Comparable(a.kids[i], caseSensitive) && Meant(a.kids[i], b.kids, caseSensitive)
    {
      LookupIsField(b.kids, 0, a.kids[i].name.value, caseSensitive);
    }
  }

  lemma ObjectsAgree(a: Tree, b: Tree, caseSensitive: bool)
    requires a.kind == ObjectKind && b.kind == ObjectKind
    requires forall i, j :: 0 <= i < |a.kids| && 0 <= j < |b.kids| ==>
      Agrees(a.kids[i], b.kids[j], caseSensitive) && Agrees(b.kids[j], a.kids[i], caseSensitive)
    ensures Agrees(a, b, caseSensitive)
  {
    hide MeaningOf, Equal, Comparable, Height, AllMatched, FieldsOf, AllMeant, AllComparable;
    EqualObjects(a, b, caseSensitive);
    ObjectMeaning(a, caseSensitive);
    ObjectMeaning(b, caseSensitive);
    if && AllNamed(a.kids) && AllNamed(b.kids)
       && AllComparable(a.kids, caseSensitive) && AllComparable(b.kids, caseSensitive) {
      PassesByMeaning(a, b, caseSensitive);
      PassesByMeaning(b, a, caseSensitive);
      PassesSeeFields(a.kids, b.kids, caseSensitive);
    } else if Equal(a, b, caseSensitive) {
      MatchedIsComparable(a, b, caseSensitive);
      MatchedIsComparable(b, a, caseSensitive);
    }
  }

  predicate AllComparable(kids: seq<Tree>, caseSensitive: bool) {
    forall i :: 0 <= i < |kids| ==> Comparable(kids[i], caseSensitive)
  }

  lemma MatchedIsComparable(a: Tree, b: Tree, caseSensitive: bool)
    requires forall i, j :: 0 <= i < |a.kids| && 0 <= j < |b.kids| ==> Agrees(a.kids[i], b.kids[j], caseSensitive)
    requires AllMatched(a, b, caseSensitive)
    ensures AllNamed(a.kids) && AllComparable(a.kids, caseSensitive)
  {
    hide MeaningOf, Equal, Comparable, Height, Lookup, LookupFrom;
    forall i | 0 <= i < |a.kids|
      ensures a.kids[i].name.Some? && Comparable(a.kids[i], caseSensitive)
    {
      assert Matched(a, i, b, caseSensitive);
    }
  }

  lemma ObjectMeaning(t: Tree, caseSensitive: bool)
    requires t.kind == ObjectKind
    ensures MeaningOf(t, caseSensitive) == Fields(FieldsOf(t.kids, caseSensitive))
    ensures Comparable(t, caseSensitive)
       <==> AllNamed(t.kids) && AllComparable(t.kids, caseSensitive) && OneMeaningPerName(t.kids, caseSensitive)
  {
  }

  lemma EqualObjects(a: Tree, b: Tree, caseSensitive: bool)
    requires a.kind == ObjectKind && b.kind == ObjectKind
    ensures Equal(a, b, caseSensitive)
       <==> AllMatched(a, b, caseSensitive) && AllMatched(b, a, caseSensitive)
  {
  }

  // ---- Copies, and the order of members ----

  /** Every part has a kind, every string its bytes, and the members of an object have different names. */
  predicate NamedApart(t: Tree, caseSensitive: bool) {
    && t.kind != Invalid
    && (t.kind == StringKind ==> t.valuestring.Some?)
    && (t.kind == ArrayKind || t.kind == ObjectKind ==>
      forall i :: 0 <= i < |t.kids| ==> NamedApart(t.kids[i], caseSensitive))
    && (t.kind == ObjectKind ==> AllNamed(t.kids) && DifferentNames(t.kids, caseSensitive))
  }

  predicate DifferentNames(kids: seq<Tree>, caseSensitive: bool)
    requires AllNamed(kids)
  {
    forall i, j :: 0 <= i < j < |kids| ==> !SameName(kids[i], kids[j], caseSensitive)
  }

  /** A copy says what the original says, so it compares equal, whatever the numbers are. */
  lemma {:induction false} CopyComparesEqual(t: Tree, caseSensitive: bool)
    requires NamedApart(t, caseSensitive)
    ensures Equal(t, t, caseSensitive)
    decreases t
  {
    if t.kind == ArrayKind || t.kind == ObjectKind {
      forall i | 0 <= i < |t.kids|
        ensures Equal(t.kids[i], t.kids[i], caseSensitive)
      {
        CopyComparesEqual(t.kids[i], caseSensitive);
      }
      if t.kind == ObjectKind {
        forall i | 0 <= i < |t.kids|
          ensures Matched(t, i, t, caseSensitive)
        {
          LookupFindsItself(t.kids, 0, i, caseSensitive);
        }
      }
    }
  }

  lemma {:induction false} LookupFindsItself(kids: seq<Tree>, n: nat, i: nat, caseSensitive: bool)
    requires n <= i < |kids| && AllNamed(kids) && DifferentNames(kids, caseSensitive)
    ensures LookupFrom(kids, n, kids[i].name.value, caseSensitive) == Some(i)
    decreases i - n
  {
    if n < i {
      assert !SameName(kids[n], kids[i], caseSensitive);
      LookupFindsItself(kids, n + 1, i, caseSensitive);
    }
  }

  /** Without different names a copy can differ: the second member is compared with the first. */
  lemma RepeatedNameDiffersFromItself(name: ByteString, caseSensitive: bool)
    ensures var t := Tree(ObjectKind, None, 0, 0.0, None,
                          [Tree(TrueKind, None, 1, 0.0, Some(name), []), Tree(NullKind, None, 0, 0.0, Some(name), [])]);
            !Equal(t, t, caseSensitive) && !Comparable(t, caseSensitive)
  {
    var first, second := Tree(TrueKind, None, 1, 0.0, Some(name), []), Tree(NullKind, None, 0, 0.0, Some(name), []);
    var t := Tree(ObjectKind, None, 0, 0.0, None, [first, second]);
    assert Lookup(t.kids, name, caseSensitive) == Some(0);
    assert t.kids[1] == second;
    assert !Matched(t, 1, t, caseSensitive);
    assert SameName(t.kids[0], t.kids[1], caseSensitive);
    assert MeaningOf(t.kids[0], caseSensitive) != MeaningOf(t.kids[1], caseSensitive);
  }

  /** Name and meaning of each member. */
  function Pairs(kids: seq<Tree>, caseSensitive: bool): seq<(ByteString, Meaning)>
    requires AllNamed(kids)
  {
    seq(|kids|, i requires 0 <= i < |kids| =>
      (Fold(kids[i].name.value, caseSensitive), MeaningOf(kids[i], caseSensitive)))
  }

  /** Objects whose members have different names mean the same when they have the same members in some order. */
  lemma MeaningIsUpToOrder(a: seq<Tree>, b: seq<Tree>, caseSensitive: bool)
    requires AllNamed(a) && DifferentNames(a, caseSensitive) && AllNamed(b) && DifferentNames(b, caseSensitive)
    ensures FieldsOf(a, caseSensitive) == FieldsOf(b, caseSensitive)
       <==> multiset(Pairs(a, caseSensitive)) == multiset(Pairs(b, caseSensitive))
  {
    hide FieldsOf, Pairs, MeaningOf;
    PairsAreFields(a, caseSensitive);
    PairsAreFields(b, caseSensitive);
    var fa, fb := FieldsOf(a, caseSensitive), FieldsOf(b, caseSensitive);
    if multiset(Pairs(a, caseSensitive)) == multiset(Pairs(b, caseSensitive)) {
      forall key | key in fa
        ensures key in fb && fb[key] == fa[key]
      {
        assert multiset(Pairs(a, caseSensitive))[(key, fa[key])] == 1;
      }
      forall key | key in fb
        ensures key in fa
      {
        assert multiset(Pairs(b, caseSensitive))[(key, fb[key])] == 1;
      }
      assert fa == fb;
    }
  }

  /** Each field is there once. */
  ghost predicate CountsFields(pairs: seq<(ByteString, Meaning)>, fields: map<ByteString, Meaning>) {
    forall p :: multiset(pairs)[p] == if p.0 in fields && fields[p.0] == p.1 then 1 else 0
  }

  lemma OneMoreField(head: (ByteString, Meaning), pairs: seq<(ByteString, Meaning)>, fields: map<ByteString, Meaning>)
    requires CountsFields(pairs, fields) && head.0 !in fields
    ensures CountsFields([head] + pairs, fields[head.0 := head.1])
  {
  }

  lemma {:induction false} PairsAreFields(kids: seq<Tree>, caseSensitive: bool)
    requires AllNamed(kids) && DifferentNames(kids, caseSensitive)
    ensures CountsFields(Pairs(kids, caseSensitive), FieldsOf(kids, caseSensitive))
  {
    hide MeaningOf, Fold, CountsFields;
    if kids == [] {
      NoField(Pairs(kids, caseSensitive));
    } else {
      var head := (Fold(kids[0].name.value, caseSensitive), MeaningOf(kids[0], caseSensitive));
      assert forall i :: 0 <= i < |kids| - 1 ==> kids[1..][i] == kids[i + 1];
      PairsAreFields(kids[1..], caseSensitive);
      assert Pairs(kids, caseSensitive) == [head] + Pairs(kids[1..], caseSensitive);
      assert forall i :: 0 < i < |kids| ==> !SameName(kids[0], kids[i], caseSensitive);
      if head.0 in FieldsOf(kids[1..], caseSensitive) {
        var j := FieldHasMember(kids[1..], head.0, caseSensitive);
      }
      OneMoreField(head, Pairs(kids[1..], caseSensitive), FieldsOf(kids[1..], caseSensitive));
    }
  }

  lemma NoField(pairs: seq<(ByteString, Meaning)>)
    requires pairs == []
    ensures CountsFields(pairs, map[])
  {
  }

  // ---- Comparing nodes ----

  /** Names are C strings throughout. */
  predicate NamesAreCStrings(t: Tree) {
    forall i :: 0 <= i < |t.kids| ==> NameIsCString(t.kids[i]) && NamesAreCStrings(t.kids[i])
  }

  method Compare(a: Node?, b: Node?, caseSensitive: bool, ghost s: Tree, ghost t: Tree) returns (same: bool)
    requires a != null ==> a.Is(s)
    requires b != null ==> b.Is(t)
    requires a != null && b != null && a != b ==> a.repr !! b.repr
    requires NamesAreCStrings(s) && NamesAreCStrings(t)
    ensures same <==> a != null && b != null && if a == b then s.kind != Invalid else Equal(s, t, caseSensitive)
    decreases Height(s) + Height(t), 2
  {
    if a == null || b == null || a.kind != b.kind {
      return false;
    }
    if a.kind == Invalid {
      return false;
    }
    if a == b {
      return true;
    }
    match a.kind {
      case FalseKind => return true;
      case TrueKind => return true;
      case NullKind => return true;
      case NumberKind => return CompareDouble(a.valuedouble, b.valuedouble);
      case StringKind =>
        if a.valuestring.None? || b.valuestring.None? {
          return false;
        }
        return a.valuestring.value == b.valuestring.value;
      case ArrayKind =>
        same := CompareElements(a, b, caseSensitive, s, t);
      case ObjectKind =>
        same := CompareMembers(a, b, caseSensitive, s, t);
        if same {
          same := CompareMembers(b, a, caseSensitive, t, s);
        }
    }
  }

  method CompareElements(a: Node, b: Node, caseSensitive: bool, ghost s: Tree, ghost t: Tree) returns (same: bool)
    requires a.Is(s) && b.Is(t) && a.repr !! b.repr
    requires NamesAreCStrings(s) && NamesAreCStrings(t)
    requires s.kind == ArrayKind && t.kind == ArrayKind
    ensures same <==> Equal(s, t, caseSensitive)
    decreases Height(s) + Height(t), 1
  {
    hide Node.Is, Ring, Equal, Height, NamesAreCStrings;
    EqualLists(s, t, caseSensitive);
    Children(a, s);
    Children(b, t);
    var aElement, bElement := a.child, b.child;
    ghost var n := 0;
    while aElement != null && bElement != null
      invariant 0 <= n <= |s.kids| && n <= |t.kids|
      invariant aElement == Nth(a.kids, n) && bElement == Nth(b.kids, n)
      invariant forall i :: 0 <= i < n ==> Equal(s.kids[i], t.kids[i], caseSensitive)
      decreases |s.kids| - n
    {
      KidsAreLower(s, n, t, n);
      Child(a, s, n);
      Child(b, t, n);
      KidNames(s, n);
      KidNames(t, n);
      var equal := Compare(aElement, bElement, caseSensitive, s.kids[n], t.kids[n]);
      if !equal {
        return false;
      }
      aElement := aElement.next;
      bElement := bElement.next;
      n := n + 1;
    }
    return aElement == bElement;
  }

  lemma KidNames(t: Tree, i: nat)
    requires i < |t.kids| && NamesAreCStrings(t)
    ensures NamesAreCStrings(t.kids[i])
  {
  }

  lemma KidsAreLower(s: Tree, i: nat, t: Tree, j: nat)
    requires i < |s.kids| && j < |t.kids|
    ensures Height(s.kids[i]) + Height(t.kids[j]) < Height(s) + Height(t)
  {
    KidIsLower(s.kids, i);
    KidIsLower(t.kids, j);
  }

  /** One pass: every member of `a` is looked up in `b`. */
  method CompareMembers(a: Node, b: Node, caseSensitive: bool, ghost s: Tree, ghost t: Tree) returns (same: bool)
    requires a.Is(s) && b.Is(t) && a.repr !! b.repr
    requires NamesAreCStrings(s) && NamesAreCStrings(t)
    ensures same <==> AllMatched(s, t, caseSensitive)
    decreases Height(s) + Height(t), 1
  {
    hide Node.Is, Ring, Equal, Height, Lookup;
    Children(a, s);
    Children(b, t);
    var aElement := a.child;
    ghost var n := 0;
    while aElement != null
      invariant 0 <= n <= |s.kids| && aElement == Nth(a.kids, n)
      invariant forall i :: 0 <= i < n ==> Matched(s, i, t, caseSensitive)
      decreases |s.kids| - n
    {
      Child(a, s, n);
      assert aElement.name == s.kids[n].name by { Children(aElement, s.kids[n]); }
      var bElement := GetObjectItem(b, aElement.name, caseSensitive, t);
      if bElement == null {
        assert !Matched(s, n, t, caseSensitive);
        return false;
      }
      ghost var j := Lookup(t.kids, aElement.name.value, caseSensitive).value;
      KidsAreLower(s, n, t, j);
      Child(b, t, j);
      var equal := Compare(aElement, bElement, caseSensitive, s.kids[n], t.kids[j]);
      if !equal {
        assert !Matched(s, n, t, caseSensitive);
        return false;
      }
      aElement := aElement.next;
      n := n + 1;
    }
    return true;
  }
}
