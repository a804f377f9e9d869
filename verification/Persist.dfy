/** The two record directories and the operations on them. What the system calls answer is a parameter. */
module Persist {
  import opened Options
  import opened Arithmetic
  import opened Bytes
  import opened Decimal
  import opened FileNames

  type Files = map<Name, ByteString>

  /** What became of the attempt to write a file: nothing, the whole text, or a part of it. A part can go
    * unnoticed, because nobody looks at what closing the file answers. */
  datatype WriteOutcome = NotOpened | Complete | Partial(written: ByteString, noticed: bool)

  function Written(files: Files, ts: int, json: ByteString, outcome: WriteOutcome): Files {
    match outcome
    case NotOpened => files
    case Complete => files[RecordName(ts) := json]
    case Partial(written, _) => files[RecordName(ts) := written]
  }

  /** The record of a time is in the file of that name, if it was written whole, and no other file is touched. */
  lemma WrittenIs(files: Files, ts: int, json: ByteString, outcome: WriteOutcome)
    ensures var after, name := Written(files, ts, json, outcome), PrintInt(ts) + Ascii(".json");
      && (forall n :: n != name ==> (n in after <==> n in files) && (n in files ==> after[n] == files[n]))
      && (outcome.Complete? ==> name in after && after[name] == json)
      && (outcome.Partial? ==> name in after && after[name] == outcome.written)
      && (outcome.NotOpened? ==> after == files)
  {
    RecordNameIs(ts);
  }

  // ---- Listing ----

  /** The listable names among the first entries, until `max` of them are found; all if `max` is 0. */
  function FirstListable(order: seq<Name>, max: nat): (r: seq<Name>)
    ensures max > 0 ==> |r| <= max
    ensures forall x :: x in r ==> x in order && Listable(x)
  {
    if order == [] then []
    else if !Listable(order[0]) then FirstListable(order[1..], max)
    else if max == 1 then [order[0]]
    else [order[0]] + FirstListable(order[1..], if max == 0 then 0 else max - 1)
  }

  function Clipped(names: seq<Name>): (r: seq<Name>)
    ensures |r| == |names| && forall i :: 0 <= i < |r| ==> r[i] == Clip(names[i])
  {
    seq(|names|, i requires 0 <= i < |names| => Clip(names[i]))
  }

  /** A listing: cut off in directory order first, sorted afterwards. */
  function Listing(order: seq<Name>, max: nat): seq<Name> {
    Sort(Clipped(FirstListable(order, max)))
  }

  lemma {:induction false} FirstListableAll(order: seq<Name>)
    ensures forall x :: x in order && Listable(x) ==> x in FirstListable(order, 0)
  {
    if order != [] {
      FirstListableAll(order[1..]);
    }
  }

  lemma {:induction false} FirstListableDistinct(order: seq<Name>, max: nat)
    requires Distinct(order)
    ensures Distinct(FirstListable(order, max))
  {
    if order != [] {
      assert order[0] !in order[1..];
      FirstListableDistinct(order[1..], if !Listable(order[0]) || max == 0 then max else max - 1);
      FirstListableDistinct(order[1..], max);
    }
  }

  /** With a limit, it is the beginning of what there is without one, in the order of the directory. */
  lemma {:induction false} FirstListableIsPrefix(order: seq<Name>, max: nat)
    requires max > 0
    ensures var all := FirstListable(order, 0);
      FirstListable(order, max) == if |all| <= max then all else all[..max]
  {
    if order != [] {
      if !Listable(order[0]) {
        FirstListableIsPrefix(order[1..], max);
      } else if max > 1 {
        FirstListableIsPrefix(order[1..], max - 1);
      }
    }
  }

  /** Without a limit, one more entry is kept at the end or not, by its own name. */
  lemma {:induction false} FirstListableAppend(a: seq<Name>, n: Name)
    ensures FirstListable(a + [n], 0) == FirstListable(a, 0) + if Listable(n) then [n] else []
  {
    hide Listable;
    if a == [] {
      assert a + [n] == [n];
    } else {
      FirstListableAppend(a[1..], n);
      assert (a + [n])[0] == a[0] && (a + [n])[1..] == a[1..] + [n];
    }
  }

  /** When everything fits, the limit is no limit. */
  lemma {:induction false} FirstListableFits(order: seq<Name>, max: nat)
    requires |FirstListable(order, 0)| <= max
    ensures FirstListable(order, max) == FirstListable(order, 0)
  {
    if order != [] && max > 0 {
      FirstListableFits(order[1..], if Listable(order[0]) then max - 1 else max);
      if Listable(order[0]) && max == 1 {
        assert FirstListable(order[1..], 0) == [];
      }
    }
  }

  /** Names that a listing does not cut. */
  predicate ShortNames(names: set<Name>) {
    forall n :: n in ListableOf(names) ==> |n| <= NAME_LIMIT
  }

  function ListableOf(names: set<Name>): set<Name> {
    set n | n in names && Listable(n)
  }

  lemma ClippedShort(names: seq<Name>)
    requires forall n :: n in names ==> |n| <= NAME_LIMIT
    ensures Clipped(names) == names
  {
    forall i | 0 <= i < |names| ensures Clip(names[i]) == names[i] {
      assert names[i] in names;
    }
  }

  /** A listing without a limit is oldest first, whatever the directory order, and it holds exactly the
    * listable names if and only if none of them is too long. */
  lemma FullListing(order: seq<Name>, names: set<Name>)
    requires Lists(order, names)
    ensures Ascending(Listing(order, 0))
    ensures Lists(Listing(order, 0), ListableOf(names)) <==> ShortNames(names)
  {
    hide FirstListable, Sort, Less, Clipped;
    var all := FirstListable(order, 0);
    FirstListableAll(order);
    FirstListableDistinct(order, 0);
    SortSorts(Clipped(all));
    SortMembers(Clipped(all));
    if ShortNames(names) {
      ClippedShort(all);
    } else {
      var long :| long in ListableOf(names) && |long| > NAME_LIMIT;
      assert long !in Clipped(all);
    }
  }

  lemma ListingCounts(order: seq<Name>, names: set<Name>)
    requires Lists(order, names) && ShortNames(names)
    ensures |FirstListable(order, 0)| == |Listing(order, 0)| == |ListableOf(names)|
  {
    FullListing(order, names);
    ListingSize(Listing(order, 0), ListableOf(names));
    SortSorts(Clipped(FirstListable(order, 0)));
  }

  // ---- Rotation ----

  /** Deleting the names one by one, each as the system call allows. */
  function Deleted(files: Files, names: seq<Name>, deletes: Name -> bool): Files {
    if names == [] then files
    else Deleted(if deletes(names[0]) then files - {names[0]} else files, names[1..], deletes)
  }

  /** The names that rotation is after: those with fewer older ones than there are names too many. */
  function Expired(names: set<Name>, max: nat): set<Name> {
    set n | n in ListableOf(names) && |Older(n, ListableOf(names))| < Minus(|ListableOf(names)|, max)
  }

  /** What rotation leaves, in terms of the files only. */
  function Rotated(files: Files, max: nat, deletes: Name -> bool): Files {
    map n | n in files && !(n in Expired(files.Keys, max) && deletes(n)) :: files[n]
  }

  lemma {:induction false} DeletedKeeps(files: Files, names: seq<Name>, deletes: Name -> bool)
    ensures forall n :: n in Deleted(files, names, deletes) <==> n in files && !(n in names && deletes(n))
    ensures forall n :: n in Deleted(files, names, deletes) ==> Deleted(files, names, deletes)[n] == files[n]
  {
    if names != [] {
      DeletedKeeps(if deletes(names[0]) then files - {names[0]} else files, names[1..], deletes);
    }
  }

  lemma DeletedNothing(files: Files, listing: seq<Name>, deletes: Name -> bool)
    ensures Deleted(files, listing[..0], deletes) == files
  {
  }

  /** Deleting the head of a full listing is what Rotated says. */
  lemma RotationRemovesExpired(files: Files, order: seq<Name>, max: nat, deletes: Name -> bool)
    requires Lists(order, files.Keys) && ShortNames(files.Keys)
    ensures var listing := Listing(order, 0);
      var k := Minus(|listing|, max);
      k <= |listing| && Deleted(files, listing[..k], deletes) == Rotated(files, max, deletes)
  {
    hide Less, Listing, ShortNames, Deleted;
    var listing, names := Listing(order, 0), ListableOf(files.Keys);
    var k := Minus(|listing|, max);
    FullListing(order, files.Keys);
    ListingSize(listing, names);
    ExpiredIsPrefix(listing, names, k);
    DeletedKeeps(files, listing[..k], deletes);
    assert forall n :: n in Expired(files.Keys, max) <==> n in listing[..k];
  }

  lemma ExpiredIsPrefix(listing: seq<Name>, names: set<Name>, k: nat)
    requires Lists(listing, names) && Ascending(listing) && k <= |listing|
    ensures forall n :: n in names && |Older(n, names)| < k <==> n in listing[..k]
  {
    forall n ensures n in names && |Older(n, names)| < k <==> n in listing[..k] {
      assert n in listing[..k] ==> n in listing;
      if n in names {
        var i :| 0 <= i < |listing| && listing[i] == n;
        IndexIsAge(listing, names, i);
        assert n in listing[..k] ==> i < k;
        assert i < k ==> listing[..k][i] == n;
      }
    }
  }

  lemma {:induction false} SomeListing(names: set<Name>) returns (order: seq<Name>)
    ensures Lists(order, names)
  {
    if names == {} {
      order := [];
    } else {
      var x :| x in names;
      order := SomeListing(names - {x});
      order := order + [x];
    }
  }

  /** Every expired name is older than every name that is kept, and there are exactly as many as there
    * are names too many. */
  lemma ExpiredAreOldest(names: set<Name>, max: nat)
    requires ShortNames(names)
    ensures |Expired(names, max)| == Minus(|ListableOf(names)|, max)
    ensures forall x, y :: x in Expired(names, max) && y in ListableOf(names) - Expired(names, max) ==> Less(x, y)
  {
    hide Less, Listing;
    var order := SomeListing(names);
    var listing, listable := Listing(order, 0), ListableOf(names);
    FullListing(order, names);
    ListingSize(listing, listable);
    var k := Minus(|listing|, max);
    ExpiredIsPrefix(listing, listable, k);
    assert Expired(names, max) == set i | 0 <= i < k :: listing[i] by {
      forall n ensures n in listing[..k] <==> n in (set i | 0 <= i < k :: listing[i]) {
        assert n in listing[..k] <==> exists i :: 0 <= i < k && listing[..k][i] == n;
      }
    }
    PrefixSize(listing, k);
    forall x, y | x in Expired(names, max) && y in listable - Expired(names, max) ensures Less(x, y) {
      var i :| 0 <= i < |listing| && listing[i] == x;
      var j :| 0 <= j < |listing| && listing[j] == y;
      IndexIsAge(listing, listable, i);
      IndexIsAge(listing, listable, j);
      LessTotal(x, y);
    }
  }

  /** When every delete works, rotation removes exactly the excess, and the rest is within the limit. */
  lemma RotationBoundsCount(files: Files, max: nat, deletes: Name -> bool)
    requires ShortNames(files.Keys)
    requires forall n :: n in Expired(files.Keys, max) ==> deletes(n)
    ensures var after := Rotated(files, max, deletes);
      && after.Keys == files.Keys - Expired(files.Keys, max)
      && |after| == |files| - Minus(|ListableOf(files.Keys)|, max)
      && |ListableOf(after.Keys)| == |ListableOf(files.Keys)| - Minus(|ListableOf(files.Keys)|, max) <= max
  {
    hide Less, ShortNames;
    var gone, after := Expired(files.Keys, max), Rotated(files, max, deletes);
    ExpiredAreOldest(files.Keys, max);
    assert after.Keys == files.Keys - gone;
    SubsetSize(gone, files.Keys);
    ListableWithout(files.Keys, gone);
    hide ListableOf, Rotated, Expired;
    SubsetSize(gone, ListableOf(files.Keys));
  }

  /** And what went precedes what stays. */
  lemma RotationKeepsNewest(files: Files, max: nat, deletes: Name -> bool)
    requires ShortNames(files.Keys) && forall n :: deletes(n)
    ensures var after := Rotated(files, max, deletes).Keys;
      && |ListableOf(after)| <= max
      && forall x, y :: x in files.Keys - after && y in ListableOf(after) ==> Less(x, y)
  {
    hide Less, ShortNames;
    RotationBoundsCount(files, max, deletes);
    ExpiredAreOldest(files.Keys, max);
  }

  lemma ListableWithout(names: set<Name>, gone: set<Name>)
    ensures ListableOf(names - gone) == ListableOf(names) - gone
  {
    hide Listable;
  }

  lemma SubsetSize<T>(a: set<T>, b: set<T>)
    requires a <= b
    ensures |b - a| == |b| - |a|
  {
    assert b == (b - a) + a;
  }

  // ---- The directory ----

  class Directory {
    var files: Files

    constructor ()
      ensures files == map[]
    {
      files := map[];
    }

    /** `persist_write`. */
    method Write(ts: int, json: ByteString, outcome: WriteOutcome) returns (rc: int)
      modifies this
      ensures files == Written(old(files), ts, json, outcome)
      ensures rc == if outcome.NotOpened? || (outcome.Partial? && outcome.noticed) then -1 else 0
    {
      var path := RecordName(ts);
      if outcome.NotOpened? {
        return -1;
      }
      if outcome.Partial? {
        files := files[path := outcome.written];
        if outcome.noticed {
          return -1;
        }
      } else {
        files := files[path := json];
      }
      return 0;
    }

    /** The entries in an order of the directory's choosing. */
    method ReadDir() returns (order: seq<Name>)
      ensures Lists(order, files.Keys)
    {
      order := [];
      var left := files.Keys;
      while left != {}
        invariant Distinct(order) && left <= files.Keys
        invariant forall x :: x in order <==> x in files.Keys && x !in left
        decreases |left|
      {
        var x :| x in left;
        assert x !in order;
        order := order + [x];
        left := left - {x};
      }
    }

    /** `persist_list_pending`: the directory may fail to open, entries come in the order given, the
      * first `max` listable ones are stored and then sorted. Without an array they are only counted. */
    method ListPending(order: Option<seq<Name>>, out: array?<Name>, max: nat) returns (count: int)
      requires out != null ==> max <= out.Length
      modifies if out != null then {out} else {}
      ensures order.None? ==> count == -1
      ensures order.Some? && (out == null || max == 0) ==> count == |FirstListable(order.value, 0)|
      ensures order.Some? && out != null && max > 0 ==>
        count == |FirstListable(order.value, max)| <= out.Length && out[..count] == Listing(order.value, max)
    {
      if order.None? {
        return -1;
      }
      if out == null || max == 0 {
        count := CountListable(order.value);
      } else {
        count := CollectListable(order.value, out, max);
        QuickSort(out, count);
      }
    }

    static method CountListable(entries: seq<Name>) returns (count: nat)
      ensures count == |FirstListable(entries, 0)|
    {
      count := 0;
      var i := 0;
      while i < |entries|
        invariant 0 <= i <= |entries|
        invariant |FirstListable(entries, 0)| == count + |FirstListable(entries[i..], 0)|
      {
        assert entries[i..][1..] == entries[i + 1..];
        if Listable(entries[i]) {
          count := count + 1;
        }
        i := i + 1;
      }
    }

    static method CollectListable(entries: seq<Name>, out: array<Name>, max: nat) returns (count: nat)
      requires 0 < max <= out.Length
      modifies out
      ensures count == |FirstListable(entries, max)|
      ensures out[..count] == Clipped(FirstListable(entries, max))
    {
      count := 0;
      ghost var found: seq<Name> := [];
      var i := 0;
      while i < |entries|
        invariant 0 <= i <= |entries| && count == |found| < max
        invariant FirstListable(entries, max) == found + FirstListable(entries[i..], max - count)
        invariant out[..count] == Clipped(found)
      {
        var name := entries[i];
        assert entries[i..][1..] == entries[i + 1..];
        i := i + 1;
        if Listable(name) {
          ghost var before := found;
          out[count] := Clip(name);
          found := found + [name];
          count := count + 1;
          assert out[..count] == Clipped(before) + [Clip(name)] == Clipped(found);
          if count >= max {
            return;
          }
        }
      }
    }

    /** `qsort` with `strcmp`, by what it promises. */
    static method QuickSort(a: array<Name>, n: nat)
      requires n <= a.Length
      modifies a
      ensures a[..n] == Sort(old(a[..n]))
    {
      SortSorts(a[..n]);
      var sorted := Sort(a[..n]);
      forall i | 0 <= i < n {
        a[i] := sorted[i];
      }
      assert a[..n] == sorted;
    }

    /** `persist_delete`. */
    method Delete(name: Name, works: bool) returns (rc: int)
      requires works ==> name in files
      modifies this
      ensures files == if works then old(files) - {name} else old(files)
      ensures rc == 0 <==> works
    {
      if !works {
        return -1;
      }
      files := files - {name};
      return 0;
    }

    /** `persist_move_to_sent`: a file of the same name in the other directory is overwritten. */
    method MoveTo(sent: Directory, name: Name, works: bool) returns (rc: int)
      requires sent != this && (works ==> name in files)
      modifies this, sent
      ensures works ==> files == old(files) - {name} && sent.files == old(sent.files)[name := old(files)[name]]
      ensures !works ==> files == old(files) && sent.files == old(sent.files)
    {
      if !works {
        return -1;
      }
      sent.files := sent.files[name := files[name]];
      files := files - {name};
      return 0;
    }

    /** `persist_rotate_sent`. Both listings may fail; `deletes` says which files can be removed. */
    method RotateSent(max: nat, counts: bool, lists: bool, deletes: Name -> bool) returns (deleted: int)
      requires ShortNames(files.Keys)
      modifies this
      ensures files == if counts && lists then Rotated(old(files), max, deletes) else old(files)
      ensures deleted == if !counts then -1
                         else if |ListableOf(old(files).Keys)| <= max then 0
                         else if !lists then -1
                         else |old(files)| - |files|
    {
      hide FirstListable, Sort, Clipped, Rotated, Deleted, ListableOf, ShortNames;
      var order := ReadDir();
      RotationRemovesExpired(files, order, max, deletes);
      ListingCounts(order, files.Keys);
      var total := ListPending(if counts then Some(order) else None, null, 0);
      if total < 0 {
        return -1;
      }
      if total <= max {
        DeletedNothing(files, Listing(order, 0), deletes);
        return 0;
      }
      var excess := total - max;
      var names := new Name[total];
      var listed := ListPending(if lists then Some(order) else None, names, total);
      if listed < 0 {
        return -1;
      }
      FirstListableFits(order, total);
      assert names[..excess] == Listing(order, 0)[..excess];
      deleted := DeleteEach(names[..excess], deletes);
    }

    method DeleteEach(names: seq<Name>, deletes: Name -> bool) returns (deleted: nat)
      modifies this
      ensures files == Deleted(old(files), names, deletes) && deleted == |old(files)| - |files|
    {
      deleted := 0;
      var i := 0;
      while i < |names|
        invariant 0 <= i <= |names| && deleted == |old(files)| - |files|
        invariant Deleted(files, names[i..], deletes) == Deleted(old(files), names, deletes)
      {
        assert names[i..][1..] == names[i + 1..];
        OneFewer(files, names[i]);
        var rc := Delete(names[i], names[i] in files && deletes(names[i]));
        if rc == 0 {
          deleted := deleted + 1;
        }
        i := i + 1;
      }
    }

    static lemma OneFewer(files: Files, name: Name)
      ensures files - {name} == if name in files then files - {name} else files
      ensures name in files ==> |files - {name}| == |files| - 1
    {
      if name in files {
        assert (files - {name}).Keys == files.Keys - {name};
        assert |(files - {name}).Keys| == |files - {name}| && |files.Keys| == |files|;
      } else {
        assert files - {name} == files;
      }
    }
  }
}
