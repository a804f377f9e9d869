/** File names: the order of `strcmp`, sorting by it, and the names of records. */
module FileNames {
  import opened Bytes
  import opened Decimal

  type Name = ByteString

  const JSON_SUFFIX: ByteString := [0x2E, 0x6A, 0x73, 0x6F, 0x6E]

  /** A PendingFileName has 64 bytes, one of them for the terminator. */
  const NAME_LIMIT := 63

  function RecordName(ts: int): Name {
    PrintInt(ts) + JSON_SUFFIX
  }

  /** What a directory listing keeps: no hidden file, at least one character before `.json`. */
  predicate Listable(n: Name) {
    |n| >= 6 && n[0] != DOT && n[|n| - 5..] == JSON_SUFFIX
  }

  function Clip(n: Name): Name {
    if |n| > NAME_LIMIT then n[..NAME_LIMIT] else n
  }

  // ---- strcmp ----

  /** `strcmp(a, b) < 0`. */
  predicate Less(a: Name, b: Name) {
    b != [] && (a == [] || a[0] < b[0] || (a[0] == b[0] && Less(a[1..], b[1..])))
  }

  lemma {:induction false} LessIrreflexive(a: Name)
    ensures !Less(a, a)
  {
    if a != [] {
      LessIrreflexive(a[1..]);
    }
  }

  lemma {:induction false} LessTransitive(a: Name, b: Name, c: Name)
    requires Less(a, b) && Less(b, c)
    ensures Less(a, c)
  {
    if a != [] && a[0] == b[0] == c[0] {
      LessTransitive(a[1..], b[1..], c[1..]);
    }
  }

  lemma {:induction false} LessTotal(a: Name, b: Name)
    ensures Less(a, b) || Less(b, a) || a == b
  {
    if a != [] && b != [] && a[0] == b[0] {
      LessTotal(a[1..], b[1..]);
      assert a == [a[0]] + a[1..] && b == [b[0]] + b[1..];
    }
  }

  // ---- Sorting ----

  ghost predicate Ascending(s: seq<Name>) {
    forall i, j :: 0 <= i < j < |s| ==> !Less(s[j], s[i])
  }

  ghost predicate Distinct(s: seq<Name>) {
    forall i, j :: 0 <= i < j < |s| ==> s[i] != s[j]
  }

  function Insert(x: Name, s: seq<Name>): seq<Name> {
    if s == [] || Less(x, s[0]) then [x] + s else [s[0]] + Insert(x, s[1..])
  }

  /** What `qsort` with `strcmp` makes of `s`. */
  function Sort(s: seq<Name>): seq<Name> {
    if s == [] then [] else Insert(s[0], Sort(s[1..]))
  }

  lemma {:induction false} InsertKeeps(x: Name, s: seq<Name>)
    ensures multiset(Insert(x, s)) == multiset{x} + multiset(s)
  {
    if !(s == [] || Less(x, s[0])) {
      InsertKeeps(x, s[1..]);
      assert s == [s[0]] + s[1..];
    }
  }

  lemma {:induction false} InsertAscending(x: Name, s: seq<Name>)
    requires Ascending(s)
    ensures Ascending(Insert(x, s))
  {
    var r := Insert(x, s);
    if s == [] {
    } else if Less(x, s[0]) {
      forall j | 0 < j < |r| ensures !Less(r[j], x) {
        if Less(s[j - 1], x) {
          LessTransitive(s[j - 1], x, s[0]);
          LessIrreflexive(s[0]);
        }
      }
    } else {
      InsertAscending(x, s[1..]);
      InsertKeeps(x, s[1..]);
      var t := Insert(x, s[1..]);
      forall j | 0 <= j < |t| ensures !Less(t[j], s[0]) {
        assert t[j] in multiset(t);
        if t[j] != x {
          assert t[j] in s[1..];
        }
      }
    }
  }

  lemma {:induction false} SortSorts(s: seq<Name>)
    ensures Ascending(Sort(s)) && multiset(Sort(s)) == multiset(s) && |Sort(s)| == |s|
  {
    if s != [] {
      SortSorts(s[1..]);
      InsertAscending(s[0], Sort(s[1..]));
      InsertKeeps(s[0], Sort(s[1..]));
      assert s == [s[0]] + s[1..];
    }
    assert |Sort(s)| == |multiset(Sort(s))|;
  }

  lemma SortMembers(s: seq<Name>)
    ensures forall x :: x in Sort(s) <==> x in s
    ensures Distinct(s) ==> Distinct(Sort(s))
  {
    SortSorts(s);
    var t := Sort(s);
    assert forall x :: x in t <==> x in multiset(t);
    assert forall x :: x in s <==> x in multiset(s);
    if Distinct(s) {
      forall i, j | 0 <= i < j < |t| ensures t[i] != t[j] {
        if t[i] == t[j] {
          TwiceCounts(t, i, j);
          DistinctCounts(s, t[i]);
        }
      }
    }
  }

  lemma TwiceCounts(t: seq<Name>, i: nat, j: nat)
    requires i < j < |t| && t[i] == t[j]
    ensures multiset(t)[t[i]] >= 2
  {
    assert t == t[..j] + [t[j]] + t[j + 1..];
    assert t[i] in multiset(t[..j]) by {
      assert t[..j][i] == t[i];
    }
  }

  lemma {:induction false} DistinctCounts(s: seq<Name>, x: Name)
    requires Distinct(s)
    ensures multiset(s)[x] <= 1
  {
    if s != [] {
      DistinctCounts(s[1..], x);
      assert s == [s[0]] + s[1..];
      if s[0] == x {
        assert x !in s[1..];
      }
    }
  }

  // ---- Age ----

  /** The names in `names` that precede `n`. */
  function Older(n: Name, names: set<Name>): set<Name> {
    set m | m in names && Less(m, n)
  }

  ghost predicate Lists(s: seq<Name>, names: set<Name>) {
    Distinct(s) && forall x :: x in s <==> x in names
  }

  /** In a sorted listing of distinct names, the index of a name counts the names that precede it. */
  lemma IndexIsAge(s: seq<Name>, names: set<Name>, i: nat)
    requires Lists(s, names) && Ascending(s) && i < |s|
    ensures |Older(s[i], names)| == i
  {
    var before := set k | 0 <= k < i :: s[k];
    forall x ensures x in Older(s[i], names) <==> x in before {
      if x in before {
        var k :| 0 <= k < i && s[k] == x;
        LessTotal(x, s[i]);
      }
      if x in Older(s[i], names) {
        var k :| 0 <= k < |s| && s[k] == x;
        LessIrreflexive(x);
        assert k < i;
      }
    }
    assert Older(s[i], names) == before;
    PrefixSize(s, i);
  }

  lemma {:induction false} PrefixSize(s: seq<Name>, i: nat)
    requires Distinct(s) && i <= |s|
    ensures |set k | 0 <= k < i :: s[k]| == i
  {
    if i > 0 {
      PrefixSize(s, i - 1);
      assert (set k | 0 <= k < i :: s[k]) == (set k | 0 <= k < i - 1 :: s[k]) + {s[i - 1]};
    }
  }

  lemma ListingSize(s: seq<Name>, names: set<Name>)
    requires Lists(s, names)
    ensures |s| == |names|
  {
    PrefixSize(s, |s|);
    assert (set k | 0 <= k < |s| :: s[k]) == names;
  }

  // ---- Record names ----

  const LONG_MAX := 0x7FFF_FFFF_FFFF_FFFF
  const LONG_MIN := -0x8000_0000_0000_0000

  /** The number in decimal, and behind it the extension. */
  lemma RecordNameIs(ts: int)
    ensures RecordName(ts) == PrintInt(ts) + Ascii(".json")
  {
  }

  /** A listing keeps the names that end in `.json`, have something in front of that and do not start with a dot;
    * it has room for 63 bytes. */
  lemma ListableIs(n: Name)
    ensures Listable(n) <==> |n| > 5 && n[|n| - 5..] == Ascii(".json") && n[0] != '.' as int
    ensures |Clip(n)| <= 63 && Clip(n) <= n && (|n| <= 63 ==> Clip(n) == n) && (|n| > 63 ==> |Clip(n)| == 63)
  {
    assert JSON_SUFFIX == Ascii(".json");
  }

  /** The first byte in which they differ decides, or the end of the shorter one. */
  lemma {:induction false} LessIs(a: Name, b: Name)
    ensures Less(a, b)
       <==> exists k :: 0 <= k <= |a| && k < |b| && a[..k] == b[..k] && (k == |a| || a[k] < b[k])
  {
    if a == [] || b == [] {
      assert b != [] ==> a[..0] == b[..0];
    } else if a[0] == b[0] {
      LessIs(a[1..], b[1..]);
      if Less(a, b) {
        var k :| 0 <= k <= |a[1..]| && k < |b[1..]| && a[1..][..k] == b[1..][..k]
          && (k == |a[1..]| || a[1..][k] < b[1..][k]);
        assert a[..k + 1] == [a[0]] + a[1..][..k] && b[..k + 1] == [b[0]] + b[1..][..k];
      }
      if k :| 0 <= k <= |a| && k < |b| && a[..k] == b[..k] && (k == |a| || a[k] < b[k]) {
        assert a[1..][..k - 1] == a[..k][1..] && b[1..][..k - 1] == b[..k][1..];
      }
    } else {
      assert a[..0] == b[..0];
      assert forall k :: 0 < k <= |a| && k < |b| && a[..k] == b[..k] ==> a[..k][0] == b[..k][0];
    }
  }

  /** Every timestamp gives a name that listings keep and that fits a PendingFileName. */
  lemma RecordNameIsListable(ts: int)
    ensures Listable(RecordName(ts))
    ensures LONG_MIN <= ts <= LONG_MAX ==> |RecordName(ts)| <= NAME_LIMIT
  {
    var n := RecordName(ts);
    assert n[|n| - 5..] == JSON_SUFFIX;
    assert n[0] == PrintInt(ts)[0];
    if LONG_MIN <= ts <= LONG_MAX {
      var magnitude: nat := if ts < 0 then -ts else ts;
      assert magnitude < Power10(19) by {
        assert Power10(4) == 10000;
        assert Power10(8) == 100000000;
        assert Power10(12) == 1000000000000;
        assert Power10(16) == 10000000000000000;
        assert Power10(19) == 10000000000000000000;
      }
      DigitsLength(magnitude, 19);
    }
  }

  /** For timestamps of equal width, the order of names is the order of time. */
  lemma EqualWidthOrder(a: nat, b: nat)
    requires |DigitsOf(a)| == |DigitsOf(b)|
    ensures Less(RecordName(a), RecordName(b)) <==> a < b
  {
    EqualWidthDigits(a, b, JSON_SUFFIX, JSON_SUFFIX);
    LessIrreflexive(JSON_SUFFIX);
  }

  /** Comparing equally long digit strings with something behind them. */
  lemma {:induction false} EqualWidthDigits(a: nat, b: nat, u: Name, v: Name)
    requires |DigitsOf(a)| == |DigitsOf(b)|
    ensures Less(DigitsOf(a) + u, DigitsOf(b) + v) <==> a < b || (a == b && Less(u, v))
    decreases a
  {
    if a < 10 {
      assert (DigitsOf(a) + u)[1..] == u && (DigitsOf(b) + v)[1..] == v;
    } else {
      var x, y: Byte := 0x30 + a % 10, 0x30 + b % 10;
      assert DigitsOf(a) + u == DigitsOf(a / 10) + ([x] + u);
      assert DigitsOf(b) + v == DigitsOf(b / 10) + ([y] + v);
      EqualWidthDigits(a / 10, b / 10, [x] + u, [y] + v);
      assert ([x] + u)[1..] == u && ([y] + v)[1..] == v;
    }
  }

  // ---- Names of any width ----

  function Width(n: nat): nat {
    |DigitsOf(n)|
  }

  /** The leading digits of `n`, at most `k` of them: the low digits are dropped. */
  function Head(n: nat, k: nat): nat {
    if Width(n) <= k || n < 10 then n else Head(n / 10, k)
  }

  /** What a reader can check of two timestamps: a later one that is longer has to start, as far as the
    * earlier one reaches, with at least the digits of the earlier one. Before 1970 it is the other way
    * round, because of the sign. */
  predicate NamesKeepOrder(a: int, b: int)
    requires a < b
  {
    if a >= 0 then a <= Head(b, Width(a))
    else if b >= 0 then true
    else Head(-a, Width(-b)) < -b
  }

  lemma {:induction false} HeadSplits(n: nat, k: nat) returns (low: Name)
    requires k > 0
    ensures DigitsOf(n) == DigitsOf(Head(n, k)) + low
    ensures Width(Head(n, k)) == if Width(n) <= k then Width(n) else k
    ensures low == [] <==> Width(n) <= k
    ensures forall b <- low :: IsDigit(b)
  {
    if Width(n) <= k || n < 10 {
      low := [];
    } else {
      low := HeadSplits(n / 10, k);
      var last: Byte := 0x30 + n % 10;
      assert DigitsOf(n) == DigitsOf(Head(n / 10, k)) + (low + [last]);
      low := low + [last];
    }
  }

  lemma {:induction false} WidthGrows(a: nat, b: nat)
    requires a <= b
    ensures Width(a) <= Width(b)
    decreases b
  {
    if a >= 10 {
      WidthGrows(a / 10, b / 10);
    }
  }

  /** Of two later times the order of the names, exactly. */
  lemma NaturalOrder(a: nat, b: nat)
    requires a < b
    ensures Less(RecordName(a), RecordName(b)) <==> a <= Head(b, Width(a))
  {
    WidthGrows(a, b);
    var head := Head(b, Width(a));
    var low := HeadSplits(b, Width(a));
    assert DigitsOf(b) + JSON_SUFFIX == DigitsOf(head) + (low + JSON_SUFFIX);
    EqualWidthDigits(a, head, JSON_SUFFIX, low + JSON_SUFFIX);
    LessIrreflexive(JSON_SUFFIX);
    if low == [] {
      assert low + JSON_SUFFIX == JSON_SUFFIX;
    } else {
      assert (low + JSON_SUFFIX)[0] == low[0] && low[0] in low;
    }
  }

  lemma LessBehind(x: Byte, a: Name, b: Name)
    ensures Less([x] + a, [x] + b) <==> Less(a, b)
  {
    assert ([x] + a)[1..] == a && ([x] + b)[1..] == b;
  }

  lemma LessAsymmetric(a: Name, b: Name)
    ensures !(Less(a, b) && Less(b, a))
  {
    if Less(a, b) && Less(b, a) {
      LessTransitive(a, b, a);
      LessIrreflexive(a);
    }
  }

  /** For any two times, the names are in the order of time exactly when NamesKeepOrder holds. */
  lemma NameOrder(a: int, b: int)
    requires a < b
    ensures Less(RecordName(a), RecordName(b)) <==> NamesKeepOrder(a, b)
  {
    if a >= 0 {
      NaturalOrder(a, b);
    } else if b >= 0 {
      assert RecordName(a)[0] == MINUS && IsDigit(RecordName(b)[0]);
    } else {
      NaturalOrder(-b, -a);
      NegativeOrder(-a, -b);
    }
  }

  /** Behind a minus sign the order is turned round. */
  lemma NegativeOrder(a: int, b: int)
    requires a > 0 && b > 0 && a != b
    ensures Less(RecordName(-a), RecordName(-b)) <==> !Less(RecordName(b), RecordName(a))
  {
    hide Less;
    NegativeName(a);
    NegativeName(b);
    hide RecordName;
    LessBehind(MINUS, RecordName(a), RecordName(b));
    LessTotal(RecordName(a), RecordName(b));
    LessAsymmetric(RecordName(a), RecordName(b));
    RecordNamesDiffer(a, b);
  }

  lemma NegativeName(n: int)
    requires n > 0
    ensures RecordName(-n) == [MINUS] + RecordName(n)
  {
    hide DigitsOf;
  }

  /** Both ways: 2.json precedes 10.json in time only, 1.json precedes 20.json in both. */
  lemma WidthChangeBreaksOrder()
    ensures !Less(RecordName(2), RecordName(10)) && Less(RecordName(1), RecordName(20))
  {
    assert DigitsOf(10) == [0x31, 0x30] && DigitsOf(20) == [0x32, 0x30];
    NameOrder(2, 10);
    NameOrder(1, 20);
  }

  lemma RecordNamesDiffer(a: int, b: int)
    requires a != b
    ensures RecordName(a) != RecordName(b)
  {
    var n, m := RecordName(a), RecordName(b);
    assert PrintInt(a) == n[..|n| - 5];
    assert PrintInt(b) == m[..|m| - 5];
    StrtodOfPrintInt(a);
    StrtodOfPrintInt(b);
    assert (a as real).Floor == a && (b as real).Floor == b;
  }
}
