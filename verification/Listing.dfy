/** Scanning and pruning distributions (client/internal/listing). */
module Listing {
  import opened Home

  /** A directory entry as ReadDir gives it; `infoOk` is false when Info() fails. */
  datatype DirEntry = DirEntry(name: string, isDir: bool, mtime: int, infoOk: bool)

  datatype Item = Item(name: string, mtime: int)

  // ---------------------------------------------------------------- the order

  predicate StrLess(a: string, b: string) {
    if b == [] then false
    else if a == [] then true
    else if a[0] == b[0] then StrLess(a[1..], b[1..])
    else a[0] < b[0]
  }

  /** The comparator of the sort: newer first, ties by descending name. */
  predicate Newer(a: Item, b: Item) {
    if a.mtime == b.mtime then StrLess(b.name, a.name) else a.mtime > b.mtime
  }

  /** The order of names: at the first difference, or the shorter one if it is a prefix. */
  lemma {:induction false} StrLessIff(a: string, b: string)
    ensures StrLess(a, b) <==>
              exists k :: 0 <= k <= |a| && k < |b| && a[..k] == b[..k] && (k == |a| || a[k] < b[k])
  {
    if a != [] && b != [] && a[0] == b[0] {
      StrLessIff(a[1..], b[1..]);
      if StrLess(a[1..], b[1..]) {
        var k :| 0 <= k <= |a[1..]| && k < |b[1..]| && a[1..][..k] == b[1..][..k] && (k == |a[1..]| || a[1..][k] < b[1..][k]);
        assert a[..k + 1] == [a[0]] + a[1..][..k] == b[..k + 1];
      }
      if k :| 0 <= k <= |a| && k < |b| && a[..k] == b[..k] && (k == |a| || a[k] < b[k]) {
        assert k > 0;
        assert a[1..][..k - 1] == a[..k][1..] == b[..k][1..] == b[1..][..k - 1];
      }
    } else if a != [] && b != [] {
      assert a[..0] == b[..0];
      forall k | 1 <= k <= |a| && k < |b| ensures a[..k] != b[..k] {
        assert a[..k][0] != b[..k][0];
      }
    } else if b != [] {
      assert a[..0] == b[..0];
    }
  }

  lemma {:induction false} StrLessTrans(a: string, b: string, c: string)
    requires StrLess(a, b) && StrLess(b, c)
    ensures StrLess(a, c)
  {
    if a != [] && a[0] == b[0] && b[0] == c[0] {
      StrLessTrans(a[1..], b[1..], c[1..]);
    }
  }

  lemma {:induction false} StrLessTotal(a: string, b: string)
    ensures !(StrLess(a, b) && StrLess(b, a))
    ensures a != b <==> StrLess(a, b) || StrLess(b, a)
  {
    if a != [] && b != [] && a[0] == b[0] {
      StrLessTotal(a[1..], b[1..]);
      assert a == [a[0]] + a[1..] && b == [b[0]] + b[1..];
    }
  }

  /** The comparator is a strict order, total on items with different names. */
  lemma NewerIsStrictTotal(a: Item, b: Item, c: Item)
    ensures !Newer(a, a)
    ensures !(Newer(a, b) && Newer(b, a))
    ensures Newer(a, b) && Newer(b, c) ==> Newer(a, c)
    ensures a.name != b.name ==> Newer(a, b) || Newer(b, a)
  {
    StrLessTotal(a.name, a.name);
    StrLessTotal(a.name, b.name);
    if Newer(a, b) && Newer(b, c) && a.mtime == b.mtime == c.mtime {
      StrLessTrans(c.name, b.name, a.name);
    }
  }

  // ---------------------------------------------------------------- sorting

  ghost predicate Sorted(s: seq<Item>) {
    forall i, j :: 0 <= i < j < |s| ==> Newer(s[i], s[j])
  }

  ghost predicate DistinctNames(s: seq<Item>) {
    forall i, j :: 0 <= i < j < |s| ==> s[i].name != s[j].name
  }

  ghost predicate Distinct(s: seq<string>) {
    forall i, j :: 0 <= i < j < |s| ==> s[i] != s[j]
  }

  function Insert(x: Item, s: seq<Item>): seq<Item> {
    if s == [] then [x]
    else if Newer(x, s[0]) then [x] + s
    else [s[0]] + Insert(x, s[1..])
  }

  /** What sort.Slice computes here: by UniqueSort it does not matter how. */
  function Sort(s: seq<Item>): seq<Item> {
    if s == [] then [] else Insert(s[0], Sort(s[1..]))
  }

  lemma {:induction false} InsertSorts(x: Item, s: seq<Item>)
    requires Sorted(s) && forall y :: y in s ==> y.name != x.name
    ensures Sorted(Insert(x, s))
    ensures multiset(Insert(x, s)) == multiset{x} + multiset(s)
    ensures forall y :: y in Insert(x, s) <==> y == x || y in s
  {
    if s == [] {
    } else if Newer(x, s[0]) {
      forall j | 0 <= j < |s| ensures Newer(x, s[j]) {
        if j > 0 { NewerIsStrictTotal(x, s[0], s[j]); }
      }
    } else {
      var rest := s[1..];
      assert s == [s[0]] + rest;
      InsertSorts(x, rest);
      NewerIsStrictTotal(s[0], x, x);
      HeadOfSorted(s);
      SortedCons(s[0], Insert(x, rest));
    }
  }

  lemma HeadOfSorted(s: seq<Item>)
    requires s != [] && Sorted(s)
    ensures forall y :: y in s[1..] ==> Newer(s[0], y)
  {
    forall y | y in s[1..] ensures Newer(s[0], y) {
      var i :| 0 <= i < |s[1..]| && s[1..][i] == y;
      assert s[i + 1] == y;
    }
  }

  lemma SortedCons(x: Item, r: seq<Item>)
    requires Sorted(r) && forall y :: y in r ==> Newer(x, y)
    ensures Sorted([x] + r)
  {
    assert forall j :: 0 < j < |[x] + r| ==> ([x] + r)[j] == r[j - 1] && r[j - 1] in r;
  }

  lemma {:induction false} SortSorts(s: seq<Item>)
    requires DistinctNames(s)
    ensures Sorted(Sort(s)) && multiset(Sort(s)) == multiset(s)
  {
    if s != [] {
      var rest := s[1..];
      assert s == [s[0]] + rest;
      SortSorts(rest);
      forall y | y in Sort(rest) ensures y.name != s[0].name {
        assert y in multiset(rest);
        var i :| 0 <= i < |rest| && rest[i] == y;
        assert s[i + 1] == y;
      }
      InsertSorts(s[0], Sort(rest));
    }
  }

  /** Two sorted permutations of the same items are the same list. */
  lemma {:induction false} UniqueSort(a: seq<Item>, b: seq<Item>)
    requires Sorted(a) && Sorted(b) && multiset(a) == multiset(b)
    ensures a == b
  {
    assert |a| == |multiset(a)| == |multiset(b)| == |b|;
    if a != [] {
      SameHead(a, b);
      assert a == [a[0]] + a[1..] && b == [b[0]] + b[1..];
      assert multiset(a[1..]) == multiset(a) - multiset{a[0]};
      assert multiset(b[1..]) == multiset(b) - multiset{b[0]};
      UniqueSort(a[1..], b[1..]);
    }
  }

  lemma SameHead(a: seq<Item>, b: seq<Item>)
    requires a != [] && b != [] && Sorted(a) && Sorted(b) && multiset(a) == multiset(b)
    ensures a[0] == b[0]
  {
    assert a[0] in multiset(b) && b[0] in multiset(a);
    var j :| 0 <= j < |b| && b[j] == a[0];
    var i :| 0 <= i < |a| && a[i] == b[0];
    NewerIsStrictTotal(a[0], b[0], a[0]);
  }

  // ---------------------------------------------------------------- scanning

  predicate Listed(e: DirEntry) { e.isDir && PREFIX <= e.name && e.infoOk }

  function Items(entries: seq<DirEntry>): seq<Item> {
    if entries == [] then []
    else
      var e := entries[|entries| - 1];
      Items(entries[..|entries| - 1]) + (if Listed(e) then [Item(e.name, e.mtime)] else [])
  }

  function Names(items: seq<Item>): (names: seq<string>)
    ensures |names| == |items|
    ensures forall i :: 0 <= i < |items| ==> names[i] == items[i].name
  {
    seq(|items|, i requires 0 <= i < |items| => items[i].name)
  }

  /** The distributions under a root, newest first. */
  function Scan(entries: seq<DirEntry>): seq<string> { Names(Sort(Items(entries))) }

  /** A directory never lists a name twice. */
  ghost predicate Directory(entries: seq<DirEntry>) {
    forall i, j :: 0 <= i < j < |entries| ==> entries[i].name != entries[j].name
  }

  method ScanDistributions(entries: seq<DirEntry>) returns (out: seq<string>)
    ensures out == Scan(entries)
  {
    var items: seq<Item> := [];
    for k := 0 to |entries|
      invariant items == Items(entries[..k])
    {
      var e := entries[k];
      assert entries[..k + 1][..k] == entries[..k];
      if !e.isDir { continue; }
      if !(PREFIX <= e.name) { continue; }
      if !e.infoOk { continue; }
      items := items + [Item(e.name, e.mtime)];
    }
    assert entries[..|entries|] == entries;
    items := Sort(items);
    out := [];
    for k := 0 to |items|
      invariant out == Names(items[..k])
    {
      out := out + [items[k].name];
    }
    assert items[..|items|] == items;
  }

  ghost predicate Itemized(entries: seq<DirEntry>, x: Item) {
    exists i :: 0 <= i < |entries| && Listed(entries[i]) && x == Item(entries[i].name, entries[i].mtime)
  }

  lemma {:induction false} ItemsOf(entries: seq<DirEntry>)
    ensures forall x :: x in Items(entries) <==> Itemized(entries, x)
  {
    if entries != [] {
      var n := |entries| - 1;
      var front := entries[..n];
      ItemsOf(front);
      forall x ensures x in Items(entries) <==> Itemized(entries, x) {
        if x in Items(front) {
          var i :| 0 <= i < |front| && Listed(front[i]) && x == Item(front[i].name, front[i].mtime);
          assert entries[i] == front[i];
        }
        if i :| 0 <= i < |entries| && Listed(entries[i]) && x == Item(entries[i].name, entries[i].mtime) {
          if i < n { assert front[i] == entries[i]; }
        }
      }
    }
  }

  lemma {:induction false} ItemsDistinct(entries: seq<DirEntry>)
    requires Directory(entries)
    ensures DistinctNames(Items(entries))
  {
    if entries != [] {
      var n := |entries| - 1;
      var front := entries[..n];
      ItemsDistinct(front);
      ItemsOf(front);
      forall x | x in Items(front) ensures x.name != entries[n].name {
        var i :| 0 <= i < |front| && Listed(front[i]) && x == Item(front[i].name, front[i].mtime);
        assert front[i] == entries[i];
      }
      assert forall i :: 0 <= i < |Items(front)| ==> Items(front)[i] in Items(front);
    }
  }

  /** What the scan returns: the listed directories, in strictly descending order. */
  lemma ScanSorted(entries: seq<DirEntry>)
    requires Directory(entries)
    ensures Sorted(Sort(Items(entries))) && multiset(Sort(Items(entries))) == multiset(Items(entries))
    ensures Distinct(Scan(entries))
    ensures forall n :: n in Scan(entries) <==> exists e :: e in entries && Listed(e) && e.name == n
  {
    ItemsDistinct(entries);
    SortSorts(Items(entries));
    SortedAreDistinct(Items(entries), Sort(Items(entries)));
    forall n ensures n in Scan(entries) <==> exists e :: e in entries && Listed(e) && e.name == n {
      ScanHas(entries, n);
    }
  }

  /** In terms of the entries: the scan has the directories named distribution-... that can be examined,
      and of two of them first the one modified later, or with the greater name if at the same time. */
  lemma ScanIsNewestFirst(entries: seq<DirEntry>, a: DirEntry, b: DirEntry)
    requires Directory(entries) && a in entries && b in entries
    ensures a.name in Scan(entries) <==> a.isDir && "distribution-" <= a.name && a.infoOk
    ensures forall i, j :: 0 <= i < j < |Scan(entries)| && Scan(entries)[i] == a.name && Scan(entries)[j] == b.name ==>
              a.mtime > b.mtime || (a.mtime == b.mtime && StrLess(b.name, a.name))
  {
    ScanSorted(entries);
    assert forall e :: e in entries && e.name == a.name ==> e == a;
    var s := Sort(Items(entries));
    forall i, j | 0 <= i < j < |s| && s[i].name == a.name && s[j].name == b.name
      ensures a.mtime > b.mtime || (a.mtime == b.mtime && StrLess(b.name, a.name))
    {
      ItemOf(entries, a, s[i]);
      ItemOf(entries, b, s[j]);
    }
  }

  lemma ItemOf(entries: seq<DirEntry>, e: DirEntry, x: Item)
    requires Directory(entries) && e in entries && x in multiset(Items(entries)) && x.name == e.name
    ensures x.mtime == e.mtime
  {
    ItemsOf(entries);
    assert x in Items(entries);
  }

  lemma SortedAreDistinct(items: seq<Item>, s: seq<Item>)
    requires DistinctNames(items) && Sorted(s) && multiset(s) == multiset(items)
    ensures Distinct(Names(s))
  {
    forall i, j | 0 <= i < j < |s| ensures s[i].name != s[j].name {
      assert s[i] in multiset(s) && s[j] in multiset(s);
      assert s[i] in items && s[j] in items;
      NewerIsStrictTotal(s[i], s[j], s[i]);
    }
  }

  lemma ScanHas(entries: seq<DirEntry>, n: string)
    requires multiset(Sort(Items(entries))) == multiset(Items(entries))
    ensures n in Scan(entries) <==> exists e :: e in entries && Listed(e) && e.name == n
  {
    ItemsOf(entries);
    var s := Sort(Items(entries));
    if n in Scan(entries) {
      var i :| 0 <= i < |s| && s[i].name == n;
      assert s[i] in multiset(s);
      assert s[i] in Items(entries);
      var k :| 0 <= k < |entries| && Listed(entries[k]) && s[i] == Item(entries[k].name, entries[k].mtime);
      assert entries[k] in entries;
    }
    if e :| e in entries && Listed(e) && e.name == n {
      var x := Item(e.name, e.mtime);
      assert x in Items(entries);
      assert x in multiset(s);
      var i :| 0 <= i < |s| && s[i] == x;
      assert Scan(entries)[i] == n;
    }
  }

  lemma {:induction false} ItemsConcat(a: seq<DirEntry>, b: seq<DirEntry>)
    ensures Items(a + b) == Items(a) + Items(b)
  {
    if b == [] {
      assert a + b == a;
    } else {
      assert (a + b)[..|a + b| - 1] == a + b[..|b| - 1];
      ItemsConcat(a, b[..|b| - 1]);
    }
  }

  /** Permuting the entries permutes the items. */
  lemma {:induction false} ItemsPermute(a: seq<DirEntry>, b: seq<DirEntry>)
    requires multiset(a) == multiset(b)
    ensures multiset(Items(a)) == multiset(Items(b))
  {
    assert |a| == |multiset(a)| == |multiset(b)| == |b|;
    if a != [] {
      var n := |a| - 1;
      var front, e := a[..n], a[n];
      assert a == front + [e] + [];
      Middle(front, [e], []);
      assert e in multiset(b);
      var i :| 0 <= i < |b| && b[i] == e;
      var left, right := b[..i], b[i + 1..];
      assert b == left + [e] + right;
      Middle(left, [e], right);
      assert front + [] == front;
      Cancel(multiset(front), multiset(left + right), multiset([e]));
      ItemsPermute(front, left + right);
      TakeOut(left, e, right);
      TakeOut(front, e, []);
    }
  }

  lemma Middle<T>(left: seq<T>, mid: seq<T>, right: seq<T>)
    ensures multiset(left + mid + right) == multiset(left + right) + multiset(mid)
  {
    assert multiset(left + mid + right) == multiset(left) + multiset(mid) + multiset(right);
    assert multiset(left + right) == multiset(left) + multiset(right);
  }

  lemma Cancel<T>(a: multiset<T>, b: multiset<T>, c: multiset<T>)
    requires a + c == b + c
    ensures a == b
  {
    assert a == (a + c) - c;
    assert b == (b + c) - c;
  }

  /** Taking one entry out takes its item out. */
  lemma TakeOut(left: seq<DirEntry>, e: DirEntry, right: seq<DirEntry>)
    ensures multiset(Items(left + [e] + right)) == multiset(Items(left + right)) + multiset(Items([e]))
  {
    ItemsConcat(left, right);
    ItemsConcat(left + [e], right);
    ItemsConcat(left, [e]);
    Middle(Items(left), Items([e]), Items(right));
  }

  /** The order in which the file system lists the directory does not matter. */
  lemma ScanIgnoresDirectoryOrder(a: seq<DirEntry>, b: seq<DirEntry>)
    requires Directory(a) && Directory(b) && multiset(a) == multiset(b)
    ensures Scan(a) == Scan(b)
  {
    ItemsDistinct(a);
    ItemsDistinct(b);
    SortSorts(Items(a));
    SortSorts(Items(b));
    ItemsPermute(a, b);
    UniqueSort(Sort(Items(a)), Sort(Items(b)));
  }
}
