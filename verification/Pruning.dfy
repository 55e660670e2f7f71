/** Which distributions a prune may delete, and in which order (client/internal/listing). */
module Pruning {
  import opened Home
  import opened Listing

  function SetOf(s: seq<string>): set<string> { set x | x in s }

  function Without(dists: seq<string>, keep: set<string>): seq<string> {
    if dists == [] then []
    else (if dists[0] in keep then [] else [dists[0]]) + Without(dists[1..], keep)
  }

  function Reverse(s: seq<string>): (r: seq<string>)
    ensures |r| == |s|
    ensures forall i :: 0 <= i < |s| ==> r[i] == s[|s| - 1 - i]
  {
    seq(|s|, i requires 0 <= i < |s| => s[|s| - 1 - i])
  }

  /** The two directories that are never candidates. */
  function Pinned(current: string, previous: string): set<string> {
    (if current != "" then {DistName(current)} else {}) + (if previous != "" then {DistName(previous)} else {})
  }

  /** How many of n other directories an archive depth keeps. */
  function KeptExtras(n: nat, depth: int): (k: nat)
    ensures k <= n
  {
    if depth <= 0 then 0 else if depth < n then depth else n
  }

  /** Everything past the newest `depth` unpinned directories, oldest first. */
  function Candidates(dists: seq<string>, pinned: set<string>, depth: int): seq<string> {
    var others := Without(dists, pinned);
    Reverse(others[KeptExtras(|others|, depth)..])
  }

  lemma {:induction false} WithoutAppend(a: seq<string>, b: seq<string>, keep: set<string>)
    ensures Without(a + b, keep) == Without(a, keep) + Without(b, keep)
  {
    if a == [] {
      assert a + b == b;
    } else {
      assert (a + b)[1..] == a[1..] + b;
      WithoutAppend(a[1..], b, keep);
    }
  }

  lemma {:induction false} WithoutHas(dists: seq<string>, keep: set<string>)
    ensures forall x :: x in Without(dists, keep) <==> x in dists && x !in keep
    ensures Distinct(dists) ==> Distinct(Without(dists, keep))
  {
    if dists != [] {
      WithoutHas(dists[1..], keep);
      assert dists == [dists[0]] + dists[1..];
      if Distinct(dists) && dists[0] !in keep {
        var rest := Without(dists[1..], keep);
        assert Without(dists, keep) == [dists[0]] + rest;
        assert forall j :: 0 <= j < |rest| ==> rest[j] in rest;
      }
    }
  }

  /** Removing names that do not occur changes nothing. */
  lemma {:induction false} WithoutIrrelevant(dists: seq<string>, keep: set<string>, more: set<string>)
    requires forall x :: x in dists ==> (x in keep <==> x in more)
    ensures Without(dists, keep) == Without(dists, more)
  {
    if dists != [] {
      WithoutIrrelevant(dists[1..], keep, more);
    }
  }

  /** Also keeping the first k of what is left drops exactly those k. */
  lemma {:induction false} WithoutMore(dists: seq<string>, keep: set<string>, k: nat)
    requires Distinct(dists) && k <= |Without(dists, keep)|
    ensures Without(dists, keep + SetOf(Without(dists, keep)[..k])) == Without(dists, keep)[k..]
  {
    var w := Without(dists, keep);
    if dists == [] || k == 0 {
      assert keep + SetOf(w[..k]) == keep;
    } else {
      var rest := Without(dists[1..], keep);
      if dists[0] in keep {
        assert w == rest;
        WithoutMore(dists[1..], keep, k);
      } else {
        assert w == [dists[0]] + rest;
        WithoutMore(dists[1..], keep, k - 1);
        KeepHead(dists[0], dists[1..], keep, rest, k);
        assert [dists[0]] + dists[1..] == dists;
      }
    }
  }

  lemma KeepHead(d: string, tail: seq<string>, keep: set<string>, rest: seq<string>, k: nat)
    requires d !in keep && d !in tail && 0 < k <= |rest| + 1
    requires Without(tail, keep + SetOf(rest[..k - 1])) == rest[k - 1..]
    ensures Without([d] + tail, keep + SetOf(([d] + rest)[..k])) == ([d] + rest)[k..]
  {
    var w := [d] + rest;
    assert w[..k] == [d] + rest[..k - 1];
    assert SetOf(w[..k]) == {d} + SetOf(rest[..k - 1]);
    WithoutIrrelevant(tail, keep + SetOf(rest[..k - 1]), keep + SetOf(w[..k]));
    assert ([d] + tail)[1..] == tail;
    assert w[k..] == rest[k - 1..];
  }

  /** `read` is false when state.json cannot be loaded. */
  method PruneCandidates(read: bool, current: string, previous: string, entries: seq<DirEntry>, depth: int)
    returns (ok: bool, candidates: seq<string>)
    requires Directory(entries)
    ensures ok == read
    ensures candidates == if read then Candidates(Scan(entries), Pinned(current, previous), depth) else []
  {
    ok, candidates := read, [];
    if !read { return; }
    var dists := ScanDistributions(entries);
    ScanSorted(entries);
    var keep: set<string> := {};
    if current != "" { keep := keep + {DistName(current)}; }
    if previous != "" { keep := keep + {DistName(previous)}; }
    assert keep == Pinned(current, previous);
    keep := KeepRecent(dists, keep, depth);
    candidates := OldestFirst(dists, keep);
    WithoutMore(dists, Pinned(current, previous), KeptExtras(|Without(dists, Pinned(current, previous))|, depth));
  }

  /** The first walk: the most recent `depth` names that are not kept already. */
  method KeepRecent(dists: seq<string>, pinned: set<string>, depth: int) returns (keep: set<string>)
    requires Distinct(dists)
    ensures var others := Without(dists, pinned);
            keep == pinned + SetOf(others[..KeptExtras(|others|, depth)])
  {
    keep := pinned;
    ghost var others := Without(dists, pinned);
    var added: int := 0;
    var i := 0;
    while i < |dists|
      invariant 0 <= i <= |dists| && 0 <= added <= |others| && (added == 0 || added <= depth)
      invariant others[added..] == Without(dists[i..], pinned)
      invariant keep == pinned + SetOf(others[..added])
    {
      if added >= depth { break; }
      var d := dists[i];
      NextOther(dists, pinned, i, added);
      i := i + 1;
      if d in keep { continue; }
      keep := keep + {d};
      added := added + 1;
    }
  }

  /** The second walk, from the oldest end. */
  method OldestFirst(dists: seq<string>, keep: set<string>) returns (candidates: seq<string>)
    ensures candidates == Reverse(Without(dists, keep))
  {
    candidates := [];
    var i := |dists| - 1;
    while i >= 0
      invariant -1 <= i < |dists|
      invariant candidates == Reverse(Without(dists[i + 1..], keep))
    {
      assert dists[i..][1..] == dists[i + 1..];
      ghost var rest := Without(dists[i + 1..], keep);
      if dists[i] !in keep {
        candidates := candidates + [dists[i]];
        assert Without(dists[i..], keep) == [dists[i]] + rest;
      } else {
        assert Without(dists[i..], keep) == rest;
      }
      i := i - 1;
    }
    assert dists[0..] == dists;
  }

  /** One step of the walk over the most recent directories. */
  lemma NextOther(dists: seq<string>, pinned: set<string>, i: nat, added: nat)
    requires Distinct(dists) && i < |dists| && added <= |Without(dists, pinned)|
    requires Without(dists, pinned)[added..] == Without(dists[i..], pinned)
    ensures var others, d := Without(dists, pinned), dists[i];
            if d in pinned then others[added..] == Without(dists[i + 1..], pinned)
            else
              && added < |others| && others[added] == d
              && d !in SetOf(others[..added])
              && others[added + 1..] == Without(dists[i + 1..], pinned)
              && SetOf(others[..added + 1]) == SetOf(others[..added]) + {d}
  {
    var others, d := Without(dists, pinned), dists[i];
    var rest := Without(dists[i + 1..], pinned);
    assert dists[i..][1..] == dists[i + 1..];
    if d !in pinned {
      assert others[added..] == [d] + rest;
      assert others[added + 1..] == others[added..][1..] == rest;
      assert others[added] == others[added..][0] == d;
      WithoutHas(dists, pinned);
      assert others[..added + 1] == others[..added] + [d];
    } else {
      assert others[added..] == [] + rest;
    }
  }

  /** The selection is exact: names split into pinned, kept extras and candidates; the count is
      what the depth leaves over. */
  lemma PruneIsExact(entries: seq<DirEntry>, current: string, previous: string, depth: int)
    requires Directory(entries)
    ensures var dists := Scan(entries);
            var pinned := Pinned(current, previous);
            var others := Without(dists, pinned);
            var k := KeptExtras(|others|, depth);
            var c := Candidates(dists, pinned, depth);
            && (forall x :: x in dists <==> x in c || x in others[..k] || (x in dists && x in pinned))
            && (forall x :: x in c ==> x !in others[..k] && x !in pinned)
            && (current != "" ==> DistName(current) !in c) && (previous != "" ==> DistName(previous) !in c)
            && Distinct(c)
            && |c| == (if |others| > (if depth > 0 then depth else 0) then |others| - (if depth > 0 then depth else 0) else 0)
  {
    ScanSorted(entries);
    SelectionSplits(Scan(entries), Pinned(current, previous), depth);
  }

  lemma SelectionSplits(dists: seq<string>, pinned: set<string>, depth: int)
    requires Distinct(dists)
    ensures var others := Without(dists, pinned);
            var k := KeptExtras(|others|, depth);
            var c := Candidates(dists, pinned, depth);
            && (forall x :: x in dists <==> x in c || x in others[..k] || (x in dists && x in pinned))
            && (forall x :: x in c ==> x !in others[..k] && x !in pinned)
            && Distinct(c) && |c| == |others| - k
  {
    var others := Without(dists, pinned);
    var k := KeptExtras(|others|, depth);
    WithoutHas(dists, pinned);
    assert others == others[..k] + others[k..];
    ReverseHas(others[k..]);
  }

  /** A directory that is not pinned is a candidate exactly if its rank among such directories, newest
      first, is not below the depth. */
  lemma RankDecides(entries: seq<DirEntry>, pinned: set<string>, depth: int, r: nat)
    requires Directory(entries) && r < |Without(Scan(entries), pinned)|
    ensures Without(Scan(entries), pinned)[r] in Candidates(Scan(entries), pinned, depth) <==> depth <= r
  {
    var others := Without(Scan(entries), pinned);
    var k := KeptExtras(|others|, depth);
    ScanSorted(entries);
    WithoutHas(Scan(entries), pinned);
    ReverseHas(others[k..]);
    if k <= r {
      assert others[k..][r - k] == others[r];
    } else {
      assert forall i :: 0 <= i < |others[k..]| ==> others[k..][i] == others[k + i] != others[r];
    }
  }

  lemma ReverseHas(s: seq<string>)
    ensures forall x :: x in Reverse(s) <==> x in s
    ensures Distinct(s) ==> Distinct(Reverse(s))
  {
    forall x | x in s ensures x in Reverse(s) {
      var i :| 0 <= i < |s| && s[i] == x;
      assert Reverse(s)[|s| - 1 - i] == x;
    }
  }

  function ItemsWithout(items: seq<Item>, gone: set<string>): seq<Item> {
    if items == [] then []
    else (if items[0].name in gone then [] else [items[0]]) + ItemsWithout(items[1..], gone)
  }

  /** Filtering keeps the order. */
  lemma {:induction false} SubsequenceKeepsOrder(items: seq<Item>, gone: set<string>)
    requires Sorted(items)
    ensures Sorted(ItemsWithout(items, gone))
    ensures forall x :: x in ItemsWithout(items, gone) ==> x in items
  {
    if items != [] {
      var rest := ItemsWithout(items[1..], gone);
      SubsequenceKeepsOrder(items[1..], gone);
      forall j | 0 <= j < |rest| ensures Newer(items[0], rest[j]) {
        assert rest[j] in items[1..];
      }
    }
  }

  lemma {:induction false} NamesWithout(items: seq<Item>, gone: set<string>)
    ensures Names(ItemsWithout(items, gone)) == Without(Names(items), gone)
  {
    if items != [] {
      NamesWithout(items[1..], gone);
      assert Names(items)[1..] == Names(items[1..]);
      assert Names([items[0]] + ItemsWithout(items[1..], gone)) == [items[0].name] + Names(ItemsWithout(items[1..], gone));
    }
  }

  lemma {:induction false} ItemsWithoutCounts(items: seq<Item>, gone: set<string>)
    ensures forall x :: multiset(ItemsWithout(items, gone))[x] == if x.name in gone then 0 else multiset(items)[x]
  {
    if items != [] {
      ItemsWithoutCounts(items[1..], gone);
      assert items == [items[0]] + items[1..];
    }
  }

  function EntriesWithout(entries: seq<DirEntry>, gone: set<string>): seq<DirEntry> {
    if entries == [] then []
    else
      var e := entries[|entries| - 1];
      EntriesWithout(entries[..|entries| - 1], gone) + (if e.name in gone then [] else [e])
  }

  lemma {:induction false} EntriesWithoutIs(entries: seq<DirEntry>, gone: set<string>)
    requires Directory(entries)
    ensures Directory(EntriesWithout(entries, gone))
    ensures forall e :: e in EntriesWithout(entries, gone) ==> e in entries
  {
    if entries != [] {
      var n := |entries| - 1;
      EntriesWithoutIs(entries[..n], gone);
      var front := EntriesWithout(entries[..n], gone);
      forall i | 0 <= i < |front| ensures front[i].name != entries[n].name {
        assert front[i] in entries[..n];
      }
    }
  }

  lemma {:induction false} ItemsOfEntriesWithout(entries: seq<DirEntry>, gone: set<string>, x: Item)
    ensures multiset(Items(EntriesWithout(entries, gone)))[x] == if x.name in gone then 0 else multiset(Items(entries))[x]
  {
    if entries != [] {
      var n := |entries| - 1;
      ItemsOfEntriesWithout(entries[..n], gone, x);
      var front := EntriesWithout(entries[..n], gone);
      if entries[n].name !in gone {
        assert EntriesWithout(entries, gone)[..|front|] == front;
      } else {
        assert EntriesWithout(entries, gone) == front;
      }
    }
  }

  /** Deleting directories and scanning again is the old scan without them. */
  lemma ScanAfterDeletion(entries: seq<DirEntry>, gone: set<string>)
    requires Directory(entries)
    ensures Directory(EntriesWithout(entries, gone))
    ensures Scan(EntriesWithout(entries, gone)) == Without(Scan(entries), gone)
  {
    EntriesWithoutIs(entries, gone);
    ScanSorted(entries);
    ScanSorted(EntriesWithout(entries, gone));
    var s := Sort(Items(entries));
    SubsequenceKeepsOrder(s, gone);
    NamesWithout(s, gone);
    var a, b := ItemsWithout(s, gone), Sort(Items(EntriesWithout(entries, gone)));
    forall x: Item ensures multiset(a)[x] == multiset(b)[x] {
      ItemsWithoutCounts(s, gone);
      ItemsOfEntriesWithout(entries, gone, x);
    }
    assert multiset(a) == multiset(b);
    UniqueSort(a, b);
  }

  /** Stopping early is safe: after deleting the first m candidates, the candidates are
      exactly the remaining ones, in the same order. */
  lemma PruneCanResume(entries: seq<DirEntry>, pinned: set<string>, depth: int, m: nat)
    requires Directory(entries)
    requires m <= |Candidates(Scan(entries), pinned, depth)|
    ensures var c := Candidates(Scan(entries), pinned, depth);
            Candidates(Scan(EntriesWithout(entries, SetOf(c[..m]))), pinned, depth) == c[m..]
  {
    var dists := Scan(entries);
    ScanSorted(entries);
    ScanAfterDeletion(entries, SetOf(Candidates(dists, pinned, depth)[..m]));
    DropFirstCandidates(dists, pinned, depth, m);
  }

  lemma DropFirstCandidates(dists: seq<string>, pinned: set<string>, depth: int, m: nat)
    requires Distinct(dists) && m <= |Candidates(dists, pinned, depth)|
    ensures var c := Candidates(dists, pinned, depth);
            Candidates(Without(dists, SetOf(c[..m])), pinned, depth) == c[m..]
  {
    var others := Without(dists, pinned);
    var k := KeptExtras(|others|, depth);
    var c := Candidates(dists, pinned, depth);
    var cut := |others| - m;
    WithoutHas(dists, pinned);
    FirstCandidates(others, k, m);
    WithoutSwap(dists, SetOf(others[cut..]), pinned);
    WithoutTail(others, cut);
    assert Candidates(Without(dists, SetOf(c[..m])), pinned, depth) == Reverse(others[..cut][k..]);
  }

  /** Oldest first: the first m candidates are the last m of the list. */
  lemma FirstCandidates(others: seq<string>, k: nat, m: nat)
    requires k + m <= |others|
    ensures var c, cut := Reverse(others[k..]), |others| - m;
            SetOf(c[..m]) == SetOf(others[cut..]) && c[m..] == Reverse(others[..cut][k..])
  {
    var c, cut := Reverse(others[k..]), |others| - m;
    assert c[..m] == Reverse(others[cut..]);
    ReverseHas(others[cut..]);
    assert others[..cut][k..] == others[k..cut];
  }

  lemma {:induction false} WithoutSwap(dists: seq<string>, a: set<string>, b: set<string>)
    ensures Without(Without(dists, a), b) == Without(Without(dists, b), a)
  {
    if dists != [] {
      var d, rest := dists[0], dists[1..];
      WithoutSwap(rest, a, b);
      WithoutAppend(if d in a then [] else [d], Without(rest, a), b);
      WithoutAppend(if d in b then [] else [d], Without(rest, b), a);
      assert Without([d], a) == if d in a then [] else [d];
      assert Without([d], b) == if d in b then [] else [d];
    }
  }

  lemma WithoutTail(s: seq<string>, cut: nat)
    requires Distinct(s) && cut <= |s|
    ensures Without(s, SetOf(s[cut..])) == s[..cut]
  {
    var gone := SetOf(s[cut..]);
    assert s == s[..cut] + s[cut..];
    WithoutAppend(s[..cut], s[cut..], gone);
    WithoutIrrelevant(s[..cut], gone, {});
    WithoutNothing(s[..cut]);
    WithoutAll(s[cut..], gone);
  }

  lemma {:induction false} WithoutNothing(s: seq<string>)
    ensures Without(s, {}) == s
  {
    if s != [] { WithoutNothing(s[1..]); }
  }

  lemma {:induction false} WithoutAll(s: seq<string>, gone: set<string>)
    requires forall x :: x in s ==> x in gone
    ensures Without(s, gone) == []
  {
    if s != [] { WithoutAll(s[1..], gone); }
  }

  /** Oldest first: a later candidate is strictly newer than an earlier one, and every kept
      extra is strictly newer than every candidate. */
  lemma CandidatesOldestFirst(entries: seq<DirEntry>, pinned: set<string>, depth: int, x: Item, y: Item)
    requires Directory(entries) && x in Items(entries) && y in Items(entries)
    ensures var others := Without(Scan(entries), pinned);
            var k := KeptExtras(|others|, depth);
            var c := Candidates(Scan(entries), pinned, depth);
            && (forall i, j :: 0 <= i < j < |c| && c[i] == x.name && c[j] == y.name ==> Newer(y, x))
            && (x.name in c && y.name in others[..k] ==> Newer(y, x))
  {
    var others := Without(Scan(entries), pinned);
    var k := KeptExtras(|others|, depth);
    var c := Candidates(Scan(entries), pinned, depth);
    forall i, j | 0 <= i < j < |c| && c[i] == x.name && c[j] == y.name ensures Newer(y, x) {
      assert c[i] == others[|others| - 1 - i] && c[j] == others[|others| - 1 - j];
      EarlierIsNewer(entries, pinned, |others| - 1 - j, |others| - 1 - i, y, x);
    }
    if x.name in c && y.name in others[..k] {
      var i :| 0 <= i < |c| && c[i] == x.name;
      var j :| 0 <= j < k && others[j] == y.name;
      EarlierIsNewer(entries, pinned, j, |others| - 1 - i, y, x);
    }
  }

  lemma EarlierIsNewer(entries: seq<DirEntry>, pinned: set<string>, i: nat, j: nat, x: Item, y: Item)
    requires Directory(entries) && x in Items(entries) && y in Items(entries)
    requires i < j < |Without(Scan(entries), pinned)|
    requires Without(Scan(entries), pinned)[i] == x.name && Without(Scan(entries), pinned)[j] == y.name
    ensures Newer(x, y)
  {
    var s := Sort(Items(entries));
    ScanSorted(entries);
    SubsequenceKeepsOrder(s, pinned);
    NamesWithout(s, pinned);
    var kept := ItemsWithout(s, pinned);
    NamedItem(entries, s, kept[i], x);
    NamedItem(entries, s, kept[j], y);
  }

  lemma NamedItem(entries: seq<DirEntry>, s: seq<Item>, a: Item, b: Item)
    requires Directory(entries) && multiset(s) == multiset(Items(entries))
    requires a in s && b in Items(entries) && a.name == b.name
    ensures a == b
  {
    ItemsDistinct(entries);
    assert a in multiset(s);
  }

  // ---------------------------------------------------------------- the selection in terms of the directory

  /** Listed, and neither the current nor the previous distribution. */
  function Unpinned(entries: seq<DirEntry>, current: string, previous: string): set<string> {
    set n | n in Scan(entries) && (current == "" || n != "distribution-" + current) && (previous == "" || n != "distribution-" + previous)
  }

  /** y was modified after x, or has the greater name if at the same time. */
  predicate Later(x: DirEntry, y: DirEntry) { y.mtime > x.mtime || (y.mtime == x.mtime && StrLess(x.name, y.name)) }

  /** The selection is all but the newest `depth` of the unpinned directories, oldest first. This fixes
      it completely. */
  lemma PruneSelectsOldest(entries: seq<DirEntry>, current: string, previous: string, depth: int)
    requires Directory(entries)
    ensures var c, unpinned := Candidates(Scan(entries), Pinned(current, previous), depth), Unpinned(entries, current, previous);
            && SetOf(c) <= unpinned && Distinct(c)
            && |c| == (if depth <= 0 then |unpinned| else if depth < |unpinned| then |unpinned| - depth else 0)
            && (forall x, y :: x in entries && y in entries && x.name in c && y.name in unpinned && y.name !in c ==> Later(x, y))
            && (forall i, j, x, y :: 0 <= i < j < |c| && x in entries && y in entries && x.name == c[i] && y.name == c[j] ==> Later(x, y))
  {
    CandidatesCount(entries, current, previous, depth);
    forall x, y | x in entries && y in entries ensures OrderedAs(entries, current, previous, depth, x, y) {
      EntriesInOrder(entries, current, previous, depth, x, y);
    }
  }

  lemma CandidatesCount(entries: seq<DirEntry>, current: string, previous: string, depth: int)
    requires Directory(entries)
    ensures var c, unpinned := Candidates(Scan(entries), Pinned(current, previous), depth), Unpinned(entries, current, previous);
            && SetOf(c) <= unpinned && Distinct(c)
            && |c| == (if depth <= 0 then |unpinned| else if depth < |unpinned| then |unpinned| - depth else 0)
  {
    PruneIsExact(entries, current, previous, depth);
    UnpinnedAreOthers(entries, current, previous);
    ReverseHas(Without(Scan(entries), Pinned(current, previous)));
  }

  lemma UnpinnedAreOthers(entries: seq<DirEntry>, current: string, previous: string)
    requires Directory(entries)
    ensures var others, unpinned := Without(Scan(entries), Pinned(current, previous)), Unpinned(entries, current, previous);
            (forall x :: x in others <==> x in unpinned) && |others| == |unpinned|
  {
    var others := Without(Scan(entries), Pinned(current, previous));
    ScanSorted(entries);
    WithoutHas(Scan(entries), Pinned(current, previous));
    forall x ensures x in others <==> x in Unpinned(entries, current, previous) { PinnedIs(current, previous, x); }
    assert SetOf(others) == Unpinned(entries, current, previous);
    SizeOfSet(others);
  }

  lemma PinnedIs(current: string, previous: string, n: string)
    ensures n in Pinned(current, previous) <==>
              (current != "" && n == "distribution-" + current) || (previous != "" && n == "distribution-" + previous)
  {
  }

  ghost predicate OrderedAs(entries: seq<DirEntry>, current: string, previous: string, depth: int, x: DirEntry, y: DirEntry) {
    var c := Candidates(Scan(entries), Pinned(current, previous), depth);
    && (x.name in c && y.name in Unpinned(entries, current, previous) && y.name !in c ==> Later(x, y))
    && (forall i, j :: 0 <= i < j < |c| && x.name == c[i] && y.name == c[j] ==> Later(x, y))
  }

  lemma EntriesInOrder(entries: seq<DirEntry>, current: string, previous: string, depth: int, x: DirEntry, y: DirEntry)
    requires Directory(entries) && x in entries && y in entries
    ensures OrderedAs(entries, current, previous, depth, x, y)
  {
    var c := Candidates(Scan(entries), Pinned(current, previous), depth);
    if x.name in c && y.name in Scan(entries) {
      var a, b := Item(x.name, x.mtime), Item(y.name, y.mtime);
      PruneIsExact(entries, current, previous, depth);
      ScanIsNewestFirst(entries, x, y);
      ScanIsNewestFirst(entries, y, x);
      ItemsOf(entries);
      assert Itemized(entries, a) && Itemized(entries, b);
      CandidatesOldestFirst(entries, Pinned(current, previous), depth, a, b);
    }
    PruneIsExact(entries, current, previous, depth);
  }

  lemma {:induction false} SizeOfSet(s: seq<string>)
    requires Distinct(s)
    ensures |SetOf(s)| == |s|
  {
    if s != [] {
      SizeOfSet(s[1..]);
      assert SetOf(s) == {s[0]} + SetOf(s[1..]);
    }
  }
}
