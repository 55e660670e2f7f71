/** `ota-agent prune`: delete the candidates one by one (client/agent/main.go and
    DeleteDistribution of client/internal/listing). */
module PruneCommand {
  import opened Hashing
  import opened Listing
  import opened Pruning
  import opened Home
  import opened Machines
  import opened Installer

  /** What `done` deletions, oldest first, leave behind; the next one may be half finished. */
  ghost predicate PruneLeaves(before: Disk, after: Disk, entries: seq<DirEntry>, depth: int, done: nat) {
    var c := Candidates(Scan(entries), Pinned(before.saved.current, before.saved.previous), depth);
    && after == before.(dists := after.dists)
    && DistsLeft(before, after, SetOf(c))
    && done <= |c|
    && (forall i :: 0 <= i < done ==> c[i] !in after.dists)
    && (forall i :: done < i < |c| ==> Get(after.dists, c[i]) == Get(before.dists, c[i]))
  }

  method DeleteDistribution(m: Machine, name: string) returns (ok: bool)
    modifies m
    ensures m.Later()
    ensures OnlyDist(old(m.disk), m.disk, name)
    ensures !(PREFIX <= name) ==> !ok && m.disk == old(m.disk)
    ensures ok ==> name !in m.disk.dists
    ensures m.Calm() && PREFIX <= name ==> ok
  {
    if !(PREFIX <= name) { return false; }
    ok := m.RemoveTree(name);
  }

  method Prune(m: Machine, read: bool, entries: seq<DirEntry>, depth: int) returns (ok: bool, done: nat)
    requires Directory(entries)
    modifies m
    ensures m.Later()
    ensures PruneLeaves(old(m.disk), m.disk, entries, depth, done)
    ensures ok <==> read && depth >= 0 &&
                    done == |Candidates(Scan(entries), Pinned(old(m.disk.saved.current), old(m.disk.saved.previous)), depth)|
    ensures !read || depth < 0 ==> m.disk == old(m.disk) && done == 0
    ensures m.Calm() && read && depth >= 0 ==> ok
  {
    done := 0;
    if depth < 0 { return false, 0; }
    var st := m.disk.saved;
    var c: seq<string>;
    ok, c := PruneCandidates(read, st.current, st.previous, entries, depth);
    if !ok { return; }
    PruneIsExact(entries, st.current, st.previous, depth);
    ScanSorted(entries);
    ok, done := DeleteAll(m, c);
  }

  method DeleteAll(m: Machine, c: seq<string>) returns (ok: bool, done: nat)
    requires Distinct(c) && forall n :: n in c ==> PREFIX <= n
    modifies m
    ensures m.Later()
    ensures m.disk == old(m.disk).(dists := m.disk.dists)
    ensures DistsLeft(old(m.disk), m.disk, SetOf(c))
    ensures done <= |c| && (ok <==> done == |c|)
    ensures forall i :: 0 <= i < done ==> c[i] !in m.disk.dists
    ensures forall i :: done < i < |c| ==> Get(m.disk.dists, c[i]) == Get(old(m.disk).dists, c[i])
    ensures m.Calm() ==> ok
  {
    done := 0;
    while done < |c|
      invariant 0 <= done <= |c|
      invariant m.Later() && m.disk == old(m.disk).(dists := m.disk.dists)
      invariant forall n :: n !in c[..done] ==> Get(m.disk.dists, n) == Get(old(m.disk).dists, n)
      invariant forall i :: 0 <= i < done ==> c[i] !in m.disk.dists
    {
      ghost var before := m.disk;
      assert c[done] in c;
      ok := DeleteDistribution(m, c[done]);
      assert forall i :: 0 <= i < done ==> c[i] != c[done] && Get(m.disk.dists, c[i]) == Get(before.dists, c[i]);
      assert c[..done + 1] == c[..done] + [c[done]];
      if !ok {
        return false, done;
      }
      done := done + 1;
    }
    ok := true;
  }

  // ---------------------------------------------------------------- on the disk

  /** The directory lists exactly the distributions on disk, and can examine them all. */
  ghost predicate Mirrors(entries: seq<DirEntry>, d: Disk) {
    && Directory(entries)
    && (forall n :: n in d.dists <==> exists e :: e in entries && e.isDir && "distribution-" <= e.name && e.name == n)
    && (forall e :: e in entries ==> e.infoOk)
  }

  function Spare(d: Disk): set<string> {
    var st := d.saved;
    set n | n in d.dists && (st.current == "" || n != DistName(st.current)) && (st.previous == "" || n != DistName(st.previous))
  }

  /** What a complete prune leaves on a disk: the current and the previous distribution as they were,
      and of the others, as they were, the `depth` newest or all if there are fewer. */
  lemma CompletePruneLeaves(before: Disk, after: Disk, entries: seq<DirEntry>, depth: int, done: nat)
    requires Mirrors(entries, before) && PruneLeaves(before, after, entries, depth, done)
    requires done == |Candidates(Scan(entries), Pinned(before.saved.current, before.saved.previous), depth)|
    ensures forall n :: n in after.dists ==> Get(before.dists, n) == Some(after.dists[n])
    ensures before.dists.Keys - after.dists.Keys <= Spare(before)
    ensures |Spare(after)| == if depth <= 0 then 0 else if depth < |Spare(before)| then depth else |Spare(before)|
    ensures forall x, y :: x in entries && y in entries && x.name in Spare(before) - Spare(after) && y.name in Spare(after) ==> Later(x, y)
  {
    var cur, prev := before.saved.current, before.saved.previous;
    var c := Candidates(Scan(entries), Pinned(cur, prev), depth);
    ScanHasDisk(entries, before);
    assert Unpinned(entries, cur, prev) == Spare(before);
    CandidatesCount(entries, cur, prev, depth);
    CandidatesGo(before, after, c);
    SizeOfSet(c);
    forall x, y | x in entries && y in entries && x.name in Spare(before) - Spare(after) && y.name in Spare(after) ensures Later(x, y) {
      EntriesInOrder(entries, cur, prev, depth, x, y);
    }
  }

  lemma CandidatesGo(before: Disk, after: Disk, c: seq<string>)
    requires after == before.(dists := after.dists) && DistsLeft(before, after, SetOf(c)) && SetOf(c) <= Spare(before)
    requires forall i :: 0 <= i < |c| ==> c[i] !in after.dists
    ensures forall n :: n in after.dists ==> Get(before.dists, n) == Some(after.dists[n])
    ensures before.dists.Keys - after.dists.Keys <= Spare(before)
    ensures Spare(after) == Spare(before) - SetOf(c)
  {
    forall n ensures n in SetOf(c) ==> n !in after.dists { }
    forall n | n !in SetOf(c) ensures Get(after.dists, n) == Get(before.dists, n) { }
  }

  lemma ScanHasDisk(entries: seq<DirEntry>, d: Disk)
    requires Mirrors(entries, d)
    ensures forall n :: n in Scan(entries) <==> n in d.dists
  {
    ScanSorted(entries);
    forall n ensures n in Scan(entries) <==> n in d.dists {
      if n in d.dists {
        var e :| e in entries && e.isDir && "distribution-" <= e.name && e.name == n;
        ScanIsNewestFirst(entries, e, e);
      }
    }
  }
}
