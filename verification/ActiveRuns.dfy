/** The distribution the pointers actually lead to, whatever state.json says: what can delete it,
    and what keeps it complete over every run. */
module ActiveRuns {
  import opened Hashing
  import opened Listing
  import opened Pruning
  import opened Home
  import opened Platform
  import opened Installer
  import opened PruneCommand
  import opened InstallRuns
  import opened Outcomes

  /** Which distributions a prune deletes, by rank: of those not pinned, newest first, exactly the
      ones from place `depth` on. */
  lemma PruneDeletesByRank(before: Disk, after: Disk, entries: seq<DirEntry>, depth: int, done: nat, r: nat)
    requires Directory(entries) && PruneLeaves(before, after, entries, depth, done)
    requires var pinned := Pinned(before.saved.current, before.saved.previous);
             r < |Without(Scan(entries), pinned)| && done == |Candidates(Scan(entries), pinned, depth)|
    ensures var name := Without(Scan(entries), Pinned(before.saved.current, before.saved.previous))[r];
            if depth <= r then name !in after.dists else Get(after.dists, name) == Get(before.dists, name)
  {
    var pinned := Pinned(before.saved.current, before.saved.previous);
    RankDecides(entries, pinned, depth, r);
  }

  /** An install that stops between setting the link and saving the state, and then a prune that
      keeps no extras, delete the distribution that `current` leads to. */
  lemma PruneAfterStopDeletesActive(t: Tools, before: Disk, req: Request, blob: Bytes, entries: seq<DirEntry>)
    returns (disks: seq<Disk>, ops: seq<Op>)
    requires Installable(t, before.saved, req, blob)
    requires req.version != before.saved.current && req.version != before.saved.previous
    requires Directory(entries) && exists e :: e in entries && Listed(e) && e.name == DistName(req.version)
    ensures IsRun(t, disks, ops) && disks[0] == before && |ops| == 2
    ensures ops[0].Upgrade? && ops[0].report == NotInstalled(Saving) && ops[1].Cleanup? && ops[1].depth == 0
    ensures ReadLink(disks[2], Current) == Some(DistName(req.version)) && DistName(req.version) !in disks[2].dists
  {
    var flipped := StoppedBeforeSaving(t, before, req, blob);
    var pruned, done := PrunedAll(flipped, entries, DistName(req.version));
    DistNamesDiffer(req.version, before.saved.current);
    DistNamesDiffer(req.version, before.saved.previous);
    disks := [before, flipped, pruned];
    ops := [Upgrade(req, NotInstalled(Saving), false, false), Cleanup(entries, 0, done)];
    assert Step(t, disks[0], ops[0], disks[1]);
    assert Step(t, disks[1], ops[1], disks[2]);
  }

  lemma PrunedAll(before: Disk, entries: seq<DirEntry>, name: string) returns (after: Disk, done: nat)
    requires Directory(entries) && exists e :: e in entries && Listed(e) && e.name == name
    ensures PruneLeaves(before, after, entries, 0, done)
    ensures after == before.(dists := after.dists)
    ensures name !in Pinned(before.saved.current, before.saved.previous) ==> name !in after.dists
  {
    var pinned := Pinned(before.saved.current, before.saved.previous);
    var c := Candidates(Scan(entries), pinned, 0);
    ScanSorted(entries);
    PruneIsExact(entries, before.saved.current, before.saved.previous, 0);
    after, done := before.(dists := before.dists - SetOf(c)), |c|;
    assert Without(Scan(entries), pinned)[..0] == [];
    assert name in Scan(entries);
    assert name !in pinned ==> name in c;
  }

  /** Where `current` leads, or `previous` while `current` is absent. */
  function Active(d: Disk): Option<string> {
    if ReadLink(d, Current).Some? then ReadLink(d, Current) else ReadLink(d, Previous)
  }

  /** The active distribution is that of version v and complete; there is none if v is "". */
  ghost predicate Live(t: Tools, cat: Catalogue, d: Disk, v: string) {
    if v == "" then Active(d).None?
    else ValidVersion(v) && Active(d) == Some(DistName(v)) && Held(t, cat, d, v)
  }

  ghost predicate Alive(t: Tools, cat: Catalogue, d: Disk) {
    Healthy(t, cat, d) && OneKind(d, Current) && exists v :: Live(t, cat, d, v)
  }

  /** The directories a prune gets to: those it has deleted, and the one it may have begun to. */
  function Reached(before: Disk, entries: seq<DirEntry>, depth: int, done: nat): seq<string> {
    var c := Candidates(Scan(entries), Pinned(before.saved.current, before.saved.previous), depth);
    if done < |c| then c[..done + 1] else c
  }

  /** The operation neither stops while rewriting a distribution in use, nor is a prune that gets to
      the active one. */
  ghost predicate Sparing(before: Disk, op: Op) {
    match op
    case Upgrade(req, report, _, _) =>
      !Breaking(before, req, report) && !(report == NotInstalled(Unpacking) && Active(before) == Some(DistName(req.version)))
    case Undo(_, _) => true
    case Cleanup(entries, depth, done) =>
      Active(before).Some? ==> Active(before).value !in Reached(before, entries, depth, done)
  }

  /** After a flip, finished or not, the active distribution is the old one or the new one. */
  lemma FlipKeepsActive(before: Disk, after: Disk, v: string, flip: Flip, slipped: bool)
    requires FlipLeaves(before, after, v, flip, slipped) && OneKind(before, Current) && (Unhidden(before) || !slipped)
    ensures Active(after) == if flip.Flipped? then Some(DistName(v)) else Active(before)
  {
  }

  lemma InstallKeepsActive(before: Disk, after: Disk, v: string, report: Report, slipped: bool)
    requires PointersLeft(before, after, v, report, slipped) && OneKind(before, Current) && (Unhidden(before) || !slipped)
    ensures Active(after) == if report.Installed? || report.at.Saving? then Some(DistName(v)) else Active(before)
  {
    if report.NotInstalled? && report.at.Flipping? { FlipKeepsActive(before, after, v, report.at.flip, slipped); }
  }

  /** Every operation, begun in any condition and stopped anywhere, keeps the active distribution
      complete, whatever version it is. */
  lemma StepStaysAlive(t: Tools, cat: Catalogue, before: Disk, op: Op, after: Disk)
    requires CatalogueStep(t, cat, before, op, after) && Alive(t, cat, before) && Sparing(before, op) && Reliable(before, op)
    ensures Alive(t, cat, after)
  {
    StepStaysHealthy(t, cat, before, op, after);
    NeverTwoCurrentPointers(t, [before, after], [op]);
    var v :| Live(t, cat, before, v);
    match op {
      case Upgrade(req, report, slipped, dead) =>
        InstallMovesPointers(t, before, after, req, report, slipped, dead);
        InstallKeepsActive(before, after, req.version, report, slipped);
        DistNamesDiffer(v, req.version);
        if report.Installed? || report.at.Saving? {
          assert Live(t, cat, after, req.version);
        } else {
          UpgradeKeepsHeld(t, cat, before, op, after, v);
          assert Live(t, cat, after, v);
        }
      case Undo(reversal, slipped) =>
        UndoStaysAlive(t, cat, before, after, reversal, slipped, v);
      case Cleanup(entries, depth, done) =>
        if v != "" { UnreachedIsKept(before, after, entries, depth, done, DistName(v)); }
        HeldCarries(t, cat, before, after, v);
        assert Live(t, cat, after, v);
    }
  }

  /** The exact condition for an install: however it is reported to end, it keeps a home alive unless it
      was accepted and stopped while rewriting the active, the current or the previous version. */
  lemma InstallKeepsAliveIff(t: Tools, cat: Catalogue, before: Disk, op: Op)
    requires op.Upgrade? && ValidVersion(op.req.version) && ByCatalogue(cat, before, op)
    requires Alive(t, cat, before) && Reliable(before, op)
    ensures (forall after :: Step(t, before, op, after) ==> Alive(t, cat, after))
            <==> !Acceptable(before.saved, op.req) || Sparing(before, op)
  {
    var v := op.req.version;
    if Acceptable(before.saved, op.req) && !Sparing(before, op) {
      var active :| Live(t, cat, before, active);
      DistNamesDiffer(v, active);
      var blob := BlobOf(t, cat, before, v);
      var after := Halfway(t, before, op.req, blob, op.slipped, op.dead);
      assert Active(after) == Active(before) && DistName(v) !in after.dists;
    } else {
      forall after | Step(t, before, op, after) ensures Alive(t, cat, after) {
        if Acceptable(before.saved, op.req) { StepStaysAlive(t, cat, before, op, after); }
      }
    }
  }

  lemma UnreachedIsKept(before: Disk, after: Disk, entries: seq<DirEntry>, depth: int, done: nat, name: string)
    requires PruneLeaves(before, after, entries, depth, done) && name !in Reached(before, entries, depth, done)
    ensures Get(after.dists, name) == Get(before.dists, name)
  {
    var c := Candidates(Scan(entries), Pinned(before.saved.current, before.saved.previous), depth);
    if name in SetOf(c) {
      var i :| 0 <= i < |c| && c[i] == name;
      assert i <= done ==> c[i] in Reached(before, entries, depth, done);
    }
  }

  /** The exact condition for a prune: stopped after `done` deletions it keeps a home alive, whatever
      is left of the directory it stopped at, exactly when it has not got to the active one. */
  lemma PruneKeepsAliveIff(t: Tools, cat: Catalogue, before: Disk, entries: seq<DirEntry>, depth: int, done: nat)
    requires Alive(t, cat, before) && Directory(entries)
    requires done <= |Candidates(Scan(entries), Pinned(before.saved.current, before.saved.previous), depth)|
    ensures (forall after :: Step(t, before, Cleanup(entries, depth, done), after) ==> Alive(t, cat, after))
            <==> Sparing(before, Cleanup(entries, depth, done))
  {
    var op := Cleanup(entries, depth, done);
    if Sparing(before, op) {
      forall after | Step(t, before, op, after) ensures Alive(t, cat, after) {
        StepStaysAlive(t, cat, before, op, after);
      }
    } else {
      var after := before.(dists := before.dists - SetOf(Reached(before, entries, depth, done)));
      ReachedCanGo(before, entries, depth, done);
      assert Step(t, before, op, after);
      assert Active(after) == Active(before) && Active(before).value !in after.dists;
    }
  }

  /** That everything reached is gone is an outcome of the prune. */
  lemma ReachedCanGo(before: Disk, entries: seq<DirEntry>, depth: int, done: nat)
    requires Directory(entries)
    requires done <= |Candidates(Scan(entries), Pinned(before.saved.current, before.saved.previous), depth)|
    ensures PruneLeaves(before, before.(dists := before.dists - SetOf(Reached(before, entries, depth, done))), entries, depth, done)
  {
    var c, reached := Candidates(Scan(entries), Pinned(before.saved.current, before.saved.previous), depth), Reached(before, entries, depth, done);
    ScanSorted(entries);
    PruneIsExact(entries, before.saved.current, before.saved.previous, depth);
    forall i | 0 <= i < |c| ensures c[i] in SetOf(reached) <==> i < |reached| {
      if i < |reached| { assert reached[i] == c[i]; }
    }
  }

  lemma UndoStaysAlive(t: Tools, cat: Catalogue, before: Disk, after: Disk, reversal: Reversal, slipped: bool, v: string)
    requires RevertLeaves(before, after, reversal, slipped) && (Unhidden(before) || !slipped)
    requires Healthy(t, cat, before) && OneKind(before, Current) && Live(t, cat, before, v)
    ensures exists w :: Live(t, cat, after, w)
  {
    var prev := before.saved.previous;
    HeldCarries(t, cat, before, after, v);
    HeldCarries(t, cat, before, after, prev);
    if reversal.Reverted? {
      FlipKeepsActive(before, after, prev, Flipped, slipped);
      assert Live(t, cat, after, prev);
    } else if reversal.at.Saving? {
      FlipKeepsActive(before, after, prev, Flipped, slipped);
      assert Live(t, cat, after, prev);
    } else if reversal.at.Flipping? {
      FlipKeepsActive(before, after, prev, reversal.at.flip, slipped);
      assert Live(t, cat, after, v);
    } else {
      assert Live(t, cat, after, v);
    }
  }

  /** ... over every run, also through operations that begin after a crash in the middle of another. */
  lemma {:induction false} RunStaysAlive(t: Tools, cat: Catalogue, disks: seq<Disk>, ops: seq<Op>)
    requires CatalogueRun(t, cat, disks, ops) && Alive(t, cat, disks[0])
    requires forall i :: 0 <= i < |ops| ==> Sparing(disks[i], ops[i]) && Reliable(disks[i], ops[i])
    ensures Alive(t, cat, disks[|ops|])
  {
    if ops != [] {
      var n := |ops| - 1;
      RunStaysAlive(t, cat, disks[..n + 1], ops[..n]);
      assert disks[..n + 1][n] == disks[n];
      StepStaysAlive(t, cat, disks[n], ops[n], disks[n + 1]);
    }
  }
}
