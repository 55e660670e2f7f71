/** What installs, reverts and prunes guarantee together: at every point where one of them can
    stop, and over every run of them. */
module InstallRuns {
  import opened Hashing
  import opened Listing
  import opened Pruning
  import opened Home
  import opened Platform
  import opened Fetching
  import opened Installer
  import opened PruneCommand

  /** One operation, with what it reported. */
  datatype Op = Upgrade(req: Request, report: Report, slipped: bool, dead: bool)
              | Undo(reversal: Reversal, slipped: bool)
              | Cleanup(entries: seq<DirEntry>, depth: int, done: nat)

  ghost predicate Step(t: Tools, before: Disk, op: Op, after: Disk) {
    match op
    case Upgrade(req, report, slipped, dead) =>
      ValidVersion(req.version) && InstallLeaves(t, before, after, req, report, slipped, dead)
    case Undo(reversal, slipped) => RevertLeaves(before, after, reversal, slipped)
    case Cleanup(entries, depth, done) => Directory(entries) && PruneLeaves(before, after, entries, depth, done)
  }

  ghost predicate IsRun(t: Tools, disks: seq<Disk>, ops: seq<Op>) {
    |disks| == |ops| + 1 && forall i :: 0 <= i < |ops| ==> Step(t, disks[i], ops[i], disks[i + 1])
  }

  /** The digest of each version's blob. */
  type Catalogue = string -> string

  /** An offer that passes the trust gate names the catalogue's digest; a refused one may say anything. */
  predicate ByCatalogue(cat: Catalogue, before: Disk, op: Op) {
    op.Upgrade? && Acceptable(before.saved, op.req) ==> op.req.offer.manifest.blobSha == cat(op.req.version)
  }

  ghost predicate CatalogueStep(t: Tools, cat: Catalogue, before: Disk, op: Op, after: Disk) {
    Step(t, before, op, after) && ByCatalogue(cat, before, op)
  }

  ghost predicate CatalogueRun(t: Tools, cat: Catalogue, disks: seq<Disk>, ops: seq<Op>) {
    IsRun(t, disks, ops) && forall i :: 0 <= i < |ops| ==> ByCatalogue(cat, disks[i], ops[i])
  }

  // ---------------------------------------------------------------- distributions stay complete

  /** The version, if set, has its complete distribution on disk, and nothing else in it if `exact`. */
  ghost predicate Held(t: Tools, cat: Catalogue, d: Disk, v: string, exact: bool := false) {
    v == "" || (DistName(v) in d.dists && Full(t, cat(v), d.dists[DistName(v)], exact))
  }

  ghost predicate Healthy(t: Tools, cat: Catalogue, d: Disk, exact: bool := false) {
    var st := d.saved;
    && Held(t, cat, d, st.current, exact) && Held(t, cat, d, st.previous, exact)
    && (st.current == "" || ValidVersion(st.current)) && (st.previous == "" || ValidVersion(st.previous))
  }

  /** The one outcome that breaks a distribution in use: an install stopped while it rewrites the
      directory of Current or Previous. */
  predicate Breaking(before: Disk, req: Request, report: Report) {
    report == NotInstalled(Unpacking) && (req.version == before.saved.current || req.version == before.saved.previous)
  }

  /** The operation does not end that way; for exact distributions, nor does an ignored removal fail. */
  predicate Considerate(before: Disk, op: Op, exact: bool := false) {
    op.Upgrade? ==> !Breaking(before, op.req, op.report) && (exact ==> !op.slipped)
  }

  lemma DistNamesDiffer(v: string, w: string)
    ensures DistName(v) == DistName(w) <==> v == w
  {
    assert DistName(v)[|PREFIX|..] == v && DistName(w)[|PREFIX|..] == w;
  }

  lemma HeldCarries(t: Tools, cat: Catalogue, before: Disk, after: Disk, v: string, exact: bool := false)
    requires Held(t, cat, before, v, exact)
    requires v != "" ==> Get(after.dists, DistName(v)) == Get(before.dists, DistName(v))
    ensures Held(t, cat, after, v, exact)
  {
  }

  lemma UpgradeKeepsOthers(t: Tools, before: Disk, op: Op, after: Disk, v: string)
    requires op.Upgrade? && Step(t, before, op, after)
    requires ValidVersion(v) && v != op.req.version
    ensures Get(after.dists, DistName(v)) == Get(before.dists, DistName(v))
  {
    DistNamesDiffer(v, op.req.version);
    if op.report.Installed? && Retired(after.saved).Some? {
      NotArchivedName(v, Retired(after.saved).value);
    }
  }

  /** An install keeps what is held, unless it stops while rewriting it. */
  lemma UpgradeKeepsHeld(t: Tools, cat: Catalogue, before: Disk, op: Op, after: Disk, v: string, exact: bool := false)
    requires op.Upgrade? && CatalogueStep(t, cat, before, op, after)
    requires Held(t, cat, before, v, exact) && (v == "" || ValidVersion(v))
    requires op.report == NotInstalled(Unpacking) ==> op.req.version != v
    requires exact ==> !op.slipped
    ensures Held(t, cat, after, v, exact)
  {
    if v != "" && v != op.req.version {
      UpgradeKeepsOthers(t, before, op, after, v);
      HeldCarries(t, cat, before, after, v, exact);
    }
  }

  lemma PinnedAreKept(before: Disk, entries: seq<DirEntry>, depth: int, done: nat, after: Disk, v: string)
    requires Directory(entries) && PruneLeaves(before, after, entries, depth, done)
    requires v != "" && (v == before.saved.current || v == before.saved.previous)
    ensures Get(after.dists, DistName(v)) == Get(before.dists, DistName(v))
  {
    PruneIsExact(entries, before.saved.current, before.saved.previous, depth);
  }

  /** Every operation keeps the distributions of Current and Previous present and complete, and exact. */
  lemma StepStaysHealthy(t: Tools, cat: Catalogue, before: Disk, op: Op, after: Disk, exact: bool := false)
    requires CatalogueStep(t, cat, before, op, after) && Considerate(before, op, exact) && Healthy(t, cat, before, exact)
    ensures Healthy(t, cat, after, exact)
  {
    var cur, prev := before.saved.current, before.saved.previous;
    match op {
      case Upgrade(req, report, slipped, dead) =>
        UpgradeKeepsHeld(t, cat, before, op, after, cur, exact);
        UpgradeKeepsHeld(t, cat, before, op, after, prev, exact);
        if report.Installed? {
          assert Held(t, cat, after, req.version, exact);
        }
      case Undo(reversal, slipped) =>
        HeldCarries(t, cat, before, after, cur, exact);
        HeldCarries(t, cat, before, after, prev, exact);
      case Cleanup(entries, depth, done) =>
        if cur != "" { PinnedAreKept(before, entries, depth, done, after, cur); }
        if prev != "" { PinnedAreKept(before, entries, depth, done, after, prev); }
        HeldCarries(t, cat, before, after, cur, exact);
        HeldCarries(t, cat, before, after, prev, exact);
    }
  }

  lemma BlobOf(t: Tools, cat: Catalogue, d: Disk, v: string) returns (blob: Bytes)
    requires Held(t, cat, d, v) && v != ""
    ensures Digest(t.hash, blob) == cat(v) && Holds(t.untar(blob), d.dists[DistName(v)])
  {
    blob :| Digest(t.hash, blob) == cat(v) && Holds(t.untar(blob), d.dists[DistName(v)]);
  }

  /** Unpacking can stop when the blob is there and the distribution is not. */
  lemma Halfway(t: Tools, before: Disk, req: Request, blob: Bytes, slipped: bool, dead: bool) returns (after: Disk)
    requires ValidVersion(req.version) && Acceptable(before.saved, req) && Digest(t.hash, blob) == req.offer.manifest.blobSha
    ensures Step(t, before, Upgrade(req, NotInstalled(Unpacking), slipped, dead), after)
    ensures after == before.(blobs := before.blobs[req.version := blob], dists := before.dists - {DistName(req.version)})
  {
    after := before.(blobs := before.blobs[req.version := blob], dists := before.dists - {DistName(req.version)});
  }

  /** The exact condition. From a healthy home an install with a given report leaves a healthy home
      in every case, failed downloads, refused offers and reinstalls included, exactly when it is not
      an accepted one that stopped while rewriting the directory of Current or Previous. */
  lemma InstallBreaksIff(t: Tools, cat: Catalogue, before: Disk, req: Request, report: Report, slipped: bool, dead: bool)
    requires Healthy(t, cat, before) && ValidVersion(req.version)
    requires ByCatalogue(cat, before, Upgrade(req, report, slipped, dead))
    ensures (forall after :: Step(t, before, Upgrade(req, report, slipped, dead), after) ==> Healthy(t, cat, after))
            <==> !(Acceptable(before.saved, req) && Breaking(before, req, report))
  {
    var op := Upgrade(req, report, slipped, dead);
    if Acceptable(before.saved, req) && Breaking(before, req, report) {
      var blob := BlobOf(t, cat, before, req.version);
      var after := Halfway(t, before, req, blob, slipped, dead);
      assert !Held(t, cat, after, req.version);
    } else {
      forall after | Step(t, before, op, after) ensures Healthy(t, cat, after) {
        StepStaysHealthy(t, cat, before, op, after);
      }
    }
  }

  /** ... over every run, stopped operations and crashes included. */
  lemma {:induction false} RunStaysHealthy(t: Tools, cat: Catalogue, disks: seq<Disk>, ops: seq<Op>, exact: bool := false)
    requires CatalogueRun(t, cat, disks, ops) && Healthy(t, cat, disks[0], exact)
    requires forall i :: 0 <= i < |ops| ==> Considerate(disks[i], ops[i], exact)
    ensures forall i :: 0 <= i < |disks| ==> Healthy(t, cat, disks[i], exact)
  {
    if ops != [] {
      var n := |ops| - 1;
      RunStaysHealthy(t, cat, disks[..n + 1], ops[..n], exact);
      assert disks[..n + 1][n] == disks[n];
      StepStaysHealthy(t, cat, disks[n], ops[n], disks[n + 1], exact);
      forall i | 0 <= i < |disks| ensures Healthy(t, cat, disks[i], exact) {
        if i <= n { assert disks[..n + 1][i] == disks[i]; }
      }
    }
  }

  /** What an exact distribution is: for some blob with the version's digest, a file wherever a regular
      entry is placed and nowhere else, with the data of the last and the permissions of the first
      entry placed there. */
  lemma ExactIsTheArchive(t: Tools, cat: Catalogue, d: Disk, v: string) returns (blob: Bytes)
    requires Held(t, cat, d, v, true) && v != ""
    ensures Digest(t.hash, blob) == cat(v)
    ensures var entries, tree := t.untar(blob).entries, d.dists[DistName(v)];
            forall path ::
              && (path in tree <==> FirstWrite(entries, path).Some?)
              && (path in tree ==> Permits(FirstWrite(entries, path).value.mode, tree[path].mode)
                                   && LastWrite(entries, path) == Some(tree[path].data))
  {
    var tree := d.dists[DistName(v)];
    blob :| Digest(t.hash, blob) == cat(v) && UnpackBlob(t, blob) == Some(tree);
    var entries := t.untar(blob).entries;
    UnpackBlobIs(t, blob);
    forall path
      ensures path in tree <==> FirstWrite(entries, path).Some?
      ensures path in tree ==> Permits(FirstWrite(entries, path).value.mode, tree[path].mode)
                               && LastWrite(entries, path) == Some(tree[path].data)
    {
      UnpackSetsModes(entries, map[], path);
      UnpackIsLastWrite(entries, map[], path);
    }
  }

  /** A revert at the end of any such run lands on a complete distribution. */
  lemma RevertLandsOnComplete(t: Tools, cat: Catalogue, disks: seq<Disk>, ops: seq<Op>, after: Disk, slipped: bool)
    requires CatalogueRun(t, cat, disks, ops) && Healthy(t, cat, disks[0])
    requires forall i :: 0 <= i < |ops| ==> Considerate(disks[i], ops[i])
    requires RevertLeaves(disks[|ops|], after, Reverted, slipped)
    ensures var v := disks[|ops|].saved.previous;
            && v != "" && after.saved.current == v && ReadLink(after, Current) == Some(DistName(v))
            && Held(t, cat, after, v)
  {
    RunStaysHealthy(t, cat, disks, ops);
    HeldCarries(t, cat, disks[|ops|], after, disks[|ops|].saved.previous);
  }

  // ---------------------------------------------------------------- no broken install

  /** The install to a new version, stopped anywhere. The old distribution is untouched, and
      `current` still leads to it, or is absent while `previous` leads to it, or already leads
      to the completely extracted new one. */
  lemma NoBrokenInstall(t: Tools, before: Disk, op: Op, after: Disk)
    requires op.Upgrade? && Step(t, before, op, after)
    requires var c := before.saved.current;
             ValidVersion(c) && c != op.req.version && OneKind(before, Current) && ReadLink(before, Current) == Some(DistName(c))
    requires Unhidden(before) || !op.slipped
    ensures var c, v := before.saved.current, op.req.version;
            && Get(after.dists, DistName(c)) == Get(before.dists, DistName(c))
            && (|| ReadLink(after, Current) == Some(DistName(c))
                || (Absent(after, Current) && ReadLink(after, Previous) == Some(DistName(c)))
                || (ReadLink(after, Current) == Some(DistName(v)) && Extracted(t, after, v, op.req.offer.manifest.blobSha, op.slipped)))
  {
    UpgradeKeepsOthers(t, before, op, after, before.saved.current);
  }

  /** The documentation says a failed install leaves `current` at the working release. It does so
      exactly when the failure is not the setting of the new link and not the saving of the state. */
  lemma FailureKeepsCurrentIff(t: Tools, before: Disk, op: Op, after: Disk)
    requires op.Upgrade? && Step(t, before, op, after) && op.report.NotInstalled?
    requires var c := before.saved.current;
             ValidVersion(c) && c != op.req.version && OneKind(before, Current) && ReadLink(before, Current) == Some(DistName(c))
    ensures ReadLink(after, Current) == Some(DistName(before.saved.current)) <==>
              op.report.at != Flipping(NotSet) && op.report.at != Saving
  {
    DistNamesDiffer(before.saved.current, op.req.version);
  }

  // ---------------------------------------------------------------- links and state

  /** Whatever stops it and from whatever state, no operation leaves both kinds of `current`
      pointer behind where there was at most one. */
  lemma {:induction false} NeverTwoCurrentPointers(t: Tools, disks: seq<Disk>, ops: seq<Op>)
    requires IsRun(t, disks, ops) && OneKind(disks[0], Current)
    ensures OneKind(disks[|ops|], Current)
  {
    if ops != [] {
      var n := |ops| - 1;
      NeverTwoCurrentPointers(t, disks[..n + 1], ops[..n]);
      assert disks[..n + 1][n] == disks[n];
      assert Step(t, disks[n], ops[n], disks[n + 1]);
    }
  }

  /** After every successful install or revert, from any prior state at all, `current` leads to the
      distribution that state.json names. */
  lemma CurrentAgrees(t: Tools, before: Disk, op: Op, after: Disk)
    requires Step(t, before, op, after)
    requires (op.Upgrade? && op.report.Installed?) || (op.Undo? && op.reversal.Reverted?)
    ensures ReadLink(after, Current) == Some(DistName(after.saved.current))
    ensures OneKind(before, Current) || !op.slipped ==> OneKind(after, Current)
  {
  }

  /** `current` leads where state.json says, or is absent in the middle of a flip from there. */
  ghost predicate Settled(d: Disk) {
    var c := DistName(d.saved.current);
    ReadLink(d, Current) == Some(c) || (Absent(d, Current) && ReadLink(d, Previous) == Some(c))
  }

  ghost predicate PreviousAgrees(d: Disk) {
    ReadLink(d, Previous) == Some(DistName(d.saved.previous))
  }

  /** The one hazard for `previous`: an old symlink that could not be removed hides a moved shim. */
  ghost predicate Reliable(before: Disk, op: Op) {
    match op
    case Upgrade(_, _, slipped, _) => Unhidden(before) || !slipped
    case Undo(_, slipped) => Unhidden(before) || !slipped
    case Cleanup(_, _, _) => true
  }

  /** After a revert or an install of another version, `previous` agrees too exactly when the home was
      settled before. */
  lemma PreviousAgreesIff(t: Tools, before: Disk, op: Op, after: Disk)
    requires Step(t, before, op, after) && before.saved.current != "" && Reliable(before, op)
    requires (op.Upgrade? && op.report.Installed? && op.req.version != before.saved.current) || (op.Undo? && op.reversal.Reverted?)
    ensures after.saved.previous == before.saved.current
    ensures PreviousAgrees(after) <==> Settled(before)
  {
  }

  /** A stop between setting the link and saving a different current version. */
  ghost predicate StoppedUnsaved(before: Disk, op: Op) {
    match op
    case Upgrade(req, report, _, _) => report == NotInstalled(Saving) && req.version != before.saved.current
    case Undo(reversal, _) => reversal == NotReverted(Saving) && before.saved.previous != before.saved.current
    case Cleanup(_, _, _) => false
  }

  /** Exactly a stop between setting the link and saving the state unsettles a home: every other
      outcome of an install, a revert or a prune leaves it settled. */
  lemma StepStaysSettled(t: Tools, before: Disk, op: Op, after: Disk)
    requires Step(t, before, op, after) && Settled(before) && OneKind(before, Current) && Reliable(before, op)
    ensures Settled(after) <==> !StoppedUnsaved(before, op)
  {
    match op {
      case Upgrade(req, report, slipped, dead) =>
        InstallMovesPointers(t, before, after, req, report, slipped, dead);
        InstallSettles(before, after, req.version, report, slipped);
      case Undo(reversal, slipped) =>
        DistNamesDiffer(before.saved.previous, before.saved.current);
        if reversal.NotReverted? && reversal.at.Flipping? { FlipSettles(before, after, before.saved.previous, reversal.at.flip, slipped); }
      case Cleanup(entries, depth, done) =>
    }
  }

  /** What an install does to the pointers and the version fields, by what it reports. */
  ghost predicate PointersLeft(before: Disk, after: Disk, v: string, report: Report, slipped: bool) {
    match report
    case Installed => FlipLeaves(before, after, v, Flipped, slipped) && after.saved.current == v
    case NotInstalled(stage) =>
      && after.saved == before.saved
      && match stage
         case Flipping(flip) => !flip.Flipped? && FlipLeaves(before, after, v, flip, slipped)
         case Saving => FlipLeaves(before, after, v, Flipped, slipped)
         case _ => SamePointers(before, after)
  }

  lemma InstallMovesPointers(t: Tools, before: Disk, after: Disk, req: Request, report: Report, slipped: bool, dead: bool)
    requires InstallLeaves(t, before, after, req, report, slipped, dead)
    ensures PointersLeft(before, after, req.version, report, slipped)
  {
  }

  lemma InstallSettles(before: Disk, after: Disk, v: string, report: Report, slipped: bool)
    requires PointersLeft(before, after, v, report, slipped)
    requires Settled(before) && OneKind(before, Current) && (Unhidden(before) || !slipped)
    ensures Settled(after) <==> !(report == NotInstalled(Saving) && v != before.saved.current)
  {
    DistNamesDiffer(v, before.saved.current);
    if report.NotInstalled? && report.at.Flipping? { FlipSettles(before, after, v, report.at.flip, slipped); }
  }

  /** A flip that does not finish leaves the old target in reach. */
  lemma FlipSettles(before: Disk, after: Disk, version: string, flip: Flip, slipped: bool)
    requires FlipLeaves(before, after, version, flip, slipped) && !flip.Flipped? && after.saved == before.saved
    requires Settled(before) && OneKind(before, Current) && (Unhidden(before) || !slipped)
    ensures Settled(after)
  {
  }

  /** Reinstalling the active version points `previous` at it as well, and state.json does not
      follow. */
  lemma ReinstallMovesPrevious(t: Tools, before: Disk, op: Op, after: Disk)
    requires Step(t, before, op, after) && op.Upgrade? && op.report.Installed? && Reliable(before, op)
    requires op.req.version == before.saved.current && ReadLink(before, Current) == Some(DistName(before.saved.current))
    ensures ReadLink(after, Previous) == ReadLink(after, Current) == Some(DistName(before.saved.current))
    ensures after.saved.previous == before.saved.previous
    ensures PreviousAgrees(after) <==> before.saved.previous == before.saved.current
  {
    DistNamesDiffer(before.saved.previous, before.saved.current);
  }

  /** Two reverts undo each other: both pointers lead where they led, and state.json is as it was. */
  lemma TwoRevertsRestore(d0: Disk, d1: Disk, d2: Disk, s1: bool, s2: bool)
    requires RevertLeaves(d0, d1, Reverted, s1) && RevertLeaves(d1, d2, Reverted, s2)
    requires Unhidden(d0) || !s1
    requires Unhidden(d1) || !s2
    requires d0.saved.current != "" && ReadLink(d0, Current) == Some(DistName(d0.saved.current)) && PreviousAgrees(d0)
    ensures d2.saved == d0.saved
    ensures ReadLink(d2, Current) == ReadLink(d0, Current) && ReadLink(d2, Previous) == ReadLink(d0, Previous)
    ensures d2.dists == d0.dists && d2.blobs == d0.blobs
  {
  }

  // ---------------------------------------------------------------- blobs and routes

  /** Every kept blob has the digest of its version's manifest. */
  ghost predicate BlobsVerified(t: Tools, cat: Catalogue, d: Disk) {
    forall v :: v in d.blobs ==> Digest(t.hash, d.blobs[v]) == cat(v)
  }

  lemma {:induction false} BlobsStayVerified(t: Tools, cat: Catalogue, disks: seq<Disk>, ops: seq<Op>)
    requires CatalogueRun(t, cat, disks, ops) && BlobsVerified(t, cat, disks[0])
    ensures BlobsVerified(t, cat, disks[|ops|])
  {
    if ops != [] {
      var n := |ops| - 1;
      BlobsStayVerified(t, cat, disks[..n + 1], ops[..n]);
      assert disks[..n + 1][n] == disks[n];
      assert CatalogueStep(t, cat, disks[n], ops[n], disks[n + 1]);
    }
  }

  /** Route independence of the fetch: one home takes the patch route, the other the full blob, with
      any old blob, patch and server behaviour; if both get there they have the same blob. */
  lemma RoutesFetchSameBlob(t: Tools, a: Disk, b: Disk, man: Manifest, ratioA: real, ratioB: real, envA: FetchEnv, envB: FetchEnv)
    requires Route(a, man, ratioA).Some? && Route(b, man, ratioB).None?
    requires forall x: Bytes, y: Bytes :: Digest(t.hash, x) == man.blobSha == Digest(t.hash, y) ==> x == y
    ensures var fa, fb := Fetch(t, a, man, ratioA, envA), Fetch(t, b, man, ratioB, envB);
            fa.exit.Done? && fb.exit.Done? ==>
              man.version in fa.disk.blobs && man.version in fb.disk.blobs && fa.disk.blobs[man.version] == fb.disk.blobs[man.version]
  {
    FetchIntegrity(t, a, man, ratioA, envA);
    FetchIntegrity(t, b, man, ratioB, envB);
  }

  /** ... and of the install: two installs of a version that end well without a slip, from any two
      homes, leave the same tree. */
  lemma RoutesInstallSameTree(t: Tools, a: Disk, a': Disk, b: Disk, b': Disk, reqA: Request, reqB: Request, deadA: bool, deadB: bool)
    requires reqA.version == reqB.version && reqA.offer.manifest.blobSha == reqB.offer.manifest.blobSha
    requires var sha := reqA.offer.manifest.blobSha;
             forall x: Bytes, y: Bytes :: Digest(t.hash, x) == sha == Digest(t.hash, y) ==> x == y
    ensures InstallLeaves(t, a, a', reqA, Installed, false, deadA) && InstallLeaves(t, b, b', reqB, Installed, false, deadB) ==>
              Get(a'.dists, DistName(reqA.version)) == Get(b'.dists, DistName(reqA.version)) != None
  {
  }
}
