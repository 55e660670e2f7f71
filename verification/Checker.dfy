/** `ota-agent verify` (client/internal/verify), and that it agrees with the installer. */
module Checker {
  import opened Hashing
  import opened Paths
  import opened Home
  import opened Installer
  import opened InstallRuns

  datatype Label = StateFile | CurrentVersion | CurrentLink | DistributionDir | Server | ManifestFetch
                 | ManifestSignature | KeyTrusted | ManifestParse | BlobOnDisk | BlobSha
  datatype Check = Check(about: Label, ok: bool)

  /** The online phase: skipped, or what the server answered for the current version. */
  datatype Online = Offline
                  | NoServer
                  | Answer(fetched: bool, signed: bool, pubkey: string, trusted: seq<string>, parsed: bool, sha: string)

  /** What the file system lets the checker see: whether the distribution directory can be examined,
      the files hidden in directories it cannot read, and whether the blob can be examined and read. */
  datatype Sight = Sight(dist: bool, hidden: set<Comps>, blobStat: bool, blobRead: bool)

  const CLEAR := Sight(true, {}, true, true)

  /** walkSize: how many files of the tree the walk counts. */
  function Counted(tree: Tree, sight: Sight): nat { |tree.Keys - sight.hidden| }

  /** What each finding says. */
  ghost predicate Truthful(h: Hash, d: Disk, readable: bool, sight: Sight, online: Online, c: Check) {
    var cur := d.saved.current;
    match c.about
    case StateFile => c.ok == readable
    case CurrentVersion => c.ok == (cur != "")
    case CurrentLink => c.ok == ReadLink(d, Current).Some?
    case DistributionDir => c.ok == (sight.dist && DistName(cur) in d.dists && Counted(d.dists[DistName(cur)], sight) > 0)
    case Server => !c.ok && online.NoServer?
    case ManifestFetch => online.Answer? && c.ok == online.fetched
    case ManifestSignature => online.Answer? && c.ok == online.signed
    case KeyTrusted => online.Answer? && c.ok == (online.pubkey in online.trusted)
    case ManifestParse => online.Answer? && !c.ok && !online.parsed
    case BlobOnDisk => c.ok == (cur !in d.blobs) && (cur in d.blobs ==> !sight.blobStat)
    case BlobSha =>
      online.Answer? && cur in d.blobs && sight.blobStat && c.ok == (sight.blobRead && Digest(h, d.blobs[cur]) == online.sha)
  }

  ghost predicate AllOk(checks: seq<Check>) {
    forall c :: c in checks ==> c.ok
  }

  method AllOK(checks: seq<Check>) returns (ok: bool)
    ensures ok <==> AllOk(checks)
  {
    for i := 0 to |checks|
      invariant forall j :: 0 <= j < i ==> checks[j].ok
    {
      if !checks[i].ok { return false; }
    }
    return true;
  }

  predicate OfflineSound(d: Disk, sight: Sight) {
    var dist := DistName(d.saved.current);
    && d.saved.current != "" && ReadLink(d, Current).Some?
    && sight.dist && dist in d.dists && Counted(d.dists[dist], sight) > 0
  }

  predicate OnlineSound(h: Hash, d: Disk, sight: Sight, online: Online) {
    match online
    case Offline => true
    case NoServer => false
    case Answer(fetched, signed, pubkey, trusted, parsed, sha) =>
      && fetched && signed && (trusted == [] || pubkey in trusted) && parsed
      && (d.saved.current in d.blobs ==> sight.blobStat && sight.blobRead && Digest(h, d.blobs[d.saved.current]) == sha)
  }

  /** Which findings a report has, in order. */
  function Findings(d: Disk, readable: bool, sight: Sight, online: Online): seq<Label> {
    if !readable then [StateFile]
    else if d.saved.current == "" then [StateFile, CurrentVersion]
    else [StateFile, CurrentVersion, CurrentLink, DistributionDir] + OnlineFindings(d, sight, online)
  }

  function OnlineFindings(d: Disk, sight: Sight, online: Online): seq<Label> {
    match online
    case Offline => []
    case NoServer => [Server]
    case Answer(fetched, signed, pubkey, trusted, parsed, _) =>
      var keys := if trusted == [] then [] else [KeyTrusted];
      if !fetched then [ManifestFetch]
      else if !signed || (trusted != [] && pubkey !in trusted) then [ManifestFetch, ManifestSignature] + (if signed then keys else [])
      else if !parsed then [ManifestFetch, ManifestSignature] + keys + [ManifestParse]
      else [ManifestFetch, ManifestSignature] + keys + [if d.saved.current in d.blobs && sight.blobStat then BlobSha else BlobOnDisk]
  }

  function Labels(checks: seq<Check>): seq<Label> {
    seq(|checks|, i requires 0 <= i < |checks| => checks[i].about)
  }

  method Verify(h: Hash, d: Disk, readable: bool, sight: Sight, online: Online) returns (version: string, checks: seq<Check>)
    ensures forall c :: c in checks ==> Truthful(h, d, readable, sight, online, c)
    ensures AllOk(checks) <==> readable && OfflineSound(d, sight) && OnlineSound(h, d, sight, online)
    ensures version == if readable then d.saved.current else ""
    ensures Labels(checks) == Findings(d, readable, sight, online)
  {
    if !readable {
      checks := [Check(StateFile, false)];
      assert checks[0] in checks;
      return "", checks;
    }
    var cur := d.saved.current;
    if cur == "" {
      checks := [Check(StateFile, true), Check(CurrentVersion, false)];
      assert checks[1] in checks;
      return "", checks;
    }
    version := cur;
    checks := [Check(StateFile, true), Check(CurrentVersion, true)];
    var offline := VerifyInstalled(h, d, sight, online);
    var online' := VerifyOnline(h, d, sight, online);
    Together(checks, offline, online');
    checks := checks + offline + online';
  }

  lemma Together(a: seq<Check>, b: seq<Check>, c: seq<Check>)
    ensures forall x :: x in a + b + c <==> x in a || x in b || x in c
    ensures AllOk(a + b + c) <==> AllOk(a) && AllOk(b) && AllOk(c)
    ensures Labels(a + b + c) == Labels(a) + Labels(b) + Labels(c)
  {
    assert forall x :: x in a + b + c <==> x in a || x in b || x in c;
  }

  method VerifyInstalled(h: Hash, d: Disk, sight: Sight, online: Online) returns (checks: seq<Check>)
    requires d.saved.current != ""
    ensures forall c :: c in checks ==> Truthful(h, d, true, sight, online, c)
    ensures AllOk(checks) <==> OfflineSound(d, sight)
    ensures Labels(checks) == [CurrentLink, DistributionDir]
  {
    var cur := d.saved.current;
    var target := ReadLink(d, Current);
    var link := Check(CurrentLink, target.Some?);
    var dir: Check;
    if !sight.dist || DistName(cur) !in d.dists {
      dir := Check(DistributionDir, false);
    } else {
      dir := Check(DistributionDir, Counted(d.dists[DistName(cur)], sight) > 0);
    }
    checks := [link, dir];
    assert link in checks && dir in checks;
  }

  method VerifyOnline(h: Hash, d: Disk, sight: Sight, online: Online) returns (checks: seq<Check>)
    ensures forall c :: c in checks ==> Truthful(h, d, true, sight, online, c)
    ensures AllOk(checks) <==> OnlineSound(h, d, sight, online)
    ensures Labels(checks) == OnlineFindings(d, sight, online)
  {
    checks := [];
    if online.Offline? { return; }
    if online.NoServer? {
      checks := checks + [Check(Server, false)];
      return;
    }
    var usable: bool;
    usable, checks := VerifyManifest(h, d, sight, online);
    if !usable { return; }
    var blob := VerifyBlob(h, d, sight, online.sha);
    Together(checks, [blob], []);
    assert blob in [blob];
    checks := checks + [blob];
    assert checks + [] == checks;
  }

  /** The findings about the manifest; the rest can be checked only if it is usable. */
  method VerifyManifest(h: Hash, d: Disk, sight: Sight, online: Online) returns (usable: bool, checks: seq<Check>)
    requires online.Answer?
    ensures forall c :: c in checks ==> Truthful(h, d, true, sight, online, c)
    ensures AllOk(checks) <==> usable
    ensures usable <==> online.fetched && online.signed && (online.trusted == [] || online.pubkey in online.trusted) && online.parsed
    ensures var keys := if online.trusted == [] then [] else [KeyTrusted];
            Labels(checks) ==
              if !online.fetched then [ManifestFetch]
              else if !online.signed then [ManifestFetch, ManifestSignature]
              else if usable || (online.trusted != [] && online.pubkey !in online.trusted) then [ManifestFetch, ManifestSignature] + keys
              else [ManifestFetch, ManifestSignature] + keys + [ManifestParse]
  {
    if !online.fetched { return false, [Check(ManifestFetch, false)]; }
    checks := [Check(ManifestFetch, true)];
    if !online.signed {
      checks := checks + [Check(ManifestSignature, false)];
      assert checks[1] in checks;
      return false, checks;
    }
    checks := checks + [Check(ManifestSignature, true)];
    if |online.trusted| > 0 {
      if online.pubkey !in online.trusted {
        checks := checks + [Check(KeyTrusted, false)];
        assert checks[2] in checks;
        return false, checks;
      }
      checks := checks + [Check(KeyTrusted, true)];
    }
    if !online.parsed {
      checks := checks + [Check(ManifestParse, false)];
      assert checks[|checks| - 1] in checks;
      return false, checks;
    }
    return true, checks;
  }

  method VerifyBlob(h: Hash, d: Disk, sight: Sight, sha: string) returns (c: Check)
    ensures c.about == if d.saved.current in d.blobs && sight.blobStat then BlobSha else BlobOnDisk
    ensures c.ok <==> (d.saved.current in d.blobs ==> sight.blobStat && sight.blobRead && Digest(h, d.blobs[d.saved.current]) == sha)
  {
    var cur := d.saved.current;
    if cur !in d.blobs { return Check(BlobOnDisk, true); }
    if !sight.blobStat { return Check(BlobOnDisk, false); }
    if !sight.blobRead { return Check(BlobSha, false); }
    return Check(BlobSha, Digest(h, d.blobs[cur]) == sha);
  }

  // ---------------------------------------------------------------- agreement with the installer

  /** Every release in the catalogue has at least one regular file. */
  ghost predicate HasFiles(t: Tools, cat: Catalogue) {
    forall v, blob: Bytes :: Digest(t.hash, blob) == cat(v) ==> exists e :: e in t.untar(blob).entries && e.regular
  }

  lemma HeldIsNotEmpty(t: Tools, cat: Catalogue, d: Disk, v: string)
    requires Held(t, cat, d, v) && v != ""
    ensures HasFiles(t, cat) ==> |d.dists[DistName(v)]| > 0
  {
    var blob := BlobOf(t, cat, d, v);
    if HasFiles(t, cat) { HoldsIsNotEmpty(t.untar(blob), d.dists[DistName(v)]); }
  }

  ghost predicate Succeeded(op: Op) {
    match op
    case Upgrade(_, report, _, _) => report.Installed?
    case Undo(reversal, _) => reversal.Reverted?
    case Cleanup(_, _, _) => true
  }

  /** What a run of successes establishes, once there has been an install. */
  ghost predicate Presentable(t: Tools, cat: Catalogue, d: Disk) {
    && Healthy(t, cat, d) && BlobsVerified(t, cat, d)
    && (d.saved.current == "" ==> d.saved.previous == "")
    && (d.saved.current != "" ==> ReadLink(d, Current).Some?)
  }

  lemma StepStaysPresentable(t: Tools, cat: Catalogue, before: Disk, op: Op, after: Disk)
    requires CatalogueStep(t, cat, before, op, after) && Succeeded(op) && Presentable(t, cat, before)
    ensures Presentable(t, cat, after)
    ensures before.saved.current != "" || op.Upgrade? ==> after.saved.current != ""
  {
    StepStaysHealthy(t, cat, before, op, after);
    BlobsStayVerified(t, cat, [before, after], [op]);
  }

  lemma {:induction false} RunStaysPresentable(t: Tools, cat: Catalogue, disks: seq<Disk>, ops: seq<Op>)
    requires CatalogueRun(t, cat, disks, ops) && disks[0] == EMPTY_DISK
    requires forall i :: 0 <= i < |ops| ==> Succeeded(ops[i])
    ensures Presentable(t, cat, disks[|ops|])
    ensures (exists op :: op in ops && op.Upgrade?) ==> disks[|ops|].saved.current != ""
  {
    if ops != [] {
      var n := |ops| - 1;
      RunStaysPresentable(t, cat, disks[..n + 1], ops[..n]);
      assert disks[..n + 1][n] == disks[n];
      StepStaysPresentable(t, cat, disks[n], ops[n], disks[n + 1]);
      assert forall op :: op in ops <==> op in ops[..n] || op == ops[n];
    }
  }

  /** The checker agrees with the installer: after any run of successful installs, reverts and
      prunes with at least one install, everything it checks is in order, and the online check
      passes for the same catalogue whether the blob is still there or was retired. */
  lemma CheckerAgreesWithInstaller(t: Tools, cat: Catalogue, disks: seq<Disk>, ops: seq<Op>, online: Online)
    requires CatalogueRun(t, cat, disks, ops) && disks[0] == EMPTY_DISK && HasFiles(t, cat)
    requires forall i :: 0 <= i < |ops| ==> Succeeded(ops[i])
    requires exists op :: op in ops && op.Upgrade?
    requires online.Offline? || (online.Answer? && online.fetched && online.signed && online.parsed
                                 && (online.trusted == [] || online.pubkey in online.trusted)
                                 && online.sha == cat(disks[|ops|].saved.current))
    ensures OfflineSound(disks[|ops|], CLEAR) && OnlineSound(t.hash, disks[|ops|], CLEAR, online)
  {
    RunStaysPresentable(t, cat, disks, ops);
    var cur := disks[|ops|].saved.current;
    HeldIsNotEmpty(t, cat, disks[|ops|], cur);
    assert disks[|ops|].dists[DistName(cur)].Keys - {} == disks[|ops|].dists[DistName(cur)].Keys;
  }

  /** What the checker does not see: it never looks where the pointer leads, so a pointer to any
      other place passes just the same, ... */
  lemma CheckerIgnoresTarget(h: Hash, d: Disk, sight: Sight, online: Online, target: string)
    requires OfflineSound(d, sight) && OnlineSound(h, d, sight, online)
    ensures OfflineSound(d.(links := d.links[Current := target]), sight)
    ensures OnlineSound(h, d.(links := d.links[Current := target]), sight, online)
  {
  }

  /** ... and that happens: a sound home passes every check after any install of another version that
      stopped between setting the link and saving the state, with `current` leading to another
      distribution than the one that state.json names and the checker looked at. */
  lemma CheckerMissesUnsavedFlip(t: Tools, before: Disk, op: Op, after: Disk, sight: Sight, online: Online)
    requires Step(t, before, op, after) && op.Upgrade? && op.report == NotInstalled(Saving)
    requires op.req.version != before.saved.current
    requires OfflineSound(before, sight) && OnlineSound(t.hash, before, sight, online)
    ensures OfflineSound(after, sight) && OnlineSound(t.hash, after, sight, online)
    ensures ReadLink(after, Current) == Some(DistName(op.req.version)) != Some(DistName(after.saved.current))
  {
    var cur := before.saved.current;
    DistNamesDiffer(op.req.version, cur);
    assert Get(after.dists, DistName(cur)) == Get(before.dists, DistName(cur)) && Get(after.blobs, cur) == Get(before.blobs, cur);
  }
}
