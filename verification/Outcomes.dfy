/** Outcomes an install can have, state by state: the inputs at which results elsewhere fail. */
module Outcomes {
  import opened Hashing
  import opened Home
  import opened Platform
  import opened Installer
  import opened InstallRuns

  /** The offer passes the trust gate, and `blob` is a release with the digest it names. */
  ghost predicate Installable(t: Tools, st: State, req: Request, blob: Bytes) {
    && ValidVersion(req.version) && Acceptable(st, req)
    && Digest(t.hash, blob) == req.offer.manifest.blobSha && UnpackBlob(t, blob).Some?
  }

  /** The pointers after a flip to `v` in which nothing goes wrong. */
  function Repointed(d: Disk, v: string): Disk {
    if Current in d.links then
      d.(links := d.links[Previous := d.links[Current]][Current := DistName(v)], shims := d.shims - {Previous, Current})
    else if Current in d.shims then
      d.(links := (d.links - {Previous})[Current := DistName(v)], shims := (d.shims - {Current})[Previous := d.shims[Current]])
    else d.(links := d.links[Current := DistName(v)])
  }

  lemma RepointedIsFlip(before: Disk, after: Disk, v: string)
    requires SamePointers(Repointed(before, v), after)
    ensures FlipLeaves(before, after, v, Flipped, false)
  {
  }

  /** The link is set, the state is not saved. */
  lemma StoppedBeforeSaving(t: Tools, before: Disk, req: Request, blob: Bytes) returns (after: Disk)
    requires Installable(t, before.saved, req, blob)
    ensures Step(t, before, Upgrade(req, NotInstalled(Saving), false, false), after)
    ensures ReadLink(after, Current) == Some(DistName(req.version)) && after.saved == before.saved
  {
    after := Unsettled(t, before, req.version, blob);
    UnsettledIsFlipped(t, before, req, blob);
  }

  function Unsettled(t: Tools, d: Disk, v: string, blob: Bytes): Disk
    requires UnpackBlob(t, blob).Some?
  {
    Repointed(d, v).(dists := d.dists[DistName(v) := UnpackBlob(t, blob).value], blobs := d.blobs[v := blob])
  }

  lemma UnsettledIsFlipped(t: Tools, before: Disk, req: Request, blob: Bytes)
    requires Installable(t, before.saved, req, blob)
    ensures var v, sha, after := req.version, req.offer.manifest.blobSha, Unsettled(t, before, req.version, blob);
            && FlipLeaves(before, after, v, Flipped, false) && Extracted(t, after, v, sha, false)
            && BlobsLeft(t, before, after, v, sha) && BlobsKept(before, after, {v}) && DistsLeft(before, after, {DistName(v)})
            && after.saved == before.saved && ReadLink(after, Current) == Some(DistName(v))
  {
    var v, after := req.version, Unsettled(t, before, req.version, blob);
    UnpackHoldsOverLeftovers(t.untar(blob), map[]);
    assert Full(t, req.offer.manifest.blobSha, after.dists[DistName(v)], true);
    RepointedIsFlip(before, after, v);
  }

  /** The install succeeds; if `slipped`, what is to be retired could not be removed. */
  lemma Finished(t: Tools, before: Disk, req: Request, blob: Bytes, slipped: bool) returns (after: Disk)
    requires Installable(t, before.saved, req, blob)
    ensures Step(t, before, Upgrade(req, Installed, slipped, false), after)
    ensures after.saved == NextState(before.saved, req.version, req.offer.pubkey)
    ensures after.blobs == if slipped || Retired(after.saved).None? then before.blobs[req.version := blob]
                           else before.blobs[req.version := blob] - {Retired(after.saved).value}
  {
    var flipped, next := Unsettled(t, before, req.version, blob), NextState(before.saved, req.version, req.offer.pubkey);
    UnsettledIsFlipped(t, before, req, blob);
    after := Tidied(flipped.(saved := next), slipped);
    TidiedIsRetention(flipped.(saved := next), slipped);
    RetentionComposes(t, before, flipped.(saved := next), after, req.version, req.offer.manifest.blobSha, slipped, !slipped);
    RepointedIsFlip(before, after, req.version);
    FlipCarries(before, before, after, req.version, false, slipped);
  }

  /** Retention that removes everything, or nothing. */
  function Tidied(d: Disk, slipped: bool): Disk {
    match Retired(d.saved)
    case None => d
    case Some(older) => if slipped then d else d.(blobs := d.blobs - {older}, dists := d.dists - {DistName(older) + ARCHIVED})
  }

  lemma TidiedIsRetention(d: Disk, slipped: bool)
    ensures RetentionLeaves(d, Tidied(d, slipped), d.saved, !slipped)
  {
  }
}
