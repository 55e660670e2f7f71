/** Getting the blob of a release onto the disk, by patch or whole (client/libota). */
module Fetching {
  import opened Hashing
  import opened Transfer
  import opened TransferRuns
  import opened PatchChoice
  import opened Home
  import opened Machines

  datatype Manifest = Manifest(software: string, version: string, blobSha: string, blobSize: int, patchesIn: seq<PatchRef>)

  /** What happens around the downloads and the patch application of one install. */
  datatype FetchEnv = FetchEnv(patch: Env, apply: PatchEnv, blob: Env)

  datatype Fetched = Fetched(disk: Disk, exit: Exit)

  function BlobSlot(d: Disk, version: string): Slot {
    Slot(Get(d.parts, version), Get(d.blobs, version))
  }

  function PutBlob(d: Disk, version: string, s: Slot): Disk {
    d.(parts := Put(d.parts, version, s.part), blobs := Put(d.blobs, version, s.dst))
  }

  function PatchSlot(d: Disk, name: string): Slot {
    Slot(Get(d.patches, name + ".part"), Get(d.patches, name))
  }

  function PutPatch(d: Disk, name: string, s: Slot): Disk {
    d.(patches := Put(Put(d.patches, name + ".part", s.part), name, s.dst))
  }

  /** The patch to use, if there is an old blob to apply it to. */
  function Route(d: Disk, man: Manifest, ratio: real): (best: Option<nat>)
    ensures best.Some? ==> best.value < |man.patchesIn|
  {
    var cur := d.saved.current;
    if cur != "" && cur != man.version && cur in d.blobs
    then Pick(man.patchesIn, cur, Cap(man.blobSize, FallbackRatio(ratio)))
    else None
  }

  function Fetch(t: Tools, d: Disk, man: Manifest, ratio: real, env: FetchEnv): Fetched {
    var best := Route(d, man, ratio);
    if best.None? then
      var r := Attempt(t.hash, man.blobSha, BlobSlot(d, man.version), env.blob);
      Fetched(PutBlob(d, man.version, r.slot), r.exit)
    else
      var p, name := man.patchesIn[best.value], PatchName(d.saved.current, man.version);
      var r := Attempt(t.hash, p.sha, PatchSlot(d, name), env.patch);
      var d1 := PutPatch(d, name, r.slot);
      if !r.exit.Done? then Fetched(d1, r.exit)
      else
        var out := t.bspatch(Get(d.blobs, d.saved.current).GetOr([]), Get(d1.patches, name).GetOr([]));
        var r2 := Apply(t.hash, man.blobSha, p.patcher, BlobSlot(d1, man.version), env.apply.(out := out));
        Fetched(PutBlob(d1, man.version, r2.slot), r2.exit)
  }

  method FetchBlob(m: Machine, t: Tools, man: Manifest, ratio: real, env: FetchEnv) returns (exit: Exit)
    modifies m
    ensures m.Later() && m.slips == old(m.slips)
    ensures m.dead == (old(m.dead) || exit.Died?)
    ensures old(m.dead) ==> exit == Died
    ensures !old(m.dead) ==> Fetched(m.disk, exit) == Fetch(t, old(m.disk), man, ratio, env)
  {
    if m.dead { return Died; }
    var cur := m.disk.saved.current;
    var written: nat;
    if cur != "" && cur != man.version {
      if cur in m.disk.blobs {
        var pref := PickPatch(man.patchesIn, cur, man.blobSize, FallbackRatio(ratio));
        if pref.Some? {
          var p, name := man.patchesIn[pref.value], PatchName(cur, man.version);
          var s := PatchSlot(m.disk, name);
          var download := new Transfer(t.hash, s.part, s.dst);
          written, exit := download.DownloadHashed(p.sha, env.patch);
          m.disk := PutPatch(m.disk, name, Slot(download.part, download.dst));
          if !exit.Done? {
            m.dead := exit.Died?;
            return;
          }
          var out := t.bspatch(m.disk.blobs[cur], Get(m.disk.patches, name).GetOr([]));
          s := BlobSlot(m.disk, man.version);
          var decoder := new Transfer(t.hash, s.part, s.dst);
          written, exit := decoder.ApplyPatch(man.blobSha, p.patcher, env.apply.(out := out));
          m.disk := PutBlob(m.disk, man.version, Slot(decoder.part, decoder.dst));
          m.dead := exit.Died?;
          return;
        }
      }
    }
    var s := BlobSlot(m.disk, man.version);
    var download := new Transfer(t.hash, s.part, s.dst);
    written, exit := download.DownloadHashed(man.blobSha, env.blob);
    m.disk := PutBlob(m.disk, man.version, Slot(download.part, download.dst));
    m.dead := exit.Died?;
  }

  /** The patch route is taken exactly when another version is current, its blob is on disk, and the
      manifest has a bsdiff patch from it within the configured share of the blob, 0.7 by default, or
      that share is less than a byte. */
  lemma PatchRouteTakenIff(d: Disk, man: Manifest, ratio: real)
    ensures var cur := d.saved.current;
            Route(d, man, ratio).Some? <==>
              && cur != "" && cur != man.version && cur in d.blobs
              && exists p :: p in man.patchesIn && Allowed(p, cur, Share(man.blobSize, ratio))
  {
    var cur, cap := d.saved.current, Cap(man.blobSize, FallbackRatio(ratio));
    PickIsEarliestSmallest(man.patchesIn, cur, cap);
    forall p ensures Eligible(p, cur, cap) <==> Allowed(p, cur, Share(man.blobSize, ratio)) {
      EligibleIff(p, cur, man.blobSize, ratio);
    }
    if Pick(man.patchesIn, cur, cap).None? {
      forall p | p in man.patchesIn ensures !Eligible(p, cur, cap) {
        var i :| 0 <= i < |man.patchesIn| && man.patchesIn[i] == p;
      }
    }
  }

  /** Every call of the patch application works. */
  predicate Unhindered(env: PatchEnv) {
    && env.readOld.Works? && env.readPatch.Works? && env.create.Works? && env.write.Stored?
    && env.rename.Works? && env.leave.Works?
  }

  /** The patch route works: if the patch `q` can be downloaded, resuming from whatever part of it is
      there, and decoding it against the blob of the current version gives a file with the manifest's
      digest, the fetch ends well and that file is the blob. */
  lemma PatchRouteDelivers(t: Tools, d: Disk, man: Manifest, ratio: real, env: FetchEnv, q: Bytes, blob: Bytes)
    requires Route(d, man, ratio).Some?
    requires var p, slot := man.patchesIn[Route(d, man, ratio).value], PatchSlot(d, PatchName(d.saved.current, man.version));
             Digest(t.hash, q) == p.sha && TornPrefix(q, slot.part) && Ready(t.hash, q, slot, env.patch)
    requires t.bspatch(d.blobs[d.saved.current], q) == Some(blob) && Digest(t.hash, blob) == man.blobSha && Unhindered(env.apply)
    ensures var f := Fetch(t, d, man, ratio, env);
            f.exit.Done? && Get(f.disk.blobs, man.version) == Some(blob) && man.version !in f.disk.parts
  {
    var p, name := man.patchesIn[Route(d, man, ratio).value], PatchName(d.saved.current, man.version);
    PickIsEarliestSmallest(man.patchesIn, d.saved.current, Cap(man.blobSize, FallbackRatio(ratio)));
    assert p.patcher == "bsdiff";
    ReadyDownloads(t.hash, q, PatchSlot(d, name), env.patch);
    var r := Attempt(t.hash, p.sha, PatchSlot(d, name), env.patch);
    assert r.slot == Slot(None, Some(q));
    assert Get(PutPatch(d, name, r.slot).patches, name) == Some(q);
  }

  /** ... and what the patch route puts in place is always the decoding of a patch with the digest
      named, against the blob of the current version. */
  lemma PatchRouteDecodes(t: Tools, d: Disk, man: Manifest, ratio: real, env: FetchEnv)
    requires Route(d, man, ratio).Some? && Fetch(t, d, man, ratio, env).exit.Done?
    ensures var p, blobs := man.patchesIn[Route(d, man, ratio).value], Fetch(t, d, man, ratio, env).disk.blobs;
            exists q :: Digest(t.hash, q) == p.sha && t.bspatch(d.blobs[d.saved.current], q) == Get(blobs, man.version) != None
  {
    var p, name := man.patchesIn[Route(d, man, ratio).value], PatchName(d.saved.current, man.version);
    AttemptIntegrity(t.hash, p.sha, PatchSlot(d, name), env.patch);
    var r := Attempt(t.hash, p.sha, PatchSlot(d, name), env.patch);
    var d1 := PutPatch(d, name, r.slot);
    var q := r.slot.dst.value;
    assert Get(d1.patches, name) == Some(q);
    var out := t.bspatch(d.blobs[d.saved.current], q);
    ApplyEndsIff(t.hash, man.blobSha, p.patcher, BlobSlot(d1, man.version), env.apply.(out := out));
    assert t.bspatch(d.blobs[d.saved.current], q) == Get(Fetch(t, d, man, ratio, env).disk.blobs, man.version);
  }

  /** The full-blob route works, resuming from whatever part of the blob is there. */
  lemma BlobRouteDelivers(t: Tools, d: Disk, man: Manifest, ratio: real, env: FetchEnv, blob: Bytes)
    requires Route(d, man, ratio).None? && Digest(t.hash, blob) == man.blobSha
    requires TornPrefix(blob, BlobSlot(d, man.version).part) && Ready(t.hash, blob, BlobSlot(d, man.version), env.blob)
    ensures var f := Fetch(t, d, man, ratio, env);
            f.exit.Done? && Get(f.disk.blobs, man.version) == Some(blob) && man.version !in f.disk.parts
  {
    ReadyDownloads(t.hash, blob, BlobSlot(d, man.version), env.blob);
  }

  /** Whichever route is taken and whatever the old blob, the patch, the server and the disk do:
      only this version's blob and the patch files are touched, reaching the end means the blob
      file has the manifest's digest, an error leaves every blob alone, and a death leaves this
      one as it was or correct. */
  lemma FetchIntegrity(t: Tools, d: Disk, man: Manifest, ratio: real, env: FetchEnv)
    ensures var f := Fetch(t, d, man, ratio, env);
            && f.disk == d.(blobs := f.disk.blobs, parts := f.disk.parts, patches := f.disk.patches)
            && (forall w :: w != man.version ==> Get(f.disk.blobs, w) == Get(d.blobs, w) && Get(f.disk.parts, w) == Get(d.parts, w))
            && (f.exit.Failed? ==> f.disk.blobs == d.blobs)
            && (f.exit.Done? ==> man.version in f.disk.blobs && Digest(t.hash, f.disk.blobs[man.version]) == man.blobSha)
            && (Get(f.disk.blobs, man.version) == Get(d.blobs, man.version) ||
                (man.version in f.disk.blobs && Digest(t.hash, f.disk.blobs[man.version]) == man.blobSha))
  {
    var best := Route(d, man, ratio);
    if best.None? {
      AttemptIntegrity(t.hash, man.blobSha, BlobSlot(d, man.version), env.blob);
    } else {
      var p, name := man.patchesIn[best.value], PatchName(d.saved.current, man.version);
      var r := Attempt(t.hash, p.sha, PatchSlot(d, name), env.patch);
      var d1 := PutPatch(d, name, r.slot);
      if r.exit.Done? {
        var out := t.bspatch(Get(d.blobs, d.saved.current).GetOr([]), Get(d1.patches, name).GetOr([]));
        ApplyIntegrity(t.hash, man.blobSha, p.patcher, BlobSlot(d1, man.version), env.apply.(out := out));
      }
    }
  }
}
