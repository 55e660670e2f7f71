/** Install, Revert, and the retention that follows an install (client/libota), and the
    extractor they use (client/internal/tarx). */
module Installer {
  import opened Hashing
  import opened Paths
  import opened Home
  import opened Machines
  import opened Platform
  import opened Fetching

  // ---------------------------------------------------------------- extraction

  lemma {:induction false} UnpackStops(entries: seq<Entry>, tree: Tree, n: nat)
    requires n <= |entries| && Unpack(entries[..n], tree).None?
    ensures Unpack(entries, tree).None?
  {
    if n < |entries| {
      assert entries[..|entries| - 1][..n] == entries[..n];
      UnpackStops(entries[..|entries| - 1], tree, n);
    } else {
      assert entries[..n] == entries;
    }
  }

  /** One entry more: it fails with the entry, and then the whole fails. */
  lemma UnpackNext(entries: seq<Entry>, tree: Tree, i: nat)
    requires i < |entries| && Unpack(entries[..i], tree).Some?
    ensures Unpack(entries[..i + 1], tree) == UnpackOne(entries[i], Unpack(entries[..i], tree).value)
    ensures UnpackOne(entries[i], Unpack(entries[..i], tree).value).None? ==> Unpack(entries, tree).None?
  {
    assert entries[..i + 1][..i] == entries[..i];
    if Unpack(entries[..i + 1], tree).None? { UnpackStops(entries, tree, i + 1); }
  }

  /** Extract one archive below `root`, which is the directory `dist`. */
  method Extract(m: Machine, archive: Archive, root: Comps, dist: string) returns (ok: bool)
    requires Plain(root) && dist in m.disk.dists
    modifies m
    ensures m.Later() && m.slips == old(m.slips)
    ensures OnlyDist(old(m.disk), m.disk, dist) && dist in m.disk.dists
    ensures ok ==> !archive.bad && Unpack(archive.entries, old(m.disk).dists[dist]) == Some(m.disk.dists[dist])
    ensures m.Calm() ==> ok == (!archive.bad && Unpack(archive.entries, old(m.disk).dists[dist]).Some?)
  {
    ghost var tree := m.disk.dists[dist];
    var entries := archive.entries;
    var i := 0;
    while i < |entries|
      invariant 0 <= i <= |entries| && dist in m.disk.dists
      invariant m.Later() && m.slips == old(m.slips) && OnlyDist(old(m.disk), m.disk, dist)
      invariant Unpack(entries[..i], tree) == Some(m.disk.dists[dist])
    {
      UnpackNext(entries, tree, i);
      ok := ExtractEntry(m, entries[i], root, dist);
      if !ok { return; }
      i := i + 1;
    }
    assert entries[..|entries|] == entries;
    return !archive.bad;
  }

  method ExtractEntry(m: Machine, e: Entry, root: Comps, dist: string) returns (ok: bool)
    requires Plain(root) && dist in m.disk.dists
    modifies m
    ensures m.Later() && m.slips == old(m.slips)
    ensures OnlyDist(old(m.disk), m.disk, dist) && dist in m.disk.dists
    ensures ok ==> UnpackOne(e, old(m.disk).dists[dist]) == Some(m.disk.dists[dist])
    ensures m.Calm() ==> ok == UnpackOne(e, old(m.disk).dists[dist]).Some?
  {
    if !e.regular { return true; }
    var path := Locate(root, e.name);
    if path.None? { return false; }
    var mode := e.mode % 0x200;
    if mode == 0 {
      mode := 420;
    }
    ok := WriteEntry(m, dist, path.value, mode, e.data, e.whole);
  }

  /** Create the file, copy what the archive has of it, and close it. */
  method WriteEntry(m: Machine, dist: string, path: Comps, mode: int, data: Bytes, whole: bool) returns (ok: bool)
    requires dist in m.disk.dists
    modifies m
    ensures m.Later() && m.slips == old(m.slips)
    ensures OnlyDist(old(m.disk), m.disk, dist) && dist in m.disk.dists
    ensures ok ==> !Blocked(old(m.disk).dists[dist], path) && whole &&
                   m.disk.dists[dist] == Created(old(m.disk).dists[dist], path, mode, data)
    ensures m.Calm() ==> ok == (!Blocked(old(m.disk).dists[dist], path) && whole)
  {
    ghost var tree := m.disk.dists[dist];
    ok := m.CreateFile(dist, path, mode);
    if !ok { return; }
    FilledIsCreated(tree, path, mode, data);
    ok := FillAndClose(m, dist, path, data, whole);
  }

  method FillAndClose(m: Machine, dist: string, path: Comps, data: Bytes, whole: bool) returns (ok: bool)
    requires dist in m.disk.dists && path in m.disk.dists[dist]
    modifies m
    ensures m.Later() && m.slips == old(m.slips)
    ensures OnlyDist(old(m.disk), m.disk, dist) && dist in m.disk.dists
    ensures ok ==> whole && m.disk.dists[dist] == Machine.Refilled(old(m.disk).dists[dist], path, data)
    ensures m.Calm() ==> ok == whole
  {
    ok := m.FillFile(dist, path, data);
    if !ok || !whole { return false; }
    ok := m.Call();
  }

  lemma FilledIsCreated(tree: Tree, path: Comps, mode: int, data: Bytes)
    ensures Machine.Refilled(Created(tree, path, mode, []), path, data) == Created(tree, path, mode, data)
  {
  }

  /** The two name checks. The path is below the root, so its part below the root says where. */
  method Locate(root: Comps, name: string) returns (path: Option<Comps>)
    requires Plain(root)
    ensures path == PlacedAt(name)
  {
    Tarx.PlaceBelow(root, name);
    if Tarx.SafeName(name).Some? { return None; }
    var out := JoinOnto(Absolute(root), name);
    if HasPrefix(Rel(root, out), "..") { return None; }
    return Some(out[|root|..]);
  }

  // ---------------------------------------------------------------- the request

  /** What the server presented for the requested version. */
  datatype Offer = Offer(fetched: bool, pubkey: string, signed: bool, parsed: bool, manifest: Manifest)

  datatype Request = Request(software: string, version: string, trusted: seq<string>, ratio: real, offer: Offer)

  /** The trust gate: a configured set of keys, or else the first key seen. */
  function CheckTrust(pinned: string, trusted: seq<string>, presented: string): bool {
    if |trusted| > 0 then presented in trusted
    else pinned == "" || pinned == presented
  }

  predicate Acceptable(st: State, req: Request) {
    && req.offer.fetched
    && CheckTrust(st.pubkey, req.trusted, req.offer.pubkey)
    && req.offer.signed && req.offer.parsed
    && req.offer.manifest.software == req.software && req.offer.manifest.version == req.version
  }

  const ARCHIVED: string := ".archived"

  /** Versions the layout can hold: usable as one path component, and not the archived form
      of another version. */
  predicate ValidVersion(v: string) {
    v != "" && '/' !in v && !(|v| >= |ARCHIVED| && v[|v| - |ARCHIVED|..] == ARCHIVED)
  }

  /** The saved state after installing `version`. */
  function NextState(st: State, version: string, pubkey: string): State {
    if st.current == version then st.(pubkey := pubkey)
    else State(version, if st.current != "" then st.current else st.previous, st.history + [version], pubkey)
  }

  /** The version whose material retention drops. */
  function Retired(st: State): Option<string> {
    if |st.history| < 3 then None else Some(st.history[|st.history| - 3])
  }

  predicate PatchOf(name: string, from: string) {
    |name| > |from + "-to-"| && from + "-to-" <= name
  }

  // ---------------------------------------------------------------- outcomes

  datatype Stage = Preparing | Refusing | Fetching | Unpacking | Flipping(flip: Flip) | Saving
  datatype Report = Installed | NotInstalled(at: Stage)

  ghost predicate SamePointers(before: Disk, after: Disk) {
    after.links == before.links && after.shims == before.shims
  }

  /** Every blob file is the one from before or the one just verified. */
  ghost predicate BlobsLeft(t: Tools, before: Disk, after: Disk, version: string, sha: string) {
    forall w :: w in after.blobs ==>
      Get(before.blobs, w) == Some(after.blobs[w]) || (w == version && Digest(t.hash, after.blobs[w]) == sha)
  }

  ghost predicate BlobsKept(before: Disk, after: Disk, touched: set<string>) {
    forall w :: w !in touched ==> Get(after.blobs, w) == Get(before.blobs, w)
  }

  ghost predicate DistsLeft(before: Disk, after: Disk, touched: set<string>) {
    forall n :: n !in touched ==> Get(after.dists, n) == Get(before.dists, n)
  }

  /** The distribution just extracted is complete; without a slip it holds nothing else. */
  ghost predicate Extracted(t: Tools, after: Disk, version: string, sha: string, slipped: bool) {
    DistName(version) in after.dists && Full(t, sha, after.dists[DistName(version)], !slipped)
  }

  /** What retention may remove, and what it does remove when it is neither cut short nor slips. */
  ghost predicate RetentionLeaves(before: Disk, after: Disk, st: State, finished: bool) {
    && after == before.(blobs := after.blobs, dists := after.dists, patches := after.patches)
    && match Retired(st)
       case None => after == before
       case Some(older) =>
         && (after.blobs == before.blobs || after.blobs == before.blobs - {older})
         && (finished ==> older !in after.blobs && DistName(older) + ARCHIVED !in after.dists)
         && DistsLeft(before, after, {DistName(older) + ARCHIVED})
         && (forall n :: n in before.patches && !PatchOf(n, older) ==> n in after.patches)
         && Submap(after.patches, before.patches)
  }

  /** Only an acceptable offer gets this far. */
  predicate PastGate(stage: Stage) { !stage.Preparing? && !stage.Refusing? }

  /** Everything an install can leave behind, by what it reports. `slipped` says that a removal
      failed where the code ignores it, `dead` that the process died at that point. */
  ghost predicate InstallLeaves(t: Tools, before: Disk, after: Disk, req: Request, report: Report, slipped: bool, dead: bool) {
    var v, sha := req.version, req.offer.manifest.blobSha;
    && BlobsLeft(t, before, after, v, sha)
    && match report
       case NotInstalled(stage) =>
         && after.saved == before.saved
         && DistsLeft(before, after, {DistName(v)}) && BlobsKept(before, after, {v})
         && (PastGate(stage) ==> Acceptable(before.saved, req))
         && (PastGate(stage) && !stage.Fetching? ==> v in after.blobs)
         && (match stage
             case Preparing => after == before
             case Refusing => after == before && !Acceptable(before.saved, req)
             case Fetching => SamePointers(before, after) && after.dists == before.dists && (!dead ==> after.blobs == before.blobs)
             case Unpacking => SamePointers(before, after)
             case Flipping(flip) => !flip.Flipped? && FlipLeaves(before, after, v, flip, slipped) && Extracted(t, after, v, sha, slipped)
             case Saving => FlipLeaves(before, after, v, Flipped, slipped) && Extracted(t, after, v, sha, slipped))
       case Installed =>
         && Acceptable(before.saved, req)
         && FlipLeaves(before, after, v, Flipped, slipped)
         && Extracted(t, after, v, sha, slipped)
         && after.saved == NextState(before.saved, v, req.offer.pubkey)
         && (var older := Retired(after.saved);
             && (older.None? ==> v in after.blobs && BlobsKept(before, after, {v}) && DistsLeft(before, after, {DistName(v)}))
             && (older.Some? ==>
                   && (v in after.blobs || v == older.value)
                   && (!slipped && !dead ==> older.value !in after.blobs)
                   && BlobsKept(before, after, {v, older.value})
                   && DistsLeft(before, after, {DistName(v), DistName(older.value) + ARCHIVED})))
  }

  lemma NotArchivedName(v: string, older: string)
    requires ValidVersion(v)
    ensures DistName(v) != DistName(older) + ARCHIVED
  {
    var a, b := DistName(v), DistName(older) + ARCHIVED;
    if |a| == |b| {
      assert a[|a| - |v|..] == v;
      assert b[|b| - |ARCHIVED|..] == ARCHIVED;
      assert |v| >= |ARCHIVED| ==> a[|a| - |ARCHIVED|..] == v[|v| - |ARCHIVED|..];
    }
  }

  // ---------------------------------------------------------------- retention

  /** No patch from the retired version is left. */
  ghost predicate PatchesTidied(d: Disk) {
    Retired(d.saved).Some? ==> forall n :: n in d.patches ==> !PatchOf(n, Retired(d.saved).value)
  }

  method PruneOldArtefacts(m: Machine, st: State)
    modifies m
    ensures m.Later()
    ensures RetentionLeaves(old(m.disk), m.disk, st, !m.dead && m.slips == old(m.slips))
    ensures m.Calm() && st == m.disk.saved ==> PatchesTidied(m.disk)
  {
    if |st.history| < 3 { return; }
    var older := st.history[|st.history| - 3];
    m.RemoveBlob(older);
    var archived := m.RemoveTree(DistName(older) + ARCHIVED);
    var listed := m.Call();
    if listed {
      RemovePatches(m, older);
    }
  }

  /** Patch files matching `<older>-to-*`. */
  method RemovePatches(m: Machine, older: string)
    modifies m
    ensures m.Later()
    ensures m.disk == old(m.disk).(patches := m.disk.patches)
    ensures Submap(m.disk.patches, old(m.disk).patches)
    ensures forall n :: n in old(m.disk).patches && !PatchOf(n, older) ==> n in m.disk.patches
    ensures !m.dead && m.slips == old(m.slips) ==> forall n :: n in m.disk.patches ==> !PatchOf(n, older)
  {
    var todo := m.disk.patches.Keys;
    while todo != {}
      invariant m.Later() && m.disk == old(m.disk).(patches := m.disk.patches)
      invariant Submap(m.disk.patches, old(m.disk).patches)
      invariant forall n :: n in old(m.disk).patches && !PatchOf(n, older) ==> n in m.disk.patches
      invariant !m.dead && m.slips == old(m.slips) ==> forall n :: n in m.disk.patches && PatchOf(n, older) ==> n in todo
      decreases todo
    {
      var name :| name in todo;
      todo := todo - {name};
      if PatchOf(name, older) {
        m.RemovePatch(name);
      }
    }
  }

  // ---------------------------------------------------------------- install

  /** Remove whatever is there, then make the directory. */
  method FreshTree(m: Machine, dist: string) returns (ok: bool)
    modifies m
    ensures m.Later()
    ensures OnlyDist(old(m.disk), m.disk, dist)
    ensures ok ==> dist in m.disk.dists && (m.slips == old(m.slips) ==> m.disk.dists[dist] == map[])
    ensures m.Calm() ==> ok
  {
    var removed := m.RemoveTree(dist);
    ok := m.MakeTree(dist);
  }

  /** Replace the distribution directory by the unpacked blob. */
  method Unpacked(m: Machine, t: Tools, home: Comps, version: string) returns (ok: bool)
    requires Plain(home) && ValidVersion(version)
    requires version in m.disk.blobs
    modifies m
    ensures m.Later()
    ensures OnlyDist(old(m.disk), m.disk, DistName(version))
    ensures ok ==> DistName(version) in m.disk.dists &&
                   Holds(t.untar(old(m.disk).blobs[version]), m.disk.dists[DistName(version)]) &&
                   (m.slips == old(m.slips) ==> UnpackBlob(t, old(m.disk).blobs[version]) == Some(m.disk.dists[DistName(version)]))
    ensures m.Calm() ==> ok == UnpackBlob(t, old(m.disk).blobs[version]).Some?
  {
    var dist := DistName(version);
    ok := FreshTree(m, dist);
    if !ok { return; }
    ok := m.Call();
    if !ok { return; }
    ghost var leftover := m.disk.dists[dist];
    assert Plain(home + [dist]);
    ok := Extract(m, t.untar(m.disk.blobs[version]), home + [dist], dist);
    if !ok { return; }
    UnpackHoldsOverLeftovers(t.untar(m.disk.blobs[version]), leftover);
    ok := m.Call();
  }

  method Examine(st: State, req: Request) returns (ok: bool)
    ensures ok == Acceptable(st, req)
  {
    var man := req.offer.manifest;
    if !req.offer.fetched { return false; }
    if !CheckTrust(st.pubkey, req.trusted, req.offer.pubkey) { return false; }
    if !req.offer.signed { return false; }
    if !req.offer.parsed { return false; }
    if man.software != req.software || man.version != req.version { return false; }
    return true;
  }

  /** The pointers, and possibly the temporary state file. */
  ghost predicate Unsaved(before: Disk, after: Disk) {
    after == before.(links := after.links, shims := after.shims, stateTmp := after.stateTmp)
  }

  ghost predicate CommitLeaves(before: Disk, after: Disk, version: string, pubkey: string, report: Report, slipped: bool, dead: bool) {
    match report
    case NotInstalled(Flipping(flip)) =>
      PointersOnly(before, after) && !flip.Flipped? && FlipLeaves(before, after, version, flip, slipped)
    case NotInstalled(Saving) =>
      Unsaved(before, after) && FlipLeaves(before, after, version, Flipped, slipped)
    case NotInstalled(_) => false
    case Installed =>
      && FlipLeaves(before, after, version, Flipped, slipped)
      && after.saved == NextState(before.saved, version, pubkey)
      && RetentionLeaves(before.(links := after.links, shims := after.shims, saved := after.saved, stateTmp := after.stateTmp),
                         after, after.saved, !slipped && !dead)
  }

  /** From the flip to the end: nothing here can fail after state.json has been renamed. */
  method Commit(m: Machine, st: State, version: string, pubkey: string) returns (report: Report)
    requires st == m.disk.saved
    modifies m
    ensures m.Later()
    ensures CommitLeaves(old(m.disk), m.disk, version, pubkey, report, m.slips > old(m.slips), m.dead)
    ensures m.Calm() ==> report.Installed? && Symlinked(m.disk, version) && PatchesTidied(m.disk)
    ensures report.Installed? && Get(m.disk.links, Current) != Some(DistName(version)) ==> m.linkFaults > old(m.linkFaults)
  {
    var flip := FlipCurrent(m, version);
    if !flip.Flipped? { return NotInstalled(Flipping(flip)); }
    report := Conclude(m, st, version, pubkey, old(m.disk), old(m.slips));
  }

  /** After the flip: save, and retain. */
  method Conclude(m: Machine, st: State, version: string, pubkey: string, ghost before: Disk, ghost slips: nat)
    returns (report: Report)
    requires st == before.saved && slips <= m.slips
    requires PointersOnly(before, m.disk) && FlipLeaves(before, m.disk, version, Flipped, m.slips > slips)
    modifies m
    ensures m.Later() && m.disk.links == old(m.disk).links && m.disk.shims == old(m.disk).shims
    ensures report.Installed? || report == NotInstalled(Saving)
    ensures CommitLeaves(before, m.disk, version, pubkey, report, m.slips > slips, m.dead)
    ensures m.Calm() ==> report.Installed? && PatchesTidied(m.disk)
  {
    ghost var flipped, early := m.disk, m.slips;
    var next := Advance(st, version, pubkey);
    var ok := SaveAndRetain(m, next);
    FlipCarries(before, before, flipped, version, early > slips, m.slips > slips);
    if !ok {
      CommitUnsaved(before, flipped, m.disk, version, pubkey, m.slips > slips, m.dead);
      return NotInstalled(Saving);
    }
    CommitDone(before, flipped, m.disk, version, pubkey, m.slips > slips, m.dead);
    return Installed;
  }

  lemma CommitUnsaved(before: Disk, flipped: Disk, after: Disk, version: string, pubkey: string, slipped: bool, dead: bool)
    requires PointersOnly(before, flipped) && FlipLeaves(before, flipped, version, Flipped, slipped)
    requires after == flipped.(stateTmp := after.stateTmp)
    ensures CommitLeaves(before, after, version, pubkey, NotInstalled(Saving), slipped, dead)
  {
  }

  method Advance(st: State, version: string, pubkey: string) returns (next: State)
    ensures next == NextState(st, version, pubkey)
  {
    next := st.(pubkey := pubkey);
    if st.current != version {
      if st.current != "" { next := next.(previous := st.current); }
      next := next.(current := version, history := st.history + [version]);
    }
  }

  method SaveAndRetain(m: Machine, next: State) returns (ok: bool)
    modifies m
    ensures m.Later()
    ensures !ok ==> m.disk == old(m.disk).(stateTmp := m.disk.stateTmp)
    ensures ok ==> RetentionLeaves(old(m.disk).(saved := next, stateTmp := m.disk.stateTmp), m.disk, next, !m.dead && m.slips == old(m.slips))
    ensures m.disk.links == old(m.disk).links && m.disk.shims == old(m.disk).shims
    ensures m.Calm() ==> ok && PatchesTidied(m.disk)
  {
    ok := Save(m, next);
    if !ok { return; }
    PruneOldArtefacts(m, next);
  }

  lemma CommitDone(before: Disk, flipped: Disk, after: Disk, version: string, pubkey: string, slipped: bool, dead: bool)
    requires PointersOnly(before, flipped) && FlipLeaves(before, flipped, version, Flipped, slipped)
    requires var next := NextState(before.saved, version, pubkey);
             RetentionLeaves(flipped.(saved := next, stateTmp := after.stateTmp), after, next, !slipped && !dead)
    ensures CommitLeaves(before, after, version, pubkey, Installed, slipped, dead)
  {
    assert flipped.(saved := after.saved, stateTmp := after.stateTmp) ==
           before.(links := after.links, shims := after.shims, saved := after.saved, stateTmp := after.stateTmp);
  }

  /** What an install has done when it comes to the flip. */
  ghost predicate ReadyToCommit(t: Tools, before: Disk, unpacked: Disk, req: Request, slipped: bool) {
    && ValidVersion(req.version) && Acceptable(before.saved, req)
    && SamePointers(before, unpacked) && unpacked.saved == before.saved
    && DistsLeft(before, unpacked, {DistName(req.version)}) && BlobsKept(before, unpacked, {req.version})
    && BlobsLeft(t, before, unpacked, req.version, req.offer.manifest.blobSha) && req.version in unpacked.blobs
    && Extracted(t, unpacked, req.version, req.offer.manifest.blobSha, slipped)
  }

  /** A commit after a completed extraction is an install outcome. */
  lemma CommitComposes(t: Tools, before: Disk, unpacked: Disk, after: Disk, req: Request, report: Report,
                       slippedLate: bool, slipped: bool, dead: bool)
    requires ReadyToCommit(t, before, unpacked, req, slipped) && (slippedLate ==> slipped)
    requires CommitLeaves(unpacked, after, req.version, req.offer.pubkey, report, slippedLate, dead)
    ensures InstallLeaves(t, before, after, req, report, slipped, dead)
  {
    FlipCarries(before, unpacked, after, req.version, slippedLate, slipped);
    if report.Installed? {
      var middle := unpacked.(links := after.links, shims := after.shims, saved := after.saved, stateTmp := after.stateTmp);
      RetentionComposes(t, before, middle, after, req.version, req.offer.manifest.blobSha, slipped, !slippedLate && !dead);
    } else {
      assert after.blobs == unpacked.blobs && after.dists == unpacked.dists;
    }
  }

  /** Retention after an install of `version` touches neither what it installed nor anything else. */
  lemma RetentionComposes(t: Tools, before: Disk, middle: Disk, after: Disk, version: string, sha: string, slipped: bool, finished: bool)
    requires RetentionLeaves(middle, after, after.saved, finished) && ValidVersion(version)
    requires DistsLeft(before, middle, {DistName(version)}) && BlobsKept(before, middle, {version})
    requires BlobsLeft(t, before, middle, version, sha) && version in middle.blobs
    requires Extracted(t, middle, version, sha, slipped)
    ensures BlobsLeft(t, before, after, version, sha) && Extracted(t, after, version, sha, slipped)
    ensures var older := Retired(after.saved);
            && (older.None? ==> version in after.blobs && BlobsKept(before, after, {version}) && DistsLeft(before, after, {DistName(version)}))
            && (older.Some? ==>
                  && (version in after.blobs || version == older.value)
                  && (finished ==> older.value !in after.blobs)
                  && BlobsKept(before, after, {version, older.value})
                  && DistsLeft(before, after, {DistName(version), DistName(older.value) + ARCHIVED}))
  {
    var older := Retired(after.saved);
    if older.Some? {
      NotArchivedName(version, older.value);
      assert Get(after.dists, DistName(version)) == Get(middle.dists, DistName(version));
    }
  }

  /** A flip outcome depends on the pointers only, and tolerates more slips. */
  lemma FlipCarries(before: Disk, middle: Disk, after: Disk, version: string, few: bool, many: bool)
    requires SamePointers(before, middle) && (few ==> many)
    ensures forall flip :: FlipLeaves(middle, after, version, flip, few) ==> FlipLeaves(before, after, version, flip, many)
  {
  }

  method Install(m: Machine, t: Tools, home: Comps, req: Request, env: FetchEnv) returns (report: Report)
    requires Plain(home) && ValidVersion(req.version)
    modifies m
    ensures m.Later()
    ensures InstallLeaves(t, old(m.disk), m.disk, req, report, m.slips > old(m.slips), m.dead)
    ensures var man := req.offer.manifest;
            var f := Fetch(t, old(m.disk), man, req.ratio, env);
            m.Calm() ==>
              (report.Installed? <==> Acceptable(old(m.disk.saved), req) && f.exit.Done? &&
                                      UnpackBlob(t, Get(f.disk.blobs, req.version).GetOr([])).Some?)
    ensures var o, pinned := req.offer, old(m.disk.saved.pubkey);
            m.Calm() ==>
              (report != NotInstalled(Refusing) <==>
                && o.fetched && o.signed && o.parsed && o.manifest.software == req.software && o.manifest.version == req.version
                && (if req.trusted == [] then pinned == "" || o.pubkey == pinned else o.pubkey in req.trusted))
    ensures m.Calm() && report.Installed? ==> Symlinked(m.disk, req.version) && PatchesTidied(m.disk)
    ensures report.Installed? && Get(m.disk.links, Current) != Some(DistName(req.version)) ==> m.linkFaults > old(m.linkFaults)
  {
    var ok := m.Call();
    if !ok { return NotInstalled(Preparing); }
    ok := m.Call();
    if !ok { return NotInstalled(Preparing); }
    var st := m.disk.saved;
    var man := req.offer.manifest;
    ok := Examine(st, req);
    if !ok { return NotInstalled(Refusing); }
    FetchIntegrity(t, m.disk, man, req.ratio, env);
    var exit := FetchBlob(m, t, man, req.ratio, env);
    if !exit.Done? { return NotInstalled(Fetching); }
    ok := Unpacked(m, t, home, req.version);
    if !ok { return NotInstalled(Unpacking); }
    ghost var unpacked, slips := m.disk, m.slips;
    report := Commit(m, st, req.version, req.offer.pubkey);
    CommitComposes(t, old(m.disk), unpacked, m.disk, req, report, m.slips > slips, m.slips > old(m.slips), m.dead);
  }

  // ---------------------------------------------------------------- revert

  datatype Reversal = Reverted | NotReverted(at: Stage)

  ghost predicate RevertLeaves(before: Disk, after: Disk, r: Reversal, slipped: bool) {
    var st := before.saved;
    && after == before.(links := after.links, shims := after.shims, saved := after.saved, stateTmp := after.stateTmp)
    && match r
       case Reverted =>
         && st.previous != ""
         && FlipLeaves(before, after, st.previous, Flipped, slipped)
         && after.saved == st.(current := st.previous, previous := st.current)
       case NotReverted(stage) =>
         && after.saved == st
         && (match stage
             case Flipping(flip) => !flip.Flipped? && st.previous != "" && FlipLeaves(before, after, st.previous, flip, slipped)
             case Saving => st.previous != "" && FlipLeaves(before, after, st.previous, Flipped, slipped)
             case _ => after == before)
  }

  method Revert(m: Machine) returns (r: Reversal)
    modifies m
    ensures m.Later()
    ensures RevertLeaves(old(m.disk), m.disk, r, m.slips > old(m.slips))
    ensures m.Calm() ==> r.Reverted? == (old(m.disk.saved.previous) != "")
    ensures m.Calm() && r.Reverted? ==> Symlinked(m.disk, m.disk.saved.current)
    ensures r.Reverted? && Get(m.disk.links, Current) != Some(DistName(m.disk.saved.current)) ==> m.linkFaults > old(m.linkFaults)
  {
    var ok := m.Call();
    if !ok { return NotReverted(Preparing); }
    var st := m.disk.saved;
    if st.previous == "" { return NotReverted(Refusing); }
    var prev, cur := st.previous, st.current;
    var flip := FlipCurrent(m, prev);
    if !flip.Flipped? { return NotReverted(Flipping(flip)); }
    st := st.(current := prev, previous := cur);
    ok := Save(m, st);
    if !ok { return NotReverted(Saving); }
    return Reverted;
  }
}
