/** Which blobs and which history a home keeps, over runs without and with mishaps. */
module Retention {
  import opened Hashing
  import opened Paths
  import opened Home
  import opened Platform
  import opened Installer
  import opened InstallRuns
  import opened Outcomes

  ghost predicate NeighboursDiffer(h: seq<string>) {
    forall i :: 0 < i < |h| ==> h[i - 1] != h[i]
  }

  /** History ends in [Previous, Current]. */
  ghost predicate HistoryFits(st: State) {
    var h := st.history;
    && NeighboursDiffer(h)
    && (forall v :: v in h ==> v != "")
    && st.current == (if |h| >= 1 then h[|h| - 1] else "")
    && st.previous == (if |h| >= 2 then h[|h| - 2] else "")
  }

  /** The blobs on disk belong to the last two entries of the history. */
  ghost predicate BlobsFit(d: Disk) {
    var h := d.saved.history;
    forall v :: v in d.blobs ==> h != [] && (v == h[|h| - 1] || (|h| >= 2 && v == h[|h| - 2]))
  }

  predicate CleanInstall(op: Op) {
    op.Upgrade? && op.report.Installed? && !op.slipped && !op.dead
  }

  lemma InstallRetains(t: Tools, before: Disk, op: Op, after: Disk)
    requires Step(t, before, op, after) && CleanInstall(op)
    requires HistoryFits(before.saved) && BlobsFit(before)
    ensures HistoryFits(after.saved) && BlobsFit(after)
  {
    InstalledBlobs(t, before, after, op.req, op.slipped, op.dead);
    KeepsLastTwo(before, after, op.req.version, op.req.offer.pubkey);
  }

  lemma InstalledBlobs(t: Tools, before: Disk, after: Disk, req: Request, slipped: bool, dead: bool)
    requires InstallLeaves(t, before, after, req, Installed, slipped, dead) && !slipped && !dead
    ensures after.saved == NextState(before.saved, req.version, req.offer.pubkey)
    ensures forall w :: w in after.blobs ==> w == req.version || w in before.blobs
    ensures Retired(after.saved).Some? ==> Retired(after.saved).value !in after.blobs
  {
    forall w | w in after.blobs ensures w == req.version || w in before.blobs {
      assert w == req.version || Get(before.blobs, w) == Some(after.blobs[w]);
    }
  }

  lemma KeepsLastTwo(before: Disk, after: Disk, v: string, pubkey: string)
    requires HistoryFits(before.saved) && BlobsFit(before) && v != ""
    requires after.saved == NextState(before.saved, v, pubkey)
    requires forall w :: w in after.blobs ==> w == v || w in before.blobs
    requires Retired(after.saved).Some? ==> Retired(after.saved).value !in after.blobs
    ensures HistoryFits(after.saved) && BlobsFit(after)
  {
    HistoryGrows(before.saved, v, pubkey);
    BlobsStayFit(before.saved.history, after.saved.history, before.blobs.Keys, after.blobs.Keys, v);
  }

  /** Adding one blob and retiring the third-last version keeps the last two. */
  lemma BlobsStayFit(h: seq<string>, h': seq<string>, had: set<string>, has: set<string>, v: string)
    requires h' == h || h' == h + [v]
    requires h' != [] && h'[|h'| - 1] == v && NeighboursDiffer(h')
    requires forall w :: w in had ==> h != [] && (w == h[|h| - 1] || (|h| >= 2 && w == h[|h| - 2]))
    requires forall w :: w in has ==> (w == v || w in had) && (|h'| >= 3 ==> w != h'[|h'| - 3])
    ensures forall w :: w in has ==> w == h'[|h'| - 1] || (|h'| >= 2 && w == h'[|h'| - 2])
  {
  }

  lemma HistoryGrows(st: State, v: string, pubkey: string)
    requires HistoryFits(st) && v != ""
    ensures var next := NextState(st, v, pubkey);
            && HistoryFits(next) && next.history != [] && next.history[|next.history| - 1] == v
            && next.history == if st.current == v then st.history else st.history + [v]
  {
    var h := st.history;
    assert h != [] ==> h[|h| - 1] in h;
  }

  /** Over every Revert-free run of successful installs on a fresh home: the history ends in
      [Previous, Current] with different neighbours, at most two blobs are kept and they are of the
      last two versions; the version just retired is never Previous, and it is Current exactly
      when the history's last and third-from-last entries coincide. */
  lemma {:induction false} RetentionOverRuns(t: Tools, disks: seq<Disk>, ops: seq<Op>)
    requires IsRun(t, disks, ops) && disks[0] == EMPTY_DISK
    requires forall i :: 0 <= i < |ops| ==> CleanInstall(ops[i])
    ensures var d := disks[|ops|];
            && HistoryFits(d.saved) && BlobsFit(d) && |d.blobs| <= 2
            && (match Retired(d.saved)
                case None => true
                case Some(older) =>
                  var h := d.saved.history;
                  && older != d.saved.previous
                  && (older == d.saved.current <==> h[|h| - 1] == h[|h| - 3])
                  && (ops != [] ==> older !in d.blobs))
  {
    var d := disks[|ops|];
    if ops != [] {
      var n := |ops| - 1;
      RetentionOverRuns(t, disks[..n + 1], ops[..n]);
      assert disks[..n + 1][n] == disks[n];
      assert CleanInstall(ops[n]);
      InstallRetains(t, disks[n], ops[n], d);
      AtMostTwo(d);
    }
  }

  lemma AtMostTwo(d: Disk)
    requires BlobsFit(d)
    ensures |d.blobs| <= 2
  {
    var h := d.saved.history;
    if h == [] {
      assert d.blobs.Keys == {};
    } else {
      var two := {h[|h| - 1], if |h| >= 2 then h[|h| - 2] else h[|h| - 1]};
      assert d.blobs.Keys <= two;
      SubsetSize(d.blobs.Keys, two);
    }
  }

  lemma {:induction false} SubsetSize(a: set<string>, b: set<string>)
    requires a <= b
    ensures |a| <= |b|
  {
    if a != {} {
      var x :| x in a;
      SubsetSize(a - {x}, b - {x});
    }
  }

  /** After reverts retention can drop the blob of the new Previous, the base of the next patch: a
      clean install of another version keeps it exactly when the version it replaces is not the
      second-last of the history. A, B, revert, C is the shortest run that loses it. */
  lemma PreviousBlobKeptIff(t: Tools, before: Disk, op: Op, after: Disk)
    requires Step(t, before, op, after) && CleanInstall(op)
    requires before.saved.current != "" && before.saved.current != op.req.version && before.saved.current in before.blobs
    ensures var h := before.saved.history;
            after.saved.previous in after.blobs <==> !(|h| >= 2 && before.saved.current == h[|h| - 2])
  {
    var cur, h := before.saved.current, before.saved.history;
    assert |h| >= 2 ==> Retired(after.saved) == Some(h[|h| - 2]);
    assert Retired(after.saved) != Some(cur) ==> Get(after.blobs, cur) == Get(before.blobs, cur);
  }

  // ---------------------------------------------------------------- patches of the retired version

  /** In front of "-to-" the version is not cut short by another "-to-". */
  ghost predicate Separable(v: string) {
    forall i: nat :: i < |v| ==> !OccursAt(v + "-to-", "-to-", i)
  }

  /** Retention of a version takes the patches from it, whatever they lead to, and of the patches from
      another one none, unless one of the two versions is not separable. */
  lemma RetiredPatches(older: string, from: string, to: string)
    ensures PatchOf(PatchName(older, to), older)
    ensures Separable(older) && Separable(from) && from != older ==> !PatchOf(PatchName(from, to), older)
  {
    var name, a, b := PatchName(from, to), older + "-to-", from + "-to-";
    assert PatchName(older, to) == a + (to + ".patch");
    assert name == b + (to + ".patch");
    if a <= name {
      if |from| < |older| { BothPrefixes(name, older, from); }
      if |older| < |from| { BothPrefixes(name, from, older); }
      if |older| == |from| { assert older == name[..|older|] == from; }
    }
  }

  /** Of two versions in front of "-to-" in the same name, the longer one is not separable. */
  lemma BothPrefixes(name: string, v: string, w: string)
    requires v + "-to-" <= name && w + "-to-" <= name && |w| < |v|
    ensures !Separable(v)
  {
    var a := v + "-to-";
    assert a[|w|..][..4] == name[|w|..|w| + 4] == "-to-";
    assert OccursAt(a, "-to-", |w|);
  }

  /** Retention of one of the two versions would take a patch from the other. */
  ghost predicate Confused(v: string, w: string) {
    exists to :: PatchOf(PatchName(v, to), w) || PatchOf(PatchName(w, to), v)
  }

  /** The exact condition: a version is confused with no shorter one exactly when it is separable. The
      version "a-to" is not, and is confused with "a". */
  lemma SeparableIff(v: string)
    ensures Separable(v) <==> forall w :: |w| < |v| ==> !Confused(v, w)
  {
    if Separable(v) {
      forall w | |w| < |v| ensures !Confused(v, w) { ShorterIsSpared(v, w); }
    } else {
      var i: nat :| i < |v| && OccursAt(v + "-to-", "-to-", i);
      CutShort(v, i);
      assert Confused(v, v[..i]);
    }
  }

  lemma CutShort(v: string, i: nat)
    requires i < |v| && OccursAt(v + "-to-", "-to-", i)
    ensures PatchOf(PatchName(v, ""), v[..i])
  {
    var a, w := v + "-to-", v[..i];
    assert a[i..][..4] == "-to-";
    assert w + "-to-" == a[..i + 4];
    assert PatchName(v, "") == a + ".patch";
  }

  lemma ShorterIsSpared(v: string, w: string)
    requires Separable(v) && |w| < |v|
    ensures !Confused(v, w)
  {
    forall to ensures !PatchOf(PatchName(v, to), w) && !PatchOf(PatchName(w, to), v) {
      assert PatchName(v, to) == v + "-to-" + (to + ".patch") && PatchName(w, to) == w + "-to-" + (to + ".patch");
      if PatchOf(PatchName(v, to), w) {
        BothPrefixes(PatchName(v, to), v, w);
      } else if PatchOf(PatchName(w, to), v) {
        BothPrefixes(PatchName(w, to), v, w);
      }
    }
  }

  /** So after a retention in which nothing fails the patches from the retired version and its archived
      directory are gone, and every patch from another version is as it was. */
  lemma RetentionTakesItsPatches(before: Disk, after: Disk, st: State, from: string, to: string)
    requires RetentionLeaves(before, after, st, true) && after.saved == st && PatchesTidied(after)
    requires |st.history| >= 3 && Separable(from) && Separable(st.history[|st.history| - 3])
    ensures var older, name := st.history[|st.history| - 3], from + "-to-" + to + ".patch";
            && Get(after.patches, name) == (if from == older then None else Get(before.patches, name))
            && "distribution-" + older + ".archived" !in after.dists
  {
    RetiredPatches(Retired(st).value, from, to);
    assert PatchName(from, to) == from + "-to-" + to + ".patch";
  }

  // ---------------------------------------------------------------- blobs left behind

  function LastTwo(h: seq<string>): set<string> {
    (if |h| >= 1 then {h[|h| - 1]} else {}) + (if |h| >= 2 then {h[|h| - 2]} else {})
  }

  /** Blobs of versions other than the last two of the history: no later retention looks for them. */
  function Strays(d: Disk): set<string> { d.blobs.Keys - LastTwo(d.saved.history) }

  /** Neither among the last two nor on disk already. */
  predicate Unheard(d: Disk, v: string) { v !in LastTwo(d.saved.history) && v !in d.blobs }

  /** An operation that can add a stray, to be decided from the home before and what is reported: an
      accepted install of a new version that fails once the blob has arrived; one that brings back,
      after reverts, an active version older than the last two; and one that ends well except that
      the retired blob could not be removed. */
  predicate Litters(before: Disk, op: Op) {
    op.Upgrade? &&
    var v, h := op.req.version, before.saved.history;
    match op.report
    case NotInstalled(stage) => PastGate(stage) && (stage.Fetching? ==> op.dead) && Unheard(before, v)
    case Installed =>
      if v == before.saved.current then Unheard(before, v) && !(CleanInstall(op) && |h| >= 3 && v == h[|h| - 3])
      else !CleanInstall(op) && |h| >= 2 && h[|h| - 2] in before.blobs && h[|h| - 2] != v && h[|h| - 2] != h[|h| - 1]
  }

  /** The blob it can leave. */
  function LitterOf(before: Disk, op: Op): string
    requires Litters(before, op)
  {
    var h := before.saved.history;
    if op.report.Installed? && op.req.version != before.saved.current then h[|h| - 2] else op.req.version
  }

  /** A stray that is new is the litter of an operation that litters. */
  lemma NewStray(t: Tools, before: Disk, op: Op, after: Disk, w: string)
    requires Step(t, before, op, after) && w in Strays(after) && w !in Strays(before)
    ensures Litters(before, op) && w == LitterOf(before, op)
  {
    assert op.Upgrade?;
    var v, h, h' := op.req.version, before.saved.history, after.saved.history;
    assert w == v || Get(after.blobs, w) == Get(before.blobs, w) || Retired(after.saved) == Some(w);
    if h' == h + [v] {
      LastTwoGrows(h, v, w);
    }
  }

  lemma StepLeavesFewStrays(t: Tools, before: Disk, op: Op, after: Disk)
    requires Step(t, before, op, after)
    ensures Strays(after) <= Strays(before) + (if Litters(before, op) then {LitterOf(before, op)} else {})
    ensures |Strays(after)| <= |Strays(before)| + (if Litters(before, op) then 1 else 0)
  {
    var extra := if Litters(before, op) then {LitterOf(before, op)} else {};
    forall w | w in Strays(after) ensures w in Strays(before) + extra {
      if w !in Strays(before) { NewStray(t, before, op, after, w); }
    }
    SubsetSize(Strays(after), Strays(before) + extra);
    UnionSize(Strays(before), extra);
  }

  /** The exact condition: of an install that can end the way it is reported, for a digest that some
      blob has, no outcome adds a stray exactly when it does not litter. */
  lemma LittersIff(t: Tools, before: Disk, op: Op, some: Disk, blob: Bytes)
    requires op.Upgrade? && Step(t, before, op, some) && Digest(t.hash, blob) == op.req.offer.manifest.blobSha
    ensures (forall after :: Step(t, before, op, after) ==> Strays(after) <= Strays(before)) <==> !Litters(before, op)
  {
    if Litters(before, op) {
      var after := LitterCanStay(t, before, op, some, blob);
      LitterIsStray(t, before, op, after);
      assert LitterOf(before, op) !in Strays(before);
    } else {
      forall after | Step(t, before, op, after) ensures Strays(after) <= Strays(before) {
        StepLeavesFewStrays(t, before, op, after);
      }
    }
  }

  /** Where an outcome has removed or not yet written the litter, another has it. */
  lemma LitterCanStay(t: Tools, before: Disk, op: Op, some: Disk, blob: Bytes) returns (after: Disk)
    requires Step(t, before, op, some) && Litters(before, op) && Digest(t.hash, blob) == op.req.offer.manifest.blobSha
    ensures Step(t, before, op, after) && LitterOf(before, op) in after.blobs
  {
    var w := LitterOf(before, op);
    var data := if w == op.req.version then blob else before.blobs[w];
    after := if w in some.blobs then some else some.(blobs := some.blobs[w := data]);
    if w !in some.blobs {
      if op.report.Installed? {
        LitterWasRetired(t, before, op, some);
        RetiredCanStay(t, before, op.req, op.slipped, op.dead, some, w, data);
      } else {
        LitterHadNotArrived(t, before, op, some);
        ArrivedCanStay(t, before, op.req, op.report, op.slipped, op.dead, some, data);
      }
    }
  }

  lemma LitterHadNotArrived(t: Tools, before: Disk, op: Op, some: Disk)
    requires Step(t, before, op, some) && Litters(before, op) && !op.report.Installed? && LitterOf(before, op) !in some.blobs
    ensures op.report == NotInstalled(Fetching) && op.dead && LitterOf(before, op) == op.req.version
  {
  }

  lemma LitterWasRetired(t: Tools, before: Disk, op: Op, some: Disk)
    requires Step(t, before, op, some) && Litters(before, op) && op.report.Installed? && LitterOf(before, op) !in some.blobs
    ensures Retired(some.saved) == Some(LitterOf(before, op)) && !CleanInstall(op)
    ensures LitterOf(before, op) == op.req.version || LitterOf(before, op) in before.blobs
  {
  }

  lemma RetiredCanStay(t: Tools, before: Disk, req: Request, slipped: bool, dead: bool, some: Disk, w: string, data: Bytes)
    requires InstallLeaves(t, before, some, req, Installed, slipped, dead) && (slipped || dead)
    requires Retired(some.saved) == Some(w) && w !in some.blobs
    requires if w == req.version then Digest(t.hash, data) == req.offer.manifest.blobSha else Get(before.blobs, w) == Some(data)
    ensures InstallLeaves(t, before, some.(blobs := some.blobs[w := data]), req, Installed, slipped, dead)
  {
    var after := some.(blobs := some.blobs[w := data]);
    OtherBlobsAreOut(t, before, some, after, req.version, req.offer.manifest.blobSha, slipped);
  }

  lemma ArrivedCanStay(t: Tools, before: Disk, req: Request, report: Report, slipped: bool, dead: bool, some: Disk, data: Bytes)
    requires InstallLeaves(t, before, some, req, report, slipped, dead) && report == NotInstalled(Fetching) && dead
    requires Digest(t.hash, data) == req.offer.manifest.blobSha
    ensures InstallLeaves(t, before, some.(blobs := some.blobs[req.version := data]), req, report, slipped, dead)
  {
  }

  /** Pointers and directories do not depend on the blobs. */
  lemma OtherBlobsAreOut(t: Tools, before: Disk, some: Disk, after: Disk, v: string, sha: string, slipped: bool)
    requires after == some.(blobs := after.blobs)
    requires FlipLeaves(before, some, v, Flipped, slipped) && Extracted(t, some, v, sha, slipped)
    ensures FlipLeaves(before, after, v, Flipped, slipped) && Extracted(t, after, v, sha, slipped)
    ensures forall touched: set<string> :: DistsLeft(before, some, touched) ==> DistsLeft(before, after, touched)
  {
  }

  lemma LitterIsStray(t: Tools, before: Disk, op: Op, after: Disk)
    requires Step(t, before, op, after) && Litters(before, op) && LitterOf(before, op) in after.blobs
    ensures LitterOf(before, op) in Strays(after)
  {
    var v, h, h' := op.req.version, before.saved.history, after.saved.history;
    if h' == h + [v] {
      assert h'[|h'| - 1] == v && h'[|h'| - 2] == h[|h| - 1];
    }
  }

  /** From any home: an accepted install of a new version whose unpacking stops leaves its blob, ... */
  lemma StopLeavesStray(t: Tools, before: Disk, req: Request, blob: Bytes) returns (after: Disk)
    requires Installable(t, before.saved, req, blob) && Unheard(before, req.version)
    ensures Step(t, before, Upgrade(req, NotInstalled(Unpacking), false, false), after)
    ensures Strays(after) == Strays(before) + {req.version}
  {
    after := Halfway(t, before, req, blob, false, false);
  }

  /** ... and one that cannot remove the retired blob leaves that. */
  lemma SlipLeavesStray(t: Tools, before: Disk, req: Request, blob: Bytes) returns (after: Disk)
    requires Installable(t, before.saved, req, blob) && Litters(before, Upgrade(req, Installed, true, false))
    ensures Step(t, before, Upgrade(req, Installed, true, false), after)
    ensures LitterOf(before, Upgrade(req, Installed, true, false)) in Strays(after) - Strays(before)
  {
    after := Finished(t, before, req, blob, true);
    LitterIsStray(t, before, Upgrade(req, Installed, true, false), after);
  }

  /** A version that drops out of the last two when the history grows was third-last. */
  lemma LastTwoGrows(h: seq<string>, v: string, w: string)
    requires w !in LastTwo(h + [v])
    ensures w != v && (w in LastTwo(h) ==> |h| >= 2 && w == h[|h| - 2] && (h + [v])[|h + [v]| - 3] == w)
  {
    var h' := h + [v];
    assert h'[|h'| - 1] == v;
    assert |h| >= 1 ==> h'[|h'| - 2] == h[|h| - 1];
    assert |h| >= 2 ==> h'[|h'| - 3] == h[|h| - 2];
  }

  lemma UnionSize(a: set<string>, b: set<string>)
    ensures |a + b| <= |a| + |b|
  {
    assert |a + b| + |a * b| == |a| + |b|;
  }

  function Litter(disks: seq<Disk>, ops: seq<Op>): nat
    requires |disks| == |ops| + 1
  {
    if ops == [] then 0
    else
      var n := |ops| - 1;
      Litter(disks[..n + 1], ops[..n]) + (if Litters(disks[n], ops[n]) then 1 else 0)
  }

  /** Over every run, with reverts, prunes, failures and deaths: a home that began empty keeps at most
      two blobs and one for each install that littered. */
  lemma {:induction false} FewBlobsOverRuns(t: Tools, disks: seq<Disk>, ops: seq<Op>)
    requires IsRun(t, disks, ops) && disks[0] == EMPTY_DISK
    ensures |Strays(disks[|ops|])| <= Litter(disks, ops)
    ensures |disks[|ops|].blobs| <= 2 + Litter(disks, ops)
  {
    var d := disks[|ops|];
    if ops != [] {
      var n := |ops| - 1;
      FewBlobsOverRuns(t, disks[..n + 1], ops[..n]);
      assert disks[..n + 1][n] == disks[n];
      StepLeavesFewStrays(t, disks[n], ops[n], d);
    }
    BlobsAreFew(d);
  }

  /** The bound is reached: as many failed installs of different versions as there are, one after the
      other on a fresh home, leave as many blobs, so there is no bound that holds of every run. */
  lemma {:induction false} StraysPileUp(t: Tools, reqs: seq<Request>, blobs: seq<Bytes>) returns (disks: seq<Disk>, ops: seq<Op>)
    requires |blobs| == |reqs| && forall i :: 0 <= i < |reqs| ==> Installable(t, EMPTY_STATE, reqs[i], blobs[i])
    requires forall i, j :: 0 <= i < j < |reqs| ==> reqs[i].version != reqs[j].version
    ensures IsRun(t, disks, ops) && disks[0] == EMPTY_DISK && |ops| == |reqs|
    ensures disks[|ops|].saved == EMPTY_STATE && disks[|ops|].blobs.Keys == Versions(reqs)
    ensures |disks[|ops|].blobs| == Litter(disks, ops) == |reqs|
  {
    if reqs == [] {
      disks, ops := [EMPTY_DISK], [];
    } else {
      var n := |reqs| - 1;
      var disks0, ops0 := StraysPileUp(t, reqs[..n], blobs[..n]);
      assert reqs == reqs[..n] + [reqs[n]];
      VersionsGrow(reqs[..n], reqs[n]);
      disks, ops := OneMoreStray(t, disks0, ops0, reqs[n], blobs[n]);
      assert |disks0[n].blobs.Keys| == n;
    }
  }

  lemma VersionsGrow(reqs: seq<Request>, req: Request)
    ensures Versions(reqs + [req]) == Versions(reqs) + {req.version}
    ensures (forall r :: r in reqs ==> r.version != req.version) ==> req.version !in Versions(reqs)
  {
    forall v ensures v in Versions(reqs + [req]) <==> v in Versions(reqs) + {req.version} {
      if v in Versions(reqs) { var r :| r in reqs && r.version == v; assert r in reqs + [req]; }
      assert req in reqs + [req];
    }
  }

  lemma OneMoreStray(t: Tools, disks: seq<Disk>, ops: seq<Op>, req: Request, blob: Bytes) returns (disks': seq<Disk>, ops': seq<Op>)
    requires IsRun(t, disks, ops) && disks[|ops|].saved == EMPTY_STATE
    requires Installable(t, disks[|ops|].saved, req, blob) && req.version !in disks[|ops|].blobs
    ensures IsRun(t, disks', ops') && |ops'| == |ops| + 1 && disks'[0] == disks[0]
    ensures disks'[|ops'|].saved == EMPTY_STATE && disks'[|ops'|].blobs.Keys == disks[|ops|].blobs.Keys + {req.version}
    ensures Litter(disks', ops') == Litter(disks, ops) + 1
  {
    var n := |ops|;
    var after := Halfway(t, disks[n], req, blob, false, false);
    disks', ops' := disks + [after], ops + [Upgrade(req, NotInstalled(Unpacking), false, false)];
    assert disks'[..n + 1] == disks && ops'[..n] == ops;
  }

  function Versions(reqs: seq<Request>): set<string> { set r | r in reqs :: r.version }

  lemma BlobsAreFew(d: Disk)
    ensures |d.blobs| <= 2 + |Strays(d)|
  {
    var two := LastTwo(d.saved.history);
    SubsetSize(d.blobs.Keys, two + Strays(d));
    UnionSize(two, Strays(d));
    var h := d.saved.history;
    UnionSize(if |h| >= 1 then {h[|h| - 1]} else {}, if |h| >= 2 then {h[|h| - 2]} else {});
  }
}
