/** Which keys sign what a home installs (checkTrust of client/libota). */
module Trust {
  import opened Hashing
  import opened Fetching
  import opened Home
  import opened Installer
  import opened InstallRuns
  import opened Outcomes

  /** No configured keys in any install: the home relies on the key it has saved. */
  predicate OnFirstUse(ops: seq<Op>) {
    forall op :: op in ops && op.Upgrade? ==> op.req.trusted == []
  }

  /** An install whose offer passes the trust gate, whatever becomes of it. */
  predicate Accepts(before: Disk, op: Op) {
    op.Upgrade? && Acceptable(before.saved, op.req)
  }

  /** A good offer of what was asked for, under this key. */
  predicate Presents(req: Request, key: string) {
    var o := req.offer;
    && o.fetched && o.signed && o.parsed && o.pubkey == key
    && o.manifest.software == req.software && o.manifest.version == req.version
  }

  /** A home that has no key yet takes a good offer under any. */
  lemma FreshHomeTakesAnyKey(st: State, req: Request)
    requires st.pubkey == "" && req.trusted == []
    ensures Acceptable(st, req) <==> exists key :: Presents(req, key)
  {
    if Acceptable(st, req) { assert Presents(req, req.offer.pubkey); }
  }

  /** The exact condition for trust on first use. Where no key is saved yet, the key of an install is
      saved, and binds every offer accepted afterwards, exactly when the install succeeds: one that
      is accepted and then fails leaves the home open to any other key. */
  lemma FirstKeyBindsIff(t: Tools, before: Disk, op: Op, after: Disk)
    requires Step(t, before, op, after) && op.Upgrade?
    requires before.saved.pubkey == "" && op.req.offer.pubkey != ""
    ensures after.saved.pubkey == op.req.offer.pubkey <==> op.report.Installed?
    ensures (forall req: Request :: req.trusted == [] && Acceptable(after.saved, req) ==> req.offer.pubkey == op.req.offer.pubkey)
            <==> op.report.Installed?
  {
    if !op.report.Installed? {
      var man := Manifest("", "", "", 0, []);
      var other := Request("", "", [], 0.0, Offer(true, op.req.offer.pubkey + "!", true, true, man));
      assert Acceptable(after.saved, other);
      assert |other.offer.pubkey| != |op.req.offer.pubkey|;
    }
  }

  /** The input that shows it: on a fresh home an install under one key gets as far as setting
      `current` and fails saving, and the next one installs under another key and pins that. */
  lemma FirstKeyCanBeReplaced(t: Tools, first: Request, second: Request, blob1: Bytes, blob2: Bytes)
    returns (disks: seq<Disk>, ops: seq<Op>)
    requires Installable(t, EMPTY_STATE, first, blob1) && Installable(t, EMPTY_STATE, second, blob2)
    requires first.trusted == second.trusted == [] && first.offer.pubkey != second.offer.pubkey
    ensures IsRun(t, disks, ops) && disks[0] == EMPTY_DISK && OnFirstUse(ops)
    ensures ops == [Upgrade(first, NotInstalled(Saving), false, false), Upgrade(second, Installed, false, false)]
    ensures ReadLink(disks[1], Current) == Some(DistName(first.version))
    ensures disks[2].saved.pubkey == second.offer.pubkey != first.offer.pubkey
  {
    var stopped := StoppedBeforeSaving(t, EMPTY_DISK, first, blob1);
    var done := Finished(t, stopped, second, blob2, false);
    disks, ops := [EMPTY_DISK, stopped, done], [Upgrade(first, NotInstalled(Saving), false, false), Upgrade(second, Installed, false, false)];
    assert Step(t, disks[0], ops[0], disks[1]);
    assert Step(t, disks[1], ops[1], disks[2]);
  }

  /** A saved key stays saved, through everything that can happen. */
  lemma {:induction false} SavedKeyStays(t: Tools, disks: seq<Disk>, ops: seq<Op>, i: nat, k: nat)
    requires IsRun(t, disks, ops) && OnFirstUse(ops) && i <= k <= |ops| && disks[i].saved.pubkey != ""
    ensures disks[k].saved.pubkey == disks[i].saved.pubkey
  {
    if i < k {
      SavedKeyStays(t, disks, ops, i, k - 1);
      assert Step(t, disks[k - 1], ops[k - 1], disks[k]) && ops[k - 1] in ops;
    }
  }

  /** Trust on first use, over every run from any home: once an install has succeeded, its key is the
      key saved, and a later offer is accepted, whatever becomes of it, exactly when it is good and
      under that key. */
  lemma FirstKeyStaysPinned(t: Tools, disks: seq<Disk>, ops: seq<Op>, i: nat, k: nat)
    requires IsRun(t, disks, ops) && OnFirstUse(ops) && i < k <= |ops|
    requires ops[i].Upgrade? && ops[i].report.Installed? && ops[i].req.offer.pubkey != ""
    ensures disks[k].saved.pubkey == ops[i].req.offer.pubkey
    ensures k < |ops| && ops[k].Upgrade? ==> (Accepts(disks[k], ops[k]) <==> Presents(ops[k].req, ops[i].req.offer.pubkey))
  {
    assert Step(t, disks[i], ops[i], disks[i + 1]);
    SavedKeyStays(t, disks, ops, i + 1, k);
    if k < |ops| { assert ops[k] in ops; }
  }

  /** With a configured set of keys, an offer is accepted in a run exactly when it is good and under one
      of them, and the saved key is one of them as soon as there has been an install. */
  lemma {:induction false} ConfiguredKeysRule(t: Tools, disks: seq<Disk>, ops: seq<Op>, keys: seq<string>)
    requires IsRun(t, disks, ops) && keys != []
    requires forall i :: 0 <= i < |ops| && ops[i].Upgrade? ==> ops[i].req.trusted == keys
    ensures forall i :: 0 <= i < |ops| && ops[i].Upgrade? ==>
              (Accepts(disks[i], ops[i]) <==> exists key :: key in keys && Presents(ops[i].req, key))
    ensures disks[|ops|].saved.pubkey == disks[0].saved.pubkey || disks[|ops|].saved.pubkey in keys
    ensures (exists i :: 0 <= i < |ops| && ops[i].Upgrade? && ops[i].report.Installed?) ==> disks[|ops|].saved.pubkey in keys
  {
    if ops != [] {
      var n := |ops| - 1;
      ConfiguredKeysRule(t, disks[..n + 1], ops[..n], keys);
      assert disks[..n + 1][n] == disks[n];
      assert Step(t, disks[n], ops[n], disks[n + 1]);
      assert forall i :: 0 <= i < n ==> ops[..n][i] == ops[i] && disks[..n + 1][i] == disks[i];
    }
  }
}
