/** Choosing between a patch and the full blob (pickPatch of client/libota). */
module PatchChoice {
  import opened Hashing

  datatype PatchRef = PatchRef(from: string, to: string, patcher: string, sha: string, size: int)

  function FallbackRatio(configured: real): real {
    if configured <= 0.0 then 0.7 else configured
  }

  /** The size cap; zero or less means there is none. */
  function Cap(blobSize: int, ratio: real): int {
    (blobSize as real * ratio).Floor
  }

  predicate Applicable(p: PatchRef, from: string) {
    p.from == from && p.patcher == "bsdiff"
  }

  predicate Eligible(p: PatchRef, from: string, cap: int) {
    Applicable(p, from) && !(cap > 0 && p.size > cap)
  }

  /** The configured share of the blob, 0.7 of it by default. */
  ghost function Share(blobSize: int, configured: real): real {
    blobSize as real * (if configured > 0.0 then configured else 0.7)
  }

  /** A patch the configuration allows: of the right origin and format, and no larger than the share,
      unless the share is less than a byte. */
  ghost predicate Allowed(p: PatchRef, from: string, share: real) {
    p.from == from && p.patcher == "bsdiff" && (p.size as real <= share || share < 1.0)
  }

  /** Capping the size in whole bytes decides exactly that. */
  lemma EligibleIff(p: PatchRef, from: string, blobSize: int, configured: real)
    ensures Eligible(p, from, Cap(blobSize, FallbackRatio(configured))) <==> Allowed(p, from, Share(blobSize, configured))
  {
    CapIsFloor(blobSize, configured);
    FloorDecides(p.size, Share(blobSize, configured));
  }

  lemma CapIsFloor(blobSize: int, configured: real)
    ensures Cap(blobSize, FallbackRatio(configured)) == Share(blobSize, configured).Floor
  {
    if configured > 0.0 {
      assert FallbackRatio(configured) == configured;
    } else {
      assert FallbackRatio(configured) == 0.7;
    }
  }

  lemma FloorDecides(size: int, share: real)
    ensures share.Floor > 0 && size > share.Floor <==> !(size as real <= share || share < 1.0)
  {
  }

  /** The picked index: the choice among the first ones, unless the last one is eligible and smaller. */
  function Pick(refs: seq<PatchRef>, from: string, cap: int): (best: Option<nat>)
    ensures best.Some? ==> best.value < |refs|
  {
    if refs == [] then None
    else
      var n := |refs| - 1;
      var best := Pick(refs[..n], from, cap);
      if Eligible(refs[n], from, cap) && (best.None? || refs[n].size < refs[best.value].size) then Some(n) else best
  }

  method PickPatch(refs: seq<PatchRef>, from: string, blobSize: int, ratio: real) returns (best: Option<nat>)
    ensures best == Pick(refs, from, Cap(blobSize, ratio))
  {
    var cap := (blobSize as real * ratio).Floor;
    best := None;
    for i := 0 to |refs|
      invariant best == Pick(refs[..i], from, cap)
    {
      var p := refs[i];
      assert refs[..i + 1][..i] == refs[..i];
      if p.from != from { continue; }
      if p.patcher != "bsdiff" { continue; }
      if cap > 0 && p.size > cap { continue; }
      if best.None? || p.size < refs[best.value].size {
        best := Some(i);
      }
    }
    assert refs[..|refs|] == refs;
  }

  /** The pick is the earliest of the smallest eligible patches; nothing is picked exactly
      when nothing is eligible. */
  lemma {:induction false} PickIsEarliestSmallest(refs: seq<PatchRef>, from: string, cap: int)
    ensures var best := Pick(refs, from, cap);
            && (best.None? <==> forall i :: 0 <= i < |refs| ==> !Eligible(refs[i], from, cap))
            && (best.Some? ==>
                  && Eligible(refs[best.value], from, cap)
                  && (forall i :: 0 <= i < |refs| && Eligible(refs[i], from, cap) ==> refs[best.value].size <= refs[i].size)
                  && (forall i :: 0 <= i < best.value && Eligible(refs[i], from, cap) ==> refs[best.value].size < refs[i].size))
  {
    if refs != [] {
      var n := |refs| - 1;
      PickIsEarliestSmallest(refs[..n], from, cap);
      assert forall i :: 0 <= i < n ==> refs[..n][i] == refs[i];
    }
  }

  /** The cap only rejects: pick without a cap, then refuse what exceeds a positive cap. */
  lemma CapOnlyRejects(refs: seq<PatchRef>, from: string, cap: int)
    ensures var free := Pick(refs, from, 0);
            Pick(refs, from, cap) == if free.Some? && cap > 0 && refs[free.value].size > cap then None else free
  {
    var free, capped := Pick(refs, from, 0), Pick(refs, from, cap);
    PickIsEarliestSmallest(refs, from, 0);
    PickIsEarliestSmallest(refs, from, cap);
    if capped.Some? && free.Some? {
      assert Eligible(refs[capped.value], from, 0);
      if Eligible(refs[free.value], from, cap) {
        assert refs[free.value].size == refs[capped.value].size;
        assert free.value == capped.value;
      }
    }
  }

  /** Raising a positive cap never changes a pick once there is one. */
  lemma RaisingCapKeepsPick(refs: seq<PatchRef>, from: string, cap: int, higher: int)
    requires 0 < cap <= higher && Pick(refs, from, cap).Some?
    ensures Pick(refs, from, higher) == Pick(refs, from, cap)
  {
    CapOnlyRejects(refs, from, cap);
    CapOnlyRejects(refs, from, higher);
  }

  /** The pick is no larger than the configured share of the blob. */
  ghost predicate RespectsRatio(refs: seq<PatchRef>, from: string, size: int, ratio: real) {
    var best := Pick(refs, from, Cap(size, ratio));
    best.Some? ==> refs[best.value].size as real <= size as real * ratio
  }

  /** For a given blob size and ratio the picks respect the ratio, whatever is offered, exactly when
      the cap is positive: a cap that rounds down to zero is no cap. */
  lemma RatioRespectedIff(size: int, ratio: real)
    ensures (forall refs, from :: RespectsRatio(refs, from, size, ratio)) <==> Cap(size, ratio) > 0
  {
    var cap := Cap(size, ratio);
    if cap > 0 {
      forall refs, from ensures RespectsRatio(refs, from, size, ratio) {
        PickIsEarliestSmallest(refs, from, cap);
      }
    } else {
      var p := PatchRef("", "", "bsdiff", "", cap + 2);
      assert Pick([], "", cap).None?;
      assert [p][..0] == [];
      assert Pick([p], "", cap) == Some(0);
      assert !RespectsRatio([p], "", size, ratio);
    }
  }
}
