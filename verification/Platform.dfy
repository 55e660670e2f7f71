/** Moving the `current` and `previous` pointers (client/internal/platform and
    Layout.FlipCurrent of client/internal/state). */
module Platform {
  import opened Hashing
  import opened Home
  import opened Machines

  ghost predicate PointersOnly(before: Disk, after: Disk) {
    after == before.(links := after.links, shims := after.shims)
  }

  ghost predicate SamePointer(before: Disk, after: Disk, n: Name) {
    Get(after.links, n) == Get(before.links, n) && Get(after.shims, n) == Get(before.shims, n)
  }

  ghost predicate Absent(d: Disk, n: Name) { n !in d.links && n !in d.shims }

  /** The `current` pointer has become the `previous` pointer. Next to a moved shim an old
      `previous` symlink may remain, if it could not be removed. */
  ghost predicate Moved(before: Disk, after: Disk, slipped: bool) {
    if Absent(before, Current) then SamePointer(before, after, Previous)
    else if Current in before.links then
      Get(after.links, Previous) == Get(before.links, Current) && (Previous in after.shims ==> slipped && SameShim(before, after, Previous))
    else
      Get(after.shims, Previous) == Get(before.shims, Current) && (Previous in after.links ==> slipped && SameLink(before, after, Previous))
  }

  ghost predicate SameLink(before: Disk, after: Disk, n: Name) { Get(after.links, n) == Get(before.links, n) }

  ghost predicate SameShim(before: Disk, after: Disk, n: Name) { Get(after.shims, n) == Get(before.shims, n) }

  ghost predicate SwapLeaves(before: Disk, after: Disk, ok: bool, slipped: bool) {
    && PointersOnly(before, after)
    && (!ok ==> SamePointer(before, after, Current) && !Absent(before, Current))
    && (ok ==> Current !in after.links
               && Moved(before, after, slipped)
               && Get(after.shims, Current) == (if Current in before.links then Get(before.shims, Current) else None))
  }

  /** No old `previous` symlink to elsewhere stands beside the place a `current` shim moves to. */
  predicate Unhidden(d: Disk) {
    || Current in d.links
    || Previous !in d.links
    || Get(d.shims, Current) == Some(d.links[Previous])
  }

  /** Where `current` led, `previous` leads after every completed swap, whichever removals fail,
      exactly when nothing can hide it beforehand. The counterexample is a `current` shim next to a
      `previous` symlink to elsewhere that cannot be removed. */
  lemma PreviousLeadsThereIff(before: Disk)
    requires !Absent(before, Current)
    ensures (forall after, slipped :: SwapLeaves(before, after, true, slipped) ==> ReadLink(after, Previous) == ReadLink(before, Current))
            <==> Unhidden(before)
  {
    if !Unhidden(before) {
      var after := before.(shims := (before.shims - {Current})[Previous := before.shims[Current]]);
      assert SwapLeaves(before, after, true, true);
      assert ReadLink(after, Previous) != ReadLink(before, Current);
    }
  }

  method SwapCurrentToPrevious(m: Machine) returns (ok: bool)
    modifies m
    ensures m.Later()
    ensures SwapLeaves(old(m.disk), m.disk, ok, m.slips > old(m.slips))
    ensures m.Calm() ==> ok
  {
    if Current in m.disk.links {
      m.RemoveLink(Previous);
      m.RemoveShim(Previous);
      ok := m.RenameLink(Current, Previous);
      return;
    }
    if Current in m.disk.shims {
      m.RemoveLink(Previous);
      m.RemoveShim(Previous);
      ok := m.RenameShim(Current, Previous);
      return;
    }
    return true;
  }

  ghost predicate SetLeaves(before: Disk, after: Disk, target: string, ok: bool, slipped: bool) {
    && PointersOnly(before, after)
    && SamePointer(before, after, Previous)
    && (ok ==> (Current !in before.links || !slipped ==> ReadLink(after, Current) == Some(target))
               && (Absent(before, Current) || !slipped ==> OneKind(after, Current)))
    && (!ok ==> (Current in after.links ==> Current in before.links) && (Current in after.shims ==> Current in before.shims))
  }

  method WriteShim(m: Machine, n: Name, target: string) returns (ok: bool)
    modifies m
    ensures m.Later() && (ok ==> !m.dead)
    ensures PointersOnly(old(m.disk), m.disk) && m.disk.links == old(m.disk).links
    ensures forall k :: k != n && k != Tmp(n) ==> Get(m.disk.shims, k) == Get(old(m.disk).shims, k)
    ensures Get(m.disk.shims, n) == if ok then Some(target) else Get(old(m.disk).shims, n)
    ensures ok ==> Tmp(n) !in m.disk.shims
    ensures m.Calm() ==> ok
  {
    ok := m.WriteShim(Tmp(n), target);
    if !ok { return; }
    ok := m.RenameShim(Tmp(n), n);
    if !ok {
      m.RemoveShim(Tmp(n));
    }
  }

  /** The shim is only a fallback: there is a symlink unless one could not be made or moved. */
  method SetCurrent(m: Machine, target: string) returns (ok: bool)
    modifies m
    ensures m.Later()
    ensures SetLeaves(old(m.disk), m.disk, target, ok, m.slips > old(m.slips))
    ensures ok && Get(m.disk.links, Current) != Some(target) ==> m.linkFaults > old(m.linkFaults)
    ensures m.Calm() ==> ok && Get(m.disk.links, Current) == Some(target) && Current !in m.disk.shims
  {
    var abs := m.Call();
    if !abs { return false; }
    m.RemoveLink(Current);
    m.RemoveShim(Current);
    ok := TrySymlink(m, target);
    if !ok {
      ok := WriteShim(m, Current, target);
    }
  }

  /** The first attempt: a real symlink, through a temporary name. */
  method TrySymlink(m: Machine, target: string) returns (ok: bool)
    modifies m
    ensures m.Later() && (ok ==> !m.dead)
    ensures m.disk == old(m.disk).(links := m.disk.links)
    ensures Get(m.disk.links, Previous) == Get(old(m.disk).links, Previous)
    ensures Get(m.disk.links, Current) == if ok then Some(target) else Get(old(m.disk).links, Current)
    ensures !ok ==> m.dead || m.linkFaults > old(m.linkFaults)
    ensures !m.dead && m.slips == old(m.slips) ==> Tmp(Current) !in m.disk.links
    ensures m.Calm() ==> ok
  {
    m.RemoveLink(Tmp(Current));
    ok := m.Symlink(target, Tmp(Current));
    if ok {
      ok := m.RenameLink(Tmp(Current), Current);
      if !ok {
        m.RemoveLink(Tmp(Current));
      }
    }
  }

  datatype Flip = Flipped | NotSwapped | NotSet

  /** Everything a flip to `version` can leave behind, by the error it reports. */
  ghost predicate FlipLeaves(before: Disk, after: Disk, version: string, out: Flip, slipped: bool) {
    && (out.NotSwapped? ==> SamePointer(before, after, Current) && !Absent(before, Current))
    && (!out.NotSwapped? ==> Moved(before, after, slipped))
    && (out.NotSet? && OneKind(before, Current) ==> Absent(after, Current))
    && (out.Flipped? ==> ReadLink(after, Current) == Some(DistName(version)))
    && (out.Flipped? && !slipped ==> OneKind(after, Current))
    && (OneKind(before, Current) ==> OneKind(after, Current))
  }

  /** `current` is a symlink to the version's distribution, and there is no shim. */
  predicate Symlinked(d: Disk, version: string) {
    Get(d.links, Current) == Some(DistName(version)) && Current !in d.shims
  }

  method FlipCurrent(m: Machine, version: string) returns (out: Flip)
    modifies m
    ensures m.Later()
    ensures out.Flipped? && Get(m.disk.links, Current) != Some(DistName(version)) ==> m.linkFaults > old(m.linkFaults)
    ensures PointersOnly(old(m.disk), m.disk)
    ensures FlipLeaves(old(m.disk), m.disk, version, out, m.slips > old(m.slips))
    ensures m.Calm() ==> out.Flipped? && Symlinked(m.disk, version)
  {
    var swapped := SwapCurrentToPrevious(m);
    if !swapped { return NotSwapped; }
    var set_ := SetCurrent(m, DistName(version));
    if !set_ { return NotSet; }
    return Flipped;
  }

  /** Layout.Save: state.json is replaced by a whole new state or stays as it is; the temporary file
      may be left in any condition. */
  method Save(m: Machine, st: State) returns (ok: bool)
    modifies m
    ensures m.Later() && m.slips == old(m.slips)
    ensures m.disk == old(m.disk).(saved := m.disk.saved, stateTmp := m.disk.stateTmp)
    ensures m.disk.saved == if ok then st else old(m.disk.saved)
    ensures m.Calm() ==> ok
  {
    ok := m.WriteStateTmp(st);
    if !ok { return; }
    ok := m.RenameState();
  }
}
