/** The operating system under the agent: one disk, and calls that may each take effect, fail
    without effect, or be where the process dies.

    After the process has died no call reaches the disk any more, while the code runs on as if
    every call failed. The state in which a method leaves the disk is then the state at the
    moment of death, so a contract that holds for every outcome of every call holds at every
    point where the code can be stopped. */
module Machines {
  import opened Hashing
  import opened Paths
  import opened Home

  class Machine {
    var disk: Disk
    var dead: bool
    var faults: nat       // calls that failed
    var slips: nat        // those of them that were removals whose failure the code ignores
    var linkFaults: nat   // symlinks that could not be made or moved

    constructor (d: Disk)
      ensures disk == d && !dead && faults == slips == linkFaults == 0
    {
      disk, dead, faults, slips, linkFaults := d, false, 0, 0, 0;
    }

    /** What holds between any two moments of a run. */
    twostate predicate Later()
      reads this
    {
      && (old(dead) ==> dead && disk == old(disk))
      && old(linkFaults) <= linkFaults
      && 0 <= slips - old(slips) <= faults - old(faults)
    }

    /** In between nothing failed and the process did not die. */
    twostate predicate Calm()
      reads this
    {
      !dead && faults == old(faults)
    }

    /** Whether the next call takes effect. */
    method Call() returns (works: bool)
      modifies this
      ensures Later() && disk == old(disk) && slips == old(slips)
      ensures linkFaults == old(linkFaults)
      ensures works ==> !dead
      ensures Calm() ==> works
    {
      if dead { return false; }
      var f: Fault := *;
      match f {
        case Works => return true;
        case Fails => faults := faults + 1;
        case Dies => dead := true;
      }
      return false;
    }

    /** A removal whose failure the code ignores. */
    method Removal(present: bool) returns (works: bool)
      modifies this
      ensures Later() && disk == old(disk)
      ensures works ==> !dead
      ensures present && !dead && slips == old(slips) ==> works
      ensures Calm() ==> works
    {
      works := Call();
      if present && !works && !dead { slips := slips + 1; }
    }

    // -------------------------------------------------------------- pointers

    method RemoveLink(n: Name)
      modifies this
      ensures Later()
      ensures disk == old(disk) || disk == old(disk).(links := old(disk).links - {n})
      ensures !dead && slips == old(slips) ==> n !in disk.links
    {
      var works := Removal(n in disk.links);
      if works { disk := disk.(links := disk.links - {n}); }
    }

    method RemoveShim(n: Name)
      modifies this
      ensures Later()
      ensures disk == old(disk) || disk == old(disk).(shims := old(disk).shims - {n})
      ensures !dead && slips == old(slips) ==> n !in disk.shims
    {
      var works := Removal(n in disk.shims);
      if works { disk := disk.(shims := disk.shims - {n}); }
    }

    /** os.Symlink refuses an existing name. */
    method Symlink(target: string, n: Name) returns (ok: bool)
      modifies this
      ensures Later() && slips == old(slips)
      ensures disk == if ok then old(disk).(links := old(disk).links[n := target]) else old(disk)
      ensures ok ==> n !in old(disk).links && !dead
      ensures !ok ==> dead || linkFaults > old(linkFaults)
      ensures Calm() && n !in old(disk).links ==> ok
    {
      ok := Call();
      ok := ok && n !in disk.links;
      if ok {
        disk := disk.(links := disk.links[n := target]);
      } else {
        linkFaults := linkFaults + 1;
      }
    }

    method RenameLink(a: Name, b: Name) returns (ok: bool)
      modifies this
      ensures Later() && slips == old(slips)
      ensures ok ==> a in old(disk).links && !dead &&
                     disk == old(disk).(links := (old(disk).links - {a})[b := old(disk).links[a]])
      ensures !ok ==> disk == old(disk) && (dead || linkFaults > old(linkFaults))
      ensures Calm() && a in old(disk).links ==> ok
    {
      ok := Call();
      ok := ok && a in disk.links;
      if ok {
        disk := disk.(links := (disk.links - {a})[b := disk.links[a]]);
      } else {
        linkFaults := linkFaults + 1;
      }
    }

    /** os.WriteFile of a .path file: on failure any part of the text may have been written. */
    method WriteShim(n: Name, target: string) returns (ok: bool)
      modifies this
      ensures Later() && slips == old(slips)
      ensures ok ==> !dead && disk == old(disk).(shims := old(disk).shims[n := target])
      ensures !ok ==> OnlyShim(old(disk), disk, n)
      ensures Calm() ==> ok
    {
      var wasDead := dead;
      ok := Call();
      if ok {
        disk := disk.(shims := disk.shims[n := target]);
      } else if !wasDead {
        var partly: bool, text: string := *, *;
        if partly { disk := disk.(shims := disk.shims[n := text]); }
      }
    }

    method RenameShim(a: Name, b: Name) returns (ok: bool)
      modifies this
      ensures Later() && slips == old(slips)
      ensures ok ==> a in old(disk).shims && !dead &&
                     disk == old(disk).(shims := (old(disk).shims - {a})[b := old(disk).shims[a]])
      ensures !ok ==> disk == old(disk)
      ensures Calm() && a in old(disk).shims ==> ok
    {
      ok := Call();
      ok := ok && a in disk.shims;
      if ok { disk := disk.(shims := (disk.shims - {a})[b := disk.shims[a]]); }
    }

    // -------------------------------------------------------------- distributions

    /** os.RemoveAll: when it fails part of the tree may already be gone. */
    method RemoveTree(dist: string) returns (ok: bool)
      modifies this
      ensures Later()
      ensures ok ==> !dead && disk == old(disk).(dists := old(disk).dists - {dist})
      ensures !ok ==> disk == old(disk) ||
                      (dist in old(disk).dists && OnlyDist(old(disk), disk, dist) &&
                       dist in disk.dists && Submap(disk.dists[dist], old(disk).dists[dist]))
      ensures !dead && slips == old(slips) ==> dist !in disk.dists
      ensures Calm() ==> ok
    {
      var wasDead := dead;
      ok := Removal(dist in disk.dists);
      if ok {
        disk := disk.(dists := disk.dists - {dist});
      } else if !wasDead && dist in disk.dists {
        var gone: set<Comps> := *;
        disk := disk.(dists := disk.dists[dist := disk.dists[dist] - gone]);
      }
    }

    /** os.MkdirAll. */
    method MakeTree(dist: string) returns (ok: bool)
      modifies this
      ensures Later() && slips == old(slips)
      ensures ok ==> !dead && disk == if dist in old(disk).dists then old(disk) else old(disk).(dists := old(disk).dists[dist := map[]])
      ensures !ok ==> disk == old(disk)
      ensures Calm() ==> ok
    {
      ok := Call();
      if ok && dist !in disk.dists { disk := disk.(dists := disk.dists[dist := map[]]); }
    }

    /** os.OpenFile with O_CREATE and O_TRUNC, the directories above included. */
    method CreateFile(dist: string, path: Comps, mode: int) returns (ok: bool)
      modifies this
      ensures Later() && slips == old(slips)
      ensures ok ==> !dead && dist in old(disk).dists && !Blocked(old(disk).dists[dist], path) &&
                     disk == old(disk).(dists := old(disk).dists[dist := Created(old(disk).dists[dist], path, mode, [])])
      ensures !ok ==> disk == old(disk)
      ensures Calm() && dist in old(disk).dists && !Blocked(old(disk).dists[dist], path) ==> ok
    {
      ok := Call();
      ok := ok && dist in disk.dists && !Blocked(disk.dists[dist], path);
      if ok { disk := disk.(dists := disk.dists[dist := Created(disk.dists[dist], path, mode, [])]); }
    }

    /** io.Copy into the created file: on failure only a prefix may have arrived. */
    method FillFile(dist: string, path: Comps, data: Bytes) returns (ok: bool)
      requires dist in disk.dists && path in disk.dists[dist]
      modifies this
      ensures Later() && slips == old(slips)
      ensures ok ==> !dead && disk == old(disk).(dists := old(disk).dists[dist := Refilled(old(disk).dists[dist], path, data)])
      ensures !ok ==> OnlyDist(old(disk), disk, dist) && dist in disk.dists
      ensures Calm() ==> ok
    {
      var wasDead := dead;
      ok := Call();
      if ok {
        disk := disk.(dists := disk.dists[dist := Refilled(disk.dists[dist], path, data)]);
      } else if !wasDead {
        var n: int := *;
        var some := if 0 <= n <= |data| then data[..n] else [];
        disk := disk.(dists := disk.dists[dist := Refilled(disk.dists[dist], path, some)]);
      }
    }

    static function Refilled(tree: Tree, path: Comps, data: Bytes): Tree
      requires path in tree
    {
      tree[path := tree[path].(data := data)]
    }

    // -------------------------------------------------------------- files

    method RemoveBlob(version: string)
      modifies this
      ensures Later()
      ensures disk == old(disk) || disk == old(disk).(blobs := old(disk).blobs - {version})
      ensures !dead && slips == old(slips) ==> version !in disk.blobs
    {
      var works := Removal(version in disk.blobs);
      if works { disk := disk.(blobs := disk.blobs - {version}); }
    }

    method RemovePatch(name: string)
      modifies this
      ensures Later()
      ensures disk == old(disk) || disk == old(disk).(patches := old(disk).patches - {name})
      ensures !dead && slips == old(slips) ==> name !in disk.patches
    {
      var works := Removal(name in disk.patches);
      if works { disk := disk.(patches := disk.patches - {name}); }
    }

    /** os.WriteFile of state.json.tmp: on failure any part of the text may have been written. */
    method WriteStateTmp(st: State) returns (ok: bool)
      modifies this
      ensures Later() && slips == old(slips)
      ensures disk == old(disk).(stateTmp := disk.stateTmp)
      ensures ok ==> !dead && disk.stateTmp == Some(Json(st))
      ensures Calm() ==> ok
    {
      var wasDead := dead;
      ok := Call();
      if ok {
        disk := disk.(stateTmp := Some(Json(st)));
      } else if !wasDead {
        var partly: bool := *;
        if partly { disk := disk.(stateTmp := Some(Garbage)); }
      }
    }

    /** os.Rename of state.json.tmp over state.json. What is renamed must be a whole state, or the
        home could not be loaded any more. */
    method RenameState() returns (ok: bool)
      requires disk.stateTmp.Some? && disk.stateTmp.value.Json?
      modifies this
      ensures Later() && slips == old(slips)
      ensures disk == if ok then old(disk).(saved := old(disk.stateTmp.value.state), stateTmp := None) else old(disk)
      ensures Calm() ==> ok
    {
      ok := Call();
      if ok { disk := disk.(saved := disk.stateTmp.value.state, stateTmp := None); }
    }
  }
}
