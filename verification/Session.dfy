/** Running the agent again and again on the same home: every process starts on the disk the
    last one left, however that one ended. */
module Session {
  import opened Paths
  import opened Listing
  import opened Home
  import opened Machines
  import opened Fetching
  import opened Installer
  import opened PruneCommand
  import opened InstallRuns

  datatype Command = InstallCmd(req: Request, env: FetchEnv)
                   | RevertCmd
                   | PruneCmd(readable: bool, entries: seq<DirEntry>, depth: int)

  /** What the layout and the file system can hold. */
  ghost predicate Possible(c: Command) {
    match c
    case InstallCmd(req, _) => ValidVersion(req.version)
    case RevertCmd => true
    case PruneCmd(_, entries, _) => Directory(entries)
  }

  /** The operation is the command's, with what it was given. */
  ghost predicate Of(c: Command, op: Op) {
    match c
    case InstallCmd(req, _) => op.Upgrade? && op.req == req
    case RevertCmd => op.Undo?
    case PruneCmd(_, entries, depth) => op.Cleanup? && op.entries == entries && op.depth == depth
  }

  method Perform(t: Tools, home: Comps, d: Disk, c: Command) returns (after: Disk, ghost op: Op)
    requires Plain(home) && Possible(c)
    ensures Step(t, d, op, after) && Of(c, op)
  {
    var m := new Machine(d);
    match c {
      case InstallCmd(req, env) =>
        var report := Install(m, t, home, req, env);
        op := Upgrade(req, report, m.slips > 0, m.dead);
      case RevertCmd =>
        var reversal := Revert(m);
        op := Undo(reversal, m.slips > 0);
      case PruneCmd(readable, entries, depth) =>
        var ok, done := Prune(m, readable, entries, depth);
        op := Cleanup(entries, depth, done);
    }
    after := m.disk;
  }

  /** Any sequence of commands, whatever the server offers in any of them, is a run in the sense of
      InstallRuns, operation by operation, so what is proved there of runs holds of what the code
      does. Blobs stay verified for any catalogue that the accepted offers agree with. */
  method PerformAll(t: Tools, ghost cat: Catalogue, home: Comps, d: Disk, commands: seq<Command>)
    returns (after: Disk, ghost disks: seq<Disk>, ghost ops: seq<Op>)
    requires Plain(home) && forall c :: c in commands ==> Possible(c)
    ensures IsRun(t, disks, ops) && |ops| == |commands|
    ensures forall i :: 0 <= i < |commands| ==> Of(commands[i], ops[i])
    ensures disks[0] == d && disks[|ops|] == after
    ensures CatalogueRun(t, cat, disks, ops) && BlobsVerified(t, cat, d) ==> BlobsVerified(t, cat, after)
    ensures OneKind(d, Current) ==> OneKind(after, Current)
  {
    after, disks, ops := d, [d], [];
    for i := 0 to |commands|
      invariant |ops| == i && IsRun(t, disks, ops)
      invariant forall j :: 0 <= j < i ==> Of(commands[j], ops[j])
      invariant disks[0] == d && disks[|ops|] == after
    {
      ghost var op: Op;
      after, op := Perform(t, home, after, commands[i]);
      disks, ops := disks + [after], ops + [op];
    }
    RunKeeps(t, cat, disks, ops);
  }

  lemma RunKeeps(t: Tools, cat: Catalogue, disks: seq<Disk>, ops: seq<Op>)
    requires IsRun(t, disks, ops)
    ensures CatalogueRun(t, cat, disks, ops) && BlobsVerified(t, cat, disks[0]) ==> BlobsVerified(t, cat, disks[|ops|])
    ensures OneKind(disks[0], Current) ==> OneKind(disks[|ops|], Current)
  {
    if CatalogueRun(t, cat, disks, ops) && BlobsVerified(t, cat, disks[0]) { BlobsStayVerified(t, cat, disks, ops); }
    if OneKind(disks[0], Current) { NeverTwoCurrentPointers(t, disks, ops); }
  }
}
