/** The two writers of `<dst>.part`: the resumable download of
    client/internal/transport and the patch decoder of client/internal/patch.

    Everything the code cannot control is an input: `Env` says what each system call
    and the server did in one attempt. `Attempt` and `Apply` give the outcome of one
    attempt as a function; the class `Transfer` has the code's own steps and loops and
    is proved to compute them. */
module Transfer {
  import opened Hashing
  import opened Resume

  /** The final file and the partial file next to it. */
  datatype Slot = Slot(part: Option<Bytes>, dst: Option<Bytes>)

  /** One read of the response body, and what the write of it to disk did: all of it,
      or only the first n bytes before an error or before the process died. */
  datatype Write = Stored | Short(n: nat) | Killed(n: nat)
  datatype Chunk = Chunk(data: Bytes, write: Write)
  datatype End = Eof | Broken | Dead

  datatype Reply = Unreachable | DiedWaiting | Reply(status: nat, chunks: seq<Chunk>, end: End)

  datatype Env = Env(stat: Fault, scan: Fault, trim: Fault, rehash: Fault, request: Fault,
                     reply: Reply, clear: Fault, open: Fault, close: Fault,
                     remove: Fault, rename: Fault, leave: Fault)

  datatype Why = Network | Status | Local | Copying | Mismatch | Renaming

  /** How an attempt ended: no error, an error, or the process died. */
  datatype Exit = Done | Failed(why: Why) | Died

  datatype Result = Result(slot: Slot, exit: Exit, written: nat, reports: seq<nat>)

  const OK: nat := 200
  const PARTIAL: nat := 206
  const RANGE_NOT_SATISFIABLE: nat := 416

  function OnDisk(data: Bytes, w: Write): (kept: Bytes)
    ensures kept <= data
  {
    match w
    case Stored => data
    case Short(n) => data[..Min(n, |data|)]
    case Killed(n) => data[..Min(n, |data|)]
  }

  function Body(chunks: seq<Chunk>): Bytes {
    if chunks == [] then [] else chunks[0].data + Body(chunks[1..])
  }

  // ---------------------------------------------------------------- resume probe

  /** After the probe: the file, the resume offset, and the hasher fed with the kept
      prefix (None stands for the code's nil hasher). */
  datatype Probe = Probe(part: Option<Bytes>, from: nat, hasher: Option<int>, died: bool)

  function OpenResumeState(h: Hash, part: Option<Bytes>, env: Env): Probe {
    if env.stat.Dies? then Probe(part, 0, None, true)
    else if env.stat.Fails? || part.None? || part.value == [] then Probe(part, 0, None, false)
    else
      var p := part.value;
      var n := Kept(p);
      if env.scan.Dies? then Probe(part, 0, None, true)
      else if env.scan.Fails? then Probe(part, 0, None, false)
      else if n < |p| && !env.trim.Works? then Probe(part, 0, None, env.trim.Dies?)
      else if n == 0 then Probe(Some([]), 0, None, false)
      else if !env.rehash.Works? then Probe(Some(p[..n]), 0, None, env.rehash.Dies?)
      else Probe(Some(p[..n]), n, Some(Feed(h, h.init, p[..n])), false)
  }

  // ---------------------------------------------------------------- request and copy

  /** Either the attempt is over before any byte is copied, or copying starts at
      `offset` with `.part` holding `part` and the hasher in `state`. */
  datatype Connected = Stop(left: Option<Bytes>, exit: Exit)
                     | Start(part: Bytes, state: int, offset: nat)

  function Connect(h: Hash, probe: Probe, env: Env): Connected {
    if probe.died || env.request.Dies? then Stop(probe.part, Died)
    else if env.request.Fails? then Stop(probe.part, Failed(Local))
    else if env.reply.Unreachable? then Stop(probe.part, Failed(Network))
    else if env.reply.DiedWaiting? then Stop(probe.part, Died)
    else if probe.from > 0 && env.reply.status == PARTIAL then
      if env.open.Dies? then Stop(probe.part, Died)
      else if env.open.Fails? then Stop(probe.part, Failed(Local))
      else Start(probe.part.GetOr([]), probe.hasher.GetOr(h.init), probe.from)
    else if env.reply.status == OK then
      if env.clear.Dies? then Stop(probe.part, Died)
      else if env.clear.Fails? && probe.part.Some? then Stop(probe.part, Failed(Local))
      else
        var cleared := if probe.part.Some? then Some([]) else None;
        if env.open.Dies? then Stop(cleared, Died)
        else if env.open.Fails? then Stop(cleared, Failed(Local))
        else Start([], h.init, 0)
    else Stop(probe.part, Failed(Status))
  }

  /** The state the copy loop carries. */
  datatype Copy = Copy(part: Bytes, state: int, total: nat, reports: seq<nat>, end: End)

  /** The copy loop over the remaining reads. `Broken` also stands for a failed write. */
  function CopyLoop(h: Hash, c: Copy, offset: nat, chunks: seq<Chunk>, end: End): Copy
    decreases |chunks|
  {
    if chunks == [] then c.(end := end)
    else
      var data, w := chunks[0].data, chunks[0].write;
      if data == [] then CopyLoop(h, c, offset, chunks[1..], end)
      else if !w.Stored? then c.(part := c.part + OnDisk(data, w), end := if w.Short? then Broken else Dead)
      else
        var total := c.total + |data|;
        CopyLoop(h, Copy(c.part + data, Feed(h, c.state, data), total, c.reports + [offset + total], Eof),
                 offset, chunks[1..], end)
  }

  /** Digest check and rename, once the body has been read. */
  function Finish(h: Hash, want: string, c: Copy, offset: nat, dst: Option<Bytes>, env: Env): Result {
    var written := offset + c.total;
    if c.end.Dead? || env.close.Dies? then Result(Slot(Some(c.part), dst), Died, written, c.reports)
    else if c.end.Broken? || env.close.Fails? then Result(Slot(Some(c.part), dst), Failed(Copying), written, c.reports)
    else if h.finish(c.state) != want then
      match env.remove
      case Works => Result(Slot(None, dst), Failed(Mismatch), written, c.reports)
      case Fails => Result(Slot(Some(c.part), dst), Failed(Mismatch), written, c.reports)
      case Dies => Result(Slot(Some(c.part), dst), Died, written, c.reports)
    else
      match env.rename
      case Works => Result(Slot(None, Some(c.part)), if env.leave.Dies? then Died else Done, written, c.reports)
      case Fails => Result(Slot(Some(c.part), dst), Failed(Renaming), written, c.reports)
      case Dies => Result(Slot(Some(c.part), dst), Died, written, c.reports)
  }

  /** Copying, checking and renaming, from where the request has got to. */
  function Complete(h: Hash, want: string, c: Connected, dst: Option<Bytes>, env: Env): Result {
    match c
    case Stop(left, exit) => Result(Slot(left, dst), exit, 0, [])
    case Start(part, state, offset) =>
      if !env.reply.Reply? then Result(Slot(Some(part), dst), Failed(Network), 0, [])
      else
        Finish(h, want, CopyLoop(h, Copy(part, state, 0, [], Eof), offset, env.reply.chunks, env.reply.end), offset, dst, env)
  }

  /** One whole attempt of downloadHashed. */
  function Attempt(h: Hash, want: string, slot: Slot, env: Env): Result {
    Complete(h, want, Connect(h, OpenResumeState(h, slot.part, env), env), slot.dst, env)
  }

  // ---------------------------------------------------------------- patch decoder

  /** What happened around one patch application; `out` is bspatch's result, if any. */
  datatype PatchEnv = PatchEnv(readOld: Fault, readPatch: Fault, out: Option<Bytes>, create: Fault, write: Write,
                               rename: Fault, cleanup: Fault, leave: Fault)

  function Apply(h: Hash, want: string, patcher: string, slot: Slot, env: PatchEnv): Result {
    if patcher != "bsdiff" then Result(slot, Failed(Local), 0, [])
    else if !env.readOld.Works? then Result(slot, if env.readOld.Dies? then Died else Failed(Local), 0, [])
    else if !env.readPatch.Works? then Result(slot, if env.readPatch.Dies? then Died else Failed(Local), 0, [])
    else if env.out.None? then Result(slot, Failed(Local), 0, [])
    else if Digest(h, env.out.value) != want then Result(slot, Failed(Mismatch), 0, [])
    else if !env.create.Works? then Result(slot, if env.create.Dies? then Died else Failed(Local), 0, [])
    else if !env.write.Stored? then
      Result(slot.(part := Some(OnDisk(env.out.value, env.write))), if env.write.Killed? then Died else Failed(Local), 0, [])
    else
      match env.rename
      case Works => Result(Slot(None, env.out), if env.leave.Dies? then Died else Done, |env.out.value|, [])
      case Fails => Result(slot.(part := if env.cleanup.Works? then None else env.out),
                           if env.cleanup.Dies? then Died else Failed(Renaming), 0, [])
      case Dies => Result(slot.(part := env.out), Died, 0, [])
  }

  // ---------------------------------------------------------------- the code

  class Transfer {
    const hash: Hash
    var part: Option<Bytes>
    var dst: Option<Bytes>
    var hasher: int
    var reports: seq<nat>   // what the progress callback has been told in this attempt

    constructor (h: Hash, p: Option<Bytes>, d: Option<Bytes>)
      ensures hash == h && part == p && dst == d
    {
      hash := h;
      part, dst := p, d;
      hasher, reports := h.init, [];
    }

    /** hashPrefix: a new hasher fed with the first `size` bytes of the file. */
    method HashPrefix(size: nat)
      requires part.Some? && size <= |part.value|
      modifies `hasher
      ensures hasher == Feed(hash, hash.init, part.value[..size])
    {
      hasher := hash.init;
      for i := 0 to size
        invariant hasher == Feed(hash, hash.init, part.value[..i])
      {
        assert part.value[..i + 1][..i] == part.value[..i];
        hasher := hash.step(hasher, part.value[i]);
      }
    }

    /** openResumeState: `fed` is false where the code returns a nil hasher. */
    method OpenResume(env: Env) returns (from: nat, fed: bool, died: bool)
      modifies `part, `hasher
      ensures var probe := OpenResumeState(hash, old(part), env);
              part == probe.part && from == probe.from && died == probe.died &&
              fed == probe.hasher.Some? && (fed ==> hasher == probe.hasher.value)
    {
      from, fed, died := 0, false, false;
      if env.stat.Dies? { died := true; return; }
      if env.stat.Fails? || part.None? || |part.value| == 0 { return; }
      if !env.scan.Works? { died := env.scan.Dies?; return; }
      var safe := SafeResumeSize(part.value);
      if safe < |part.value| {
        if !env.trim.Works? { died := env.trim.Dies?; return; }
        part := Some(part.value[..safe]);
      } else {
        assert part.value[..safe] == part.value;
      }
      if safe == 0 { return; }
      if !env.rehash.Works? { died := env.rehash.Dies?; return; }
      HashPrefix(safe);
      assert part.value[..safe] == part.value;
      return safe, true, false;
    }

    /** copyWithProgress, writing to the file and the hasher together. */
    method CopyWithProgress(chunks: seq<Chunk>, end: End, offset: nat) returns (total: nat, ended: End)
      requires part.Some?
      modifies `part, `hasher, `reports
      ensures part.Some?
      ensures Copy(part.value, hasher, total, reports, ended) ==
              CopyLoop(hash, old(Copy(part.value, hasher, 0, reports, Eof)), offset, chunks, end)
    {
      total := 0;
      var i := 0;
      while i < |chunks|
        invariant 0 <= i <= |chunks| && part.Some?
        invariant CopyLoop(hash, Copy(part.value, hasher, total, reports, Eof), offset, chunks[i..], end) ==
                  CopyLoop(hash, old(Copy(part.value, hasher, 0, reports, Eof)), offset, chunks, end)
      {
        var data, w := chunks[i].data, chunks[i].write;
        assert chunks[i..][1..] == chunks[i + 1..];
        if |data| > 0 {
          if !w.Stored? {
            part := Some(part.value + OnDisk(data, w));
            return total, if w.Short? then Broken else Dead;
          }
          part := Some(part.value + data);
          hasher := Feed(hash, hasher, data);
          total := total + |data|;
          reports := reports + [offset + total];
        }
        i := i + 1;
      }
      return total, end;
    }

    method DownloadHashed(want: string, env: Env) returns (written: nat, exit: Exit)
      modifies this
      ensures Result(Slot(part, dst), exit, written, reports) == Attempt(hash, want, Slot(old(part), old(dst)), env)
    {
      reports := [];
      var resumeFrom, fed, died := OpenResume(env);
      if died || env.request.Dies? { return 0, Died; }
      if env.request.Fails? { return 0, Failed(Local); }
      match env.reply {
        case Unreachable => return 0, Failed(Network);
        case DiedWaiting => return 0, Died;
        case Reply(status, chunks, end) =>
          var startOffset := resumeFrom;
          if resumeFrom > 0 && status == PARTIAL {
          } else if status == OK {
            startOffset := 0;
            fed := false;
            if env.clear.Dies? { return 0, Died; }
            if env.clear.Fails? && part.Some? { return 0, Failed(Local); }
            if part.Some? { part := Some([]); }
          } else {
            return 0, Failed(Status);
          }
          if env.open.Dies? { return 0, Died; }
          if env.open.Fails? { return 0, Failed(Local); }
          if startOffset == 0 { part := Some([]); }
          if !fed { hasher := hash.init; }
          var bodyWritten, ended := CopyWithProgress(chunks, end, startOffset);
          written := startOffset + bodyWritten;
          if ended.Dead? || env.close.Dies? { return written, Died; }
          if ended.Broken? || env.close.Fails? { return written, Failed(Copying); }
          if hash.finish(hasher) != want {
            if env.remove.Dies? { return written, Died; }
            if env.remove.Works? { part := None; }
            return written, Failed(Mismatch);
          }
          if env.rename.Dies? { return written, Died; }
          if env.rename.Fails? { return written, Failed(Renaming); }
          part, dst := None, part;
          return written, if env.leave.Dies? then Died else Done;
      }
    }

    method ApplyPatch(want: string, patcher: string, env: PatchEnv) returns (written: nat, exit: Exit)
      modifies `part, `dst
      ensures Result(Slot(part, dst), exit, written, []) == Apply(hash, want, patcher, Slot(old(part), old(dst)), env)
    {
      if patcher != "bsdiff" { return 0, Failed(Local); }
      if !env.readOld.Works? { return 0, if env.readOld.Dies? then Died else Failed(Local); }
      if !env.readPatch.Works? { return 0, if env.readPatch.Dies? then Died else Failed(Local); }
      if env.out.None? { return 0, Failed(Local); }
      if Digest(hash, env.out.value) != want { return 0, Failed(Mismatch); }
      if !env.create.Works? { return 0, if env.create.Dies? then Died else Failed(Local); }
      part := Some(OnDisk(env.out.value, env.write));
      if !env.write.Stored? { return 0, if env.write.Killed? then Died else Failed(Local); }
      if env.rename.Dies? { return 0, Died; }
      if env.rename.Fails? {
        if env.cleanup.Works? { part := None; }
        return 0, if env.cleanup.Dies? then Died else Failed(Renaming);
      }
      part, dst := None, part;
      return |env.out.value|, if env.leave.Dies? then Died else Done;
    }
  }
}
