/** What downloadHashed and patch.Apply guarantee about `.part` and the final file,
    attempt by attempt and over whole runs of attempts, process deaths and power losses. */
module TransferRuns {
  import opened Hashing
  import opened Resume
  import opened Transfer

  // ---------------------------------------------------------------- the copy loop

  /** The length of `.part` after each non-empty read, starting from length `len`. */
  function Marks(len: nat, chunks: seq<Chunk>): seq<nat>
    decreases |chunks|
  {
    if chunks == [] then []
    else if chunks[0].data == [] then Marks(len, chunks[1..])
    else [len + |chunks[0].data|] + Marks(len + |chunks[0].data|, chunks[1..])
  }

  ghost predicate Increasing(s: seq<nat>) {
    forall i, j :: 0 <= i < j < |s| ==> s[i] < s[j]
  }

  lemma IncreasingCons(m: nat, rest: seq<nat>)
    requires Increasing(rest) && forall n :: n in rest ==> m < n
    ensures Increasing([m] + rest)
    ensures forall n :: n in [m] + rest <==> n == m || n in rest
  {
    assert forall i :: 0 < i < |[m] + rest| ==> ([m] + rest)[i] == rest[i - 1] && rest[i - 1] in rest;
  }

  lemma {:induction false} MarksIncrease(len: nat, chunks: seq<Chunk>)
    ensures Increasing(Marks(len, chunks))
    ensures forall m :: m in Marks(len, chunks) ==> len < m
    decreases |chunks|
  {
    if chunks != [] {
      var len' := len + |chunks[0].data|;
      MarksIncrease(len', chunks[1..]);
      if chunks[0].data != [] {
        IncreasingCons(len', Marks(len', chunks[1..]));
      }
    }
  }

  lemma {:induction false} MarksEnd(len: nat, chunks: seq<Chunk>)
    ensures Body(chunks) == [] <==> Marks(len, chunks) == []
    ensures Marks(len, chunks) != [] ==> Marks(len, chunks)[|Marks(len, chunks)| - 1] == len + |Body(chunks)|
    decreases |chunks|
  {
    if chunks != [] {
      var data := chunks[0].data;
      MarksEnd(len + |data|, chunks[1..]);
      assert |Body(chunks)| == |data| + |Body(chunks[1..])|;
    }
  }

  /** What reaches the disk before the first write that is not complete. */
  function Delivered(chunks: seq<Chunk>): Bytes {
    if chunks == [] then []
    else if chunks[0].data == [] || chunks[0].write.Stored? then chunks[0].data + Delivered(chunks[1..])
    else OnDisk(chunks[0].data, chunks[0].write)
  }

  predicate Whole(chunks: seq<Chunk>) {
    chunks == [] || ((chunks[0].data == [] || chunks[0].write.Stored?) && Whole(chunks[1..]))
  }

  lemma {:induction false} DeliveredIsPrefix(chunks: seq<Chunk>)
    ensures Delivered(chunks) <= Body(chunks)
    ensures Whole(chunks) ==> Delivered(chunks) == Body(chunks)
    ensures (forall ch :: ch in chunks ==> ch.write.Stored?) ==> Whole(chunks)
  {
    if chunks != [] {
      DeliveredIsPrefix(chunks[1..]);
      assert chunks[0] in chunks;
      assert forall ch :: ch in chunks[1..] ==> ch in chunks;
    }
  }

  /** The file: however the loop ends, it grows by what was delivered. */
  lemma {:induction false} CopyLoopGrows(h: Hash, c: Copy, offset: nat, chunks: seq<Chunk>, end: End)
    ensures var r := CopyLoop(h, c, offset, chunks, end);
            && r.part == c.part + Delivered(chunks)
            && (r.end.Eof? <==> end.Eof? && Whole(chunks))
    decreases |chunks|
  {
    if chunks == [] {
      assert c.part + Delivered(chunks) == c.part;
    } else {
      var data, w := chunks[0].data, chunks[0].write;
      if data == [] {
        CopyLoopGrows(h, c, offset, chunks[1..], end);
        assert data + Delivered(chunks[1..]) == Delivered(chunks[1..]);
      } else if w.Stored? {
        var total := c.total + |data|;
        CopyLoopGrows(h, Copy(c.part + data, Feed(h, c.state, data), total, c.reports + [offset + total], Eof), offset, chunks[1..], end);
        assert c.part + data + Delivered(chunks[1..]) == c.part + Delivered(chunks);
      }
    }
  }

  /** The hasher and the count: when every write is complete they have seen the whole body. */
  lemma {:induction false} CopyLoopDigests(h: Hash, c: Copy, offset: nat, chunks: seq<Chunk>, end: End)
    requires Whole(chunks)
    ensures var r := CopyLoop(h, c, offset, chunks, end);
            r.state == Feed(h, c.state, Body(chunks)) && r.total == c.total + |Body(chunks)|
    decreases |chunks|
  {
    if chunks != [] {
      var data := chunks[0].data;
      if data == [] {
        CopyLoopDigests(h, c, offset, chunks[1..], end);
        assert Body(chunks) == Body(chunks[1..]);
      } else {
        var total := c.total + |data|;
        CopyLoopDigests(h, Copy(c.part + data, Feed(h, c.state, data), total, c.reports + [offset + total], Eof), offset, chunks[1..], end);
        FeedConcat(h, c.state, data, Body(chunks[1..]));
      }
    }
  }

  /** The progress reports: each is the length of `.part` when it is made. */
  lemma {:induction false} CopyLoopReports(h: Hash, c: Copy, offset: nat, chunks: seq<Chunk>, end: End)
    requires offset + c.total == |c.part|
    ensures var r := CopyLoop(h, c, offset, chunks, end);
            && r.reports <= c.reports + Marks(|c.part|, chunks)
            && (Whole(chunks) ==> r.reports == c.reports + Marks(|c.part|, chunks))
    decreases |chunks|
  {
    var marks := Marks(|c.part|, chunks);
    if chunks == [] {
      assert c.reports + marks == c.reports;
    } else {
      var data, w := chunks[0].data, chunks[0].write;
      if data == [] {
        CopyLoopReports(h, c, offset, chunks[1..], end);
      } else if w.Stored? {
        var total := c.total + |data|;
        var c' := Copy(c.part + data, Feed(h, c.state, data), total, c.reports + [offset + total], Eof);
        CopyLoopReports(h, c', offset, chunks[1..], end);
        assert c'.reports + Marks(|c'.part|, chunks[1..]) == c.reports + marks;
      }
    }
  }

  // ---------------------------------------------------------------- integrity

  /** A probe that resumes has hashed exactly what it kept. */
  ghost predicate Primed(h: Hash, probe: Probe) {
    probe.from > 0 ==>
      probe.part.Some? && probe.from == |probe.part.value| && probe.hasher == Some(Feed(h, h.init, probe.part.value))
  }

  lemma ProbeIsPrimed(h: Hash, part: Option<Bytes>, env: Env)
    ensures Primed(h, OpenResumeState(h, part, env))
  {
  }

  /** The probe resumes: when its calls work, it asks for the rest after a prefix of the file that has
      every real byte, and all but at most 16 MiB of the others. */
  lemma ProbeResumes(h: Hash, part: Bytes, env: Env)
    requires env.stat.Works? && env.scan.Works? && env.trim.Works? && env.rehash.Works?
    ensures var probe := OpenResumeState(h, Some(part), env);
            && !probe.died && probe.part == Some(part[..probe.from])
            && RealLen(part) <= probe.from <= |part| && |part| - 16 * 1024 * 1024 <= probe.from
  {
    KeptKeepsRealLen(part);
    KeptDropsOnlyZeros(part);
  }

  /** The hasher has been fed exactly what is in `.part`. */
  ghost predicate InStep(h: Hash, c: Connected) {
    c.Start? ==> c.offset == |c.part| && c.state == Feed(h, h.init, c.part)
  }

  /** Whenever copying starts, hasher and file are in step. */
  lemma HasherMatchesFile(h: Hash, probe: Probe, env: Env)
    requires Primed(h, probe)
    ensures InStep(h, Connect(h, probe, env))
  {
  }

  /** ... and at the digest check they still are; progress was reported truthfully. */
  lemma CopiedMatchesFile(h: Hash, part: Bytes, chunks: seq<Chunk>, end: End)
    ensures var c := CopyLoop(h, Copy(part, Feed(h, h.init, part), 0, [], Eof), |part|, chunks, end);
            && c.part == part + Delivered(chunks)
            && c.reports <= Marks(|part|, chunks)
            && Increasing(c.reports)
            && (c.end.Eof? <==> end.Eof? && Whole(chunks))
            && (c.end.Eof? ==> c.part == part + Body(chunks) && c.state == Feed(h, h.init, c.part)
                               && |part| + c.total == |c.part| && c.reports == Marks(|part|, chunks))
  {
    var c0 := Copy(part, Feed(h, h.init, part), 0, [], Eof);
    CopyLoopGrows(h, c0, |part|, chunks, end);
    CopyLoopReports(h, c0, |part|, chunks, end);
    MarksIncrease(|part|, chunks);
    assert [] + Marks(|part|, chunks) == Marks(|part|, chunks);
    if Whole(chunks) {
      CopyLoopDigests(h, c0, |part|, chunks, end);
      DeliveredIsPrefix(chunks);
      FeedConcat(h, h.init, part, Body(chunks));
    }
  }

  /** The attempt got as far as renaming `.part` over the final file. */
  predicate Renamed(c: Connected, r: Result) {
    r.exit.Done? || (r.exit.Died? && c.Start? && r.slot.part.None?)
  }

  /** The patch result is written to `.part`, over whatever was there. */
  predicate PatchWrites(h: Hash, want: string, patcher: string, env: PatchEnv) {
    && patcher == "bsdiff" && env.readOld.Works? && env.readPatch.Works?
    && env.out.Some? && Digest(h, env.out.value) == want && env.create.Works?
  }

  predicate PatchRenamed(env: PatchEnv, r: Result) {
    r.exit.Done? || (r.exit.Died? && env.readOld.Works? && env.readPatch.Works? && env.create.Works?
                     && env.write.Stored? && env.rename.Works?)
  }

  predicate Verified(h: Hash, want: string, dst: Option<Bytes>) {
    dst.Some? && Digest(h, dst.value) == want
  }

  /** The outcome of the digest check, the rename and what goes wrong around them. */
  lemma FinishIs(h: Hash, want: string, c: Copy, offset: nat, dst: Option<Bytes>, env: Env)
    requires c.end.Eof? ==> c.state == Feed(h, h.init, c.part) && offset + c.total == |c.part|
    ensures var r := Finish(h, want, c, offset, dst, env);
            && (r.slot.part.Some? ==> r.slot.part.value == c.part && r.slot.dst == dst && !r.exit.Done?)
            && (r.exit.Done? ==> r.slot == Slot(None, Some(c.part)) && Digest(h, c.part) == want && r.written == |c.part|)
            && (r.exit.Failed? ==> r.slot.dst == dst)
            && (r.exit.Died? && r.slot.part.None? ==> r.slot.dst == Some(c.part) && Digest(h, c.part) == want)
            && r.reports == c.reports
  {
  }

  lemma CompleteIntegrity(h: Hash, want: string, c: Connected, dst: Option<Bytes>, env: Env)
    requires InStep(h, c) && (c.Stop? ==> c.exit != Done)
    ensures var r := Complete(h, want, c, dst, env);
            && (r.exit.Done? ==> r.slot.part.None? && r.slot.dst.Some? && Digest(h, r.slot.dst.value) == want
                                 && r.written == |r.slot.dst.value|)
            && (r.exit.Failed? ==> r.slot.dst == dst)
            && (if Renamed(c, r) then Verified(h, want, r.slot.dst) else r.slot.dst == dst)
            && Increasing(r.reports)
  {
    if c.Start? && env.reply.Reply? {
      CopiedMatchesFile(h, c.part, env.reply.chunks, env.reply.end);
      var copy := CopyLoop(h, Copy(c.part, c.state, 0, [], Eof), c.offset, env.reply.chunks, env.reply.end);
      FinishIs(h, want, copy, c.offset, dst, env);
    }
  }

  /** Whatever the server and the disk do: no error means the final file has the requested
      digest and the reported size; an error leaves the final file alone; a death leaves it
      alone or correct. */
  lemma AttemptIntegrity(h: Hash, want: string, slot: Slot, env: Env)
    ensures var r := Attempt(h, want, slot, env);
            && (r.exit.Done? ==> r.slot.part.None? && r.slot.dst.Some? && Digest(h, r.slot.dst.value) == want
                                 && r.written == |r.slot.dst.value|)
            && (r.exit.Failed? ==> r.slot.dst == slot.dst)
            && (if Renamed(Connect(h, OpenResumeState(h, slot.part, env), env), r) then Verified(h, want, r.slot.dst)
                else r.slot.dst == slot.dst)
            && Increasing(r.reports)
  {
    ProbeIsPrimed(h, slot.part, env);
    var probe := OpenResumeState(h, slot.part, env);
    HasherMatchesFile(h, probe, env);
    StopsAreNotDone(h, probe, env);
    CompleteIntegrity(h, want, Connect(h, probe, env), slot.dst, env);
  }

  // ---------------------------------------------------------------- how an attempt ends

  /** The server's answer is taken: a whole file, for which `.part` could be emptied, or the rest that
      was asked for. */
  predicate Accepted(probe: Probe, env: Env) {
    && !probe.died && env.request.Works? && env.reply.Reply?
    && if env.reply.status == 200 then env.clear.Works? || (env.clear.Fails? && probe.part.None?)
       else env.reply.status == 206 && probe.from > 0
  }

  /** What the body is appended to. */
  function Base(probe: Probe, env: Env): Bytes
    requires Accepted(probe, env)
  {
    if env.reply.status == 200 then [] else probe.part.GetOr([])
  }

  /** The whole body has been written and the file closed. */
  predicate Received(probe: Probe, env: Env) {
    && Accepted(probe, env) && env.open.Works?
    && env.reply.end.Eof? && Whole(env.reply.chunks) && env.close.Works?
  }

  /** `.part` goes away: renamed if its bytes have the digest, removed if they do not. */
  predicate Consumed(h: Hash, want: string, probe: Probe, env: Env) {
    Received(probe, env) &&
    if Digest(h, Base(probe, env) + Body(env.reply.chunks)) == want then env.rename.Works? else env.remove.Works?
  }

  /** The exact ends of an attempt, from what the server sent and what the calls did. */
  lemma AttemptEndsIff(h: Hash, want: string, slot: Slot, env: Env)
    ensures var probe, r := OpenResumeState(h, slot.part, env), Attempt(h, want, slot, env);
            var good := Received(probe, env) && Digest(h, Base(probe, env) + Body(env.reply.chunks)) == want;
            && (r.exit.Done? <==> good && env.rename.Works? && !env.leave.Dies?)
            && (r.exit == Failed(Mismatch) <==> Received(probe, env) && !good && !env.remove.Dies?)
            && (good && env.rename.Works? ==> r.slot == Slot(None, Some(Base(probe, env) + Body(env.reply.chunks))))
            && (!(good && env.rename.Works?) ==> r.slot.dst == slot.dst)
  {
    StartsIff(h, slot, env);
    var c := Connect(h, OpenResumeState(h, slot.part, env), env);
    if c.Start? { CopiedMatchesFile(h, c.part, env.reply.chunks, env.reply.end); }
  }

  /** Copying starts exactly when an answer is taken and the file can be opened. */
  lemma StartsIff(h: Hash, slot: Slot, env: Env)
    ensures var probe := OpenResumeState(h, slot.part, env);
            var c := Connect(h, probe, env);
            && (c.Start? <==> Accepted(probe, env) && env.open.Works?)
            && (c.Start? ==> c.part == Base(probe, env) && c.offset == |c.part| && c.state == Feed(h, h.init, c.part))
            && (c.Stop? ==> c.exit != Done && c.exit != Failed(Mismatch) && (c.left.None? ==> probe.part.None?))
            && (probe.part.None? ==> slot.part.None?)
  {
    ProbeIsPrimed(h, slot.part, env);
  }

  /** Some call, read or write of the attempt is where the process dies. */
  predicate Deadly(env: Env) {
    || env.stat.Dies? || env.scan.Dies? || env.trim.Dies? || env.rehash.Dies? || env.request.Dies? || env.reply.DiedWaiting?
    || env.clear.Dies? || env.open.Dies? || env.close.Dies? || env.remove.Dies? || env.rename.Dies? || env.leave.Dies?
    || (env.reply.Reply? && (env.reply.end.Dead? || exists ch :: ch in env.reply.chunks && ch.write.Killed?))
  }

  lemma {:induction false} CopyDies(h: Hash, c: Copy, offset: nat, chunks: seq<Chunk>, end: End)
    requires !c.end.Dead? && !end.Dead? && forall ch :: ch in chunks ==> !ch.write.Killed?
    ensures !CopyLoop(h, c, offset, chunks, end).end.Dead?
    decreases |chunks|
  {
    if chunks != [] {
      var data := chunks[0].data;
      assert chunks[0] in chunks;
      assert forall ch :: ch in chunks[1..] ==> ch in chunks;
      if data == [] {
        CopyDies(h, c, offset, chunks[1..], end);
      } else if chunks[0].write.Stored? {
        var total := c.total + |data|;
        CopyDies(h, Copy(c.part + data, Feed(h, c.state, data), total, c.reports + [offset + total], Eof), offset, chunks[1..], end);
      }
    }
  }

  /** Only a death is reported as one: any other failure is an error to the caller. */
  lemma OnlyDeathsDie(h: Hash, want: string, slot: Slot, env: Env)
    requires !Deadly(env)
    ensures !Attempt(h, want, slot, env).exit.Died?
  {
    var c := Connect(h, OpenResumeState(h, slot.part, env), env);
    if c.Start? && env.reply.Reply? {
      CopyDies(h, Copy(c.part, c.state, 0, [], Eof), c.offset, env.reply.chunks, env.reply.end);
    }
  }

  /** A download that is cut off, by the server, the network, the disk or a death, keeps everything
      that had arrived. */
  lemma CutKeepsPart(h: Hash, want: string, slot: Slot, env: Env)
    ensures var probe, r := OpenResumeState(h, slot.part, env), Attempt(h, want, slot, env);
            Accepted(probe, env) && env.open.Works? && !Received(probe, env) ==>
              !r.exit.Done? && r.slot == Slot(Some(Base(probe, env) + Delivered(env.reply.chunks)), slot.dst)
  {
    StartsIff(h, slot, env);
    var c := Connect(h, OpenResumeState(h, slot.part, env), env);
    if c.Start? { CopiedMatchesFile(h, c.part, env.reply.chunks, env.reply.end); }
  }

  /** An existing `.part` is gone after an attempt exactly when the whole body was written and closed,
      and then the rename worked or the digest of the bytes on disk differed and the removal worked. */
  lemma PartGoneIff(h: Hash, want: string, slot: Slot, env: Env)
    ensures var probe, r := OpenResumeState(h, slot.part, env), Attempt(h, want, slot, env);
            && (Consumed(h, want, probe, env) ==> r.slot.part.None?)
            && (slot.part.Some? && r.slot.part.None? ==> Consumed(h, want, probe, env))
  {
    StartsIff(h, slot, env);
    var c := Connect(h, OpenResumeState(h, slot.part, env), env);
    if c.Start? { CopiedMatchesFile(h, c.part, env.reply.chunks, env.reply.end); }
  }

  /** A patch application ends well exactly when every call works and the decoder gives bytes with the
      digest asked for; it then leaves exactly those bytes. */
  lemma ApplyEndsIff(h: Hash, want: string, patcher: string, slot: Slot, env: PatchEnv)
    ensures var r := Apply(h, want, patcher, slot, env);
            && (r.exit.Done? <==> PatchWrites(h, want, patcher, env) && env.write.Stored? && env.rename.Works? && !env.leave.Dies?)
            && (r.exit.Done? ==> r.slot == Slot(None, env.out) && r.written == |env.out.value|)
  {
  }

  lemma StopsAreNotDone(h: Hash, probe: Probe, env: Env)
    ensures var c := Connect(h, probe, env); c.Stop? ==> c.exit != Done && c.exit != Failed(Mismatch)
  {
  }

  lemma ApplyIntegrity(h: Hash, want: string, patcher: string, slot: Slot, env: PatchEnv)
    ensures var r := Apply(h, want, patcher, slot, env);
            && (r.exit.Done? ==> r.slot == Slot(None, env.out) && env.out.Some? && Digest(h, env.out.value) == want
                                 && r.written == |env.out.value|)
            && (r.exit.Failed? ==> r.slot.dst == slot.dst)
            && (if PatchRenamed(env, r) then Verified(h, want, r.slot.dst) else r.slot.dst == slot.dst)
  {
  }

  // ---------------------------------------------------------------- runs

  /** A slot over time. Nothing in the client ever syncs, so a power loss can still tear what was
      written since the last one: `.part` if it is `dirty`, and the final file if its bytes were
      renamed into place `unsynced`. */
  datatype Life = Life(slot: Slot, dirty: bool, unsynced: bool)

  /** k bytes survive, j zero bytes follow. */
  datatype Damage = Damage(k: nat, j: nat)

  datatype Event = Download(env: Env)
                 | Patch(patcher: string, penv: PatchEnv)
                 | PowerLoss(part: Damage, dst: Damage)

  function Torn(file: Option<Bytes>, d: Damage): Option<Bytes> {
    if file.None? then None else Some(Tear(file.value, Min(d.k, |file.value|), d.j))
  }

  function Next(h: Hash, want: string, life: Life, e: Event): Life {
    match e
    case Download(env) =>
      var c := Connect(h, OpenResumeState(h, life.slot.part, env), env);
      var r := Attempt(h, want, life.slot, env);
      Life(r.slot, life.dirty || c.Start? || c.left != life.slot.part, life.unsynced || Renamed(c, r))
    case Patch(patcher, penv) =>
      var r := Apply(h, want, patcher, life.slot, penv);
      Life(r.slot, life.dirty || PatchWrites(h, want, patcher, penv), life.unsynced || PatchRenamed(penv, r))
    case PowerLoss(part, dst) =>
      Life(Slot(if life.dirty then Torn(life.slot.part, part) else life.slot.part,
                if life.unsynced then Torn(life.slot.dst, dst) else life.slot.dst),
           false, false)
  }

  function Run(h: Hash, want: string, life: Life, events: seq<Event>): Life {
    if events == [] then life
    else Next(h, want, Run(h, want, life, events[..|events| - 1]), events[|events| - 1])
  }

  /** Somewhere in the run the power fails while the final file is unsynced. */
  ghost predicate LossAfterRename(h: Hash, want: string, life: Life, events: seq<Event>) {
    exists i :: 0 <= i < |events| && events[i].PowerLoss? && Run(h, want, life, events[..i]).unsynced
  }

  /** The final file is the one the run started with, or has the requested digest. */
  ghost predicate Intact(h: Hash, want: string, life: Life, dst: Option<Bytes>) {
    dst == life.slot.dst || Verified(h, want, dst)
  }

  ghost predicate TearOfIntact(h: Hash, want: string, life: Life, dst: Option<Bytes>) {
    exists whole, d :: Intact(h, want, life, whole) && dst == Torn(whole, d)
  }

  /** Over any run of attempts, patches, deaths and power losses with tears of any length: the final
      file is intact, or the tear of an intact one, and the latter only when a loss follows an
      unsynced rename. */
  lemma {:induction false} RunIntegrity(h: Hash, want: string, life: Life, events: seq<Event>)
    ensures var after := Run(h, want, life, events);
            && (Intact(h, want, life, after.slot.dst) || TearOfIntact(h, want, life, after.slot.dst))
            && (after.unsynced || !LossAfterRename(h, want, life, events) ==> Intact(h, want, life, after.slot.dst))
  {
    if events != [] {
      var n := |events| - 1;
      RunIntegrity(h, want, life, events[..n]);
      var before, e := Run(h, want, life, events[..n]), events[n];
      assert Run(h, want, life, events) == Next(h, want, before, e);
      if !LossAfterRename(h, want, life, events) {
        NoLossBefore(h, want, life, events);
      }
      IntegrityStep(h, want, life, before, e);
    }
  }

  lemma NoLossBefore(h: Hash, want: string, life: Life, events: seq<Event>)
    requires events != [] && !LossAfterRename(h, want, life, events)
    ensures var n := |events| - 1;
            !LossAfterRename(h, want, life, events[..n]) &&
            (events[n].PowerLoss? ==> !Run(h, want, life, events[..n]).unsynced)
  {
    var n := |events| - 1;
    assert forall i :: 0 <= i < n ==> events[..n][..i] == events[..i];
  }

  lemma IntegrityStep(h: Hash, want: string, life: Life, before: Life, e: Event)
    requires Intact(h, want, life, before.slot.dst) || (TearOfIntact(h, want, life, before.slot.dst) && !before.unsynced)
    ensures var after := Next(h, want, before, e);
            && (Intact(h, want, life, after.slot.dst) || (TearOfIntact(h, want, life, after.slot.dst) && !after.unsynced))
            && (Intact(h, want, life, before.slot.dst) && !(e.PowerLoss? && before.unsynced) ==> Intact(h, want, life, after.slot.dst))
  {
    match e
    case Download(env) => AttemptIntegrity(h, want, before.slot, env);
    case Patch(patcher, penv) => ApplyIntegrity(h, want, patcher, before.slot, penv);
    case PowerLoss(part, dst) =>
      if before.unsynced {
        assert TearOfIntact(h, want, life, Torn(before.slot.dst, dst));
      }
  }

  /** A power loss spares the final file whatever the damage exactly when it is not unsynced. */
  lemma LossSparesFinalIff(h: Hash, want: string, life: Life)
    ensures (forall part, dst :: Next(h, want, life, PowerLoss(part, dst)).slot.dst == life.slot.dst)
            <==> !life.unsynced || life.slot.dst.None?
  {
    if life.unsynced && life.slot.dst.Some? {
      var d := Damage(|life.slot.dst.value|, 1);
      var after := Next(h, want, life, PowerLoss(d, d)).slot.dst;
      assert |after.value| == |life.slot.dst.value| + 1;
    }
  }

  // ---------------------------------------------------------------- honest servers

  /** The server only ever sends bytes of `b` from where they were asked for, and the
      client sees the end of the body only at the end of `b`. It may cut, refuse or
      answer any other status. */
  ghost predicate Honest(b: Bytes, from: nat, reply: Reply) {
    reply.Reply? ==>
      && (reply.status == OK ==>
            Body(reply.chunks) <= b && (reply.end.Eof? ==> Body(reply.chunks) == b))
      && (reply.status == PARTIAL && from > 0 ==>
            from < |b| && Body(reply.chunks) <= b[from..] && (reply.end.Eof? ==> Body(reply.chunks) == b[from..]))
  }

  /** Nothing fails from the request on, and the body arrives whole. */
  predicate Undisturbed(env: Env) {
    && env.request.Works? && env.clear.Works? && env.open.Works? && env.close.Works?
    && env.remove.Works? && env.rename.Works? && env.leave.Works?
    && env.reply.Reply? && env.reply.end.Eof? && forall ch :: ch in env.reply.chunks ==> ch.write.Stored?
  }

  /** A prefix of `b`, possibly torn by at most one scan window. */
  ghost predicate TornPrefix(b: Bytes, part: Option<Bytes>) {
    part.Some? ==> exists k, j :: 0 <= k <= |b| && 0 <= j <= SCAN_WINDOW && part.value == Tear(b, k, j)
  }

  ghost predicate TruePrefix(b: Bytes, part: Option<Bytes>) {
    part.Some? ==> part.value <= b
  }

  ghost predicate Sound(b: Bytes, life: Life) {
    TornPrefix(b, life.slot.part) && (life.dirty ==> TruePrefix(b, life.slot.part))
  }

  /** The events of a run against an honest server whose power losses tear `.part` by at most one
      window. */
  ghost predicate Tame(h: Hash, b: Bytes, life: Life, e: Event) {
    match e
    case Download(env) => Honest(b, OpenResumeState(h, life.slot.part, env).from, env.reply)
    case Patch(_, _) => true
    case PowerLoss(part, _) => part.j <= SCAN_WINDOW
  }

  ghost predicate TameRun(h: Hash, b: Bytes, life: Life, events: seq<Event>) {
    forall i :: 0 <= i < |events| ==> Tame(h, b, Run(h, Digest(h, b), life, events[..i]), events[i])
  }

  lemma TruePrefixIsTorn(b: Bytes, part: Option<Bytes>)
    requires TruePrefix(b, part)
    ensures TornPrefix(b, part)
  {
    if part.Some? {
      assert part.value == Tear(b, |part.value|, 0);
    }
  }

  /** From a torn prefix, the probe resumes from a true prefix with the right hasher. */
  lemma ProbeKeepsPrefix(h: Hash, b: Bytes, part: Option<Bytes>, env: Env)
    requires TornPrefix(b, part)
    ensures var p := OpenResumeState(h, part, env);
            && (p.part == part || TruePrefix(b, p.part))
            && (p.from > 0 ==> p.part.Some? && p.part.value <= b && p.from == |p.part.value|
                               && p.hasher == Some(Feed(h, h.init, p.part.value)))
  {
    if part.Some? && part.value != [] {
      var k, j :| 0 <= k <= |b| && 0 <= j <= SCAN_WINDOW && part.value == Tear(b, k, j);
      TornWriteBound(b, k, j);
      assert b[..k] <= b;
      assert part.value[..Kept(part.value)] <= b;
    }
  }

  /** An honest body continues a kept prefix. */
  lemma HonestStart(h: Hash, b: Bytes, probe: Probe, env: Env)
    requires probe.from > 0 ==> probe.part.Some? && probe.part.value <= b && probe.from == |probe.part.value|
    requires Honest(b, probe.from, env.reply)
    ensures var c := Connect(h, probe, env);
            && (c.Stop? ==> c.left == probe.part || TruePrefix(b, c.left))
            && (c.Stop? ==> c.exit != Done && c.exit != Failed(Mismatch))
            && (c.Start? ==> env.reply.Reply? && c.part + Body(env.reply.chunks) <= b
                             && (env.reply.end.Eof? ==> c.part + Body(env.reply.chunks) == b))
  {
    var c := Connect(h, probe, env);
    if c.Start? {
      var body := Body(env.reply.chunks);
      if c.offset == 0 {
        assert c.part + body == body;
      } else {
        var rest := b[probe.from..];
        assert c.part == probe.part.value;
        assert b == c.part + rest;
        assert rest == body + rest[|body|..];
        assert b == (c.part + body) + rest[|body|..];
      }
    }
  }

  /** Finishing an honest copy. */
  lemma HonestFinish(h: Hash, b: Bytes, c: Connected, dst: Option<Bytes>, env: Env)
    requires c.Start? && InStep(h, c)
    requires env.reply.Reply? && c.part + Body(env.reply.chunks) <= b
    requires env.reply.end.Eof? ==> c.part + Body(env.reply.chunks) == b
    ensures var r := Complete(h, Digest(h, b), c, dst, env);
            && r.exit != Failed(Mismatch)
            && TruePrefix(b, r.slot.part)
            && (r.exit.Done? ==> r.slot == Slot(None, Some(b)) && r.written == |b|)
            && (r.slot.dst == dst || r.slot.dst == Some(b))
            && (Undisturbed(env) ==> r.exit == Done && r.reports == Marks(|c.part|, env.reply.chunks))
  {
    CopiedMatchesFile(h, c.part, env.reply.chunks, env.reply.end);
    DeliveredIsPrefix(env.reply.chunks);
    assert c.part + Delivered(env.reply.chunks) <= c.part + Body(env.reply.chunks);
  }

  /** One attempt against an honest server, whatever else goes wrong in it: the digest never
      disagrees, and if the final file changes it becomes `b`. */
  lemma HonestAttempt(h: Hash, b: Bytes, slot: Slot, env: Env)
    requires TornPrefix(b, slot.part)
    requires Honest(b, OpenResumeState(h, slot.part, env).from, env.reply)
    ensures var r := Attempt(h, Digest(h, b), slot, env);
            && r.exit != Failed(Mismatch)
            && (r.slot.part == slot.part || TruePrefix(b, r.slot.part))
            && (Connect(h, OpenResumeState(h, slot.part, env), env).Start? ==> TruePrefix(b, r.slot.part))
            && (r.exit.Done? ==> r.slot == Slot(None, Some(b)) && r.written == |b|)
            && (r.slot.dst == slot.dst || r.slot.dst == Some(b))
  {
    ProbeKeepsPrefix(h, b, slot.part, env);
    ProbeIsPrimed(h, slot.part, env);
    var probe := OpenResumeState(h, slot.part, env);
    HasherMatchesFile(h, probe, env);
    HonestStart(h, b, probe, env);
    var c := Connect(h, probe, env);
    if c.Start? {
      HonestFinish(h, b, c, slot.dst, env);
    }
  }

  /** A patch result with the manifest's digest is the manifest's blob. */
  lemma HonestApply(h: Hash, b: Bytes, patcher: string, slot: Slot, env: PatchEnv)
    requires Collisionless(h, b)
    ensures var r := Apply(h, Digest(h, b), patcher, slot, env);
            && (if PatchWrites(h, Digest(h, b), patcher, env) then TruePrefix(b, r.slot.part) else r.slot == slot)
            && (r.exit.Done? ==> r.slot == Slot(None, Some(b)))
            && (r.slot.dst == slot.dst || r.slot.dst == Some(b))
  {
  }

  lemma SoundStep(h: Hash, b: Bytes, life: Life, e: Event)
    requires Sound(b, life) && Tame(h, b, life, e)
    requires e.Patch? ==> Collisionless(h, b)
    ensures Sound(b, Next(h, Digest(h, b), life, e))
    ensures var dst := Next(h, Digest(h, b), life, e).slot.dst;
            dst == life.slot.dst || dst == Some(b) || (e.PowerLoss? && life.unsynced)
  {
    var next := Next(h, Digest(h, b), life, e);
    match e {
      case Download(env) =>
        HonestAttempt(h, b, life.slot, env);
        if TruePrefix(b, next.slot.part) { TruePrefixIsTorn(b, next.slot.part); }
      case Patch(patcher, penv) =>
        HonestApply(h, b, patcher, life.slot, penv);
        if TruePrefix(b, next.slot.part) { TruePrefixIsTorn(b, next.slot.part); }
      case PowerLoss(part, dst) =>
        if life.slot.part.Some? && life.dirty {
          var p := life.slot.part.value;
          var k := Min(part.k, |p|);
          assert p[..k] == b[..k];
          assert next.slot.part.value == Tear(b, k, part.j);
        }
    }
  }

  /** Downloads and patches share `<blob>.part`. Over any tame run of both, `.part` stays a
      prefix of the blob up to one torn window, and the final file is untouched or the blob, unless
      the power failed while it was unsynced. */
  lemma {:induction false} SharedPartStaysSound(h: Hash, b: Bytes, life: Life, events: seq<Event>)
    requires Sound(b, life) && TameRun(h, b, life, events)
    requires (exists e :: e in events && e.Patch?) ==> Collisionless(h, b)
    ensures Sound(b, Run(h, Digest(h, b), life, events))
    ensures var dst := Run(h, Digest(h, b), life, events).slot.dst;
            !LossAfterRename(h, Digest(h, b), life, events) ==> dst == life.slot.dst || dst == Some(b)
  {
    if events != [] {
      var n := |events| - 1;
      if !LossAfterRename(h, Digest(h, b), life, events) {
        NoLossBefore(h, Digest(h, b), life, events);
      }
      assert forall i :: 0 <= i < n ==> events[..n][..i] == events[..i];
      assert events[n] in events;
      SharedPartStaysSound(h, b, life, events[..n]);
      SoundStep(h, b, Run(h, Digest(h, b), life, events[..n]), events[n]);
    }
  }

  /** ... so the next download, whatever happens in it, resumes from a true prefix of the
      blob with the hasher in the state of that prefix, ... */
  lemma NextDownloadResumesTruePrefix(h: Hash, b: Bytes, life: Life, events: seq<Event>, env: Env)
    requires Sound(b, life) && TameRun(h, b, life, events)
    requires (exists e :: e in events && e.Patch?) ==> Collisionless(h, b)
    ensures var p := OpenResumeState(h, Run(h, Digest(h, b), life, events).slot.part, env);
            p.from > 0 ==> p.part.Some? && p.part.value <= b && p.from == |p.part.value|
                           && p.hasher == Some(Feed(h, h.init, p.part.value))
  {
    SharedPartStaysSound(h, b, life, events);
    ProbeKeepsPrefix(h, b, Run(h, Digest(h, b), life, events).slot.part, env);
  }

  /** ... and never reports a mismatch. */
  lemma NextDownloadMatches(h: Hash, b: Bytes, life: Life, events: seq<Event>, env: Env)
    requires Sound(b, life) && TameRun(h, b, life, events)
    requires (exists e :: e in events && e.Patch?) ==> Collisionless(h, b)
    requires Tame(h, b, Run(h, Digest(h, b), life, events), Download(env))
    ensures Attempt(h, Digest(h, b), Run(h, Digest(h, b), life, events).slot, env).exit != Failed(Mismatch)
  {
    SharedPartStaysSound(h, b, life, events);
    HonestAttempt(h, b, Run(h, Digest(h, b), life, events).slot, env);
  }

  /** The server answers what was asked, and nothing disturbs the answer. */
  predicate Answered(probe: Probe, env: Env) {
    !probe.died && Undisturbed(env) && (env.reply.status == OK || (probe.from > 0 && env.reply.status == PARTIAL))
  }

  lemma AnsweredStarts(h: Hash, probe: Probe, env: Env)
    requires Answered(probe, env)
    ensures var c := Connect(h, probe, env);
            c.Start? && (c.offset == 0 || (c.offset == probe.from && env.reply.status == PARTIAL))
  {
  }

  /** What a fresh download of `b` gives: the file, its size, and progress that ends at its size. */
  ghost predicate Downloaded(b: Bytes, r: Result) {
    && r.exit == Done && r.slot == Slot(None, Some(b)) && r.written == |b|
    && Increasing(r.reports)
    && (b == [] ==> r.reports == [])
    && (b != [] ==> r.reports != [] && r.reports[|r.reports| - 1] == |b|)
  }

  /** An answered request completes the file, and progress ends at its size. */
  lemma AnsweredCompletes(h: Hash, b: Bytes, probe: Probe, dst: Option<Bytes>, env: Env)
    requires Primed(h, probe) && (probe.from > 0 ==> probe.part.value <= b)
    requires Answered(probe, env) && Honest(b, probe.from, env.reply)
    ensures Downloaded(b, Complete(h, Digest(h, b), Connect(h, probe, env), dst, env))
  {
    HonestStart(h, b, probe, env);
    HasherMatchesFile(h, probe, env);
    AnsweredStarts(h, probe, env);
    var c := Connect(h, probe, env);
    HonestFinish(h, b, c, dst, env);
    MarksIncrease(|c.part|, env.reply.chunks);
    MarksEnd(|c.part|, env.reply.chunks);
    assert |c.part| + |Body(env.reply.chunks)| == |b|;
  }

  /** The next attempt on this slot is answered honestly and nothing disturbs it. */
  ghost predicate Ready(h: Hash, b: Bytes, slot: Slot, env: Env) {
    var probe := OpenResumeState(h, slot.part, env);
    Answered(probe, env) && Honest(b, probe.from, env.reply)
  }

  lemma ReadyDownloads(h: Hash, b: Bytes, slot: Slot, env: Env)
    requires TornPrefix(b, slot.part)
    ensures Ready(h, b, slot, env) ==> Downloaded(b, Attempt(h, Digest(h, b), slot, env))
  {
    ProbeKeepsPrefix(h, b, slot.part, env);
    ProbeIsPrimed(h, slot.part, env);
    if Ready(h, b, slot, env) {
      AnsweredCompletes(h, b, OpenResumeState(h, slot.part, env), slot.dst, env);
    }
  }

  /** Resuming refines downloading afresh: after any tame run, one undisturbed attempt whose
      request the server can answer gives exactly what a fresh download gives. */
  lemma ResumeRefinesFresh(h: Hash, b: Bytes, life: Life, events: seq<Event>, env: Env)
    requires Sound(b, life) && TameRun(h, b, life, events)
    requires (exists e :: e in events && e.Patch?) ==> Collisionless(h, b)
    ensures var slot := Run(h, Digest(h, b), life, events).slot;
            Ready(h, b, slot, env) ==> Downloaded(b, Attempt(h, Digest(h, b), slot, env))
  {
    SharedPartStaysSound(h, b, life, events);
    ReadyDownloads(h, b, Run(h, Digest(h, b), life, events).slot, env);
  }

  // ---------------------------------------------------------------- no real byte lost

  function Real(part: Option<Bytes>): nat {
    if part.None? then 0 else RealLen(part.value)
  }

  /** The attempt gets as far as emptying `.part` for a download from byte 0: the server sends a
      whole file, because no Range was asked for or because it ignores Range. */
  predicate Restarts(probe: Probe, env: Env) {
    && !probe.died && env.request.Works? && env.reply.Reply? && env.reply.status == OK
    && (env.clear.Works? || (env.clear.Fails? && probe.part.None?))
  }

  /** What a restarted attempt has on disk in the end. */
  function Arrived(env: Env): Bytes
    requires env.reply.Reply?
  {
    if env.open.Works? then Delivered(env.reply.chunks) else []
  }

  /** The server, the network, the disk or a death ends the attempt before the whole body has been
      written, checked and renamed or removed. */
  predicate Interrupted(h: Hash, want: string, slot: Slot, env: Env) {
    !Consumed(h, want, OpenResumeState(h, slot.part, env), env)
  }

  /** The probe gives up zeros only, whichever of its file operations fail. */
  lemma ProbeKeepsRealBytes(h: Hash, part: Option<Bytes>, env: Env)
    ensures var p := OpenResumeState(h, part, env);
            Real(p.part) == Real(part) && (p.from > 0 ==> Real(part) <= p.from)
  {
    if part.Some? { KeptKeepsRealLen(part.value); }
  }

  /** How connecting changes the file: not in its real bytes, or by emptying it. */
  lemma ConnectKeepsRealBytes(h: Hash, probe: Probe, env: Env)
    requires Primed(h, probe)
    ensures var c := Connect(h, probe, env);
            if Restarts(probe, env) then
              if env.open.Works? then c == Start([], h.init, 0) else c.Stop? && Real(c.left) == 0
            else if c.Start? then probe.part == Some(c.part) else c.left == probe.part
  {
  }

  lemma CompleteKeepsRealBytes(h: Hash, want: string, c: Connected, dst: Option<Bytes>, env: Env)
    requires c.Start? && InStep(h, c) && env.reply.Reply?
    ensures var r := Complete(h, want, c, dst, env);
            r.slot.part.Some? ==> r.slot.part.value == c.part + Delivered(env.reply.chunks)
                                  && RealLen(c.part) <= RealLen(r.slot.part.value)
  {
    CopiedMatchesFile(h, c.part, env.reply.chunks, env.reply.end);
    var copy := CopyLoop(h, Copy(c.part, c.state, 0, [], Eof), c.offset, env.reply.chunks, env.reply.end);
    FinishIs(h, want, copy, c.offset, dst, env);
    RealLenGrows(c.part, Delivered(env.reply.chunks));
  }

  /** The exact condition for losing real bytes in an interrupted attempt: it restarts from byte 0
      and less arrives than was there. And whenever a Range is asked for, it starts after them. */
  lemma RealBytesLostIff(h: Hash, want: string, slot: Slot, env: Env)
    requires Interrupted(h, want, slot, env)
    ensures var probe := OpenResumeState(h, slot.part, env);
            && (Real(Attempt(h, want, slot, env).slot.part) < Real(slot.part) <==>
                  Restarts(probe, env) && RealLen(Arrived(env)) < Real(slot.part))
            && (probe.from > 0 ==> Real(slot.part) <= probe.from)
  {
    var probe := OpenResumeState(h, slot.part, env);
    PartGoneIff(h, want, slot, env);
    ProbeKeepsRealBytes(h, slot.part, env);
    ProbeIsPrimed(h, slot.part, env);
    HasherMatchesFile(h, probe, env);
    ConnectKeepsRealBytes(h, probe, env);
    RestartReplaces(h, want, probe, slot, env);
  }

  lemma RestartReplaces(h: Hash, want: string, probe: Probe, slot: Slot, env: Env)
    requires Primed(h, probe)
    ensures var r := Complete(h, want, Connect(h, probe, env), slot.dst, env);
            if Restarts(probe, env) then r.slot.part.Some? ==> Real(r.slot.part) == RealLen(Arrived(env))
            else r.slot.part.Some? ==> Real(probe.part) <= Real(r.slot.part)
    ensures var r := Complete(h, want, Connect(h, probe, env), slot.dst, env);
            Restarts(probe, env) && !env.open.Works? ==> Real(r.slot.part) == 0
  {
    HasherMatchesFile(h, probe, env);
    ConnectKeepsRealBytes(h, probe, env);
    var c := Connect(h, probe, env);
    if c.Start? {
      assert env.reply.Reply?;
      CompleteKeepsRealBytes(h, want, c, slot.dst, env);
      assert [] + Delivered(env.reply.chunks) == Delivered(env.reply.chunks);
    }
  }

  function Attempts(h: Hash, want: string, slot: Slot, envs: seq<Env>): Slot {
    if envs == [] then slot
    else Attempt(h, want, Attempts(h, want, slot, envs[..|envs| - 1]), envs[|envs| - 1]).slot
  }

  /** Every attempt of the run is interrupted, and none of them restarts over real bytes. */
  ghost predicate AllInterrupted(h: Hash, want: string, slot: Slot, envs: seq<Env>) {
    forall n :: 0 <= n < |envs| ==>
      var before := Attempts(h, want, slot, envs[..n]);
      && Interrupted(h, want, before, envs[n])
      && (Restarts(OpenResumeState(h, before.part, envs[n]), envs[n]) ==> Real(before.part) == 0)
  }

  /** One attempt more. */
  lemma LastKeepsRealBytes(h: Hash, want: string, slot: Slot, envs: seq<Env>)
    requires AllInterrupted(h, want, slot, envs) && envs != []
    ensures var front := envs[..|envs| - 1];
            && AllInterrupted(h, want, slot, front)
            && Real(Attempts(h, want, slot, front).part) <= Real(Attempts(h, want, slot, envs).part)
  {
    var n := |envs| - 1;
    assert forall m :: 0 <= m <= n ==> envs[..n][..m] == envs[..m];
    RealBytesLostIff(h, want, Attempts(h, want, slot, envs[..n]), envs[n]);
  }

  /** Over any run of interrupted attempts that do not restart over real bytes, the length of `.part`
      up to its last non-zero byte never decreases, ... */
  lemma {:induction false} NoRealByteLost(h: Hash, want: string, slot: Slot, envs: seq<Env>, i: nat)
    requires AllInterrupted(h, want, slot, envs) && i <= |envs|
    ensures Real(Attempts(h, want, slot, envs[..i]).part) <= Real(Attempts(h, want, slot, envs).part)
  {
    if i == |envs| {
      assert envs[..i] == envs;
    } else {
      var n := |envs| - 1;
      LastKeepsRealBytes(h, want, slot, envs);
      NoRealByteLost(h, want, slot, envs[..n], i);
      assert envs[..n][..i] == envs[..i];
    }
  }

  /** ... and no later Range request starts before it. */
  lemma RangeStartsAfterRealBytes(h: Hash, want: string, slot: Slot, envs: seq<Env>, i: nat)
    requires AllInterrupted(h, want, slot, envs) && i < |envs|
    ensures var n := |envs| - 1;
            var from := OpenResumeState(h, Attempts(h, want, slot, envs[..n]).part, envs[n]).from;
            from > 0 ==> Real(Attempts(h, want, slot, envs[..i]).part) <= from
  {
    var n := |envs| - 1;
    LastKeepsRealBytes(h, want, slot, envs);
    NoRealByteLost(h, want, slot, envs[..n], i);
    assert envs[..n][..i] == envs[..i];
    RealBytesLostIff(h, want, Attempts(h, want, slot, envs[..n]), envs[n]);
  }

  /** The Range start itself may go backwards, through zeros: probing twice a file that ends
      in two windows of zeros asks first for one place and then for an earlier one. */
  lemma RangeStartMayRegress(content: Bytes)
    requires content != [] && content[|content| - 1] != 0
    ensures var p := Tear(content, |content|, 2 * SCAN_WINDOW);
            Kept(p) == |content| + SCAN_WINDOW && Kept(p[..Kept(p)]) == |content|
  {
    TornWriteBound(content, |content|, 2 * SCAN_WINDOW);
    var q := Tear(content, |content|, SCAN_WINDOW);
    TornWriteBound(content, |content|, SCAN_WINDOW);
    assert q[|content| - 1] == content[|content| - 1];
    RealLenIs(q, |content|);
    KeptKeepsRealLen(Tear(content, |content|, 2 * SCAN_WINDOW));
  }
}
