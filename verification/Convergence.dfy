/** Does retrying ever finish? Exactly when the leftover `.part` file is, up to its zero
    tail, empty or shorter than the blob. */
module Convergence {
  import opened Hashing
  import opened Resume
  import opened Transfer
  import opened TransferRuns

  /** A server that honours Range, never cuts, and answers 416 (RFC 7233, section 4.4) when
      asked to start at or after the end. */
  ghost predicate Compliant(b: Bytes, from: nat, reply: Reply) {
    && reply.Reply? && reply.end.Eof? && (forall ch :: ch in reply.chunks ==> ch.write.Stored?)
    && (from == 0 ==> reply.status == OK && Body(reply.chunks) == b)
    && (0 < from < |b| ==> reply.status == PARTIAL && Body(reply.chunks) == b[from..])
    && (0 < from && |b| <= from ==> reply.status == RANGE_NOT_SATISFIABLE)
  }

  /** An attempt in which nothing goes wrong locally. */
  ghost predicate Calm(env: Env) {
    && env.stat.Works? && env.scan.Works? && env.trim.Works? && env.rehash.Works? && env.request.Works?
    && env.clear.Works? && env.open.Works? && env.close.Works? && env.remove.Works? && env.rename.Works?
    && env.leave.Works?
  }

  ghost predicate Clean(h: Hash, b: Bytes, part: Option<Bytes>, env: Env) {
    Calm(env) && Compliant(b, OpenResumeState(h, part, env).from, env.reply)
  }

  /** There is such an attempt from any leftover at all. */
  lemma CleanAttemptExists(h: Hash, b: Bytes, part: Option<Bytes>) returns (env: Env)
    ensures Clean(h, b, part, env)
  {
    env := Env(Works, Works, Works, Works, Works, Unreachable, Works, Works, Works, Works, Works, Works);
    var from := OpenResumeState(h, part, env).from;
    var body := if |b| <= from then [] else b[from..];
    var status := if from == 0 then OK else if from < |b| then PARTIAL else RANGE_NOT_SATISFIABLE;
    var chunks := [Chunk(body, Stored)];
    assert chunks[1..] == [];
    assert body + [] == body;
    env := env.(reply := Reply(status, chunks, Eof));
  }

  datatype Retried = Retried(part: Option<Bytes>, done: bool)

  /** The effect of one clean attempt on `.part`. */
  ghost function Retry(h: Hash, b: Bytes, part: Option<Bytes>): Retried {
    if part.None? || part.value == [] || Kept(part.value) == 0 then Retried(None, true)
    else
      var kept := part.value[..Kept(part.value)];
      if |b| <= |kept| then Retried(Some(kept), false)
      else if Digest(h, kept + b[|kept|..]) == Digest(h, b) then Retried(None, true)
      else Retried(None, false)
  }

  lemma CleanConnect(h: Hash, b: Bytes, part: Option<Bytes>, env: Env)
    requires Clean(h, b, part, env)
    ensures var p := OpenResumeState(h, part, env);
            var c := Connect(h, p, env);
            if part.None? || part.value == [] || Kept(part.value) == 0
            then c == Start([], h.init, 0) && Body(env.reply.chunks) == b
            else
              var kept := part.value[..Kept(part.value)];
              if |b| <= |kept| then c == Stop(Some(kept), Failed(Status))
              else c == Start(kept, Feed(h, h.init, kept), |kept|) && Body(env.reply.chunks) == b[|kept|..]
  {
  }

  lemma CleanComplete(h: Hash, b: Bytes, c: Connected, dst: Option<Bytes>, env: Env)
    requires Calm(env) && env.reply.Reply? && env.reply.end.Eof? && Whole(env.reply.chunks)
    requires c.Start? && InStep(h, c)
    ensures var r := Complete(h, Digest(h, b), c, dst, env);
            var all := c.part + Body(env.reply.chunks);
            r.slot.part.None? && r.exit.Done? == (Digest(h, all) == Digest(h, b))
  {
    CopiedMatchesFile(h, c.part, env.reply.chunks, env.reply.end);
  }

  lemma CleanAttempt(h: Hash, b: Bytes, slot: Slot, env: Env)
    requires Clean(h, b, slot.part, env)
    ensures var r := Attempt(h, Digest(h, b), slot, env);
            r.slot.part == Retry(h, b, slot.part).part && r.exit.Done? == Retry(h, b, slot.part).done
  {
    CleanConnect(h, b, slot.part, env);
    DeliveredIsPrefix(env.reply.chunks);
    var c := Connect(h, OpenResumeState(h, slot.part, env), env);
    if c.Start? {
      CleanComplete(h, b, c, slot.dst, env);
      assert [] + b == b;
    }
  }

  /** An unbounded run of clean attempts: `slots(n)` is the slot before attempt n. */
  ghost predicate CleanRun(h: Hash, b: Bytes, slots: nat -> Slot, envs: nat -> Env) {
    forall n: nat {:trigger envs(n)} :: CleanTurn(h, b, slots(n), envs(n), slots(n + 1))
  }

  ghost predicate CleanTurn(h: Hash, b: Bytes, slot: Slot, env: Env, next: Slot) {
    Clean(h, b, slot.part, env) && next == Attempt(h, Digest(h, b), slot, env).slot
  }

  ghost predicate Succeeds(h: Hash, b: Bytes, slot: Slot, env: Env) {
    Attempt(h, Digest(h, b), slot, env).exit.Done?
  }

  /** What n clean attempts leave of `part`. */
  ghost function PartAfter(h: Hash, b: Bytes, part: Option<Bytes>, n: nat): Option<Bytes> {
    if n == 0 then part else Retry(h, b, PartAfter(h, b, part, n - 1)).part
  }

  lemma TurnIsRetry(h: Hash, b: Bytes, slot: Slot, env: Env, next: Slot)
    requires CleanTurn(h, b, slot, env, next)
    ensures Retry(h, b, slot.part) == Retried(next.part, Succeeds(h, b, slot, env))
  {
    CleanAttempt(h, b, slot, env);
  }

  lemma {:induction false} RunIsRetry(h: Hash, b: Bytes, slots: nat -> Slot, envs: nat -> Env, n: nat)
    requires CleanRun(h, b, slots, envs)
    ensures slots(n).part == PartAfter(h, b, slots(0).part, n)
    ensures Succeeds(h, b, slots(n), envs(n)) == Retry(h, b, PartAfter(h, b, slots(0).part, n)).done
  {
    if n > 0 {
      RunIsRetry(h, b, slots, envs, n - 1);
      assert CleanTurn(h, b, slots(n - 1), envs(n - 1), slots(n - 1 + 1));
      TurnIsRetry(h, b, slots(n - 1), envs(n - 1), slots(n));
    }
    TurnIsRetry(h, b, slots(n), envs(n), slots(n + 1));
  }

  lemma {:induction false} PartAfterShift(h: Hash, b: Bytes, part: Option<Bytes>, n: nat)
    ensures PartAfter(h, b, Retry(h, b, part).part, n) == PartAfter(h, b, part, n + 1)
  {
    if n > 0 {
      PartAfterShift(h, b, part, n - 1);
    } else {
      assert PartAfter(h, b, part, 0) == part;
    }
  }

  function Size(part: Option<Bytes>): nat {
    if part.None? then 0 else |part.value|
  }

  ghost predicate Finishable(b: Bytes, part: Option<Bytes>) {
    Real(part) == 0 || Real(part) < |b|
  }

  /** The termination measure: a refused attempt costs the file one whole window, and a
      mismatch costs one attempt because the file is then removed. */
  lemma RetryMeasure(h: Hash, b: Bytes, part: Option<Bytes>)
    requires Finishable(b, part) && !Retry(h, b, part).done
    ensures var next := Retry(h, b, part).part;
            next.None? || (Size(next) == Size(part) - SCAN_WINDOW && Finishable(b, next))
  {
    var p := part.value;
    KeptKeepsRealLen(p);
  }

  lemma {:induction false} SucceedsFrom(h: Hash, b: Bytes, part: Option<Bytes>) returns (n: nat)
    requires Finishable(b, part)
    ensures n <= Size(part) / SCAN_WINDOW + 1
    ensures Retry(h, b, PartAfter(h, b, part, n)).done
    decreases Size(part)
  {
    var r := Retry(h, b, part);
    if r.done {
      n := 0;
    } else {
      RetryMeasure(h, b, part);
      if r.part.None? {
        n := 0;
      } else {
        n := SucceedsFrom(h, b, r.part);
      }
      PartAfterShift(h, b, part, n);
      n := n + 1;
    }
  }

  /** The length left after n trims of at most one window each. */
  function Shrunk(p: Bytes, n: nat): (len: nat)
    ensures RealLen(p) <= len <= |p|
  {
    Max(RealLen(p), if n * SCAN_WINDOW <= |p| then |p| - n * SCAN_WINDOW else 0)
  }

  /** Trimming once more gets one step further. */
  lemma TrimShrunk(p: Bytes, n: nat)
    ensures var q := p[..Shrunk(p, n)];
            Kept(q) == Shrunk(p, n + 1) && q[..Kept(q)] == p[..Shrunk(p, n + 1)]
  {
    RealLenOfPrefix(p, Shrunk(p, n));
  }

  lemma RefusedRetry(h: Hash, b: Bytes, p: Bytes, n: nat)
    requires 0 < RealLen(p) && |b| <= RealLen(p)
    ensures Retry(h, b, Some(p[..Shrunk(p, n)])) == Retried(Some(p[..Shrunk(p, n + 1)]), false)
  {
    TrimShrunk(p, n);
  }

  /** The other case: retrying trims the zero tail window by window, and never succeeds. */
  lemma {:induction false} StuckAt(h: Hash, b: Bytes, part: Option<Bytes>, n: nat)
    requires !Finishable(b, part)
    ensures PartAfter(h, b, part, n) == Some(part.value[..Shrunk(part.value, n)])
    ensures !Retry(h, b, PartAfter(h, b, part, n)).done
  {
    var p := part.value;
    if n == 0 {
      assert p[..|p|] == p;
    } else {
      StuckAt(h, b, part, n - 1);
      RefusedRetry(h, b, p, n - 1);
    }
    RefusedRetry(h, b, p, n);
  }

  ghost predicate EverSucceeds(h: Hash, b: Bytes, slots: nat -> Slot, envs: nat -> Env) {
    exists n: nat :: Succeeds(h, b, slots(n), envs(n))
  }

  /** Repeated clean attempts on arbitrary leftover bytes succeed after finitely many exactly
      when those bytes, trailing zeros stripped, are empty or shorter than the blob; ... */
  lemma RetryConvergesIff(h: Hash, b: Bytes, slots: nat -> Slot, envs: nat -> Env)
    requires CleanRun(h, b, slots, envs)
    ensures EverSucceeds(h, b, slots, envs) <==> Finishable(b, slots(0).part)
  {
    if Finishable(b, slots(0).part) {
      var n := RetryBound(h, b, slots, envs);
    } else {
      forall n: nat ensures !Succeeds(h, b, slots(n), envs(n)) {
        StuckAt(h, b, slots(0).part, n);
        RunIsRetry(h, b, slots, envs, n);
      }
    }
  }

  /** ... and then within two attempts more than the leftover has scan windows. */
  lemma RetryBound(h: Hash, b: Bytes, slots: nat -> Slot, envs: nat -> Env) returns (n: nat)
    requires CleanRun(h, b, slots, envs) && Finishable(b, slots(0).part)
    ensures n <= Size(slots(0).part) / SCAN_WINDOW + 1
    ensures Succeeds(h, b, slots(n), envs(n))
  {
    n := SucceedsFrom(h, b, slots(0).part);
    RunIsRetry(h, b, slots, envs, n);
  }

  /** When it cannot succeed it reaches a fixed point: the leftover without its zero tail. */
  lemma StuckFixedPoint(h: Hash, b: Bytes, slots: nat -> Slot, envs: nat -> Env, n: nat)
    requires CleanRun(h, b, slots, envs)
    requires !Finishable(b, slots(0).part)
    requires |slots(0).part.value| - RealLen(slots(0).part.value) <= n * SCAN_WINDOW
    ensures slots(n).part == Some(slots(0).part.value[..RealLen(slots(0).part.value)])
  {
    StuckAt(h, b, slots(0).part, n);
    RunIsRetry(h, b, slots, envs, n);
  }

  /** The smallest way to get stuck: a complete `.part` of a blob that does not end in zero,
      left behind by a rename that failed. No clean retry ever finishes it. */
  lemma CompletePartIsNeverInstalled(h: Hash, b: Bytes, slots: nat -> Slot, envs: nat -> Env, n: nat)
    requires b != [] && b[|b| - 1] != 0
    requires CleanRun(h, b, slots, envs) && slots(0).part == Some(b)
    ensures slots(n).part == Some(b)
    ensures !Succeeds(h, b, slots(n), envs(n))
  {
    StuckAt(h, b, Some(b), n);
    RunIsRetry(h, b, slots, envs, n);
    assert b[..|b|] == b;
  }
}
