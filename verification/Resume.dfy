/** How much of a `.part` file survives the resume probe (client/internal/transport). */
module Resume {
  import opened Hashing

  const SCAN_WINDOW: nat := 16 * 1024 * 1024

  function Min(a: nat, b: nat): nat { if a < b then a else b }

  function Max(a: nat, b: nat): nat { if a < b then b else a }

  function Zeros(n: nat): (z: Bytes)
    ensures |z| == n
  {
    seq(n, _ => 0)
  }

  /** Length up to and including the last non-zero byte. */
  function RealLen(p: Bytes): (n: nat)
    ensures n <= |p|
  {
    if p == [] then 0
    else if p[|p| - 1] != 0 then |p|
    else RealLen(p[..|p| - 1])
  }

  /** The length the probe keeps: the file without its trailing zeros, but never
      giving up more than one scan window. */
  function Kept(p: Bytes): (n: nat)
    ensures n <= |p|
  {
    Max(|p| - Min(SCAN_WINDOW, |p|), RealLen(p))
  }

  /** RealLen is exactly the point after which there is nothing but zeros. */
  lemma {:induction false} RealLenIs(p: Bytes, n: nat)
    requires n <= |p|
    ensures (forall i :: n <= i < |p| ==> p[i] == 0) <==> RealLen(p) <= n
    ensures n > 0 && p[n - 1] != 0 ==> n <= RealLen(p)
    ensures RealLen(p) > 0 ==> p[RealLen(p) - 1] != 0
  {
    if p == [] {
    } else if p[|p| - 1] != 0 {
      assert n <= |p| - 1 ==> p[|p| - 1] != 0;
    } else {
      var q := p[..|p| - 1];
      RealLenIs(q, Min(n, |q|));
      assert forall i :: 0 <= i < |q| ==> q[i] == p[i];
      if n <= |q| && RealLen(q) <= n {
        assert forall i :: n <= i < |q| ==> p[i] == q[i] == 0;
      }
      if n <= |q| && forall i :: n <= i < |p| ==> p[i] == 0 {
        assert forall i :: n <= i < |q| ==> q[i] == 0;
      }
    }
  }

  /** The scan of the last window, byte by byte from the end. */
  method SafeResumeSize(file: Bytes) returns (n: nat)
    ensures n == Kept(file)
  {
    if |file| == 0 {
      return 0;
    }
    var bufSize := SCAN_WINDOW;
    if bufSize > |file| {
      bufSize := |file|;
    }
    var offset := |file| - bufSize;
    var buf := file[offset..];
    var i := |buf| - 1;
    while i >= 0
      invariant -1 <= i < |buf|
      invariant forall j :: offset + i < j < |file| ==> file[j] == 0
    {
      if buf[i] != 0 {
        RealLenIs(file, offset + i + 1);
        return offset + i + 1;
      }
      i := i - 1;
    }
    RealLenIs(file, offset);
    return offset;
  }

  /** What the probe may give up, on any file at all: zero bytes only, at most one
      window of them, and it stops on a non-zero byte or at the window's start. */
  lemma KeptDropsOnlyZeros(p: Bytes)
    ensures forall i :: Kept(p) <= i < |p| ==> p[i] == 0
    ensures |p| - Kept(p) <= Min(SCAN_WINDOW, |p|)
    ensures Kept(p) == |p| - Min(SCAN_WINDOW, |p|) || (Kept(p) > 0 && p[Kept(p) - 1] != 0)
  {
    RealLenIs(p, RealLen(p));
    RealLenIs(p, Kept(p));
  }

  lemma KeptKeepsRealLen(p: Bytes)
    ensures RealLen(p) <= Kept(p) && RealLen(p[..Kept(p)]) == RealLen(p)
  {
    RealLenOfPrefix(p, Kept(p));
  }

  /** Cutting inside the zero tail does not change the real length. */
  lemma {:induction false} RealLenOfPrefix(p: Bytes, n: nat)
    requires RealLen(p) <= n <= |p|
    ensures RealLen(p[..n]) == RealLen(p)
  {
    var q := p[..n];
    RealLenIs(p, RealLen(p));
    RealLenIs(q, RealLen(p));
    RealLenIs(q, RealLen(q));
  }

  /** Appending never shortens the real length. */
  lemma RealLenGrows(p: Bytes, x: Bytes)
    ensures RealLen(p) <= RealLen(p + x)
  {
    RealLenIs(p, RealLen(p));
    if RealLen(p) > 0 {
      assert (p + x)[RealLen(p) - 1] == p[RealLen(p) - 1];
      RealLenIs(p + x, RealLen(p));
    }
  }

  /** A torn write: the first k committed bytes of the content, then j zero bytes
      where the file had already grown. */
  function Tear(content: Bytes, k: nat, j: nat): Bytes
    requires k <= |content|
  {
    content[..k] + Zeros(j)
  }

  lemma ShortTear(content: Bytes, k: nat, j: nat)
    requires k <= |content| && j <= SCAN_WINDOW
    ensures var p := Tear(content, k, j); p[..Kept(p)] <= content[..k]
  {
    var p := Tear(content, k, j);
    RealLenIs(p, k);
    assert p[..Kept(p)] == content[..k][..Kept(p)];
  }

  lemma LongTear(content: Bytes, k: nat, j: nat)
    requires k <= |content| && j > SCAN_WINDOW
    ensures var p := Tear(content, k, j); p[..Kept(p)] == Tear(content, k, j - SCAN_WINDOW)
  {
    var p := Tear(content, k, j);
    RealLenIs(p, k);
    assert Kept(p) == k + (j - SCAN_WINDOW);
    assert p[..Kept(p)] == Tear(content, k, j - SCAN_WINDOW);
  }

  /** Zeros after k bytes of the content continue it exactly when it has zeros there. */
  lemma TearContinues(content: Bytes, k: nat, j: nat)
    requires k <= |content|
    ensures Tear(content, k, j) <= content <==> Zeros(j) <= content[k..]
  {
    var torn, z := Tear(content, k, j), Zeros(j);
    assert torn[k..] == z;
    if torn <= content {
      assert content[k..][..j] == torn[k..];
    }
    if z <= content[k..] {
      assert content == content[..k] + content[k..];
      assert content[..k + j] == torn;
    }
  }

  /** The exact bound. Within one window the kept bytes are always a prefix of the
      content; a longer tear is trimmed by exactly one window, and what stays is a
      prefix of the content only if the content has zeros there. */
  lemma TornWriteBound(content: Bytes, k: nat, j: nat)
    requires k <= |content|
    ensures var p := Tear(content, k, j);
            var kept := p[..Kept(p)];
            (j <= SCAN_WINDOW ==> kept <= content[..k]) &&
            (j > SCAN_WINDOW ==>
               kept == Tear(content, k, j - SCAN_WINDOW) &&
               (kept <= content <==> Zeros(j - SCAN_WINDOW) <= content[k..]))
  {
    if j <= SCAN_WINDOW {
      ShortTear(content, k, j);
    } else {
      LongTear(content, k, j);
      TearContinues(content, k, j - SCAN_WINDOW);
    }
  }
}
