/** Bytes, and a streaming digest: a hasher is a state that eats one byte at a time. */
module Hashing {

  newtype byte = b: int | 0 <= b < 256
  type Bytes = seq<byte>

  datatype Option<+T> = None | Some(value: T) {
    function GetOr(default: T): T {
      if Some? then value else default
    }
  }

  /** What an operating-system call did: it took effect, it returned an error
      without effect, or the process died before it took effect. */
  datatype Fault = Works | Fails | Dies

  /** Any hash with a streaming implementation; hasher states are coded as integers. */
  datatype Hash = Hash(init: int, step: (int, byte) -> int, finish: int -> string)

  /** The hasher state reached from `s` by writing `data`. */
  function Feed(h: Hash, s: int, data: Bytes): int {
    if data == [] then s else h.step(Feed(h, s, data[..|data| - 1]), data[|data| - 1])
  }

  function Digest(h: Hash, data: Bytes): string {
    h.finish(Feed(h, h.init, data))
  }

  /** Writing in two pieces is writing the concatenation: what a resumed hash relies on. */
  lemma {:induction false} FeedConcat(h: Hash, s: int, a: Bytes, b: Bytes)
    ensures Feed(h, s, a + b) == Feed(h, Feed(h, s, a), b)
  {
    if b == [] {
      assert a + b == a;
    } else {
      assert (a + b)[..|a + b| - 1] == a + b[..|b| - 1];
      FeedConcat(h, s, a, b[..|b| - 1]);
    }
  }

  /** No other content has the digest of `data`. */
  ghost predicate Collisionless(h: Hash, data: Bytes) {
    forall other: Bytes :: Digest(h, other) == Digest(h, data) ==> other == data
  }
}
