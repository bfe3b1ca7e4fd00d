/**
 Bytes, digests and the one cryptographic vocabulary every module shares.

 SHA-256 is a parameter: a total function from byte strings to 32-byte
 digests, about which nothing is assumed. Soundness theorems therefore never
 say "unless a collision exists" (one always does); they name the two byte
 strings, computed from the data at hand, that collide.

 Beside it stand the few facts about cutting and joining sequences that the
 file store, the tree and the parser keep using.
 */
module Bytes {

  type byte = x: int | 0 <= x < 256
  type Bytes = seq<byte>
  type Digest = d: Bytes | |d| == 32 witness seq(32, i => 0)
  type HashFn = Bytes -> Digest

  datatype Option<+T> = None | Some(value: T)
  datatype Result<+T, +E> = Ok(value: T) | Err(error: E)

  /** Two candidate preimages. */
  datatype Pair = Pair(a: Bytes, b: Bytes)

  /** The pair is a genuine collision of `sha`. */
  predicate Collides(sha: HashFn, p: Pair) {
    p.a != p.b && sha(p.a) == sha(p.b)
  }

  const NO_PAIR := Pair([], [])

  // ------------------------------------------------------------------
  // Cutting and joining sequences

  lemma DropConcat<T>(a: seq<T>, x: seq<T>, n: nat)
    requires n <= |a|
    ensures (a + x)[n..] == a[n..] + x
  {
  }

  lemma TakeConcat<T>(a: seq<T>, x: seq<T>, n: nat)
    requires n <= |a|
    ensures (a + x)[..n] == a[..n]
  {
  }

  /** A stretch of `m` elements after the first `n`. */
  lemma TakeDrop<T>(b: seq<T>, n: nat, m: nat)
    requires n + m <= |b|
    ensures b[..n + m][n..] == b[n..][..m] && b[n..][m..] == b[n + m..] && b[..n + m][..n] == b[..n]
  {
  }

  lemma TakeAll<T>(b: seq<T>)
    ensures b[..|b|] == b && b[|b|..] == [] && b[0..] == b && b[..0] == []
  {
  }

  lemma CutInTwo<T>(b: seq<T>, n: nat)
    requires n <= |b|
    ensures b == b[..n] + b[n..]
  {
  }

  lemma Regroup<T>(a: seq<T>, b: seq<T>, c: seq<T>)
    ensures a + (b + c) == (a + b) + c
  {
  }

  lemma Snoc<T>(a: seq<T>, x: T)
    ensures (a + [x])[..|a + [x]| - 1] == a && (a + [x])[|a|] == x
  {
  }

  lemma Unsnoc<T>(a: seq<T>)
    requires a != []
    ensures a == a[..|a| - 1] + [a[|a| - 1]]
  {
  }

  /** More of the same line after what is already there. */
  lemma ExtendTake<T>(base: seq<T>, line: seq<T>, w: nat, k: nat)
    requires w <= k <= |line|
    ensures base + line[..w] + line[w..k] == base + line[..k]
    ensures w < k ==> (base + line[..k])[|base| + w] == line[w]
  {
  }
}
