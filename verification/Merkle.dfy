/**
 The Merkle tree of RFC 6962 section 2.1, the audit paths of RFC 9162 section
 2.1.3.1 and the bit-shifting verifier of section 2.1.3.2. `Climb`, the
 reference semantics of a path, descends the tree along the power-of-two
 split. The verifier walks bottom-up on two counters and never computes a
 split; `VerifyInclusion` is proved equal to `Climb` on every input.
 */
module Merkle {
  import opened Bytes

  /** What is hashed for a leaf. */
  function LeafInput(data: Bytes): Bytes {
    [0] + data
  }

  /** `SHA-256(0x00 || data)`. */
  function LeafHash(sha: HashFn, data: Bytes): Digest {
    sha(LeafInput(data))
  }

  function NodeInput(left: Digest, right: Digest): Bytes {
    [1] + left + right
  }

  /** `SHA-256(0x01 || left || right)`. */
  function NodeHash(sha: HashFn, left: Digest, right: Digest): Digest {
    sha(NodeInput(left, right))
  }

  predicate PowerOfTwo(k: nat) {
    k == 1 || (k > 1 && k % 2 == 0 && PowerOfTwo(k / 2))
  }

  /** Largest power of two strictly below `n`, by halving. */
  function Split(n: nat): (k: nat)
    requires n >= 2
    ensures 1 <= k < n <= 2 * k
  {
    if n == 2 then 1 else 2 * Split((n + 1) / 2)
  }

  lemma {:induction false} SplitPower(n: nat)
    requires n >= 2
    ensures PowerOfTwo(Split(n))
  {
    if n <= 2 {
    } else {
      SplitPower((n + 1) / 2);
    }
  }

  /** The bracket `k < n <= 2k` has only one power of two in it. */
  lemma {:induction false} SplitUnique(n: nat, k: nat)
    requires n >= 2 && PowerOfTwo(k) && k < n <= 2 * k
    ensures k == Split(n)
  {
    if n <= 2 {
    } else {
      SplitUnique((n + 1) / 2, k / 2);
    }
  }

  /** The doubling loop of the implementation. */
  method ComputeSplit(n: nat) returns (k: nat)
    requires n >= 2
    ensures k == Split(n)
  {
    k := 1;
    while 2 * k < n
      invariant PowerOfTwo(k) && k < n
    {
      k := 2 * k;
    }
    SplitUnique(n, k);
  }

  function Root(sha: HashFn, leaves: seq<Digest>): Digest {
    if |leaves| == 0 then sha([])
    else if |leaves| == 1 then leaves[0]
    else
      var k := Split(|leaves|);
      NodeHash(sha, Root(sha, leaves[..k]), Root(sha, leaves[k..]))
  }

  /** Audit path `PATH(m, D[n])`, leaf to root. */
  function InclusionPath(sha: HashFn, leaves: seq<Digest>, m: nat): seq<Digest>
    requires m < |leaves|
    decreases |leaves|
  {
    if |leaves| == 1 then []
    else
      var k := Split(|leaves|);
      if m < k then InclusionPath(sha, leaves[..k], m) + [Root(sha, leaves[k..])]
      else InclusionPath(sha, leaves[k..], m - k) + [Root(sha, leaves[..k])]
  }

  /** `build_path` pushes onto the vector it is given. */
  method BuildPath(sha: HashFn, leaves: seq<Digest>, m: nat, out: seq<Digest>) returns (out': seq<Digest>)
    requires m < |leaves|
    ensures out' == out + InclusionPath(sha, leaves, m)
    decreases |leaves|
  {
    out' := out;
    if |leaves| <= 1 { return; }
    var k := ComputeSplit(|leaves|);
    if m < k {
      out' := BuildPath(sha, leaves[..k], m, out');
      out' := out' + [Root(sha, leaves[k..])];
    } else {
      out' := BuildPath(sha, leaves[k..], m - k, out');
      out' := out' + [Root(sha, leaves[..k])];
    }
  }

  /**
   The root a path leads to from leaf `i` of a tree of `n` leaves, top-down;
   `None` when the path has the wrong length for that position.
   */
  function Climb(sha: HashFn, i: nat, n: nat, leaf: Digest, path: seq<Digest>): Option<Digest>
    requires i < n
    decreases n
  {
    if n == 1 then (if path == [] then Some(leaf) else None)
    else if path == [] then None
    else
      var k := Split(n);
      var rest, top := path[..|path| - 1], path[|path| - 1];
      if i < k then
        var left := Climb(sha, i, k, leaf, rest);
        if left.None? then None else Some(NodeHash(sha, left.value, top))
      else
        var right := Climb(sha, i - k, n - k, leaf, rest);
        if right.None? then None else Some(NodeHash(sha, top, right.value))
  }

  // ------------------------------------------------------------------
  // One level of the bottom-up walk

  /** What consuming the lowest sibling of position `i` does to the running hash. */
  function Absorb(sha: HashFn, i: nat, leaf: Digest, sibling: Digest): Digest {
    if i % 2 == 1 then NodeHash(sha, sibling, leaf) else NodeHash(sha, leaf, sibling)
  }

  /** The halves of a tree of three or more leaves line up with the halves one level up. */
  lemma SplitHalves(n: nat, i: nat)
    requires n > 2 && i < n
    ensures var k, up := Split(n), (n + 1) / 2;
            && up >= 2 && k == 2 * Split(up) && k % 2 == 0
            && (i < k && i % 2 == 0 ==> i < k - 1)
            && (i < k <==> i / 2 < Split(up))
            && (i >= k ==> (i - k) % 2 == i % 2 && (i - k) / 2 == i / 2 - Split(up))
            && (k + 1) / 2 == Split(up) && (n - k + 1) / 2 == up - Split(up)
  {
  }

  /** What `Climb` finds in the half that holds position `i`. */
  function Below(sha: HashFn, i: nat, n: nat, leaf: Digest, rest: seq<Digest>): Option<Digest>
    requires i < n && n > 1
  {
    var k := Split(n);
    if i < k then Climb(sha, i, k, leaf, rest) else Climb(sha, i - k, n - k, leaf, rest)
  }

  lemma JoinBelow(sha: HashFn, i: nat, n: nat, leaf: Digest, path: seq<Digest>, r: Digest)
    requires i < n && n > 2 && |path| > 1
    requires Below(sha, i, n, leaf, path[..|path| - 1]) ==
             Below(sha, i / 2, (n + 1) / 2, r, path[..|path| - 1][1..])
    ensures Climb(sha, i, n, leaf, path) == Climb(sha, i / 2, (n + 1) / 2, r, path[1..])
  {
    SplitHalves(n, i);
    assert path[1..][..|path[1..]| - 1] == path[..|path| - 1][1..];
  }

  lemma {:induction false} PairBelow(sha: HashFn, i: nat, n: nat, leaf: Digest, rest: seq<Digest>)
    requires i < n && n > 2 && rest != []
    requires i % 2 == 1 || i < n - 1
    ensures Below(sha, i, n, leaf, rest) ==
            Below(sha, i / 2, (n + 1) / 2, Absorb(sha, i, leaf, rest[0]), rest[1..])
    decreases n, 0
  {
    var k := Split(n);
    var j, m := if i < k then i else i - k, if i < k then k else n - k;
    SplitHalves(n, i);
    PairUp(sha, j, m, leaf, rest);
    BelowAt(sha, i / 2, (n + 1) / 2, Absorb(sha, i, leaf, rest[0]), rest[1..], j / 2, (m + 1) / 2);
  }

  lemma BelowAt(sha: HashFn, i: nat, n: nat, leaf: Digest, rest: seq<Digest>, j: nat, m: nat)
    requires i < n && n > 1
    requires if i < Split(n) then j == i && m == Split(n) else j == i - Split(n) && m == n - Split(n)
    ensures Below(sha, i, n, leaf, rest) == Climb(sha, j, m, leaf, rest)
  {
  }

  /** A position with a sibling: the whole tree is the tree of pairs, one level up. */
  lemma {:induction false} PairUp(sha: HashFn, i: nat, n: nat, leaf: Digest, path: seq<Digest>)
    requires i < n && path != []
    requires i % 2 == 1 || i < n - 1
    ensures Climb(sha, i, n, leaf, path) ==
            Climb(sha, i / 2, (n + 1) / 2, Absorb(sha, i, leaf, path[0]), path[1..])
    decreases n, 1
  {
    if n == 2 {
      PairUpTwo(sha, i, leaf, path);
    } else if |path| == 1 {
      ShortPath(sha, i, n, leaf, path);
    } else {
      PairBelow(sha, i, n, leaf, path[..|path| - 1]);
      JoinBelow(sha, i, n, leaf, path, Absorb(sha, i, leaf, path[0]));
    }
  }

  lemma PairUpTwo(sha: HashFn, i: nat, leaf: Digest, path: seq<Digest>)
    requires i < 2 && path != []
    ensures Climb(sha, i, 2, leaf, path) == Climb(sha, 0, 1, Absorb(sha, i, leaf, path[0]), path[1..])
  {
    if |path| == 1 {
      assert path[..0] == [];
    }
  }

  /** One sibling cannot carry a paired-up leaf to the root of three or more. */
  lemma ShortPath(sha: HashFn, i: nat, n: nat, leaf: Digest, path: seq<Digest>)
    requires i < n && n > 2 && |path| == 1
    requires i % 2 == 1 || i < n - 1
    ensures Climb(sha, i, n, leaf, path) == None
  {
    SplitHalves(n, i);
    assert path[..0] == [];
  }

  lemma SplitOdd(h: nat)
    requires h >= 1
    ensures Split(2 * h + 1) == 2 * Split(h + 1)
  {
    assert (2 * h + 1 + 1) / 2 == h + 1;
  }

  /** The last of an odd number of positions, one level below the root. */
  lemma LastBelow(sha: HashFn, n: nat, leaf: Digest, rest: seq<Digest>, top: Digest, k: nat, right: Option<Digest>)
    requires n > 1 && k == Split(n) && right == Climb(sha, n - 1 - k, n - k, leaf, rest)
    ensures Climb(sha, n - 1, n, leaf, rest + [top]) ==
            if right.None? then None else Some(NodeHash(sha, top, right.value))
  {
    Snoc(rest, top);
  }

  lemma PromoteSnoc(sha: HashFn, h: nat, k: nat, leaf: Digest, rest: seq<Digest>, top: Digest, right: Option<Digest>)
    requires h >= 1 && k == Split(h + 1)
    requires right == Climb(sha, h - k, h - k + 1, leaf, rest) == Climb(sha, 2 * (h - k), 2 * (h - k) + 1, leaf, rest)
    ensures Climb(sha, 2 * h, 2 * h + 1, leaf, rest + [top]) == Climb(sha, h, h + 1, leaf, rest + [top])
  {
    SplitOdd(h);
    assert 2 * (h - k) == 2 * h + 1 - 1 - 2 * k;
    LastBelow(sha, 2 * h + 1, leaf, rest, top, 2 * k, right);
    LastBelow(sha, h + 1, leaf, rest, top, k, right);
  }

  /** A last position without a sibling is promoted unchanged. */
  lemma {:induction false} Promote(sha: HashFn, h: nat, leaf: Digest, path: seq<Digest>)
    ensures Climb(sha, 2 * h, 2 * h + 1, leaf, path) == Climb(sha, h, h + 1, leaf, path)
    decreases h
  {
    if h == 0 || path == [] {
    } else {
      var k, rest := Split(h + 1), path[..|path| - 1];
      Promote(sha, h - k, leaf, rest);
      PromoteSnoc(sha, h, k, leaf, rest, path[|path| - 1], Climb(sha, h - k, h - k + 1, leaf, rest));
      Unsnoc(path);
    }
  }

  /** The verifier's state `(f, s)`, with `path` still to read, leads to `goal`. */
  ghost predicate Leads(sha: HashFn, f: nat, s: nat, r: Digest, path: seq<Digest>, goal: Option<Digest>) {
    f <= s && Climb(sha, f, s + 1, r, path) == goal
  }

  lemma PromoteStep(sha: HashFn, f: nat, r: Digest, path: seq<Digest>, goal: Option<Digest>)
    requires Leads(sha, f, f, r, path, goal) && f % 2 == 0
    ensures Leads(sha, f / 2, f / 2, r, path, goal)
  {
    Promote(sha, f / 2, r, path);
  }

  lemma PairStep(sha: HashFn, f: nat, s: nat, r: Digest, path: seq<Digest>, goal: Option<Digest>)
    requires Leads(sha, f, s, r, path, goal) && path != [] && (f % 2 == 1 || f < s)
    ensures Leads(sha, f / 2, s / 2, Absorb(sha, f, r, path[0]), path[1..], goal)
  {
    PairUp(sha, f, s + 1, r, path);
  }

  /** The verifier of RFC 9162 section 2.1.3.2 computes exactly `Climb`. */
  method VerifyInclusion(sha: HashFn, leaf: Digest, index: nat, size: nat, path: seq<Digest>, root: Digest)
    returns (ok: bool)
    ensures ok <==> index < size && Climb(sha, index, size, leaf, path) == Some(root)
  {
    if index >= size { return false; }
    ghost var goal := Climb(sha, index, size, leaf, path);
    var fnode: nat, snode: nat, r := index, size - 1, leaf;
    assert path[0..] == path;
    for j := 0 to |path|
      invariant Leads(sha, fnode, snode, r, path[j..], goal)
    {
      if snode == 0 { return false; }
      ghost var r0 := r;
      if fnode % 2 == 1 || fnode == snode {
        r := NodeHash(sha, path[j], r);
        if fnode % 2 == 0 {
          while fnode % 2 == 0 && fnode != 0
            invariant 0 < fnode == snode
            invariant Leads(sha, fnode, snode, r0, path[j..], goal)
          {
            PromoteStep(sha, fnode, r0, path[j..], goal);
            fnode, snode := fnode / 2, snode / 2;
          }
        }
      } else {
        r := NodeHash(sha, r, path[j]);
      }
      PairStep(sha, fnode, snode, r0, path[j..], goal);
      assert path[j..][1..] == path[j + 1..];
      fnode, snode := fnode / 2, snode / 2;
    }
    return snode == 0 && r == root;
  }

  // ------------------------------------------------------------------
  // Completeness and soundness

  /** The half of the tree that holds position `i`, and the position in it. */
  function Half(leaves: seq<Digest>, i: nat): (seq<Digest>, nat)
    requires i < |leaves| && |leaves| > 1
  {
    var k := Split(|leaves|);
    if i < k then (leaves[..k], i) else (leaves[k..], i - k)
  }

  /** The root of the other half. */
  function Sibling(sha: HashFn, leaves: seq<Digest>, i: nat): Digest
    requires i < |leaves| && |leaves| > 1
  {
    var k := Split(|leaves|);
    if i < k then Root(sha, leaves[k..]) else Root(sha, leaves[..k])
  }

  lemma PathSplits(sha: HashFn, leaves: seq<Digest>, i: nat)
    requires i < |leaves| && |leaves| > 1
    ensures var (half, j) := Half(leaves, i);
            && half[j] == leaves[i]
            && InclusionPath(sha, leaves, i) == InclusionPath(sha, half, j) + [Sibling(sha, leaves, i)]
  {
  }

  /** A path to the root of one half, and the root of the other, lead to the root. */
  lemma ClimbHalf(sha: HashFn, leaves: seq<Digest>, i: nat, leaf: Digest, rest: seq<Digest>)
    requires i < |leaves| && |leaves| > 1
    requires var (half, j) := Half(leaves, i); Climb(sha, j, |half|, leaf, rest) == Some(Root(sha, half))
    ensures Climb(sha, i, |leaves|, leaf, rest + [Sibling(sha, leaves, i)]) == Some(Root(sha, leaves))
  {
    Snoc(rest, Sibling(sha, leaves, i));
  }

  /** Every path the builder emits is accepted against the recursive root. */
  lemma {:induction false} Complete(sha: HashFn, leaves: seq<Digest>, i: nat)
    requires i < |leaves|
    ensures Climb(sha, i, |leaves|, leaves[i], InclusionPath(sha, leaves, i)) == Some(Root(sha, leaves))
    decreases |leaves|
  {
    if |leaves| == 1 {
    } else {
      var (half, j) := Half(leaves, i);
      Complete(sha, half, j);
      PathSplits(sha, leaves, i);
      ClimbHalf(sha, leaves, i, leaves[i], InclusionPath(sha, half, j));
    }
  }

  /** The children of the root as an accepted path claims them. */
  function Claimed(i: nat, n: nat, x: Digest, top: Digest): (Digest, Digest)
    requires n > 1
  {
    if i < Split(n) then (x, top) else (top, x)
  }

  /**
   The two node inputs at the highest node where an accepted path and the
   honest tree disagree.
   */
  function PathCollision(sha: HashFn, leaves: seq<Digest>, i: nat, leaf: Digest, path: seq<Digest>): Pair
    requires i < |leaves|
    decreases |leaves|
  {
    if |leaves| == 1 || path == [] then NO_PAIR
    else
      var k, (half, j) := Split(|leaves|), Half(leaves, i);
      var rest, top := path[..|path| - 1], path[|path| - 1];
      var (left, right) := (Root(sha, leaves[..k]), Root(sha, leaves[k..]));
      var below := Below(sha, i, |leaves|, leaf, rest);
      if below.None? then NO_PAIR
      else
        var (x, y) := Claimed(i, |leaves|, below.value, top);
        if x == left && y == right then PathCollision(sha, half, j, leaf, rest)
        else Pair(NodeInput(x, y), NodeInput(left, right))
  }

  lemma NodeInputInjective(a: Digest, b: Digest, c: Digest, d: Digest)
    requires NodeInput(a, b) == NodeInput(c, d)
    ensures a == c && b == d
  {
    assert a == NodeInput(a, b)[1..33] == NodeInput(c, d)[1..33] == c;
    assert b == NodeInput(a, b)[33..] == NodeInput(c, d)[33..] == d;
  }

  /**
   Soundness: an accepted proof names the leaf that is really at `i`, with
   the one honest path, unless `PathCollision` is a collision of `sha`.
   */
  lemma {:induction false} Sound(sha: HashFn, leaves: seq<Digest>, i: nat, leaf: Digest, path: seq<Digest>)
    requires i < |leaves|
    requires Climb(sha, i, |leaves|, leaf, path) == Some(Root(sha, leaves))
    ensures (leaf == leaves[i] && path == InclusionPath(sha, leaves, i))
            || Collides(sha, PathCollision(sha, leaves, i, leaf, path))
    decreases |leaves|
  {
    if |leaves| == 1 {
    } else {
      var rest, top := path[..|path| - 1], path[|path| - 1];
      var (half, j) := Half(leaves, i);
      AcceptedSplits(sha, leaves, i, leaf, path);
      if ClaimsHonest(sha, leaves, i, leaf, path) {
        Sound(sha, half, j, leaf, rest);
        HonestBelow(sha, leaves, i, leaf, rest, top);
        Unsnoc(path);
      }
    }
  }

  /** The path claims the real children of the root. */
  ghost predicate ClaimsHonest(sha: HashFn, leaves: seq<Digest>, i: nat, leaf: Digest, path: seq<Digest>)
    requires i < |leaves| && |leaves| > 1 && path != []
  {
    var k, below := Split(|leaves|), Below(sha, i, |leaves|, leaf, path[..|path| - 1]);
    below.Some? &&
    Claimed(i, |leaves|, below.value, path[|path| - 1]) == (Root(sha, leaves[..k]), Root(sha, leaves[k..]))
  }

  /** An accepted path is one level of an accepted path in the half, or a collision right at the root. */
  lemma AcceptedSplits(sha: HashFn, leaves: seq<Digest>, i: nat, leaf: Digest, path: seq<Digest>)
    requires i < |leaves| && |leaves| > 1
    requires Climb(sha, i, |leaves|, leaf, path) == Some(Root(sha, leaves))
    ensures path != []
    ensures var (half, j), rest, top := Half(leaves, i), path[..|path| - 1], path[|path| - 1];
            if ClaimsHonest(sha, leaves, i, leaf, path) then
              && Climb(sha, j, |half|, leaf, rest) == Some(Root(sha, half)) && top == Sibling(sha, leaves, i)
              && PathCollision(sha, leaves, i, leaf, path) == PathCollision(sha, half, j, leaf, rest)
            else Collides(sha, PathCollision(sha, leaves, i, leaf, path))
  {
    var rest, top, k := path[..|path| - 1], path[|path| - 1], Split(|leaves|);
    var (left, right) := (Root(sha, leaves[..k]), Root(sha, leaves[k..]));
    AcceptedBelow(sha, i, |leaves|, leaf, path);
    var (x, y) := Claimed(i, |leaves|, Below(sha, i, |leaves|, leaf, rest).value, top);
    PathCollisionSplits(sha, leaves, i, leaf, path);
    if NodeInput(x, y) == NodeInput(left, right) {
      NodeInputInjective(x, y, left, right);
    }
  }

  /** Honest in the half that holds `i`, with the other half's root on top: honest. */
  lemma HonestBelow(sha: HashFn, leaves: seq<Digest>, i: nat, leaf: Digest, rest: seq<Digest>, top: Digest)
    requires i < |leaves| && |leaves| > 1 && top == Sibling(sha, leaves, i)
    ensures var (half, j) := Half(leaves, i);
            leaf == half[j] && rest == InclusionPath(sha, half, j) ==>
            leaf == leaves[i] && rest + [top] == InclusionPath(sha, leaves, i)
  {
    PathSplits(sha, leaves, i);
  }

  lemma PathCollisionSplits(sha: HashFn, leaves: seq<Digest>, i: nat, leaf: Digest, path: seq<Digest>)
    requires i < |leaves| && |leaves| > 1 && path != []
    requires Below(sha, i, |leaves|, leaf, path[..|path| - 1]).Some?
    ensures var (half, j) := Half(leaves, i);
            var rest, top := path[..|path| - 1], path[|path| - 1];
            var (left, right) := (Root(sha, leaves[..Split(|leaves|)]), Root(sha, leaves[Split(|leaves|)..]));
            var (x, y) := Claimed(i, |leaves|, Below(sha, i, |leaves|, leaf, rest).value, top);
            PathCollision(sha, leaves, i, leaf, path) ==
            if x == left && y == right then PathCollision(sha, half, j, leaf, rest)
            else Pair(NodeInput(x, y), NodeInput(left, right))
  {
  }

  lemma AcceptedBelow(sha: HashFn, i: nat, n: nat, leaf: Digest, path: seq<Digest>)
    requires 1 < n && i < n && Climb(sha, i, n, leaf, path).Some?
    ensures path != [] && Below(sha, i, n, leaf, path[..|path| - 1]).Some?
    ensures var (x, y) := Claimed(i, n, Below(sha, i, n, leaf, path[..|path| - 1]).value, path[|path| - 1]);
            Climb(sha, i, n, leaf, path).value == NodeHash(sha, x, y)
  {
  }

  // ------------------------------------------------------------------
  // What a root binds

  /**
   The tree hash as RFC 6962 section 2.1 defines it, for whichever power of two
   brackets the number of leaves.
   */
  lemma RootIs(sha: HashFn, leaves: seq<Digest>, k: nat)
    ensures |leaves| == 0 ==> Root(sha, leaves) == sha([])
    ensures |leaves| == 1 ==> Root(sha, leaves) == leaves[0]
    ensures PowerOfTwo(k) && k < |leaves| <= 2 * k ==>
              Root(sha, leaves) == sha([1] + Root(sha, leaves[..k]) + Root(sha, leaves[k..]))
  {
    if PowerOfTwo(k) && k < |leaves| <= 2 * k {
      SplitUnique(|leaves|, k);
    }
  }

  function LeafHashes(sha: HashFn, data: seq<Bytes>): (leaves: seq<Digest>)
    ensures |leaves| == |data| && forall i :: 0 <= i < |data| ==> leaves[i] == sha(LeafInput(data[i]))
  {
    seq(|data|, i requires 0 <= i < |data| => LeafHash(sha, data[i]))
  }

  /** No input of a leaf is one of a node, and neither is empty: a hash says which of the three it is of. */
  lemma InputsDiffer(data: Bytes, left: Digest, right: Digest)
    ensures LeafInput(data) != NodeInput(left, right) && LeafInput(data) != [] && NodeInput(left, right) != []
  {
    assert LeafInput(data)[0] == 0 && NodeInput(left, right)[0] == 1;
  }

  /** What is hashed last for the root of the tree over the data. */
  function RootInput(sha: HashFn, data: seq<Bytes>): Bytes {
    var leaves := LeafHashes(sha, data);
    if |data| == 0 then []
    else if |data| == 1 then LeafInput(data[0])
    else NodeInput(Root(sha, leaves[..Split(|data|)]), Root(sha, leaves[Split(|data|)..]))
  }

  /** Where two trees with one root differ: two inputs with one hash. */
  function TreeCollision(sha: HashFn, a: seq<Bytes>, b: seq<Bytes>): Pair
    decreases |a|
  {
    if RootInput(sha, a) != RootInput(sha, b) then Pair(RootInput(sha, a), RootInput(sha, b))
    else if |a| <= 1 || |b| <= 1 then NO_PAIR
    else
      var left := TreeCollision(sha, a[..Split(|a|)], b[..Split(|b|)]);
      if Collides(sha, left) then left else TreeCollision(sha, a[Split(|a|)..], b[Split(|b|)..])
  }

  lemma RootOfInput(sha: HashFn, data: seq<Bytes>)
    ensures Root(sha, LeafHashes(sha, data)) == sha(RootInput(sha, data))
  {
  }

  lemma HashesSplit(sha: HashFn, data: seq<Bytes>, k: nat)
    requires k <= |data|
    ensures LeafHashes(sha, data)[..k] == LeafHashes(sha, data[..k])
    ensures LeafHashes(sha, data)[k..] == LeafHashes(sha, data[k..])
  {
  }

  /** A root fixes the leaves below it, their number and order included, whatever the size of the trees. */
  lemma {:induction false} RootBinds(sha: HashFn, a: seq<Bytes>, b: seq<Bytes>)
    requires Root(sha, LeafHashes(sha, a)) == Root(sha, LeafHashes(sha, b))
    ensures a == b || Collides(sha, TreeCollision(sha, a, b))
    decreases |a|
  {
    RootOfInput(sha, a);
    RootOfInput(sha, b);
    if RootInput(sha, a) == RootInput(sha, b) {
      SameShape(sha, a, b);
      if |a| > 1 {
        var k, m := Split(|a|), Split(|b|);
        HashesSplit(sha, a, k);
        HashesSplit(sha, b, m);
        NodeInputInjective(Root(sha, LeafHashes(sha, a[..k])), Root(sha, LeafHashes(sha, a[k..])),
                           Root(sha, LeafHashes(sha, b[..m])), Root(sha, LeafHashes(sha, b[m..])));
        RootBinds(sha, a[..k], b[..m]);
        RootBinds(sha, a[k..], b[m..]);
        CutInTwo(a, k);
        CutInTwo(b, m);
      } else if |a| == 1 {
        assert a[0] == LeafInput(a[0])[1..] && b[0] == LeafInput(b[0])[1..];
        assert a == [a[0]] && b == [b[0]];
      }
    }
  }

  /** One input, one shape: empty, a leaf, or a node. */
  lemma SameShape(sha: HashFn, a: seq<Bytes>, b: seq<Bytes>)
    requires RootInput(sha, a) == RootInput(sha, b)
    ensures |a| == |b| || (|a| > 1 && |b| > 1)
  {
    var x, y := RootInput(sha, a), RootInput(sha, b);
    assert |a| > 0 ==> x[0] == if |a| == 1 then 0 else 1;
    assert |b| > 0 ==> y[0] == if |b| == 1 then 0 else 1;
  }
}
