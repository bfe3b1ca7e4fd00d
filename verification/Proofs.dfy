/**
 Inclusion proofs for one call's records: what `prove` emits and what
 `verify_entries` accepts.
 */
module Proofs {
  import opened Bytes
  import opened Text
  import opened Ledger
  import opened Merkle
  import opened Checkpoints

  datatype ProofEntry = ProofEntry(record: Record, leafIndex: nat, treeSize: nat, auditPath: seq<string>)

  datatype InclusionProof = InclusionProof(callId: string, checkpoint: Checkpoint, entries: seq<ProofEntry>)

  datatype ProveError = LedgerChanged(why: CheckError) | NoSuchCall

  function HexPath(path: seq<Digest>): seq<string> {
    seq(|path|, i requires 0 <= i < |path| => HexEncode(path[i]))
  }

  /** `None` unless every element is 64 lowercase hex characters. */
  function RawPath(path: seq<string>): (r: Option<seq<Digest>>)
    ensures r.Some? ==> |r.value| == |path|
  {
    if path == [] then Some([])
    else
      var first, rest := Hex32(path[0]), RawPath(path[1..]);
      if first.Some? && rest.Some? then Some([first.value] + rest.value) else None
  }

  lemma {:induction false} HexPathRoundTrip(path: seq<Digest>)
    ensures RawPath(HexPath(path)) == Some(path)
  {
    if path == [] {
    } else {
      HexPathRoundTrip(path[1..]);
      assert HexPath(path)[1..] == HexPath(path[1..]);
      Hex32Encode(path[0]);
      assert path == [path[0]] + path[1..];
    }
  }

  // ------------------------------------------------------------------
  // Proving

  /** The covered records of one call, in ledger order. */
  function OfCall(recs: seq<Record>, callId: string): seq<Record> {
    if recs == [] then []
    else
      var last := recs[|recs| - 1];
      OfCall(recs[..|recs| - 1], callId) + if last.callId == callId then [last] else []
  }

  ghost function EntryFor(sha: HashFn, recs: seq<Record>, rec: Record): ProofEntry
    requires Hashed(recs) && rec.index < |recs|
  {
    ProofEntry(rec, rec.index, |recs|, HexPath(InclusionPath(sha, Leaves(sha, recs), rec.index)))
  }

  ghost predicate EntryIsFor(sha: HashFn, recs: seq<Record>, rec: Record, e: ProofEntry)
    requires Hashed(recs)
  {
    rec.index < |recs| && e == EntryFor(sha, recs, rec)
  }

  /** One entry per covered record of the call, in ledger order, with its audit path. */
  ghost predicate ListsCall(sha: HashFn, recs: seq<Record>, callId: string, entries: seq<ProofEntry>)
    requires Hashed(recs)
  {
    var found := OfCall(recs, callId);
    && |entries| == |found|
    && forall k :: 0 <= k < |entries| ==> EntryIsFor(sha, recs, found[k], entries[k])
  }

  lemma {:induction false} OfCallIsCovered(recs: seq<Record>, n: nat, callId: string, k: nat)
    requires n <= |recs| && k < |OfCall(recs[..n], callId)|
    ensures exists i :: 0 <= i < n && recs[i] == OfCall(recs[..n], callId)[k] && recs[i].callId == callId
  {
    if n == 0 {
    } else {
      assert recs[..n][..n - 1] == recs[..n - 1];
      if k < |OfCall(recs[..n - 1], callId)| {
        OfCallIsCovered(recs, n - 1, callId, k);
      }
    }
  }

  /** Every covered record of the call is listed. */
  lemma {:induction false} OfCallIsComplete(recs: seq<Record>, callId: string, i: nat)
    requires i < |recs| && recs[i].callId == callId
    ensures recs[i] in OfCall(recs, callId)
  {
    if i == |recs| - 1 {
    } else {
      OfCallIsComplete(recs[..|recs| - 1], callId, i);
    }
  }

  /** In an intact ledger they are listed in its order. */
  lemma {:induction false} OfCallInOrder(s: Suite, recs: seq<Record>, callId: string)
    requires Intact(s, recs)
    ensures forall k :: 0 <= k < |OfCall(recs, callId)| ==> OfCall(recs, callId)[k].index < |recs|
    ensures forall j, k :: 0 <= j < k < |OfCall(recs, callId)| ==>
              OfCall(recs, callId)[j].index < OfCall(recs, callId)[k].index
  {
    if recs == [] {
    } else {
      var n := |recs| - 1;
      IntactPrefix(s, recs, n);
      OfCallInOrder(s, recs[..n], callId);
      assert recs[..|recs|] == recs;
      assert LinkedAt(s, recs, n);
    }
  }

  lemma CoveredIndex(s: Suite, recs: seq<Record>, callId: string, k: nat)
    requires Intact(s, recs) && k < |OfCall(recs, callId)|
    ensures var r := OfCall(recs, callId)[k]; r.index < |recs| && recs[r.index] == r && r.callId == callId
  {
    assert recs[..|recs|] == recs;
    OfCallIsCovered(recs, |recs|, callId, k);
    var i :| 0 <= i < |recs| && recs[i] == OfCall(recs, callId)[k];
    assert LinkedAt(s, recs, i);
  }

  /** The tee over the stream: covered records of the call. */
  method Collect(items: seq<Item>, n: nat, callId: string) returns (matched: seq<Record>)
    requires n <= |items| && Readable(items[..n])
    ensures matched == OfCall(Records(items[..n]), callId)
  {
    ghost var recs := Records(items[..n]);
    matched := [];
    for i := 0 to n
      invariant matched == OfCall(recs[..i], callId)
    {
      var rec := items[..n][i].value;
      assert recs[i] == rec && recs[..i + 1][..i] == recs[..i];
      if rec.callId == callId {
        matched := matched + [rec];
      }
    }
    assert recs[..n] == recs;
  }

  method MakeEntry(s: Suite, ghost recs: seq<Record>, leaves: seq<Digest>, rec: Record) returns (e: ProofEntry)
    requires Hashed(recs) && leaves == Leaves(s.sha, recs) && rec.index < |recs|
    ensures EntryIsFor(s.sha, recs, rec, e)
  {
    var path := BuildPath(s.sha, leaves, rec.index, []);
    e := ProofEntry(rec, rec.index, |leaves|, HexPath(path));
  }

  method MakeEntries(s: Suite, ghost recs: seq<Record>, leaves: seq<Digest>, callId: string, matched: seq<Record>)
    returns (entries: seq<ProofEntry>)
    requires Intact(s, recs) && Hashed(recs) && leaves == Leaves(s.sha, recs) && matched == OfCall(recs, callId)
    ensures ListsCall(s.sha, recs, callId, entries)
  {
    entries := [];
    for k := 0 to |matched|
      invariant |entries| == k
      invariant forall j :: 0 <= j < k ==> EntryIsFor(s.sha, recs, matched[j], entries[j])
    {
      CoveredIndex(s, recs, callId, k);
      var e := MakeEntry(s, recs, leaves, matched[k]);
      entries := entries + [e];
    }
  }

  /** `prove`: fails if the ledger no longer matches the checkpoint or the call has no covered record. */
  method Prove(s: Suite, cp: Checkpoint, items: seq<Item>, callId: string)
      returns (res: Result<InclusionProof, ProveError>)
    ensures res.Ok? ==> Valid(cp) && Covers(s, cp, items)
    ensures res.Err? && res.error.LedgerChanged? ==> Faults(s, cp, items, res.error.why)
    ensures res.Err? && res.error.NoSuchCall? ==>
              Valid(cp) && Covers(s, cp, items) && OfCall(Records(items[..cp.records]), callId) == []
    ensures Valid(cp) && Covers(s, cp, items) ==>
            var recs := Records(items[..cp.records]);
            && (res.Ok? <==> OfCall(recs, callId) != [])
            && (res.Ok? ==> res.value.callId == callId && res.value.checkpoint == cp
                            && ListsCall(s.sha, recs, callId, res.value.entries))
  {
    var check := CheckCheckpoint(s, cp, items);
    if check.Err? { return Err(LedgerChanged(check.error)); }
    var matched := Collect(items, cp.records, callId);
    if matched == [] { return Err(NoSuchCall); }
    var entries := MakeEntries(s, Records(items[..cp.records]), check.value.leaves, callId, matched);
    return Ok(InclusionProof(callId, cp, entries));
  }

  // ------------------------------------------------------------------
  // Verifying

  /** The leaf hash an entry claims, once its record hash is known to be well formed. */
  ghost predicate EntryAccepted(s: Suite, root: Digest, size: nat, callId: string, e: ProofEntry) {
    && e.record.callId == callId
    && e.record.index == e.leafIndex < e.treeSize == size
    && ComputeHash(s, e.record) == e.record.recordHash
    && var path := RawPath(e.auditPath);
       path.Some? && Climb(s.sha, e.leafIndex, e.treeSize, Leaf(s.sha, e.record.recordHash), path.value) == Some(root)
  }

  ghost predicate ProofAccepted(s: Suite, p: InclusionProof) {
    && IsHex64(p.checkpoint.merkleRoot) && p.entries != []
    && forall k :: 0 <= k < |p.entries| ==>
         EntryAccepted(s, Hex32(p.checkpoint.merkleRoot).value, p.checkpoint.records, p.callId, p.entries[k])
  }

  /** `verify_entries`: every entry against the checkpoint's Merkle root. */
  method VerifyEntries(s: Suite, p: InclusionProof) returns (ok: bool)
    ensures ok <==> ProofAccepted(s, p)
  {
    var root := Hex32(p.checkpoint.merkleRoot);
    if root.None? || p.entries == [] { return false; }
    for k := 0 to |p.entries|
      invariant forall j :: 0 <= j < k ==>
                  EntryAccepted(s, root.value, p.checkpoint.records, p.callId, p.entries[j])
    {
      var e := p.entries[k];
      var r := e.record;
      if r.callId != p.callId { return false; }
      if r.index != e.leafIndex || e.treeSize != p.checkpoint.records { return false; }
      if ComputeHash(s, r) != r.recordHash { return false; }
      var leaf := Leaf(s.sha, r.recordHash);
      var path := RawPath(e.auditPath);
      if path.None? { return false; }
      var included := VerifyInclusion(s.sha, leaf, e.leafIndex, e.treeSize, path.value, root.value);
      if !included { return false; }
    }
    return true;
  }

  // ------------------------------------------------------------------
  // End to end

  /** Every proof `prove` returns is accepted. */
  lemma ProvedIsAccepted(s: Suite, cp: Checkpoint, items: seq<Item>, callId: string, entries: seq<ProofEntry>)
    requires Valid(cp) && Covers(s, cp, items)
    requires var recs := Records(items[..cp.records]); ListsCall(s.sha, recs, callId, entries) && entries != []
    ensures ProofAccepted(s, InclusionProof(callId, cp, entries))
  {
    var recs := Records(items[..cp.records]);
    var root := Root(s.sha, Leaves(s.sha, recs));
    Hex32Encode(root);
    forall k | 0 <= k < |entries| ensures EntryAccepted(s, root, cp.records, callId, entries[k]) {
      CoveredIndex(s, recs, callId, k);
      HonestEntryAccepted(s, recs, callId, OfCall(recs, callId)[k]);
    }
  }

  lemma HonestEntryAccepted(s: Suite, recs: seq<Record>, callId: string, r: Record)
    requires Intact(s, recs) && Hashed(recs) && r.index < |recs| && recs[r.index] == r && r.callId == callId
    ensures EntryAccepted(s, Root(s.sha, Leaves(s.sha, recs)), |recs|, callId, EntryFor(s.sha, recs, r))
  {
    var leaves := Leaves(s.sha, recs);
    HexPathRoundTrip(InclusionPath(s.sha, leaves, r.index));
    Complete(s.sha, leaves, r.index);
    assert LinkedAt(s, recs, r.index);
  }

  /** The colliding pair behind a forged entry: a tree node, a leaf, or a record. */
  function EntryCollision(s: Suite, recs: seq<Record>, leaves: seq<Digest>, e: ProofEntry): Pair
    requires |leaves| == |recs| && e.leafIndex < |recs| && RawPath(e.auditPath).Some?
    requires IsHex64(e.record.recordHash) && IsHex64(recs[e.leafIndex].recordHash)
  {
    var leaf := Leaf(s.sha, e.record.recordHash);
    var mine, theirs := Hex32(e.record.recordHash).value, Hex32(recs[e.leafIndex].recordHash).value;
    if leaf != leaves[e.leafIndex] then PathCollision(s.sha, leaves, e.leafIndex, leaf, RawPath(e.auditPath).value)
    else if mine != theirs then Pair([0] + mine, [0] + theirs)
    else Pair(HashInput(s, e.record), HashInput(s, recs[e.leafIndex]))
  }

  /**
   Conversely, an entry accepted against the root of `recs` is the record at
   that position, unless `EntryCollision` is a collision.
   */
  lemma AcceptedIsIncluded(s: Suite, recs: seq<Record>, callId: string, e: ProofEntry)
    requires Faithful(s) && Intact(s, recs) && Hashed(recs)
    requires EntryAccepted(s, Root(s.sha, Leaves(s.sha, recs)), |recs|, callId, e)
    ensures e.record.callId == callId
    ensures e.record == recs[e.leafIndex]
            || Collides(s.sha, EntryCollision(s, recs, Leaves(s.sha, recs), e))
  {
    var leaves := Leaves(s.sha, recs);
    var r := recs[e.leafIndex];
    var leaf := Leaf(s.sha, e.record.recordHash);
    Sound(s.sha, leaves, e.leafIndex, leaf, RawPath(e.auditPath).value);
    if leaf == leaves[e.leafIndex] {
      var mine, theirs := Hex32(e.record.recordHash).value, Hex32(r.recordHash).value;
      if mine == theirs {
        assert LinkedAt(s, recs, e.leafIndex);
        SameRawHash(s, e.record, r);
        SameHash(s, e.record, r);
      } else {
        assert ([0] + mine)[1..] == mine && ([0] + theirs)[1..] == theirs;
      }
    }
  }

  /**
   So an accepted proof shows records, at least one, all of them covered and of
   the call it names, or an entry of it gives a collision.
   */
  lemma AcceptedIsOfCall(s: Suite, p: InclusionProof, recs: seq<Record>, k: nat)
    requires Faithful(s) && Intact(s, recs) && Hashed(recs) && ProofAccepted(s, p)
    requires p.checkpoint.records == |recs| && p.checkpoint.merkleRoot == RootOf(s.sha, recs)
    ensures p.entries != []
    ensures k < |p.entries| ==>
              || p.entries[k].record in OfCall(recs, p.callId)
              || (EntryAccepted(s, Root(s.sha, Leaves(s.sha, recs)), |recs|, p.callId, p.entries[k])
                  && Collides(s.sha, EntryCollision(s, recs, Leaves(s.sha, recs), p.entries[k])))
  {
    if k < |p.entries| {
      var root, e := Root(s.sha, Leaves(s.sha, recs)), p.entries[k];
      Hex32Encode(root);
      assert EntryAccepted(s, root, |recs|, p.callId, e);
      AcceptedIsIncluded(s, recs, p.callId, e);
      if e.record == recs[e.leafIndex] {
        OfCallIsComplete(recs, p.callId, e.leafIndex);
      }
    }
  }

  lemma SameRawHash(s: Suite, x: Record, y: Record)
    requires ComputeHash(s, x) == x.recordHash && ComputeHash(s, y) == y.recordHash
    requires Hex32(x.recordHash) == Hex32(y.recordHash)
    ensures x.recordHash == y.recordHash
  {
    Hex32Encode(s.sha(HashInput(s, x)));
    Hex32Encode(s.sha(HashInput(s, y)));
  }
}
