/**
 Signed statements about a ledger: building a checkpoint from a record stream
 and checking one against the ledger as it stands now.
 */
module Checkpoints {
  import opened Bytes
  import opened Text
  import opened Ledger
  import opened Merkle

  datatype SessionScope = SessionScope(id: string, records: nat, merkleRoot: string)

  datatype Checkpoint = Checkpoint(
    ledgerId: string,
    records: nat,
    tipIndex: nat,
    tipHash: string,
    merkleRoot: string,
    session: Option<SessionScope>,
    createdAt: string,
    signer: string)

  /** `YYYY-MM-DDTHH:MM:SSZ`, by shape only. */
  predicate IsRfc3339Seconds(s: string) {
    && |s| == 20
    && s[4] == '-' && s[7] == '-' && s[10] == 'T' && s[13] == ':' && s[16] == ':' && s[19] == 'Z'
    && forall i :: 0 <= i < 20 && i !in {4, 7, 10, 13, 16, 19} ==> IsDigit(s[i])
  }

  const SIGNER_PREFIX := "ed25519:"

  predicate IsSigner(s: string) {
    SIGNER_PREFIX <= s && IsHex64(s[|SIGNER_PREFIX|..])
  }

  /** `Checkpoint::validate`. */
  predicate Valid(cp: Checkpoint) {
    && IsHex64(cp.ledgerId) && IsHex64(cp.tipHash) && IsHex64(cp.merkleRoot)
    && cp.records != 0 && cp.tipIndex + 1 == cp.records
    && (cp.tipIndex == 0 ==> cp.tipHash == cp.ledgerId)
    && IsRfc3339Seconds(cp.createdAt) && IsSigner(cp.signer)
    && (cp.session.Some? ==>
          && cp.session.value.id != ""
          && 1 <= cp.session.value.records <= cp.records
          && IsHex64(cp.session.value.merkleRoot))
  }

  // ------------------------------------------------------------------
  // Links and leaves

  datatype Problem = WrongIndex | Edited | Unlinked

  function LinkProblem(s: Suite, rec: Record, index: nat, prev: string): (p: Option<Problem>)
    ensures p.None? <==> Links(s, rec, index, prev)
    ensures p.Some? ==> IsProblem(s, rec, index, prev, p.value)
  {
    if rec.index != index then Some(WrongIndex)
    else if ComputeHash(s, rec) != rec.recordHash then Some(Edited)
    else if rec.prevHash != prev then Some(Unlinked)
    else None
  }

  /** What is wrong with a record at a place in the chain. */
  ghost predicate IsProblem(s: Suite, rec: Record, index: nat, prev: string, why: Problem) {
    match why
    case WrongIndex => rec.index != index
    case Edited => rec.index == index && ComputeHash(s, rec) != rec.recordHash
    case Unlinked => rec.index == index && ComputeHash(s, rec) == rec.recordHash && rec.prevHash != prev
  }

  ghost predicate Hashed(recs: seq<Record>) {
    forall i :: 0 <= i < |recs| ==> IsHex64(recs[i].recordHash)
  }

  function Leaf(sha: HashFn, hash: string): Digest
    requires IsHex64(hash)
  {
    LeafHash(sha, Hex32(hash).value)
  }

  ghost function Leaves(sha: HashFn, recs: seq<Record>): seq<Digest>
    requires Hashed(recs)
  {
    seq(|recs|, i requires 0 <= i < |recs| => Leaf(sha, recs[i].recordHash))
  }

  /** The records of one session, in ledger order. */
  function Scoped(recs: seq<Record>, id: string): seq<Record> {
    if recs == [] then []
    else
      var last := recs[|recs| - 1];
      Scoped(recs[..|recs| - 1], id) + if last.sessionId == id then [last] else []
  }

  lemma {:induction false} ScopedHashed(recs: seq<Record>, id: string)
    requires Hashed(recs)
    ensures Hashed(Scoped(recs, id)) && |Scoped(recs, id)| <= |recs|
  {
    if recs == [] {
    } else {
      ScopedHashed(recs[..|recs| - 1], id);
    }
  }

  /** The records of a session are those that bear its id, and in an intact ledger they stand in its order. */
  lemma {:induction false} ScopedIs(s: Suite, recs: seq<Record>, id: string)
    requires Intact(s, recs)
    ensures forall r :: r in Scoped(recs, id) <==> r in recs && r.sessionId == id
    ensures forall j, k :: 0 <= j < k < |Scoped(recs, id)| ==> Scoped(recs, id)[j].index < Scoped(recs, id)[k].index
    ensures forall j :: 0 <= j < |Scoped(recs, id)| ==> Scoped(recs, id)[j].index < |recs|
  {
    if recs == [] {
    } else {
      var n := |recs| - 1;
      IntactPrefix(s, recs, n);
      ScopedIs(s, recs[..n], id);
      assert LinkedAt(s, recs, n);
      assert recs == recs[..n] + [recs[n]];
    }
  }

  lemma IntactHashed(s: Suite, recs: seq<Record>)
    requires Intact(s, recs)
    ensures Hashed(recs)
  {
    forall i | 0 <= i < |recs| ensures IsHex64(recs[i].recordHash) {
      assert LinkedAt(s, recs, i);
    }
  }

  lemma LeavesAppend(sha: HashFn, recs: seq<Record>, r: Record)
    requires Hashed(recs) && IsHex64(r.recordHash)
    ensures Hashed(recs + [r]) && Leaves(sha, recs + [r]) == Leaves(sha, recs) + [Leaf(sha, r.recordHash)]
  {
  }

  ghost function RootOf(sha: HashFn, recs: seq<Record>): string
    requires Hashed(recs)
  {
    HexEncode(Root(sha, Leaves(sha, recs)))
  }

  ghost function ScopeOf(sha: HashFn, recs: seq<Record>, id: string): SessionScope
    requires Hashed(recs)
  {
    ScopedHashed(recs, id);
    SessionScope(id, |Scoped(recs, id)|, RootOf(sha, Scoped(recs, id)))
  }

  /** The facts a receipt over these records signs. */
  ghost function CheckpointOf(sha: HashFn, recs: seq<Record>, session: Option<string>, createdAt: string,
                              signer: string): Checkpoint
    requires recs != [] && Hashed(recs)
  {
    Checkpoint(recs[0].recordHash, |recs|, |recs| - 1, Tip(recs), RootOf(sha, recs),
      if session.None? then None else Some(ScopeOf(sha, recs, session.value)), createdAt, signer)
  }

  ghost predicate LowerHex(s: string, n: nat) {
    |s| == n && forall i :: 0 <= i < n ==> s[i] in "0123456789abcdef"
  }

  /** A time to the second: digits, and the punctuation of `YYYY-MM-DDTHH:MM:SSZ`. */
  ghost predicate Seconds(s: string) {
    && |s| == 20
    && forall i :: 0 <= i < 20 ==>
         if i == 4 || i == 7 then s[i] == '-'
         else if i == 10 then s[i] == 'T'
         else if i == 13 || i == 16 then s[i] == ':'
         else if i == 19 then s[i] == 'Z'
         else '0' <= s[i] <= '9'
  }

  /** What validation demands, field by field; any one defect is enough to refuse a checkpoint. */
  lemma ValidIff(cp: Checkpoint)
    ensures Valid(cp) <==>
            && LowerHex(cp.ledgerId, 64) && LowerHex(cp.tipHash, 64) && LowerHex(cp.merkleRoot, 64)
            && cp.records >= 1 && cp.tipIndex == cp.records - 1
            && (cp.records == 1 ==> cp.tipHash == cp.ledgerId)
            && |cp.signer| == 72 && cp.signer[..8] == "ed25519:" && LowerHex(cp.signer[8..], 64)
            && Seconds(cp.createdAt)
            && (cp.session.Some? ==>
                  && cp.session.value.id != "" && 1 <= cp.session.value.records <= cp.records
                  && LowerHex(cp.session.value.merkleRoot, 64))
  {
    HexIs(cp.ledgerId);
    HexIs(cp.tipHash);
    HexIs(cp.merkleRoot);
    SecondsIs(cp.createdAt);
    assert |SIGNER_PREFIX| == 8;
    if |cp.signer| >= 8 {
      HexIs(cp.signer[8..]);
      assert cp.signer[..8] == SIGNER_PREFIX <==> SIGNER_PREFIX <= cp.signer;
    }
    if cp.session.Some? {
      HexIs(cp.session.value.merkleRoot);
    }
  }

  lemma SecondsIs(s: string)
    ensures IsRfc3339Seconds(s) <==> Seconds(s)
  {
  }

  lemma HexIs(s: string)
    ensures IsHex64(s) <==> LowerHex(s, 64)
  {
    forall c: char ensures IsLowerHex(c) <==> c in "0123456789abcdef" {
      if IsLowerHex(c) {
        var n := if c <= '9' then (c - '0') as nat else (c - 'a') as nat + 10;
        assert "0123456789abcdef"[n] == c;
      }
    }
  }

  // ------------------------------------------------------------------
  // Building

  datatype BuildError = Unreadable(at: nat) | Broken(at: nat, why: Problem) | EmptyLedger | NoSession

  /** What the loops over a record stream keep: the prefix read so far and its leaves. */
  ghost predicate ReadSoFar(s: Suite, items: seq<Item>, n: nat, prev: string) {
    && n <= |items| && Readable(items[..n]) && Intact(s, Records(items[..n]))
    && prev == Tip(Records(items[..n]))
  }

  lemma ReadOne(s: Suite, items: seq<Item>, n: nat, prev: string)
    requires ReadSoFar(s, items, n, prev) && n < |items| && items[n].Ok?
    requires Links(s, items[n].value, n, prev)
    ensures ReadSoFar(s, items, n + 1, items[n].value.recordHash)
    ensures Records(items[..n + 1]) == Records(items[..n]) + [items[n].value]
    ensures Hashed(Records(items[..n])) && IsHex64(items[n].value.recordHash)
  {
    ExtendIntact(s, items, n);
    IntactHashed(s, Records(items[..n]));
  }

  lemma ScopedAppend(recs: seq<Record>, r: Record, id: string)
    ensures Scoped(recs + [r], id) == Scoped(recs, id) + if r.sessionId == id then [r] else []
  {
    assert (recs + [r])[..|recs|] == recs;
  }

  /**
   `build_checkpoint`: refuses an empty, unreadable or broken ledger and a
   session without records, and otherwise states exactly the facts above.
   */
  method BuildCheckpoint(s: Suite, items: seq<Item>, session: Option<string>, now: string)
      returns (res: Result<Checkpoint, BuildError>)
    ensures res.Ok? <==>
            && items != [] && Readable(items) && Intact(s, Records(items))
            && (session.Some? ==> Scoped(Records(items), session.value) != [])
    ensures res.Ok? ==> Hashed(Records(items)) && res.value == CheckpointOf(s.sha, Records(items), session, now, "")
    ensures res.Err? ==> Prevents(s, items, session, res.error)
  {
    var prev, i := GENESIS, 0;
    var leaves: seq<Digest>, sessionLeaves: seq<Digest> := [], [];
    var ledgerId: Option<string> := None;
    assert Records(items[..0]) == [];
    while i < |items|
      invariant BuiltSoFar(s, items, i, prev, leaves, session, sessionLeaves, ledgerId)
    {
      if items[i].Err? {
        BuildStops(s, items, i, prev, session);
        return Err(Unreadable(i));
      }
      var rec := items[i].value;
      var why := LinkProblem(s, rec, i, prev);
      if why.Some? {
        BuildStops(s, items, i, prev, session);
        return Err(Broken(i, why.value));
      }
      BuildOne(s, items, i, prev, leaves, session, sessionLeaves, ledgerId);
      // A record that carries its own hash always has a well-formed one: no leaf is refused here.
      var leaf := Leaf(s.sha, rec.recordHash);
      leaves := leaves + [leaf];
      if session == Some(rec.sessionId) {
        sessionLeaves := sessionLeaves + [leaf];
      }
      if i == 0 {
        ledgerId := Some(rec.recordHash);
      }
      prev := rec.recordHash;
      i := i + 1;
    }
    var scope: Option<SessionScope> := None;
    if session.Some? && sessionLeaves != [] {
      scope := Some(SessionScope(session.value, |sessionLeaves|, HexEncode(Root(s.sha, sessionLeaves))));
    }
    BuiltSays(s, items, prev, leaves, session, sessionLeaves, ledgerId, scope, now);
    if ledgerId.None? { return Err(EmptyLedger); }
    if session.Some? && sessionLeaves == [] { return Err(NoSession); }
    return Ok(Checkpoint(ledgerId.value, |leaves|, |leaves| - 1, prev, HexEncode(Root(s.sha, leaves)), scope, now, ""));
  }

  /** What the loop has gathered at the end, as an error or a checkpoint. */
  lemma BuiltSays(s: Suite, items: seq<Item>, prev: string, leaves: seq<Digest>, session: Option<string>,
                  sessionLeaves: seq<Digest>, ledgerId: Option<string>, scope: Option<SessionScope>, now: string)
    requires BuiltSoFar(s, items, |items|, prev, leaves, session, sessionLeaves, ledgerId)
    requires scope == if session.None? || sessionLeaves == [] then None
                      else Some(SessionScope(session.value, |sessionLeaves|, HexEncode(Root(s.sha, sessionLeaves))))
    ensures Readable(items) && Intact(s, Records(items)) && Hashed(Records(items))
    ensures ledgerId.None? ==> items == [] && Prevents(s, items, session, EmptyLedger)
    ensures session.Some? && sessionLeaves == [] ==>
              Scoped(Records(items), session.value) == [] && Prevents(s, items, session, NoSession)
    ensures ledgerId.Some? && (session.Some? ==> sessionLeaves != []) ==>
              && items != [] && (session.Some? ==> Scoped(Records(items), session.value) != [])
              && CheckpointOf(s.sha, Records(items), session, now, "") ==
                 Checkpoint(ledgerId.value, |leaves|, |leaves| - 1, prev, HexEncode(Root(s.sha, leaves)), scope, now, "")
  {
    BuiltAll(s, items, prev, leaves, session, sessionLeaves, ledgerId);
  }

  /** What each error says of the ledger. */
  ghost predicate Prevents(s: Suite, items: seq<Item>, session: Option<string>, e: BuildError) {
    match e
    case Unreadable(at) => at < |items| && LongestIntact(s, items, at) && items[at].Err?
    case Broken(at, why) =>
      && at < |items| && LongestIntact(s, items, at) && items[at].Ok?
      && IsProblem(s, items[at].value, at, Tip(Records(items[..at])), why)
    case EmptyLedger => items == []
    case NoSession => Readable(items) && session.Some? && Scoped(Records(items), session.value) == []
  }

  /** What the loop has gathered at the end. */
  lemma BuiltAll(s: Suite, items: seq<Item>, prev: string, leaves: seq<Digest>,
                 session: Option<string>, sessionLeaves: seq<Digest>, ledgerId: Option<string>)
    requires BuiltSoFar(s, items, |items|, prev, leaves, session, sessionLeaves, ledgerId)
    ensures Readable(items) && Intact(s, Records(items)) && Hashed(Records(items))
    ensures var recs := Records(items);
            && prev == Tip(recs) && leaves == Leaves(s.sha, recs)
            && ledgerId == (if items == [] then None else Some(recs[0].recordHash))
            && (session.Some? ==> SessionLeaves(s.sha, recs, session.value, sessionLeaves))
            && (session.Some? ==> (sessionLeaves == [] <==> Scoped(recs, session.value) == []))
  {
    TakeAll(items);
    if session.Some? {
      ScopedHashed(Records(items), session.value);
    }
  }

  /** What the loop of `build_checkpoint` has after `i` linked records. */
  ghost predicate BuiltSoFar(s: Suite, items: seq<Item>, i: nat, prev: string, leaves: seq<Digest>,
                             session: Option<string>, sessionLeaves: seq<Digest>, ledgerId: Option<string>) {
    && ReadSoFar(s, items, i, prev)
    && var recs := Records(items[..i]);
       && Hashed(recs) && leaves == Leaves(s.sha, recs)
       && (session.Some? ==> SessionLeaves(s.sha, recs, session.value, sessionLeaves))
       && ledgerId == if i == 0 then None else Some(recs[0].recordHash)
  }

  lemma BuildOne(s: Suite, items: seq<Item>, i: nat, prev: string, leaves: seq<Digest>,
                 session: Option<string>, sessionLeaves: seq<Digest>, ledgerId: Option<string>)
    requires BuiltSoFar(s, items, i, prev, leaves, session, sessionLeaves, ledgerId)
    requires i < |items| && items[i].Ok? && Links(s, items[i].value, i, prev)
    ensures IsHex64(items[i].value.recordHash)
    ensures var rec := items[i].value;
            var leaf := Leaf(s.sha, rec.recordHash);
            BuiltSoFar(s, items, i + 1, rec.recordHash, leaves + [leaf], session,
                       if session == Some(rec.sessionId) then sessionLeaves + [leaf] else sessionLeaves,
                       if i == 0 then Some(rec.recordHash) else ledgerId)
  {
    var rec := items[i].value;
    ReadOne(s, items, i, prev);
    LeavesAppend(s.sha, Records(items[..i]), rec);
    if session.Some? {
      SessionLeavesAppend(s.sha, Records(items[..i]), rec, session.value, sessionLeaves);
    }
  }

  ghost predicate SessionLeaves(sha: HashFn, recs: seq<Record>, id: string, leaves: seq<Digest>)
    requires Hashed(recs)
  {
    ScopedHashed(recs, id);
    leaves == Leaves(sha, Scoped(recs, id))
  }

  lemma SessionLeavesAppend(sha: HashFn, recs: seq<Record>, r: Record, id: string, leaves: seq<Digest>)
    requires Hashed(recs) && IsHex64(r.recordHash) && SessionLeaves(sha, recs, id, leaves)
    ensures Hashed(recs + [r])
    ensures SessionLeaves(sha, recs + [r], id,
              if r.sessionId == id then leaves + [Leaf(sha, r.recordHash)] else leaves)
  {
    ScopedAppend(recs, r, id);
    ScopedHashed(recs, id);
    if r.sessionId == id {
      LeavesAppend(sha, Scoped(recs, id), r);
    } else {
      assert Scoped(recs, id) + [] == Scoped(recs, id);
    }
  }

  lemma BuildStops(s: Suite, items: seq<Item>, i: nat, prev: string, session: Option<string>)
    requires ReadSoFar(s, items, i, prev) && i < |items| && (items[i].Err? || !Links(s, items[i].value, i, prev))
    ensures !(Readable(items) && Intact(s, Records(items)))
    ensures Prevents(s, items, session,
              if items[i].Err? then Unreadable(i) else Broken(i, LinkProblem(s, items[i].value, i, prev).value))
  {
    if Readable(items) && Intact(s, Records(items)) {
      assert items[..|items|] == items;
      IntactItem(s, items, i, |items|);
    }
  }

  // ------------------------------------------------------------------
  // Checking

  datatype CheckError =
    | Invalid
    | CoveredUnreadable(at: nat)
    | CoveredAltered(at: nat, why: Problem)
    | DifferentLedger
    | TipRewritten
    | Truncated(seen: nat)
    | RootMismatch
    | SessionMismatch

  /** The item at `at` is the first damaged one, and the checkpoint covers it. */
  ghost predicate FirstDamage(s: Suite, cp: Checkpoint, items: seq<Item>, at: nat) {
    at < cp.records && at < |items| && LongestIntact(s, items, at)
  }

  /** What each error says of the ledger. */
  ghost predicate Faults(s: Suite, cp: Checkpoint, items: seq<Item>, e: CheckError) {
    match e
    case Invalid => !Valid(cp)
    case CoveredUnreadable(at) => FirstDamage(s, cp, items, at) && items[at].Err?
    case CoveredAltered(at, why) =>
      && FirstDamage(s, cp, items, at) && items[at].Ok?
      && IsProblem(s, items[at].value, at, Tip(Records(items[..at])), why)
    case DifferentLedger => items != [] && items[0].Ok? && items[0].value.recordHash != cp.ledgerId
    case TipRewritten =>
      cp.tipIndex < |items| && items[cp.tipIndex].Ok? && items[cp.tipIndex].value.recordHash != cp.tipHash
    case Truncated(seen) => seen == |items| < cp.records
    case RootMismatch =>
      && cp.records <= |items| && Readable(items[..cp.records]) && Hashed(Records(items[..cp.records]))
      && RootOf(s.sha, Records(items[..cp.records])) != cp.merkleRoot
    case SessionMismatch =>
      && cp.records <= |items| && Readable(items[..cp.records]) && Hashed(Records(items[..cp.records]))
      && cp.session.Some? && ScopeOf(s.sha, Records(items[..cp.records]), cp.session.value.id) != cp.session.value
  }

  datatype CheckpointStatus = CheckpointStatus(appendedAfter: nat, brokenAfter: Option<nat>, leaves: seq<Digest>)

  /** The first `cp.records` items are exactly what the checkpoint says they are. */
  ghost predicate Covers(s: Suite, cp: Checkpoint, items: seq<Item>) {
    && 0 < cp.records <= |items|
    && Readable(items[..cp.records]) && Intact(s, Records(items[..cp.records]))
    && var recs := Records(items[..cp.records]);
       && Hashed(recs)
       && recs[0].recordHash == cp.ledgerId && Tip(recs) == cp.tipHash && RootOf(s.sha, recs) == cp.merkleRoot
       && (cp.session.Some? ==> ScopeOf(s.sha, recs, cp.session.value.id) == cp.session.value)
  }

  /** What the walk over the ledger has established when it stops after `i` linked records. */
  ghost predicate Walked(s: Suite, cp: Checkpoint, items: seq<Item>, i: nat,
                         leaves: seq<Digest>, sessionLeaves: seq<Digest>, brokenAfter: Option<nat>) {
    && i <= |items| && Readable(items[..i]) && Intact(s, Records(items[..i]))
    && Keeps(s, cp, items, i, leaves, sessionLeaves)
    && (brokenAfter.Some? ==> cp.records <= i < |items| && brokenAfter.value == i && LongestIntact(s, items, i))
  }

  /** The loop of `check_checkpoint`: stop at the end, at damage behind the tip, or fail. */
  method Walk(s: Suite, cp: Checkpoint, items: seq<Item>)
    returns (err: Option<CheckError>, leaves: seq<Digest>, sessionLeaves: seq<Digest>,
             appendedAfter: nat, brokenAfter: Option<nat>, i: nat)
    requires Valid(cp)
    ensures err.Some? ==> !Covers(s, cp, items) && Faults(s, cp, items, err.value)
    ensures err.None? ==>
            && Walked(s, cp, items, i, leaves, sessionLeaves, brokenAfter)
            && (brokenAfter.None? ==> i == |items|)
            && appendedAfter == (if i <= cp.records then 0 else i - cp.records)
  {
    var prev := GENESIS;
    err, leaves, sessionLeaves, appendedAfter, brokenAfter, i := None, [], [], 0, None, 0;
    assert Records(items[..0]) == [];
    while i < |items|
      invariant WalkedTo(s, cp, items, i, leaves, sessionLeaves, prev) && brokenAfter.None?
      invariant appendedAfter == if i <= cp.records then 0 else i - cp.records
    {
      var why := if items[i].Ok? then LinkProblem(s, items[i].value, i, prev) else None;
      if items[i].Err? || why.Some? {
        WalkEnds(s, cp, items, i, leaves, sessionLeaves, prev);
        if i <= cp.tipIndex {
          err := Some(Damage(s, items[i], i, prev));
        } else {
          brokenAfter := Some(i);
        }
        return;
      }
      var rec := items[i].value;
      if i <= cp.tipIndex {
        WalkCovered(s, cp, items, i, leaves, sessionLeaves, prev);
        if i == 0 && rec.recordHash != cp.ledgerId {
          err := Some(DifferentLedger);
          return;
        }
        var leaf := Leaf(s.sha, rec.recordHash);
        leaves := leaves + [leaf];
        if cp.session.Some? && rec.sessionId == cp.session.value.id {
          sessionLeaves := sessionLeaves + [leaf];
        }
        if i == cp.tipIndex && rec.recordHash != cp.tipHash {
          err := Some(TipRewritten);
          return;
        }
      } else {
        WalkBehind(s, cp, items, i, leaves, sessionLeaves, prev);
        appendedAfter := appendedAfter + 1;
      }
      prev := rec.recordHash;
      i := i + 1;
    }
  }

  /** The hashes that pin the record at `i` are those of the checkpoint. */
  predicate Pinned(cp: Checkpoint, i: nat, rec: Record) {
    (i == 0 ==> rec.recordHash == cp.ledgerId) && (i == cp.tipIndex ==> rec.recordHash == cp.tipHash)
  }

  function NextSession(cp: Checkpoint, rec: Record, leaf: Digest, sessionLeaves: seq<Digest>): seq<Digest> {
    if cp.session.Some? && rec.sessionId == cp.session.value.id then sessionLeaves + [leaf] else sessionLeaves
  }

  /** One more linked record that is covered: pinned as it should be, or the checkpoint does not hold. */
  lemma WalkCovered(s: Suite, cp: Checkpoint, items: seq<Item>, i: nat, leaves: seq<Digest>,
                    sessionLeaves: seq<Digest>, prev: string)
    requires Valid(cp) && WalkedTo(s, cp, items, i, leaves, sessionLeaves, prev)
    requires i < |items| && items[i].Ok? && Links(s, items[i].value, i, prev) && i <= cp.tipIndex
    ensures IsHex64(items[i].value.recordHash)
    ensures !Pinned(cp, i, items[i].value) ==> !Covers(s, cp, items)
    ensures i == 0 && items[i].value.recordHash != cp.ledgerId ==> Faults(s, cp, items, DifferentLedger)
    ensures i == cp.tipIndex && items[i].value.recordHash != cp.tipHash ==> Faults(s, cp, items, TipRewritten)
    ensures var rec := items[i].value;
            var leaf := Leaf(s.sha, rec.recordHash);
            Pinned(cp, i, rec) ==>
              WalkedTo(s, cp, items, i + 1, leaves + [leaf], NextSession(cp, rec, leaf, sessionLeaves), rec.recordHash)
  {
    ReadOne(s, items, i, prev);
    MustMatch(s, cp, items, i);
    if Pinned(cp, i, items[i].value) {
      KeepsOne(s, cp, items, i, leaves, sessionLeaves);
    }
  }

  /** One more linked record behind the tip. */
  lemma WalkBehind(s: Suite, cp: Checkpoint, items: seq<Item>, i: nat, leaves: seq<Digest>,
                   sessionLeaves: seq<Digest>, prev: string)
    requires Valid(cp) && WalkedTo(s, cp, items, i, leaves, sessionLeaves, prev)
    requires i < |items| && items[i].Ok? && Links(s, items[i].value, i, prev) && i > cp.tipIndex
    ensures WalkedTo(s, cp, items, i + 1, leaves, sessionLeaves, items[i].value.recordHash)
  {
    ReadOne(s, items, i, prev);
  }

  /** Nothing was damaged in the first `i` items. */
  ghost predicate WalkedTo(s: Suite, cp: Checkpoint, items: seq<Item>, i: nat, leaves: seq<Digest>,
                           sessionLeaves: seq<Digest>, prev: string) {
    Walked(s, cp, items, i, leaves, sessionLeaves, None) && prev == Tip(Records(items[..i]))
  }

  /** The error for a damaged item that is covered. */
  function Damage(s: Suite, item: Item, i: nat, prev: string): CheckError
    requires item.Err? || !Links(s, item.value, i, prev)
  {
    if item.Err? then CoveredUnreadable(i) else CoveredAltered(i, LinkProblem(s, item.value, i, prev).value)
  }

  /** Damage behind the tip ends the walk where it is. */
  lemma WalkEnds(s: Suite, cp: Checkpoint, items: seq<Item>, i: nat, leaves: seq<Digest>,
                 sessionLeaves: seq<Digest>, prev: string)
    requires Valid(cp) && WalkedTo(s, cp, items, i, leaves, sessionLeaves, prev) && i < |items|
    requires items[i].Err? || !Links(s, items[i].value, i, prev)
    ensures i <= cp.tipIndex ==> !Covers(s, cp, items) && Faults(s, cp, items, Damage(s, items[i], i, prev))
    ensures i > cp.tipIndex ==> Walked(s, cp, items, i, leaves, sessionLeaves, Some(i))
  {
    if i <= cp.tipIndex {
      UncoveredAt(s, cp, items, i);
    }
  }

  /**
   The status counts the intact records behind the tip, names the first
   position after them if anything follows, and carries the covered leaves.
   */
  ghost predicate DescribesLedger(s: Suite, cp: Checkpoint, items: seq<Item>, status: CheckpointStatus) {
    var m := cp.records + status.appendedAfter;
    && LongestIntact(s, items, m)
    && status.brokenAfter == (if m == |items| then None else Some(m))
    && Readable(items[..cp.records]) && Hashed(Records(items[..cp.records]))
    && status.leaves == Leaves(s.sha, Records(items[..cp.records]))
  }

  /**
   `check_checkpoint`: succeeds exactly when the covered prefix is what was
   signed. Damage behind it is reported at its first position and does not
   fail the checkpoint.
   */
  method CheckCheckpoint(s: Suite, cp: Checkpoint, items: seq<Item>) returns (res: Result<CheckpointStatus, CheckError>)
    ensures res.Ok? <==> Valid(cp) && Covers(s, cp, items)
    ensures res.Ok? ==> DescribesLedger(s, cp, items, res.value)
    ensures res.Err? ==> Faults(s, cp, items, res.error)
  {
    if !Valid(cp) { return Err(Invalid); }
    var err, leaves, sessionLeaves, appendedAfter, brokenAfter, i := Walk(s, cp, items);
    if err.Some? { return Err(err.value); }
    var seen := if brokenAfter.Some? then i + 1 else i;
    Concluded(s, cp, items, i, leaves, sessionLeaves, brokenAfter);
    if seen < cp.records { return Err(Truncated(seen)); }
    var mismatch := CompareRoots(s.sha, cp, leaves, sessionLeaves);
    if mismatch.Some? { return Err(mismatch.value); }
    return Ok(CheckpointStatus(appendedAfter, brokenAfter, leaves));
  }

  function CompareRoots(sha: HashFn, cp: Checkpoint, leaves: seq<Digest>,
                        sessionLeaves: seq<Digest>): Option<CheckError> {
    if HexEncode(Root(sha, leaves)) != cp.merkleRoot then Some(RootMismatch)
    else if cp.session.Some? && (|sessionLeaves| != cp.session.value.records
                                 || HexEncode(Root(sha, sessionLeaves)) != cp.session.value.merkleRoot)
    then Some(SessionMismatch)
    else None
  }

  lemma Concluded(s: Suite, cp: Checkpoint, items: seq<Item>, i: nat,
                  leaves: seq<Digest>, sessionLeaves: seq<Digest>, brokenAfter: Option<nat>)
    requires Valid(cp) && Walked(s, cp, items, i, leaves, sessionLeaves, brokenAfter)
    requires brokenAfter.None? ==> i == |items|
    ensures i < cp.records ==> !Covers(s, cp, items)
    ensures i >= cp.records ==>
            && DescribesLedger(s, cp, items, CheckpointStatus(i - cp.records, brokenAfter, leaves))
            && (Covers(s, cp, items) <==> CompareRoots(s.sha, cp, leaves, sessionLeaves).None?)
            && (CompareRoots(s.sha, cp, leaves, sessionLeaves).Some? ==>
                  Faults(s, cp, items, CompareRoots(s.sha, cp, leaves, sessionLeaves).value))
  {
    if i >= cp.records {
      CoveredPrefix(s, items, cp.records, i);
    }
  }

  lemma MustMatch(s: Suite, cp: Checkpoint, items: seq<Item>, i: nat)
    requires Valid(cp) && i < cp.records && i < |items| && items[i].Ok?
    ensures Covers(s, cp, items) ==>
            && (i == 0 ==> items[i].value.recordHash == cp.ledgerId)
            && (i == cp.tipIndex ==> items[i].value.recordHash == cp.tipHash)
  {
    if Covers(s, cp, items) {
      assert Records(items[..cp.records])[i] == items[i].value;
    }
  }

  /** Leaves gathered so far, from covered records only, and what the covered ones were checked against. */
  ghost predicate Keeps(s: Suite, cp: Checkpoint, items: seq<Item>, i: nat, leaves: seq<Digest>,
                        sessionLeaves: seq<Digest>) {
    var n := if i < cp.records then i else cp.records;
    && n <= |items| && Readable(items[..n])
    && var recs := Records(items[..n]);
       && Hashed(recs) && leaves == Leaves(s.sha, recs)
       && (cp.session.Some? ==> SessionLeaves(s.sha, recs, cp.session.value.id, sessionLeaves))
       && (n > 0 ==> recs[0].recordHash == cp.ledgerId)
       && (n == cp.records > 0 ==> Tip(recs) == cp.tipHash)
  }

  lemma KeepsOne(s: Suite, cp: Checkpoint, items: seq<Item>, i: nat, leaves: seq<Digest>, sessionLeaves: seq<Digest>)
    requires i < cp.records && i < |items| && Keeps(s, cp, items, i, leaves, sessionLeaves)
    requires items[i].Ok? && IsHex64(items[i].value.recordHash)
    requires i == 0 ==> items[i].value.recordHash == cp.ledgerId
    ensures var rec := items[i].value;
            var leaf := Leaf(s.sha, rec.recordHash);
            var sl := if cp.session.Some? && rec.sessionId == cp.session.value.id then sessionLeaves + [leaf]
              else sessionLeaves;
            (i == cp.records - 1 ==> rec.recordHash == cp.tipHash) ==> Keeps(s, cp, items, i + 1, leaves + [leaf], sl)
  {
    var rec, recs := items[i].value, Records(items[..i]);
    assert items[..i + 1] == items[..i] + [items[i]];
    assert Records(items[..i + 1]) == recs + [rec];
    LeavesAppend(s.sha, recs, rec);
    if cp.session.Some? {
      SessionLeavesAppend(s.sha, recs, rec, cp.session.value.id, sessionLeaves);
    }
  }

  lemma UncoveredAt(s: Suite, cp: Checkpoint, items: seq<Item>, i: nat)
    requires i < cp.records && i < |items| && Readable(items[..i])
    requires items[i].Err? || !Links(s, items[i].value, i, Tip(Records(items[..i])))
    ensures !Covers(s, cp, items)
  {
    if Covers(s, cp, items) {
      IntactItem(s, items, i, cp.records);
    }
  }

  lemma CoveredPrefix(s: Suite, items: seq<Item>, n: nat, i: nat)
    requires n <= i <= |items| && Readable(items[..i]) && Intact(s, Records(items[..i]))
    ensures Readable(items[..n]) && Intact(s, Records(items[..n]))
  {
    assert items[..n] == items[..i][..n];
    assert Records(items[..n]) == Records(items[..i])[..n];
    IntactPrefix(s, Records(items[..i]), n);
  }

  // ------------------------------------------------------------------
  // What a checkpoint is worth

  /**
   A checkpoint pins its prefix: a ledger it still covers starts with exactly
   the records it was built from, unless the pair named here is a collision.
   */
  lemma PinsPrefix(s: Suite, recs: seq<Record>, session: Option<string>, now: string, signer: string, items: seq<Item>)
    requires Faithful(s) && Intact(s, recs) && recs != [] && Hashed(recs)
    requires Covers(s, CheckpointOf(s.sha, recs, session, now, signer), items)
    ensures var found := Records(items[..|recs|]);
            found == recs || Collides(s.sha, ChainCollision(s, found, recs))
  {
    Rigid(s, Records(items[..|recs|]), recs);
  }

  /**
   A checkpoint survives growth: whatever is appended behind the records it was
   built from, well formed or not, it is valid and still covers them.
   */
  lemma SurvivesGrowth(s: Suite, recs: seq<Record>, session: Option<string>, now: string, signer: string,
                       more: seq<Item>)
    requires Intact(s, recs) && recs != [] && Hashed(recs)
    requires session.Some? ==> Scoped(recs, session.value) != []
    requires IsRfc3339Seconds(now) && IsSigner(signer)
    ensures var cp := CheckpointOf(s.sha, recs, session, now, signer);
            && Covers(s, cp, Wrap(recs) + more)
            && (Valid(cp) <==> session != Some(""))
  {
    var items := Wrap(recs) + more;
    assert items[..|recs|] == Wrap(recs);
    assert Records(Wrap(recs)) == recs;
    if session.Some? {
      ScopedHashed(recs, session.value);
    }
  }

  /** Behind an intact extension `appended_after` counts the appended records and nothing is broken. */
  lemma CountsAppended(s: Suite, recs: seq<Record>, more: seq<Record>, cp: Checkpoint, status: CheckpointStatus)
    requires Intact(s, recs + more) && cp.records == |recs|
    requires DescribesLedger(s, cp, Wrap(recs + more), status)
    ensures status.appendedAfter == |more| && status.brokenAfter == None
  {
    IntactIffLongest(s, recs + more);
    LongestIntactUnique(s, Wrap(recs + more), |recs + more|, cp.records + status.appendedAfter);
  }

  /** Damage behind the tip is reported at its first position. */
  lemma ReportsDamage(s: Suite, recs: seq<Record>, more: seq<Record>, bad: Item, rest: seq<Item>, cp: Checkpoint,
                      status: CheckpointStatus)
    requires Intact(s, recs + more) && cp.records == |recs|
    requires bad.Ok? ==> !Links(s, bad.value, |recs + more|, Tip(recs + more))
    requires DescribesLedger(s, cp, Wrap(recs + more) + [bad] + rest, status)
    ensures status.appendedAfter == |more| && status.brokenAfter == Some(|recs| + |more|)
  {
    var good, items := recs + more, Wrap(recs + more) + [bad] + rest;
    assert items[..|good|] == Wrap(good);
    assert Records(Wrap(good)) == good;
    LongestIntactUnique(s, items, |good|, cp.records + status.appendedAfter);
  }
}
