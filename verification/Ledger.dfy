/**
 The hash-chained ledger: records, the chain invariant, `verify_chain` and the
 position-tracking `verify_records` that every store shares.
 */
module Ledger {
  import opened Bytes
  import opened Text

  datatype Kind = Decision | Execution

  datatype ApproverKind = Tui | OutOfBand | Rbac
  datatype Approver = Approver(kind: ApproverKind, id: string)

  datatype Verdict =
    | Allow(allowRule: Option<string>)
    | Deny(denyRule: string, reason: string, denyAt: Option<string>)
    | Ask(askRule: string, diff: string, timeoutMs: Option<nat>, irreversible: bool, askAt: Option<string>)
    | Redact(redactRule: string, patterns: seq<string>)
  {
    function RuleId(): Option<string> {
      match this
      case Allow(r) => r
      case Deny(r, _, _) => Some(r)
      case Ask(r, _, _, _, _) => Some(r)
      case Redact(r, _) => Some(r)
    }
  }

  /** An intercepted call; `args` stands for the JSON arguments. */
  datatype ToolCall = ToolCall(callId: string, sessionId: string, tool: string, agent: string, args: string)

  /** One ledger entry. `recordedAt` is the RFC 3339 text that is stored and hashed. */
  datatype Record = Record(
    schemaVersion: nat,
    kind: Kind,
    index: nat,
    callId: string,
    sessionId: string,
    call: Option<ToolCall>,
    verdict: Option<Verdict>,
    ruleId: Option<string>,
    approver: Option<Approver>,
    decisionIndex: Option<nat>,
    backend: Option<string>,
    exitStatus: Option<int>,
    inputHash: string,
    outputHash: Option<string>,
    recordedAt: string,
    prevHash: string,
    recordHash: string)

  const GENESIS := "0000000000000000000000000000000000000000000000000000000000000000"

  /** The hash function and the canonical JSON of a record. */
  datatype Suite = Suite(sha: HashFn, payload: Record -> Bytes)

  /** The canonical JSON says everything about the record. */
  ghost predicate Faithful(s: Suite) {
    forall r, r' :: s.payload(r) == s.payload(r') ==> r == r'
  }

  /** Everything except `record_hash`, serialized. */
  function HashInput(s: Suite, r: Record): Bytes {
    s.payload(r.(recordHash := ""))
  }

  function ComputeHash(s: Suite, r: Record): (h: string)
    ensures IsHex64(h)
  {
    HexEncode(s.sha(HashInput(s, r)))
  }

  function Tip(recs: seq<Record>): string {
    if recs == [] then GENESIS else recs[|recs| - 1].recordHash
  }

  /** `r` is a valid record number `index` on top of a chain whose tip hash is `prev`. */
  predicate Links(s: Suite, r: Record, index: nat, prev: string) {
    r.index == index && r.prevHash == prev && ComputeHash(s, r) == r.recordHash
  }

  ghost predicate LinkedAt(s: Suite, recs: seq<Record>, i: nat)
    requires i < |recs|
  {
    Links(s, recs[i], i, Tip(recs[..i]))
  }

  ghost predicate Intact(s: Suite, recs: seq<Record>) {
    forall i {:trigger LinkedAt(s, recs, i)} :: 0 <= i < |recs| ==> LinkedAt(s, recs, i)
  }

  lemma IntactPrefix(s: Suite, recs: seq<Record>, n: nat)
    requires Intact(s, recs) && n <= |recs|
    ensures Intact(s, recs[..n])
  {
    forall i | 0 <= i < n ensures LinkedAt(s, recs[..n], i) {
      assert recs[..n][..i] == recs[..i];
      assert LinkedAt(s, recs, i);
    }
  }

  lemma IntactAppend(s: Suite, recs: seq<Record>, r: Record)
    requires Intact(s, recs)
    ensures Intact(s, recs + [r]) <==> Links(s, r, |recs|, Tip(recs))
  {
    var all := recs + [r];
    assert all[..|recs|] == recs;
    forall i | 0 <= i < |recs| ensures LinkedAt(s, all, i) {
      assert all[..i] == recs[..i];
      assert LinkedAt(s, recs, i);
    }
    assert LinkedAt(s, all, |recs|) <==> Links(s, r, |recs|, Tip(recs));
  }

  // ------------------------------------------------------------------
  // Verification

  /** One element of a store's record stream. */
  type Item = Result<Record, string>

  datatype VerifyReport = VerifyReport(records: nat, intact: bool, brokenAt: Option<nat>)

  ghost predicate Readable(items: seq<Item>) {
    forall i :: 0 <= i < |items| ==> items[i].Ok?
  }

  function Records(items: seq<Item>): (recs: seq<Record>)
    requires forall i :: 0 <= i < |items| ==> items[i].Ok?
  {
    seq(|items|, i requires 0 <= i < |items| => items[i].value)
  }

  /** Exactly the first `n` items are readable and chained: item `n`, if any, is not. */
  ghost predicate LongestIntact(s: Suite, items: seq<Item>, n: nat) {
    && n <= |items|
    && Readable(items[..n])
    && Intact(s, Records(items[..n]))
    && (n < |items| && items[n].Ok? ==> !Links(s, items[n].value, n, Tip(Records(items[..n]))))
  }

  lemma LongestIntactUnique(s: Suite, items: seq<Item>, n: nat, m: nat)
    requires LongestIntact(s, items, n) && LongestIntact(s, items, m)
    ensures n == m
  {
    if n < m {
      IntactItem(s, items, n, m);
    } else if m < n {
      IntactItem(s, items, m, n);
    }
  }

  /** Inside an intact prefix every item is readable and linked. */
  lemma IntactItem(s: Suite, items: seq<Item>, n: nat, m: nat)
    requires n < m <= |items| && Readable(items[..m]) && Intact(s, Records(items[..m]))
    ensures items[n].Ok? && Readable(items[..n])
    ensures Links(s, items[n].value, n, Tip(Records(items[..n])))
  {
    var recs := Records(items[..m]);
    assert forall i :: 0 <= i < m ==> items[..m][i] == items[i];
    assert recs[..n] == Records(items[..n]);
    assert LinkedAt(s, recs, n);
  }

  lemma ExtendIntact(s: Suite, items: seq<Item>, n: nat)
    requires n < |items| && items[n].Ok? && Readable(items[..n]) && Intact(s, Records(items[..n]))
    ensures Readable(items[..n + 1]) && Records(items[..n + 1]) == Records(items[..n]) + [items[n].value]
    ensures Links(s, items[n].value, n, Tip(Records(items[..n]))) ==> Intact(s, Records(items[..n + 1]))
  {
    assert items[..n + 1] == items[..n] + [items[n]];
    IntactAppend(s, Records(items[..n]), items[n].value);
  }

  /**
   `verify_chain`: the length of the longest intact prefix, whole or not; a
   break is reported under the failing record's own index field.
   */
  method VerifyChain(s: Suite, items: seq<Item>) returns (res: Result<VerifyReport, string>)
    ensures exists n: nat :: LongestIntact(s, items, n) && res == ChainResult(items, n)
  {
    var prev, count := GENESIS, 0;
    while count < |items|
      invariant count <= |items|
      invariant Readable(items[..count]) && Intact(s, Records(items[..count]))
      invariant prev == Tip(Records(items[..count]))
    {
      if items[count].Err? {
        assert LongestIntact(s, items, count);
        return Err(items[count].error);
      }
      var rec := items[count].value;
      ExtendIntact(s, items, count);
      var ok := rec.index == count && rec.prevHash == prev && ComputeHash(s, rec) == rec.recordHash;
      if !ok {
        assert LongestIntact(s, items, count);
        return Ok(VerifyReport(count, false, Some(rec.index)));
      }
      prev := rec.recordHash;
      count := count + 1;
    }
    assert LongestIntact(s, items, count);
    return Ok(VerifyReport(count, true, None));
  }

  /** A read error stops the verifier; anything else is reported. */
  function ChainResult(items: seq<Item>, n: nat): Result<VerifyReport, string>
    requires n <= |items|
  {
    if n < |items| && items[n].Err? then Err(items[n].error) else Ok(Report(items, n))
  }

  /** What is reported for a stream whose longest intact prefix has `n` records. */
  function Report(items: seq<Item>, n: nat): VerifyReport
    requires n <= |items|
  {
    if n == |items| then VerifyReport(n, true, None)
    else VerifyReport(n, false, Some(if items[n].Ok? then items[n].value.index else n))
  }

  /**
   `verify_records`: the same, with an unreadable record reported as a break at
   its position. It never fails, and `records` is always the longest intact prefix.
   */
  method VerifyRecords(s: Suite, items: seq<Item>) returns (res: Result<VerifyReport, string>)
    ensures res.Ok? && LongestIntact(s, items, res.value.records)
    ensures res.value == Report(items, res.value.records)
  {
    // Ordinal of the first unreadable item: readable ones are counted before it.
    var parseFailure: Option<nat>, ordinal := None, 0;
    while ordinal < |items| && items[ordinal].Ok?
      invariant ordinal <= |items|
      invariant forall i :: 0 <= i < ordinal ==> items[i].Ok?
    {
      ordinal := ordinal + 1;
    }
    if ordinal < |items| { parseFailure := Some(ordinal); }
    var report := VerifyChain(s, items);
    ghost var n: nat :| LongestIntact(s, items, n) && report == ChainResult(items, n);
    if report.Ok? { return report; }
    assert forall i :: 0 <= i < n ==> items[i] == items[..n][i];
    match parseFailure
    case Some(i) => return Ok(VerifyReport(i, false, Some(i)));
    case None => return report;
  }

  /** Intactness has one meaning: the verifier's answer and the chain invariant agree. */
  lemma IntactIffLongest(s: Suite, recs: seq<Record>)
    ensures Intact(s, recs) <==> LongestIntact(s, Wrap(recs), |recs|)
  {
    assert Wrap(recs)[..|recs|] == Wrap(recs);
    assert Records(Wrap(recs)) == recs;
  }

  function Wrap(recs: seq<Record>): (items: seq<Item>)
    ensures |items| == |recs| && forall i :: 0 <= i < |recs| ==> items[i] == Ok(recs[i])
  {
    seq(|recs|, i requires 0 <= i < |recs| => Ok(recs[i]))
  }

  // ------------------------------------------------------------------
  // Rigidity

  /** The hash inputs of the last records at which two chains differ. */
  function ChainCollision(s: Suite, a: seq<Record>, b: seq<Record>): Pair
    requires |a| == |b|
  {
    if a == [] then NO_PAIR
    else
      var x, y := a[|a| - 1], b[|b| - 1];
      if x == y then ChainCollision(s, a[..|a| - 1], b[..|b| - 1])
      else Pair(HashInput(s, x), HashInput(s, y))
  }

  /** Two records that carry the same, correct, hash are equal or collide. */
  lemma SameHash(s: Suite, x: Record, y: Record)
    requires Faithful(s) && x.recordHash == y.recordHash
    requires ComputeHash(s, x) == x.recordHash && ComputeHash(s, y) == y.recordHash
    ensures x == y || Collides(s.sha, Pair(HashInput(s, x), HashInput(s, y)))
  {
    HexInjective(s.sha(HashInput(s, x)), s.sha(HashInput(s, y)));
    if HashInput(s, x) == HashInput(s, y) {
      assert x.(recordHash := "") == y.(recordHash := "");
      assert x == x.(recordHash := "").(recordHash := x.recordHash);
    }
  }

  /** A tip hash fixes the whole chain below it. */
  lemma {:induction false} Rigid(s: Suite, a: seq<Record>, b: seq<Record>)
    requires Faithful(s) && Intact(s, a) && Intact(s, b)
    requires |a| == |b| && Tip(a) == Tip(b)
    ensures a == b || Collides(s.sha, ChainCollision(s, a, b))
  {
    if a == [] {
    } else {
      var a', b', x, y := a[..|a| - 1], b[..|b| - 1], a[|a| - 1], b[|b| - 1];
      TipLinks(s, a);
      TipLinks(s, b);
      if x == y {
        Rigid(s, a', b');
        assert a == a' + [x] && b == b' + [y];
      } else {
        SameHash(s, x, y);
      }
    }
  }

  lemma TipLinks(s: Suite, a: seq<Record>)
    requires Intact(s, a) && a != []
    ensures Intact(s, a[..|a| - 1])
    ensures Links(s, a[|a| - 1], |a| - 1, Tip(a[..|a| - 1]))
  {
    IntactPrefix(s, a, |a| - 1);
    assert LinkedAt(s, a, |a| - 1);
  }

  /**
   `broken_at` is the failing record's own index field, which need not be its
   position: here position 0 is reported as 7.
   */
  lemma BrokenAtCanMislead(s: Suite, r: Record)
    requires r.index == 7
    ensures var items: seq<Item> := [Ok(r)];
            LongestIntact(s, items, 0) && Report(items, 0) == VerifyReport(0, false, Some(7))
  {
    var items: seq<Item> := [Ok(r)];
    assert items[..0] == [];
  }

  /**
   Behind an intact chain, whatever follows: the first damaged item is found
   at its position, which is what is reported exactly when the item is
   unreadable or its index field is right.
   */
  lemma BrokenAtIsPosition(s: Suite, recs: seq<Record>, bad: Item, rest: seq<Item>, n: nat)
    requires Intact(s, recs) && (bad.Ok? ==> !Links(s, bad.value, |recs|, Tip(recs)))
    requires LongestIntact(s, Wrap(recs) + [bad] + rest, n)
    ensures n == |recs|
    ensures Report(Wrap(recs) + [bad] + rest, n).brokenAt == Some(|recs|) <==>
            (bad.Ok? ==> bad.value.index == |recs|)
  {
    var items := Wrap(recs) + [bad] + rest;
    assert items[..|recs|] == Wrap(recs);
    assert Records(Wrap(recs)) == recs;
    LongestIntactUnique(s, items, |recs|, n);
  }

}
