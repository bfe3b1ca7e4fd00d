/**
 The hook gateway: decide, resolve and complete requests whose only durable
 state is the ledger. Requests are handled one at a time; what a request finds
 is what earlier requests, of this or any other gateway process, left there.
 */
module Gateway {
  import opened Bytes
  import opened Text
  import opened Ledger
  import opened Refs
  import opened FileHandle

  datatype AskMode = DenyMode | DeferMode | UiMode

  /** The policy engine, the ask mode and how records are hashed. */
  datatype Config = Config(
    suite: Suite,
    engine: ToolCall -> Verdict,
    mode: AskMode,
    backend: string,
    callJson: ToolCall -> Bytes)

  /**
   Requests, with what they read from outside the ledger: `now` is the clock,
   `elapsed` the milliseconds since the decision, `console` the answer of the
   `writ ui` console. Texts are trimmed, an absent output is empty.
   */
  datatype Request =
    | Decide(call: ToolCall, console: Option<Approver>, now: string)
    | Resolve(ref: string, approved: Option<bool>, approver: Option<string>, elapsed: int)
    | Complete(ref: string, ok: Option<bool>, exit: Option<int>, output: Bytes, now: string)
    | PostTool(session: string, toolUse: string, console: Option<Approver>, status: int, output: Bytes, now: string)

  /** The ref of an answer goes over the wire as `MakeRef` writes it. */
  datatype Response = Refused(code: string) | Answer(dispatch: bool, ref: Ref) | Recorded

  // ------------------------------------------------------------------
  // Records

  function FailClosedApprover(v: Verdict): Approver
    requires v.Ask?
  {
    Approver(OutOfBand, "fail-closed(timeout="
             + (if v.timeoutMs.None? then "None" else "Some(" + Decimal(v.timeoutMs.value) + ")") + ")")
  }

  /** `LedgerWriter::finalize`: the record with its place in the chain and its own hash. */
  function Sealed(s: Suite, draft: Record, index: nat, prev: string): Record {
    var r := draft.(index := index, prevHash := prev);
    r.(recordHash := ComputeHash(s, r))
  }

  lemma SealedLinks(s: Suite, draft: Record, recs: seq<Record>)
    ensures Links(s, Sealed(s, draft, |recs|, Tip(recs)), |recs|, Tip(recs))
  {
    var r := draft.(index := |recs|, prevHash := Tip(recs));
    assert Sealed(s, draft, |recs|, Tip(recs)).(recordHash := "") == r.(recordHash := "");
  }

  function DecisionDraft(g: Config, call: ToolCall, v: Verdict, now: string): Record {
    Record(1, Decision, 0, call.callId, call.sessionId, Some(call), Some(v), v.RuleId(),
      if v.Ask? && g.mode.DenyMode? then Some(FailClosedApprover(v)) else None,
      None, None, None, HexEncode(g.suite.sha(g.callJson(call))), None, now, "", "")
  }

  function ExecutionDraft(g: Config, d: Record, approver: Option<Approver>, exit: int, output: Bytes,
                          now: string): Record {
    Record(1, Execution, 0, d.callId, d.sessionId, None, None, d.ruleId, approver,
      Some(d.index), Some(g.backend), Some(exit), d.inputHash, Some(HexEncode(g.suite.sha(output))), now, "", "")
  }

  function Appended(g: Config, recs: seq<Record>, draft: Record): seq<Record> {
    recs + [Sealed(g.suite, draft, |recs|, Tip(recs))]
  }

  // ------------------------------------------------------------------
  // Finding a decision

  datatype Query = ByIndex(i: nat) | ByCall(session: string, call: string)

  datatype Located = Located(record: Record, executed: bool)

  predicate Matches(q: Query, r: Record) {
    match q
    case ByIndex(i) => r.index == i
    case ByCall(session, call) => r.sessionId == session && r.callId == call
  }

  /** One record seen by the scan of `locate`. */
  function LocateStep(q: Query, found: Option<Located>, r: Record): Option<Located> {
    if r.kind.Decision? && Matches(q, r) then Some(Located(r, false))
    else if r.kind.Execution? && found.Some? && r.decisionIndex == Some(found.value.record.index) then
      Some(found.value.(executed := true))
    else found
  }

  function Locate(recs: seq<Record>, q: Query): Option<Located> {
    if recs == [] then None
    else LocateStep(q, Locate(recs[..|recs| - 1], q), recs[|recs| - 1])
  }

  /** The loop of `locate`. */
  method LocateScan(recs: seq<Record>, q: Query) returns (found: Option<Located>)
    ensures found == Locate(recs, q)
  {
    found := None;
    for i := 0 to |recs|
      invariant found == Locate(recs[..i], q)
    {
      assert recs[..i + 1][..i] == recs[..i];
      found := LocateStep(q, found, recs[i]);
    }
    assert recs[..|recs|] == recs;
  }

  /** `locate` over a store's stream: the first record that cannot be read ends it. */
  function LocateIn(items: seq<Item>, q: Query): Result<Option<Located>, string> {
    if items == [] then Ok(None)
    else
      var before, last := LocateIn(items[..|items| - 1], q), items[|items| - 1];
      if before.Err? then before
      else if last.Err? then Err(last.error)
      else Ok(LocateStep(q, before.value, last.value))
  }

  method LocateItems(items: seq<Item>, q: Query) returns (r: Result<Option<Located>, string>)
    ensures r == LocateIn(items, q)
  {
    var found: Option<Located> := None;
    for i := 0 to |items|
      invariant LocateIn(items[..i], q) == Ok(found)
    {
      assert items[..i + 1][..i] == items[..i];
      if items[i].Err? {
        ErrorStays(items, q, i + 1);
        return Err(items[i].error);
      }
      found := LocateStep(q, found, items[i].value);
    }
    TakeAll(items);
    return Ok(found);
  }

  lemma {:induction false} ErrorStays(items: seq<Item>, q: Query, n: nat)
    requires n <= |items| && LocateIn(items[..n], q).Err?
    ensures LocateIn(items, q) == LocateIn(items[..n], q)
    decreases |items| - n
  {
    if n == |items| {
      TakeAll(items);
    } else {
      assert items[..n + 1][..n] == items[..n];
      ErrorStays(items, q, n + 1);
    }
  }

  /** On a stream without errors it is the scan of the records. */
  lemma {:induction false} LocateWrapped(recs: seq<Record>, q: Query)
    ensures LocateIn(Wrap(recs), q) == Ok(Locate(recs, q))
    decreases |recs|
  {
    if recs == [] {
    } else {
      var n := |recs| - 1;
      LocateWrapped(recs[..n], q);
      assert Wrap(recs)[..n] == Wrap(recs[..n]);
    }
  }

  function LocateRef(recs: seq<Record>, r: Ref): Option<Located> {
    var found := Locate(recs, ByIndex(r.index));
    if found.Some? && found.value.record.recordHash == r.hash then found else None
  }

  // ------------------------------------------------------------------
  // Requests

  function RefFor(d: Record, approver: Option<Approver>): Ref {
    Ref(d.index, d.recordHash, approver)
  }

  function OpDecide(g: Config, recs: seq<Record>, call: ToolCall, console: Option<Approver>,
                    now: string): (seq<Record>, Response) {
    var v := g.engine(call);
    var recs' := Appended(g, recs, DecisionDraft(g, call, v, now));
    var d := recs'[|recs|];
    if v.Ask? then
      if g.mode.UiMode? && console.Some? then (recs', Answer(true, RefFor(d, console)))
      else (recs', Answer(false, RefFor(d, None)))
    else (recs', Answer(!v.Deny?, RefFor(d, None)))
  }

  const UNATTRIBUTED := Approver(OutOfBand, "unattributed")

  function ParseApprover(s: string): (a: Approver)
    requires s != ""
    ensures a.id != ""
  {
    if "human:" < s then Approver(Tui, s[6..])
    else if "rbac:" < s then Approver(Rbac, s[5..])
    else Approver(OutOfBand, s)
  }

  /** The answer to an ask that the ref names. */
  function Settle(d: Record, executed: bool, approved: bool, approver: Option<string>, elapsed: int): Response
    requires approver != Some("")
  {
    if d.verdict.None? || !d.verdict.value.Ask? || d.approver.Some? || executed then Refused("bad_state")
    else if d.verdict.value.timeoutMs.Some? && elapsed > d.verdict.value.timeoutMs.value
      then Answer(false, RefFor(d, None))
    else if approved then Answer(true, RefFor(d, Some(Approving(approver))))
    else Answer(false, RefFor(d, None))
  }

  function Approving(approver: Option<string>): Approver
    requires approver != Some("")
  {
    if approver.Some? then ParseApprover(approver.value) else UNATTRIBUTED
  }

  function OpResolve(g: Config, recs: seq<Record>, r: Option<Ref>, approved: Option<bool>, approver: Option<string>,
                     elapsed: int): Response {
    if r.None? then Refused("bad_ref")
    else if g.mode.UiMode? || r.value.approver.Some? then Refused("bad_state")
    else if approved.None? || approver == Some("") then Refused("bad_request")
    else
      var found := LocateRef(recs, r.value);
      if found.None? then Refused("bad_ref")
      else Settle(found.value.record, found.value.executed, approved.value, approver, elapsed)
  }

  /** May this decision be completed with this approver evidence? */
  predicate Completable(d: Record, approver: Option<Approver>) {
    && d.verdict.Some?
    && match d.verdict.value
       case Allow(_) => approver.None?
       case Redact(_, _) => approver.None?
       case Ask(_, _, _, _, _) => approver.Some? && d.approver.None?
       case Deny(_, _, _) => false
  }

  function ExitStatus(ok: Option<bool>, exit: Option<int>): Option<int> {
    if exit.Some? then (if -0x8000_0000 <= exit.value < 0x8000_0000 then exit else None)
    else if ok.Some? then Some(if ok.value then 0 else 1)
    else None
  }

  /** Only an ask or a denial is a matter of state; any other mismatch is a ref nobody handed out. */
  function NotCompletable(d: Record): Response {
    if d.verdict.Some? && (d.verdict.value.Ask? || d.verdict.value.Deny?) then Refused("bad_state")
      else Refused("bad_ref")
  }

  function OpComplete(g: Config, recs: seq<Record>, r: Option<Ref>, ok: Option<bool>, exit: Option<int>,
                      output: Bytes, now: string)
    : (seq<Record>, Response)
  {
    var status := ExitStatus(ok, exit);
    if r.None? then (recs, Refused("bad_ref"))
    else if status.None? then (recs, Refused("bad_request"))
    else
      var found := LocateRef(recs, r.value);
      if found.None? then (recs, Refused("bad_ref"))
      else if found.value.executed then (recs, Refused("bad_state"))
      else if !Completable(found.value.record, r.value.approver) then (recs, NotCompletable(found.value.record))
      else (Appended(g, recs, ExecutionDraft(g, found.value.record, r.value.approver, status.value, output, now)),
            Recorded)
  }

  const PROMPT_APPROVER := Approver(Tui, "claude-code-prompt")

  /** The approver `PostToolUse` records; `None` when the tool ran without leave. */
  function PostApprover(g: Config, d: Record, console: Option<Approver>): Option<Option<Approver>> {
    if d.verdict.None? then None
    else match d.verdict.value
      case Allow(_) => Some(None)
      case Redact(_, _) => Some(None)
      case Ask(_, _, _, _, _) =>
        if d.approver.Some? then None
        else if g.mode.UiMode? then (if console.None? then None else Some(console))
        else Some(Some(PROMPT_APPROVER))
      case Deny(_, _, _) => None
  }

  function OpPostTool(g: Config, recs: seq<Record>, session: string, toolUse: string, console: Option<Approver>,
                      exit: int, output: Bytes, now: string): (seq<Record>, Response) {
    if session == "" || toolUse == "" then (recs, Refused("cannot correlate"))
    else
      var found := Locate(recs, ByCall(session, toolUse));
      if found.None? then (recs, Refused("no decision"))
      else
        var approver := PostApprover(g, found.value.record, console);
        if approver.None? || found.value.executed then (recs, Refused("bad_state"))
        else (Appended(g, recs, ExecutionDraft(g, found.value.record, approver.value, exit, output, now)), Recorded)
  }

  function Handle(g: Config, recs: seq<Record>, q: Request): (seq<Record>, Response) {
    match q
    case Decide(call, console, now) => OpDecide(g, recs, call, console, now)
    case Resolve(ref, approved, approver, elapsed) =>
      (recs, OpResolve(g, recs, ParseRef(ref), approved, approver, elapsed))
    case Complete(ref, ok, exit, output, now) => OpComplete(g, recs, ParseRef(ref), ok, exit, output, now)
    case PostTool(session, toolUse, console, exit, output, now) =>
      OpPostTool(g, recs, session, toolUse, console, exit, output, now)
  }

  // ------------------------------------------------------------------
  // The audit invariant

  /**
   An Execution links back to an earlier Decision that was not a denial, for
   the same call, session, rule and input, and names an approver exactly when
   that Decision was an ask nobody had answered.
   */
  ghost predicate LinksBack(recs: seq<Record>, e: nat)
    requires e < |recs|
  {
    && recs[e].decisionIndex.Some? && recs[e].decisionIndex.value < e
    && var x, d := recs[e], recs[recs[e].decisionIndex.value];
       && d.kind.Decision? && d.verdict.Some? && !d.verdict.value.Deny?
       && x.callId == d.callId && x.sessionId == d.sessionId && x.ruleId == d.ruleId && x.inputHash == d.inputHash
       && (x.approver.Some? <==> d.verdict.value.Ask?)
       && (d.verdict.value.Ask? ==> d.approver.None?)
  }

  /** An Execution names a Decision below its own position, if any. */
  ghost predicate PointsBack(recs: seq<Record>, e: nat)
    requires e < |recs|
  {
    recs[e].kind.Execution? && recs[e].decisionIndex.Some? ==> recs[e].decisionIndex.value < e
  }

  /**
   All that is asked of a ledger: intact, and no Execution before what it
   executes. Other programs append to it too, and pair Decisions and Executions
   in their own ways: `writ run` answers an ask before recording it.
   */
  ghost predicate Ordered(s: Suite, recs: seq<Record>) {
    && Intact(s, recs)
    && forall e {:trigger PointsBack(recs, e)} :: 0 <= e < |recs| ==> PointsBack(recs, e)
  }

  /** If the record is an Execution, it links back and no earlier one names its Decision. */
  ghost predicate WellExecuted(recs: seq<Record>, e: nat)
    requires e < |recs|
  {
    recs[e].kind.Execution? ==>
      && LinksBack(recs, e)
      && forall x :: 0 <= x < e && recs[x].kind.Execution? ==> recs[x].decisionIndex != recs[e].decisionIndex
  }

  /** The gateways' own records, at the positions `own`, are well executed, whoever wrote the others. */
  ghost predicate Audited(s: Suite, recs: seq<Record>, own: set<nat>) {
    && Ordered(s, recs)
    && forall e {:trigger e in own} :: e in own ==> e < |recs| && WellExecuted(recs, e)
  }

  /** Some Execution links the Decision at index `i`. */
  ghost predicate Executed(recs: seq<Record>, i: nat) {
    exists e :: 0 <= e < |recs| && recs[e].kind.Execution? && recs[e].decisionIndex == Some(i)
  }

  lemma OrderedPrefix(s: Suite, recs: seq<Record>)
    requires Ordered(s, recs) && recs != []
    ensures Ordered(s, recs[..|recs| - 1])
  {
    var init := recs[..|recs| - 1];
    IntactPrefix(s, recs, |recs| - 1);
    forall e | 0 <= e < |init| ensures PointsBack(init, e) {
      assert PointsBack(recs, e);
    }
  }

  lemma OrderedAppend(s: Suite, recs: seq<Record>, r: Record)
    requires Ordered(s, recs) && Links(s, r, |recs|, Tip(recs))
    requires r.kind.Execution? && r.decisionIndex.Some? ==> r.decisionIndex.value < |recs|
    ensures Ordered(s, recs + [r])
  {
    IntactAppend(s, recs, r);
    forall e | 0 <= e < |recs| + 1 ensures PointsBack(recs + [r], e) {
      if e < |recs| {
        assert PointsBack(recs, e);
      }
    }
  }

  lemma WellExecutedStays(recs: seq<Record>, recs': seq<Record>, e: nat)
    requires recs <= recs' && e < |recs| && WellExecuted(recs, e)
    ensures WellExecuted(recs', e)
  {
    assert forall x :: 0 <= x <= e ==> recs'[x] == recs[x];
    if recs[e].kind.Execution? {
      assert LinksBack(recs, e);
      assert recs'[recs[e].decisionIndex.value] == recs[recs[e].decisionIndex.value];
    }
  }

  /** Whatever is appended behind them, by whomever, the gateways' own records stay well executed. */
  lemma AuditedGrows(s: Suite, recs: seq<Record>, recs': seq<Record>, own: set<nat>)
    requires Audited(s, recs, own) && recs <= recs' && Ordered(s, recs')
    ensures Audited(s, recs', own)
  {
    forall e | e in own ensures e < |recs'| && WellExecuted(recs', e) {
      WellExecutedStays(recs, recs', e);
    }
  }

  /** What was found is a matching Decision of the ledger, marked executed exactly when an Execution links it. */
  ghost predicate Finds(recs: seq<Record>, q: Query, found: Option<Located>) {
    found.Some? ==>
      && var d := found.value.record;
         d.index < |recs| && recs[d.index] == d && d.kind.Decision? && Matches(q, d)
         && (found.value.executed <==> Executed(recs, d.index))
  }

  lemma {:induction false} LocateFinds(s: Suite, recs: seq<Record>, q: Query)
    requires Ordered(s, recs)
    ensures Finds(recs, q, Locate(recs, q))
  {
    if recs == [] {
    } else {
      var n := |recs| - 1;
      OrderedPrefix(s, recs);
      LocateFinds(s, recs[..n], q);
      StepFinds(s, recs[..n], recs[n], recs, q, Locate(recs[..n], q));
    }
  }

  lemma StepFinds(s: Suite, init: seq<Record>, last: Record, recs: seq<Record>, q: Query, found: Option<Located>)
    requires Ordered(s, recs) && recs == init + [last] && Finds(init, q, found)
    ensures Finds(recs, q, LocateStep(q, found, last))
  {
    var n := |init|;
    assert LinkedAt(s, recs, n);
    ExecutedAppend(init, last, recs);
    if last.kind.Decision? && Matches(q, last) {
      NotYetExecuted(s, recs, n);
    }
  }

  lemma ExecutedAppend(init: seq<Record>, last: Record, recs: seq<Record>)
    requires recs == init + [last]
    ensures forall i: nat :: Executed(recs, i) <==> Executed(init, i) || Executes(last, i)
  {
    forall i: nat ensures Executed(recs, i) <==> Executed(init, i) || Executes(last, i) {
      if Executed(init, i) {
        var e :| 0 <= e < |init| && init[e].kind.Execution? && init[e].decisionIndex == Some(i);
        assert recs[e] == init[e];
      }
      if Executes(last, i) {
        assert recs[|init|] == last;
      }
    }
  }

  predicate Executes(r: Record, i: nat) {
    r.kind.Execution? && r.decisionIndex == Some(i)
  }

  lemma NotYetExecuted(s: Suite, recs: seq<Record>, n: nat)
    requires Ordered(s, recs) && n == |recs| - 1
    ensures !Executed(recs, n)
  {
    forall e | 0 <= e < |recs| && recs[e].kind.Execution? ensures recs[e].decisionIndex != Some(n) {
      assert PointsBack(recs, e);
    }
  }

  // ------------------------------------------------------------------
  // Every request keeps the invariant

  /** The gateways' own positions once a request has turned `recs` into `recs'`. */
  function Owning(own: set<nat>, recs: seq<Record>, recs': seq<Record>): set<nat> {
    if |recs'| > |recs| then own + {|recs|} else own
  }

  lemma OwnsOneMore(s: Suite, recs: seq<Record>, r: Record, own: set<nat>)
    requires Audited(s, recs, own) && Ordered(s, recs + [r]) && WellExecuted(recs + [r], |recs|)
    ensures Audited(s, recs + [r], own + {|recs|})
  {
    AuditedGrows(s, recs, recs + [r], own);
  }

  lemma KeepsDecision(g: Config, recs: seq<Record>, draft: Record)
    requires Ordered(g.suite, recs) && draft.kind.Decision?
    ensures Ordered(g.suite, Appended(g, recs, draft)) && WellExecuted(Appended(g, recs, draft), |recs|)
  {
    SealedLinks(g.suite, draft, recs);
    OrderedAppend(g.suite, recs, Sealed(g.suite, draft, |recs|, Tip(recs)));
  }

  lemma KeepsExecution(g: Config, recs: seq<Record>, d: Record, approver: Option<Approver>, draft: Record)
    requires Ordered(g.suite, recs)
    requires d.index < |recs| && recs[d.index] == d && d.kind.Decision? && Completable(d, approver)
    requires exists exit, output, now :: draft == ExecutionDraft(g, d, approver, exit, output, now)
    ensures Ordered(g.suite, Appended(g, recs, draft))
    ensures WellExecuted(Appended(g, recs, draft), |recs|) <==> !Executed(recs, d.index)
  {
    var recs', n := Appended(g, recs, draft), |recs|;
    SealedLinks(g.suite, draft, recs);
    OrderedAppend(g.suite, recs, recs'[n]);
    assert LinksBack(recs', n);
    assert forall x :: 0 <= x < n ==> recs'[x] == recs[x];
  }

  lemma PostIsCompletable(g: Config, d: Record, console: Option<Approver>)
    ensures PostApprover(g, d, console).Some? ==> Completable(d, PostApprover(g, d, console).value)
  {
  }

  /** The exit status that a report of `ok` and `exit` comes to: `exit` if there is one and it fits an i32. */
  ghost predicate StatusIs(ok: Option<bool>, exit: Option<int>, status: Option<int>) {
    if exit.Some? then status == exit && -0x8000_0000 <= exit.value <= 0x7FFF_FFFF
    else if ok == Some(true) then status == Some(0)
    else ok == Some(false) && status == Some(1)
  }

  /** The Decision a decide adds: the call, the engine's verdict, and an approver only where headless mode denies. */
  ghost predicate IsDecisionFor(g: Config, q: Request, r: Record)
    requires q.Decide?
  {
    var v := g.engine(q.call);
    && r.schemaVersion == 1 && r.kind.Decision? && r.call == Some(q.call) && r.verdict == Some(v)
    && r.callId == q.call.callId && r.sessionId == q.call.sessionId && r.recordedAt == q.now
    && r.ruleId == (match v case Allow(rule) => rule case Deny(rule, _, _) => Some(rule)
                            case Ask(rule, _, _, _, _) => Some(rule) case Redact(rule, _) => Some(rule))
    && r.inputHash == HexEncode(g.suite.sha(g.callJson(q.call)))
    && (r.approver.Some? <==> v.Ask? && g.mode.DenyMode?) && (r.approver.Some? ==> r.approver.value.kind.OutOfBand?)
    && r.decisionIndex.None? && r.backend.None? && r.exitStatus.None? && r.outputHash.None?
  }

  /** The Execution a completion adds: the outcome reported, and a Decision not executed before. */
  ghost predicate IsExecutionFor(g: Config, recs: seq<Record>, q: Request, r: Record)
    requires q.Complete? || q.PostTool?
  {
    && r.schemaVersion == 1 && r.kind.Execution? && r.call.None? && r.verdict.None?
    && r.backend == Some(g.backend) && r.recordedAt == q.now
    && r.outputHash == Some(HexEncode(g.suite.sha(q.output)))
    && r.decisionIndex.Some? && !Executed(recs, r.decisionIndex.value)
    && (q.Complete? ==>
          && StatusIs(q.ok, q.exit, r.exitStatus) && ParseRef(q.ref).Some?
          && r.decisionIndex.value == ParseRef(q.ref).value.index && r.approver == ParseRef(q.ref).value.approver)
    && (q.PostTool? ==> r.exitStatus == Some(q.status) && r.sessionId == q.session && r.callId == q.toolUse)
  }

  /** The records a request adds: a decide its Decision, a recorded completion its Execution, nothing else any. */
  ghost predicate AddsExactly(g: Config, recs: seq<Record>, q: Request, recs': seq<Record>, resp: Response) {
    if q.Decide? || resp.Recorded? then
      && recs < recs' && |recs'| == |recs| + 1
      && if q.Decide? then IsDecisionFor(g, q, recs'[|recs|])
         else (q.Complete? || q.PostTool?) && IsExecutionFor(g, recs, q, recs'[|recs|])
    else recs' == recs
  }

  lemma CompleteKeeps(g: Config, recs: seq<Record>, own: set<nat>, q: Request)
    requires Audited(g.suite, recs, own) && q.Complete?
    ensures var (recs', resp) := OpComplete(g, recs, ParseRef(q.ref), q.ok, q.exit, q.output, q.now);
            Audited(g.suite, recs', Owning(own, recs, recs')) && AddsExactly(g, recs, q, recs', resp)
  {
    var r, status := ParseRef(q.ref), ExitStatus(q.ok, q.exit);
    if r.Some? && status.Some? {
      LocateFinds(g.suite, recs, ByIndex(r.value.index));
      var found := LocateRef(recs, r.value);
      if found.Some? && !found.value.executed && Completable(found.value.record, r.value.approver) {
        var draft := ExecutionDraft(g, found.value.record, r.value.approver, status.value, q.output, q.now);
        KeepsExecution(g, recs, found.value.record, r.value.approver, draft);
        OwnsOneMore(g.suite, recs, Sealed(g.suite, draft, |recs|, Tip(recs)), own);
      }
    }
  }

  lemma PostKeeps(g: Config, recs: seq<Record>, own: set<nat>, q: Request)
    requires Audited(g.suite, recs, own) && q.PostTool?
    ensures var (recs', resp) := OpPostTool(g, recs, q.session, q.toolUse, q.console, q.status, q.output, q.now);
            Audited(g.suite, recs', Owning(own, recs, recs')) && AddsExactly(g, recs, q, recs', resp)
  {
    LocateFinds(g.suite, recs, ByCall(q.session, q.toolUse));
    var found := Locate(recs, ByCall(q.session, q.toolUse));
    if found.Some? {
      PostIsCompletable(g, found.value.record, q.console);
      var approver := PostApprover(g, found.value.record, q.console);
      if approver.Some? && !found.value.executed {
        var draft := ExecutionDraft(g, found.value.record, approver.value, q.status, q.output, q.now);
        KeepsExecution(g, recs, found.value.record, approver.value, draft);
        OwnsOneMore(g.suite, recs, Sealed(g.suite, draft, |recs|, Tip(recs)), own);
      }
    }
  }

  lemma DecideKeeps(g: Config, recs: seq<Record>, own: set<nat>, q: Request)
    requires Audited(g.suite, recs, own) && q.Decide?
    ensures var (recs', resp) := OpDecide(g, recs, q.call, q.console, q.now);
            Audited(g.suite, recs', Owning(own, recs, recs')) && AddsExactly(g, recs, q, recs', resp)
  {
    var draft := DecisionDraft(g, q.call, g.engine(q.call), q.now);
    KeepsDecision(g, recs, draft);
    OwnsOneMore(g.suite, recs, Sealed(g.suite, draft, |recs|, Tip(recs)), own);
  }

  /** Every request adds exactly its own record, or none, and keeps the audit of all the gateways wrote. */
  lemma HandleKeeps(g: Config, recs: seq<Record>, own: set<nat>, q: Request)
    requires Audited(g.suite, recs, own)
    ensures var (recs', resp) := Handle(g, recs, q);
            Audited(g.suite, recs', Owning(own, recs, recs')) && AddsExactly(g, recs, q, recs', resp)
  {
    match q
    case Decide(_, _, _) => DecideKeeps(g, recs, own, q);
    case Resolve(_, _, _, _) =>
    case Complete(_, _, _, _, _) => CompleteKeeps(g, recs, own, q);
    case PostTool(_, _, _, _, _, _) => PostKeeps(g, recs, own, q);
  }

  // ------------------------------------------------------------------
  // Whole histories

  /** A request handled by some gateway, or records some other program appends. */
  datatype Activity = Ours(g: Config, q: Request) | Others(more: seq<Record>)

  function Act(now: seq<Record>, own: set<nat>, act: Activity): (seq<Record>, set<nat>) {
    if act.Ours? then
      var recs' := Handle(act.g, now, act.q).0;
      (recs', Owning(own, now, recs'))
    else (now + act.more, own)
  }

  /** The ledger after a history that began with `recs`, and the positions the gateways wrote. */
  function Serve(recs: seq<Record>, acts: seq<Activity>): (seq<Record>, set<nat>) {
    if acts == [] then (recs, {})
    else
      var (now, own) := Serve(recs, acts[..|acts| - 1]);
      Act(now, own, acts[|acts| - 1])
  }

  /** Gateways hash as the ledger does, and what others append leaves the ledger in order. */
  ghost predicate Fits(s: Suite, now: seq<Record>, act: Activity) {
    if act.Ours? then act.g.suite == s else Ordered(s, now + act.more)
  }

  ghost predicate Plausible(s: Suite, recs: seq<Record>, acts: seq<Activity>) {
    acts != [] ==>
      && Plausible(s, recs, acts[..|acts| - 1])
      && Fits(s, Serve(recs, acts[..|acts| - 1]).0, acts[|acts| - 1])
  }

  function Decisions(recs: seq<Record>): nat {
    if recs == [] then 0 else Decisions(recs[..|recs| - 1]) + if recs[|recs| - 1].kind.Decision? then 1 else 0
  }

  /** A decide brings one Decision, another program the ones it appends. */
  function DecisionsOf(act: Activity): nat {
    if act.Others? then Decisions(act.more) else if act.q.Decide? then 1 else 0
  }

  function DecisionsAdded(acts: seq<Activity>): nat {
    if acts == [] then 0 else DecisionsAdded(acts[..|acts| - 1]) + DecisionsOf(acts[|acts| - 1])
  }

  /**
   Over every history, from any ledger in order: the ledger is only appended
   to, every Execution a gateway wrote links back and is the first to name its
   Decision, and the new Decisions are one per decide and those of the others.
   */
  lemma {:induction false} ServeKeeps(s: Suite, recs: seq<Record>, acts: seq<Activity>)
    requires Ordered(s, recs) && Plausible(s, recs, acts)
    ensures Audited(s, Serve(recs, acts).0, Serve(recs, acts).1) && recs <= Serve(recs, acts).0
    ensures Decisions(Serve(recs, acts).0) == Decisions(recs) + DecisionsAdded(acts)
    decreases |acts|
  {
    if acts == [] {
    } else {
      var before := acts[..|acts| - 1];
      ServeKeeps(s, recs, before);
      var (now, own) := Serve(recs, before);
      ActKeeps(s, now, own, acts[|acts| - 1]);
    }
  }

  lemma ActKeeps(s: Suite, now: seq<Record>, own: set<nat>, act: Activity)
    requires Audited(s, now, own) && Fits(s, now, act)
    ensures var (now', own') := Act(now, own, act);
            Audited(s, now', own') && now <= now' && Decisions(now') == Decisions(now) + DecisionsOf(act)
  {
    if act.Ours? {
      HandleKeeps(act.g, now, own, act.q);
      CountOne(now, Handle(act.g, now, act.q).0);
    } else {
      AuditedGrows(s, now, now + act.more, own);
      CountConcat(now, act.more);
    }
  }

  lemma CountOne(recs: seq<Record>, recs': seq<Record>)
    requires recs' == recs || (recs < recs' && |recs'| == |recs| + 1)
    ensures Decisions(recs') == Decisions(recs) + if |recs'| > |recs| && recs'[|recs|].kind.Decision? then 1 else 0
  {
    if |recs'| > |recs| {
      assert recs'[..|recs'| - 1] == recs;
    }
  }

  lemma {:induction false} CountConcat(a: seq<Record>, b: seq<Record>)
    ensures Decisions(a + b) == Decisions(a) + Decisions(b)
    decreases |b|
  {
    if b == [] {
      assert a + b == a;
    } else {
      var n := |b| - 1;
      CountConcat(a, b[..n]);
      assert (a + b)[..|a + b| - 1] == a + b[..n];
    }
  }

  /** Every Execution from position `n` on links back, and no other at all names its Decision. */
  ghost predicate AuditedFrom(recs: seq<Record>, n: nat) {
    forall e {:trigger LinksBack(recs, e)} :: n <= e < |recs| && recs[e].kind.Execution? ==>
      && LinksBack(recs, e)
      && forall x :: 0 <= x < |recs| && x != e && recs[x].kind.Execution? ==>
        recs[x].decisionIndex != recs[e].decisionIndex
  }

  /** If only gateways append from some point on, everything from there is audited, against the whole ledger. */
  lemma ServeAlone(s: Suite, recs: seq<Record>, acts: seq<Activity>)
    requires Ordered(s, recs) && Plausible(s, recs, acts)
    requires forall i :: 0 <= i < |acts| ==> acts[i].Ours?
    ensures AuditedFrom(Serve(recs, acts).0, |recs|)
  {
    var (now, own) := Serve(recs, acts);
    ServeKeeps(s, recs, acts);
    OwnAll(s, recs, acts);
    forall e | |recs| <= e < |now| && now[e].kind.Execution?
      ensures LinksBack(now, e)
      ensures forall x :: 0 <= x < |now| && x != e && now[x].kind.Execution? ==>
                now[x].decisionIndex != now[e].decisionIndex
    {
      assert e in own;
      forall x | e < x < |now| && now[x].kind.Execution? ensures now[x].decisionIndex != now[e].decisionIndex {
        assert x in own;
      }
    }
  }

  ghost predicate OwnsFrom(n: nat, now: seq<Record>, own: set<nat>) {
    forall e: nat :: n <= e < |now| ==> e in own
  }

  lemma ActOwns(s: Suite, n: nat, now: seq<Record>, own: set<nat>, act: Activity)
    requires Audited(s, now, own) && Fits(s, now, act) && act.Ours? && OwnsFrom(n, now, own)
    ensures OwnsFrom(n, Act(now, own, act).0, Act(now, own, act).1)
  {
    HandleKeeps(act.g, now, own, act.q);
  }

  lemma {:induction false} OwnAll(s: Suite, recs: seq<Record>, acts: seq<Activity>)
    requires Ordered(s, recs) && Plausible(s, recs, acts)
    requires forall i :: 0 <= i < |acts| ==> acts[i].Ours?
    ensures OwnsFrom(|recs|, Serve(recs, acts).0, Serve(recs, acts).1)
    decreases |acts|
  {
    if acts == [] {
    } else {
      var before := acts[..|acts| - 1];
      OwnAll(s, recs, before);
      ServeKeeps(s, recs, before);
      var (now, own) := Serve(recs, before);
      ActOwns(s, |recs|, now, own, acts[|acts| - 1]);
    }
  }

  // ------------------------------------------------------------------
  // Refs over the life of the ledger

  lemma {:induction false} LocateSome(s: Suite, recs: seq<Record>, i: nat)
    requires Ordered(s, recs) && i < |recs| && recs[i].kind.Decision?
    ensures Locate(recs, ByIndex(i)).Some?
  {
    var n := |recs| - 1;
    OrderedPrefix(s, recs);
    if i == n {
      assert LinkedAt(s, recs, i);
    } else {
      LocateSome(s, recs[..n], i);
    }
  }

  /** The approver can be written into a ref. */
  predicate Named(approver: Option<Approver>) {
    approver.Some? ==> approver.value.id != ""
  }

  /**
   A ref to a Decision parses, and in every later ledger resolves to that same
   Decision, as executed exactly when some Execution links it.
   */
  lemma RefResolves(s: Suite, recs: seq<Record>, i: nat, approver: Option<Approver>, later: seq<Record>)
    requires Ordered(s, later) && recs <= later
    requires i < |recs| && i < U64 && recs[i].kind.Decision? && Named(approver)
    ensures var r := ParseRef(MakeRef(RefFor(recs[i], approver)));
            && r == Some(Ref(i, recs[i].recordHash, approver))
            && LocateRef(later, r.value) == Some(Located(recs[i], Executed(later, i)))
  {
    assert later[i] == recs[i];
    assert LinkedAt(s, later, i);
    RefRoundTrip(Ref(i, recs[i].recordHash, approver));
    LocateSome(s, later, i);
    LocateFinds(s, later, ByIndex(i));
  }

  /** The approver an answer vouches for. */
  function Vouched(g: Config, q: Request): Option<Approver> {
    match q
    case Decide(call, console, _) => if g.engine(call).Ask? then console else None
    case Resolve(_, _, approver, _) => if approver == Some("") then None else Some(Approving(approver))
    case _ => None
  }

  /** The Decision an answer is about: the new one, or the one the ref names. */
  function Subject(recs: seq<Record>, q: Request): nat {
    if q.Resolve? && ParseRef(q.ref).Some? then ParseRef(q.ref).value.index else |recs|
  }

  /** The ref names the Decision at `i` of the ledger, still open, that may be completed with this approver. */
  ghost predicate Dispatches(recs: seq<Record>, ref: Ref, i: nat, approver: Option<Approver>) {
    && i < |recs| && recs[i].kind.Decision? && !Executed(recs, i)
    && ref == RefFor(recs[i], approver) && Completable(recs[i], approver)
  }

  lemma DecideDispatches(g: Config, recs: seq<Record>, call: ToolCall, console: Option<Approver>, now: string)
    requires Ordered(g.suite, recs)
    ensures var (recs', resp) := OpDecide(g, recs, call, console, now);
            resp.dispatch ==> Dispatches(recs', resp.ref, |recs|, if g.engine(call).Ask? then console else None)
  {
    KeepsDecision(g, recs, DecisionDraft(g, call, g.engine(call), now));
    NotYetExecuted(g.suite, OpDecide(g, recs, call, console, now).0, |recs|);
  }

  lemma ResolveDispatches(g: Config, recs: seq<Record>, q: Request)
    requires Ordered(g.suite, recs) && q.Resolve?
    ensures var resp := OpResolve(g, recs, ParseRef(q.ref), q.approved, q.approver, q.elapsed);
            resp.Answer? && resp.dispatch ==> Dispatches(recs, resp.ref, Subject(recs, q), Vouched(g, q))
  {
    var r := ParseRef(q.ref);
    if r.Some? && q.approver != Some("") {
      SettleDispatches(g, recs, r, q.approved, q.approver, q.elapsed);
    }
  }

  lemma SettleDispatches(g: Config, recs: seq<Record>, r: Option<Ref>, approved: Option<bool>,
                         approver: Option<string>, elapsed: int)
    requires Ordered(g.suite, recs) && r.Some? && approver != Some("")
    ensures var resp := OpResolve(g, recs, r, approved, approver, elapsed);
            resp.Answer? && resp.dispatch ==> Dispatches(recs, resp.ref, r.value.index, Some(Approving(approver)))
  {
    var found := LocateRef(recs, r.value);
    LocateFinds(g.suite, recs, ByIndex(r.value.index));
    if found.Some? && approved.Some? {
      SettledOpen(found.value.record, found.value.executed, approved.value, approver, elapsed);
    }
  }

  lemma SettledOpen(d: Record, executed: bool, approved: bool, approver: Option<string>, elapsed: int)
    requires approver != Some("")
    ensures var resp, who := Settle(d, executed, approved, approver, elapsed), Some(Approving(approver));
            resp.Answer? && resp.dispatch ==> !executed && resp.ref == RefFor(d, who) && Completable(d, who)
  {
  }

  /** The ask can still be answered: nobody has, it was not executed, and its time is not up. */
  ghost predicate AwaitsAnswer(recs: seq<Record>, i: nat, elapsed: int)
    requires i < |recs|
  {
    && recs[i].verdict.Some? && recs[i].verdict.value.Ask? && recs[i].approver.None? && !Executed(recs, i)
    && var limit := recs[i].verdict.value.timeoutMs;
       limit.None? || elapsed <= limit.value
  }

  /** An ask that nobody has answered or executed, in time or not. */
  ghost predicate IsOpenAsk(recs: seq<Record>, i: nat)
    requires i < |recs|
  {
    recs[i].verdict.Some? && recs[i].verdict.value.Ask? && recs[i].approver.None? && !Executed(recs, i)
  }

  /** Who is named as the approver: what follows `human:` or `rbac:`, or all of the text. */
  ghost predicate Credits(text: Option<string>, who: Option<Approver>) {
    && who.Some?
    && (text.None? ==> who.value == Approver(OutOfBand, "unattributed"))
    && (forall id :: id != "" && text == Some("human:" + id) ==> who.value == Approver(Tui, id))
    && (forall id :: id != "" && text == Some("rbac:" + id) ==> who.value == Approver(Rbac, id))
    && (text.Some? && who.value.kind.Tui? ==> text.value == "human:" + who.value.id && who.value.id != "")
    && (text.Some? && who.value.kind.Rbac? ==> text.value == "rbac:" + who.value.id && who.value.id != "")
    && (text.Some? && who.value.kind.OutOfBand? ==> who.value.id == text.value)
  }

  /**
   Resolving fails closed: with the ref a decide handed out, in any later
   ledger, the answer is to dispatch exactly when approval is taken here, was
   given, and the ask still awaits it. The answer is about that Decision and
   credits the approver named; any other request is refused, for its state or
   for its form.
   */
  lemma ResolveIff(g: Config, recs: seq<Record>, i: nat, q: Request)
    requires Ordered(g.suite, recs) && i < |recs| && i < U64 && recs[i].kind.Decision?
    requires q.Resolve? && q.ref == MakeRef(RefFor(recs[i], None))
    ensures Handle(g, recs, q).0 == recs
    ensures ResolveSays(g, recs, i, q, Handle(g, recs, q).1)
  {
    RefResolves(g.suite, recs, i, None, recs);
    assert LinkedAt(g.suite, recs, i);
    SettleIff(g, recs, i, ParseRef(q.ref).value, q);
  }

  /**
   Any other ref is refused: what is no ref and what names no Decision as such,
   one that carries an approver for its state, whatever else the request says.
   */
  lemma ResolveRefuses(g: Config, recs: seq<Record>, q: Request)
    requires Ordered(g.suite, recs) && q.Resolve?
    ensures var r, resp := ParseRef(q.ref), Handle(g, recs, q).1;
            && (r.None? ==> resp == Refused("bad_ref"))
            && (r.Some? && r.value.approver.Some? ==> resp == Refused("bad_state"))
            && (r.Some? && !Names(recs, r.value) ==> resp.Refused?)
            && (!g.mode.UiMode? && q.approved.Some? && q.approver != Some("") ==>
                  (r.Some? && r.value.approver.None? && !Names(recs, r.value) ==> resp == Refused("bad_ref")))
  {
    if ParseRef(q.ref).Some? {
      LocateRefIff(g.suite, recs, ParseRef(q.ref).value);
    }
  }

  ghost predicate ResolveSays(g: Config, recs: seq<Record>, i: nat, q: Request, resp: Response)
    requires q.Resolve? && i < |recs|
  {
    var formed := q.approved.Some? && q.approver != Some("");
    && (resp.Answer? && resp.dispatch <==>
        !g.mode.UiMode? && q.approved == Some(true) && q.approver != Some("") && AwaitsAnswer(recs, i, q.elapsed))
    && (resp.Answer? <==> !g.mode.UiMode? && formed && IsOpenAsk(recs, i))
    && (resp.Answer? ==>
          && resp.ref.index == i && resp.ref.hash == recs[i].recordHash
          && if resp.dispatch then Credits(q.approver, resp.ref.approver) else resp.ref.approver.None?)
    && (resp.Refused? ==> resp.code == if !g.mode.UiMode? && !formed then "bad_request" else "bad_state")
    && !resp.Recorded?
  }

  lemma SettleIff(g: Config, recs: seq<Record>, i: nat, r: Ref, q: Request)
    requires q.Resolve? && i < |recs| && r.approver.None? && recs[i].index == i
              && LocateRef(recs, r) == Some(Located(recs[i], Executed(recs, i)))
    ensures ResolveSays(g, recs, i, q, OpResolve(g, recs, Some(r), q.approved, q.approver, q.elapsed))
  {
    if q.approver != Some("") {
      CreditedAs(q.approver);
    }
  }

  lemma CreditedAs(text: Option<string>)
    requires text != Some("")
    ensures Credits(text, Some(Approving(text)))
  {
    if text.Some? {
      var t := text.value;
      forall id | id != "" && t == "human:" + id ensures Approving(text) == Approver(Tui, id) {
        assert "human:" < t && t[6..] == id;
      }
      forall id | id != "" && t == "rbac:" + id ensures Approving(text) == Approver(Rbac, id) {
        assert "rbac:" < t && t[5..] == id && t[0] == 'r';
      }
    }
  }

  /** An answer with `dispatch: true` hands out the ref of an open Decision. */
  lemma DispatchIsCompletable(g: Config, recs: seq<Record>, q: Request)
    requires Ordered(g.suite, recs)
    ensures var (recs', resp) := Handle(g, recs, q);
            resp.Answer? && resp.dispatch ==> Dispatches(recs', resp.ref, Subject(recs, q), Vouched(g, q))
  {
    match q
    case Decide(call, console, now) => DecideDispatches(g, recs, call, console, now);
    case Resolve(_, _, _, _) => ResolveDispatches(g, recs, q);
    case Complete(_, _, _, _, _) =>
    case PostTool(_, _, _, _, _, _) =>
  }

  /**
   A decide is always answered, with the ref of the Decision it just recorded.
   It says to dispatch exactly what the engine allows or redacts, and an ask
   that the console approved under `--ask ui`, whose approver the ref carries.
   */
  lemma DecideAnswers(g: Config, recs: seq<Record>, q: Request)
    requires q.Decide?
    ensures var (recs', resp) := Handle(g, recs, q);
            var v, consoled := g.engine(q.call), g.engine(q.call).Ask? && g.mode.UiMode? && q.console.Some?;
            && |recs'| == |recs| + 1 && recs <= recs' && resp.Answer?
            && (resp.dispatch <==> v.Allow? || v.Redact? || consoled)
            && resp.ref.index == |recs| && resp.ref.hash == recs'[|recs|].recordHash
            && resp.ref.approver == if consoled then q.console else None
  {
  }

  /** What a ref can name: the Decision at its index, with its hash, and nothing else. */
  ghost predicate Names(recs: seq<Record>, r: Ref) {
    r.index < |recs| && recs[r.index].kind.Decision? && recs[r.index].recordHash == r.hash
  }

  lemma LocateRefIff(s: Suite, recs: seq<Record>, r: Ref)
    requires Ordered(s, recs)
    ensures LocateRef(recs, r).Some? <==> Names(recs, r)
    ensures Names(recs, r) ==> LocateRef(recs, r) == Some(Located(recs[r.index], Executed(recs, r.index)))
  {
    LocateFinds(s, recs, ByIndex(r.index));
    if r.index < |recs| && recs[r.index].kind.Decision? {
      LocateSome(s, recs, r.index);
    }
  }

  /** The Decision may run to completion with this approver: an ask with one that nobody answered, no denial. */
  ghost predicate MayComplete(d: Record, approver: Option<Approver>) {
    && d.verdict.Some? && !d.verdict.value.Deny?
    && if d.verdict.value.Ask? then approver.Some? && d.approver.None? else approver.None?
  }

  /**
   A complete is recorded exactly when its ref names a Decision not yet
   executed that may be completed with the approver in it, and an outcome was
   reported. A ref that names nothing, a missing outcome and a Decision in the
   wrong state are told apart.
   */
  lemma CompleteIff(g: Config, recs: seq<Record>, q: Request)
    requires Ordered(g.suite, recs) && q.Complete?
    ensures CompleteSays(recs, q, ParseRef(q.ref), Handle(g, recs, q).1)
  {
    if ParseRef(q.ref).Some? {
      LocateRefIff(g.suite, recs, ParseRef(q.ref).value);
    }
  }

  ghost predicate CompleteSays(recs: seq<Record>, q: Request, r: Option<Ref>, resp: Response)
    requires q.Complete?
  {
    var reported := if q.exit.Some? then -0x8000_0000 <= q.exit.value <= 0x7FFF_FFFF else q.ok.Some?;
    var named := r.Some? && Names(recs, r.value);
    && (resp.Recorded? <==>
        reported && named && !Executed(recs, r.value.index) && MayComplete(recs[r.value.index], r.value.approver))
    && (r.Some? && !reported ==> resp == Refused("bad_request"))
    && (r.None? || (reported && !named) ==> resp == Refused("bad_ref"))
    && (reported && named && Executed(recs, r.value.index) ==> resp == Refused("bad_state"))
    && (reported && named && !Executed(recs, r.value.index) && !MayComplete(recs[r.value.index], r.value.approver) ==>
          var v := recs[r.value.index].verdict;
          resp == Refused(if v.Some? && (v.value.Ask? || v.value.Deny?) then "bad_state" else "bad_ref"))
  }

  /** The Decision at `i` is the last for this session and call. */
  ghost predicate IsLast(recs: seq<Record>, session: string, call: string, i: nat) {
    && i < |recs| && IsDecisionOf(recs[i], session, call)
    && forall j :: i < j < |recs| ==> !IsDecisionOf(recs[j], session, call)
  }

  predicate IsDecisionOf(r: Record, session: string, call: string) {
    r.kind.Decision? && r.sessionId == session && r.callId == call
  }

  lemma {:induction false} LocateLast(s: Suite, recs: seq<Record>, session: string, call: string)
    requires Ordered(s, recs)
    ensures var found := Locate(recs, ByCall(session, call));
            && (found.None? <==> forall j :: 0 <= j < |recs| ==> !IsDecisionOf(recs[j], session, call))
            && (found.Some? ==> IsLast(recs, session, call, found.value.record.index)
                                && found.value.record == recs[found.value.record.index])
  {
    if recs == [] {
    } else {
      var n := |recs| - 1;
      OrderedPrefix(s, recs);
      LocateLast(s, recs[..n], session, call);
      assert LinkedAt(s, recs, n);
      assert forall j :: 0 <= j < n ==> recs[..n][j] == recs[j];
    }
  }

  /** A tool that ran was free to: allowed or redacted, or an ask that the prompt or the console approved. */
  ghost predicate MayHaveRun(g: Config, d: Record, console: Option<Approver>) {
    && d.verdict.Some? && !d.verdict.value.Deny?
    && (d.verdict.value.Ask? ==> d.approver.None? && (g.mode.UiMode? ==> console.Some?))
  }

  /**
   A tool's end is recorded exactly when the last Decision for its session and
   id let it run and was not executed before; an ask is credited to the console
   under `--ask ui` and to the prompt otherwise.
   */
  lemma PostIff(g: Config, recs: seq<Record>, q: Request, i: nat)
    requires Ordered(g.suite, recs) && q.PostTool? && q.session != "" && q.toolUse != ""
    requires IsLast(recs, q.session, q.toolUse, i)
    ensures var (recs', resp) := Handle(g, recs, q);
            && (resp.Recorded? <==> !Executed(recs, i) && MayHaveRun(g, recs[i], q.console))
            && (resp.Recorded? ==>
                  && |recs'| == |recs| + 1 && recs'[|recs|].decisionIndex == Some(i)
                  && recs'[|recs|].approver == (if !recs[i].verdict.value.Ask? then None
                                                else if g.mode.UiMode? then q.console
                                                else Some(Approver(Tui, "claude-code-prompt"))))
  {
    LocateLast(g.suite, recs, q.session, q.toolUse);
    LocateFinds(g.suite, recs, ByCall(q.session, q.toolUse));
    var j := Locate(recs, ByCall(q.session, q.toolUse)).value.record.index;
    assert i == j;
  }

  /** Without such a Decision nothing is recorded. */
  lemma PostNeedsDecision(g: Config, recs: seq<Record>, q: Request)
    requires Ordered(g.suite, recs) && q.PostTool?
    requires q.session == "" || q.toolUse == ""
             || forall j :: 0 <= j < |recs| ==> !IsDecisionOf(recs[j], q.session, q.toolUse)
    ensures Handle(g, recs, q).0 == recs && Handle(g, recs, q).1.Refused?
  {
    LocateLast(g.suite, recs, q.session, q.toolUse);
  }

  /** What a completion does to a Decision it may complete: recorded once, then refused. */
  ghost predicate CompletesOnce(later: seq<Record>, i: nat, approver: Option<Approver>, after: seq<Record>,
                                resp: Response) {
    if Executed(later, i) then after == later && resp == Refused("bad_state")
    else
      && resp == Recorded && |after| == |later| + 1 && later <= after
      && after[|later|].kind.Execution? && after[|later|].decisionIndex == Some(i)
      && after[|later|].approver == approver
      && Executed(after, i)
  }

  lemma CompleteByRef(g: Config, recs: seq<Record>, i: nat, approver: Option<Approver>, later: seq<Record>,
                      done: Request)
    requires Ordered(g.suite, later) && recs <= later && |later| < U64 && Named(approver)
    requires i < |recs| && recs[i].kind.Decision? && Completable(recs[i], approver)
    requires done.Complete? && done.ref == MakeRef(RefFor(recs[i], approver)) && ExitStatus(done.ok, done.exit).Some?
    ensures var (after, resp) := OpComplete(g, later, ParseRef(done.ref), done.ok, done.exit, done.output, done.now);
            CompletesOnce(later, i, approver, after, resp)
  {
    RefResolves(g.suite, recs, i, approver, later);
    assert later[i] == recs[i] && LinkedAt(g.suite, later, i);
    if !Executed(later, i) {
      var draft := ExecutionDraft(g, recs[i], approver, ExitStatus(done.ok, done.exit).value, done.output, done.now);
      assert Appended(g, later, draft)[|later|].decisionIndex == Some(i);
    }
  }

  /**
   What dispatch leads to, in any later ledger: while no Execution links the
   Decision, completing with the ref handed out is recorded, as one Execution
   for that Decision that carries the approver vouched for; once one does, it
   is refused.
   */
  lemma DispatchThenComplete(g: Config, recs: seq<Record>, q: Request, later: seq<Record>, done: Request)
    requires Ordered(g.suite, recs) && Handle(g, recs, q).1.Answer? && Handle(g, recs, q).1.dispatch
    requires Ordered(g.suite, later) && Handle(g, recs, q).0 <= later && |later| < U64
    requires done.Complete? && done.ref == MakeRef(Handle(g, recs, q).1.ref) && ExitStatus(done.ok, done.exit).Some?
    requires Named(Vouched(g, q))
    ensures var (after, resp) := Handle(g, later, done);
            CompletesOnce(later, Subject(recs, q), Vouched(g, q), after, resp)
  {
    DispatchIsCompletable(g, recs, q);
    CompleteByRef(g, Handle(g, recs, q).0, Subject(recs, q), Vouched(g, q), later, done);
  }

  /**
   The check for an earlier Execution and the append are separate steps. If
   other requests or programs turned the ledger into `now` in between, the
   audit survives the late append exactly when none of them completed the same
   Decision.
   */
  lemma LateCompletion(g: Config, now: seq<Record>, own: set<nat>, d: Record, approver: Option<Approver>,
                       status: int, output: Bytes, at: string)
    requires Audited(g.suite, now, own)
    requires d.index < |now| && now[d.index] == d && d.kind.Decision? && Completable(d, approver)
    ensures var after := Appended(g, now, ExecutionDraft(g, d, approver, status, output, at));
            Audited(g.suite, after, own + {|now|}) <==> !Executed(now, d.index)
  {
    var draft := ExecutionDraft(g, d, approver, status, output, at);
    var r := Sealed(g.suite, draft, |now|, Tip(now));
    KeepsExecution(g, now, d, approver, draft);
    assert |now| in own + {|now|};
    if !Executed(now, d.index) {
      OwnsOneMore(g.suite, now, r, own);
    }
  }

  // ------------------------------------------------------------------
  // The gateway as an object over a shared store

  const APPEND_RETRIES := 64

  /** What other processes append between the k-th look at the tip and the k-th append. */
  function Rivals(rivals: seq<seq<Record>>, k: nat): seq<Record> {
    if k < |rivals| then rivals[k] else []
  }

  /** The ledger after the rivals of the first `n` attempts. */
  function Moved(recs: seq<Record>, rivals: seq<seq<Record>>, n: nat): seq<Record> {
    if n == 0 then recs else Moved(recs, rivals, n - 1) + Rivals(rivals, n - 1)
  }

  class Session {
    const g: Config
    var recs: seq<Record>

    constructor (g: Config, recs: seq<Record>)
      ensures this.g == g && this.recs == recs
    {
      this.g, this.recs := g, recs;
    }

    /** The store's append: accepted exactly when the record links on the tip. */
    method Append(rec: Record) returns (r: Result<(), AppendError>)
      modifies this
      ensures r.Ok? <==> Links(g.suite, rec, |old(recs)|, Tip(old(recs)))
      ensures recs == if r.Ok? then old(recs) + [rec] else old(recs)
      ensures r.Err? && ComputeHash(g.suite, rec) == rec.recordHash ==> IsAppendRace(r.error)
    {
      if ComputeHash(g.suite, rec) != rec.recordHash { return Err(BadHash); }
      if rec.index != |recs| { return Err(WrongIndex); }
      if rec.prevHash != Tip(recs) { return Err(WrongPrev); }
      recs := recs + [rec];
      return Ok(());
    }

    /**
     `retry_append` of one record, rebuilt on the current tip every time. It
     stops at the first quiet attempt `k`, or gives up after the last retry,
     and leaves exactly one record of its own on success and none on failure.
     */
    method RetryAppend(draft: Record, rivals: seq<seq<Record>>) returns (r: Result<Record, AppendError>, ghost k: nat)
      modifies this
      ensures k <= 64
      ensures forall j: nat :: j < k ==> Rivals(rivals, j) != []
      ensures if r.Ok? then Rivals(rivals, k) == [] else k == 64 && Rivals(rivals, k) != []
      ensures var all := Moved(old(recs), rivals, k + 1);
              if r.Ok? then recs == Appended(g, all, draft) && r.value == recs[|all|] else recs == all
    {
      var attempt := 0;
      k := 0;
      while true
        invariant k == attempt <= APPEND_RETRIES
        invariant recs == Moved(old(recs), rivals, k)
        invariant forall j: nat :: j < k ==> Rivals(rivals, j) != []
        decreases APPEND_RETRIES - attempt
      {
        var rec := Sealed(g.suite, draft, |recs|, Tip(recs));
        SealedLinks(g.suite, draft, recs);
        recs := recs + Rivals(rivals, attempt);
        var sent := Append(rec);
        if sent.Err? && IsAppendRace(sent.error) && attempt < APPEND_RETRIES {
          attempt := attempt + 1;
          k := attempt;
        } else if sent.Err? {
          return Err(sent.error), k;
        } else {
          return Ok(rec), k;
        }
      }
    }

    /** A decide, contended or not, is the one-step decide on the ledger its append found. */
    method DecideCall(call: ToolCall, console: Option<Approver>, now: string, rivals: seq<seq<Record>>)
      returns (resp: Response, ghost found: seq<Record>)
      modifies this
      ensures old(recs) <= found
      ensures resp != Refused("ledger") ==> (recs, resp) == OpDecide(g, found, call, console, now)
      ensures resp == Refused("ledger") ==> recs == found && forall k: nat :: k <= APPEND_RETRIES ==>
                Rivals(rivals, k) != []
    {
      var v := g.engine(call);
      var sent; ghost var k;
      sent, k := RetryAppend(DecisionDraft(g, call, v, now), rivals);
      found := Moved(old(recs), rivals, k + 1);
      MovedExtends(old(recs), rivals, k + 1);
      if sent.Err? { return Refused("ledger"), found; }
      var d := sent.value;
      match v
      case Allow(_) => return Answer(true, RefFor(d, None)), found;
      case Redact(_, _) => return Answer(true, RefFor(d, None)), found;
      case Deny(_, _, _) => return Answer(false, RefFor(d, None)), found;
      case Ask(_, _, _, _, _) =>
        if g.mode.UiMode? && console.Some? {
          return Answer(true, RefFor(d, console)), found;
        }
        return Answer(false, RefFor(d, None)), found;
    }

    /** A complete handled alone. */
    method CompleteCall(ref: string, ok: Option<bool>, exit: Option<int>, output: Bytes, now: string)
        returns (resp: Response)
      modifies this
      ensures (recs, resp) == OpComplete(g, old(recs), ParseRef(ref), ok, exit, output, now)
    {
      var r, status := ParseRef(ref), ExitStatus(ok, exit);
      if r.None? { return Refused("bad_ref"); }
      if status.None? { return Refused("bad_request"); }
      var found := LocateScan(recs, ByIndex(r.value.index));
      if found.None? || found.value.record.recordHash != r.value.hash { return Refused("bad_ref"); }
      if found.value.executed { return Refused("bad_state"); }
      if !Completable(found.value.record, r.value.approver) { return NotCompletable(found.value.record); }
      var sent; ghost var k;
      sent, k := RetryAppend(ExecutionDraft(g, found.value.record, r.value.approver, status.value, output, now), []);
      assert Rivals([], 0) == [] && Moved(old(recs), [], 1) == old(recs);
      return Recorded;
    }
  }

  lemma {:induction false} MovedExtends(recs: seq<Record>, rivals: seq<seq<Record>>, n: nat)
    ensures recs <= Moved(recs, rivals, n)
  {
    if n == 0 {
    } else {
      MovedExtends(recs, rivals, n - 1);
    }
  }
}
