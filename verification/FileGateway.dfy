/**
 The gateway on the file ledger: its refs and its requests over the records
 that the file store's runs commit, and over a real handle.
 */
module FileGateway {
  import opened Bytes
  import opened Ledger
  import opened LineScan
  import opened FileScan
  import FileStore
  import opened FileHandle
  import opened Refs
  import opened Gateway

  // ------------------------------------------------------------------
  // Runs of the store

  /** A record about to be appended names a Decision below its own index, if any. */
  predicate OpPointsBack(r: Record) {
    r.kind.Execution? && r.decisionIndex.Some? ==> r.decisionIndex.value < r.index
  }

  ghost predicate PhasePointsBack(ph: FileStore.Phase) {
    match ph
    case Idle => true
    case Locked(op) => op.Some? ==> OpPointsBack(op.value)
    case Repairing(op) => op.Some? ==> OpPointsBack(op.value)
    case Truncated(op) => op.Some? ==> OpPointsBack(op.value)
    case Writing(rec, _) => OpPointsBack(rec)
  }

  ghost predicate PhasesPointBack(s: FileStore.System) {
    forall p :: p in s.handles ==> PhasePointsBack(s.handles[p].phase)
  }

  /** Whoever appends, and whatever else they do, no Execution is appended below what it executes. */
  ghost predicate AppendsPointBack(events: seq<FileStore.Event>) {
    forall i :: 0 <= i < |events| && events[i].Acquire? && events[i].op.Some? ==> OpPointsBack(events[i].op.value)
  }

  lemma StepPhases(f: Format, s: FileStore.System, e: FileStore.Event)
    requires FileStore.Enabled(f, s, e) && PhasesPointBack(s)
    requires e.Acquire? && e.op.Some? ==> OpPointsBack(e.op.value)
    ensures PhasesPointBack(FileStore.Apply(f, s, e))
  {
  }

  lemma StepOrdered(f: Format, s: FileStore.System, e: FileStore.Event)
    requires GoodFormat(f) && FileStore.Inv(f, s) && FileStore.Enabled(f, s, e) && PhasesPointBack(s)
    requires Ordered(f.suite, FileStore.Committed(f, s.file))
    ensures Ordered(f.suite, FileStore.Committed(f, FileStore.Apply(f, s, e).file))
  {
    var was, now := FileStore.Committed(f, s.file), FileStore.Committed(f, FileStore.Apply(f, s, e).file);
    FileStore.Step(f, s, e);
    if now != was {
      var rec := s.handles[e.p].phase.rec;
      assert PhasePointsBack(s.handles[e.p].phase);
      OneMoreOrdered(f.suite, was, rec);
    }
  }

  lemma OneMoreOrdered(s: Suite, was: seq<Record>, rec: Record)
    requires Ordered(s, was) && Intact(s, was + [rec]) && OpPointsBack(rec)
    ensures Ordered(s, was + [rec])
  {
    IntactAppend(s, was, rec);
    OrderedAppend(s, was, rec);
  }

  ghost predicate InOrder(f: Format, s: FileStore.System) {
    Ordered(f.suite, FileStore.Committed(f, s.file)) && PhasesPointBack(s)
  }

  lemma KeepsOrder(f: Format, s: FileStore.System, e: FileStore.Event, s': FileStore.System)
    requires GoodFormat(f) && FileStore.Inv(f, s) && FileStore.Enabled(f, s, e) && s' == FileStore.Apply(f, s, e)
    requires InOrder(f, s) && (e.Acquire? && e.op.Some? ==> OpPointsBack(e.op.value))
    ensures InOrder(f, s')
  {
    StepPhases(f, s, e);
    StepOrdered(f, s, e);
  }

  ghost function InOrderAt(f: Format, states: seq<FileStore.System>): seq<bool> {
    seq(|states|, k requires 0 <= k < |states| => InOrder(f, states[k]))
  }

  lemma OneStepKeepsOrder(f: Format, states: seq<FileStore.System>, events: seq<FileStore.Event>, i: nat,
                          holds: seq<bool>)
    requires GoodFormat(f) && FileStore.Run(f, states, events) && FileStore.Init(f, states[0]) && i < |events|
    requires AppendsPointBack(events) && holds == InOrderAt(f, states) && holds[i]
    ensures holds[i + 1]
  {
    FileStore.RunKeepsInv(f, states, events, i);
    assert FileStore.StepAt(f, states, events, i);
    KeepsOrder(f, states[i], events[i], states[i + 1]);
  }

  lemma AllStepsKeepOrder(f: Format, states: seq<FileStore.System>, events: seq<FileStore.Event>, holds: seq<bool>)
    requires GoodFormat(f) && FileStore.Run(f, states, events) && FileStore.Init(f, states[0])
    requires AppendsPointBack(events) && holds == InOrderAt(f, states)
    ensures forall k :: 0 < k < |holds| && holds[k - 1] ==> holds[k]
  {
    forall k | 0 < k < |holds| && holds[k - 1] ensures holds[k] {
      OneStepKeepsOrder(f, states, events, k - 1, holds);
    }
  }

  /** In every state of every run the ledger is in order. */
  lemma RunOrdered(f: Format, states: seq<FileStore.System>, events: seq<FileStore.Event>, i: nat)
    requires GoodFormat(f) && FileStore.Run(f, states, events) && FileStore.Init(f, states[0]) && i < |states|
    requires Ordered(f.suite, FileStore.Committed(f, states[0].file)) && AppendsPointBack(events)
    ensures Ordered(f.suite, FileStore.Committed(f, states[i].file))
  {
    var holds := InOrderAt(f, states);
    AllStepsKeepOrder(f, states, events, holds);
    FileStore.Throughout(holds, i);
  }

  /**
   A ref to a Decision committed in some state of a run resolves to it in every
   later state, whatever any number of writers append, crash or repair in
   between, as executed exactly when an Execution committed by then links it.
   */
  lemma RefResolvesInRun(f: Format, states: seq<FileStore.System>, events: seq<FileStore.Event>, i: nat, j: nat,
                         n: nat, approver: Option<Approver>)
    requires GoodFormat(f) && FileStore.Run(f, states, events) && FileStore.Init(f, states[0]) && i <= j < |states|
    requires Ordered(f.suite, FileStore.Committed(f, states[0].file)) && AppendsPointBack(events)
    requires n < |FileStore.Committed(f, states[i].file)| && n < U64 && Named(approver)
    requires FileStore.Committed(f, states[i].file)[n].kind.Decision?
    ensures var d, later := FileStore.Committed(f, states[i].file)[n], FileStore.Committed(f, states[j].file);
            var r := ParseRef(MakeRef(RefFor(d, approver)));
            r.Some? && LocateRef(later, r.value) == Some(Located(d, Executed(later, n)))
  {
    RunOrdered(f, states, events, j);
    FileStore.OnlyGrows(f, states, events, i, j);
    RefResolves(f.suite, FileStore.Committed(f, states[i].file), n, approver, FileStore.Committed(f, states[j].file));
  }

  // ------------------------------------------------------------------
  // Requests on a handle

  class FileSession {
    const g: Config
    const store: Store

    constructor (g: Config, store: Store)
      ensures this.g == g && this.store == store
    {
      this.g, this.store := g, store;
    }

    /** The records the file holds. */
    ghost function Held(): seq<Record>
      reads store.disk
    {
      FileStore.Committed(store.f, store.disk.bytes)
    }

    /** The handle can resume, the file holds nothing a reader would trip over, and both hash alike. */
    ghost predicate Ready()
      reads store, store.disk
    {
      && store.IsHealthy() && GoodFormat(store.f) && store.f.suite == g.suite
      && FileStore.OpenTail(store.f, store.disk.bytes)
    }

    /** `LedgerWriter` on the file: look at the tip, build the record on it, append. */
    method Write(draft: Record) returns (rec: Record)
      requires Ready()
      modifies store, store.disk
      ensures Ready()
      ensures Held() == Appended(g, old(Held()), draft)
      ensures rec == Held()[|old(Held())|]
    {
      ghost var recs := Held();
      TipOf(store.f, store.disk.bytes, store.State());
      var _ := store.Refresh();
      var prev := if store.tipRecord.Some? then store.tipRecord.value.recordHash else GENESIS;
      var index := if store.tipRecord.Some? then store.tipRecord.value.index + 1 else 0;
      rec := Sealed(g.suite, draft, index, prev);
      SealedLinks(g.suite, draft, recs);
      var r := store.Append(rec);
      assert r.Ok?;
    }

    /** Every record of the file, read as `iter` reads it, through the scan of `locate`. */
    method Find(q: Query) returns (found: Option<Located>)
      requires Ready()
      ensures found == Locate(Held(), q)
    {
      var items := ReadItems(store.f, store.disk.bytes);
      FileStore.ReaderIff(store.f, store.disk.bytes);
      LocateWrapped(Held(), q);
      var r := LocateItems(items, q);
      return r.value;
    }

    /** A decide is the state machine's, on the records of the file. */
    method Decide(call: ToolCall, console: Option<Approver>, now: string) returns (resp: Response)
      requires Ready()
      modifies store, store.disk
      ensures Ready()
      ensures (Held(), resp) ==
              OpDecide(g, old(Held()), call, console, now)
    {
      var v := g.engine(call);
      var d := Write(DecisionDraft(g, call, v, now));
      if v.Ask? && g.mode.UiMode? && console.Some? {
        return Answer(true, RefFor(d, console));
      }
      return Answer(!v.Deny? && !v.Ask?, RefFor(d, None));
    }

    /** A complete is the state machine's, on the records of the file. */
    method Complete(ref: string, ok: Option<bool>, exit: Option<int>, output: Bytes, now: string)
        returns (resp: Response)
      requires Ready()
      modifies store, store.disk
      ensures Ready()
      ensures (Held(), resp) ==
              OpComplete(g, old(Held()), ParseRef(ref), ok, exit, output, now)
    {
      var r, status := ParseRef(ref), ExitStatus(ok, exit);
      if r.None? { return Refused("bad_ref"); }
      if status.None? { return Refused("bad_request"); }
      var found := Find(ByIndex(r.value.index));
      if found.None? || found.value.record.recordHash != r.value.hash { return Refused("bad_ref"); }
      if found.value.executed { return Refused("bad_state"); }
      if !Completable(found.value.record, r.value.approver) { return NotCompletable(found.value.record); }
      var _ := Write(ExecutionDraft(g, found.value.record, r.value.approver, status.value, output, now));
      return Recorded;
    }
  }

  /** What a healthy handle finds at the tip when it looks. */
  lemma TipOf(f: Format, file: Bytes, st: ChainState)
    requires FileStore.FileOk(f, file) && FileStore.HandleOk(f, file, st)
    ensures var now, recs := FileStore.Refresh(f, file, st).st, FileStore.Committed(f, file);
            && FileStore.HandleOk(f, file, now)
            && (now.tipRecord.Some? <==> recs != [])
            && (recs != [] ==> now.tipRecord.value.index + 1 == |recs| && now.tipRecord.value.recordHash == Tip(recs))
  {
    var recs := FileStore.Committed(f, file);
    FileStore.CatchUp(f, file, st);
    FileStore.WholeIsResumable(f, file);
    ScanReports(Taking(f), EMPTY, file);
    if recs != [] {
      assert LinkedAt(f.suite, recs, |recs| - 1);
    }
  }
}
