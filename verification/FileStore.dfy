/**
 Many writers, one JSONL ledger: any number of handles in any number of
 processes append to one file under an exclusive lock, crash at any byte, and
 read without the lock.

 The protocol is a state machine over the steps a handle takes. Steps of
 different handles interleave freely; a step is one read of the file, one
 truncation, one newline, or some bytes of a line.
 */
module FileStore {
  import opened Bytes
  import opened Ledger
  import opened LineScan
  import opened FileScan

  /** Where a handle is inside `append` (or, with no record, inside `open`'s tail repair). */
  datatype Phase =
    | Idle
    | Locked(op: Option<Record>)
    | Repairing(op: Option<Record>)
    | Truncated(op: Option<Record>)
    | Writing(rec: Record, written: nat)

  datatype Handle = Handle(st: ChainState, phase: Phase)

  datatype System = System(file: Bytes, lock: Option<nat>, handles: map<nat, Handle>)

  datatype Event =
    | Open(p: nat)                        // a new handle that has read nothing
    | Look(p: nat)                        // refresh without the lock: tip, len, open
    | Acquire(p: nat, op: Option<Record>) // content check passed, lock granted
    | Check(p: nat)                       // refresh under the lock, then accept or reject
    | Truncate(p: nat)                    // repair_tail: drop bytes past the last record
    | Newline(p: nat)                     // repair_tail: end the last line
    | Write(p: nat, upto: nat)            // bytes of `record\n` reach the file
    | Finish(p: nat)                      // append returns Ok
    | Abort(p: nat)                       // an I/O error ends the operation, the handle lives on
    | Crash(p: nat)                       // the process dies; the OS drops its lock

  function LineOf(f: Format, rec: Record): Bytes {
    f.encode(rec) + [NL]
  }

  /** `refresh` of a handle against the file as it is now. */
  function Refresh(f: Format, file: Bytes, st: ChainState): Scan {
    if |file| < st.offset then Scan(st, [], Failed) else ScanFrom(Taking(f), st, file[st.offset..])
  }

  /** The lock-time check of `append`; `open`'s repair has nothing to check. */
  predicate Extends(st: ChainState, op: Option<Record>) {
    op.Some? ==> op.value.index == st.len && op.value.prevHash == st.tipHash
  }

  predicate Enabled(f: Format, s: System, e: Event) {
    if e.Open? then e.p !in s.handles
    else
      && e.p in s.handles
      && var h := s.handles[e.p];
         match e
         case Look(_) => h.phase.Idle?
         case Acquire(_, op) =>
           h.phase.Idle? && s.lock.None? && (op.Some? ==> ComputeHash(f.suite, op.value) == op.value.recordHash)
         case Check(_) => h.phase.Locked?
         case Truncate(_) => h.phase.Repairing?
         case Newline(_) => h.phase.Truncated? && h.st.offset <= |s.file|
         case Write(_, k) => h.phase.Writing? && h.phase.written < k <= |LineOf(f, h.phase.rec)|
         case Finish(_) => h.phase.Writing? && h.phase.written == |LineOf(f, h.phase.rec)|
         case Abort(_) => !h.phase.Idle?
         case Crash(_) => true
  }

  function Put(s: System, p: nat, h: Handle): System {
    s.(handles := s.handles[p := h])
  }

  function Release(s: System, p: nat, st: ChainState): System {
    Put(s, p, Handle(st, Idle)).(lock := None)
  }

  function Apply(f: Format, s: System, e: Event): System
    requires Enabled(f, s, e)
  {
    if e.Open? then Put(s, e.p, Handle(EMPTY, Idle))
    else
      var p, h := e.p, s.handles[e.p];
      match e
      case Look(_) => Put(s, p, Handle(Refresh(f, s.file, h.st).st, Idle))
      case Acquire(_, op) => Put(s, p, h.(phase := Locked(op))).(lock := Some(p))
      case Check(_) =>
        var sc := Refresh(f, s.file, h.st);
        if sc.outcome == Failed || !Extends(sc.st, h.phase.op) then Release(s, p, sc.st)
        else Put(s, p, Handle(sc.st, Repairing(h.phase.op)))
      case Truncate(_) =>
        Put(s, p, h.(phase := Truncated(h.phase.op)))
          .(file := if |s.file| > h.st.offset then s.file[..h.st.offset] else s.file)
      case Newline(_) =>
        var o := h.st.offset;
        var missing := o > 0 && s.file[o - 1] != NL;
        var file' := if missing then s.file[..o] + [NL] + (if |s.file| > o then s.file[o + 1..] else []) else s.file;
        var st' := h.st.(offset := if missing then o + 1 else o);
        if h.phase.op.None? then Release(s, p, st').(file := file')
        else Put(s, p, Handle(st', Writing(h.phase.op.value, 0))).(file := file')
      case Write(_, k) =>
        Put(s, p, h.(phase := Writing(h.phase.rec, k)))
          .(file := s.file + LineOf(f, h.phase.rec)[h.phase.written..k])
      case Finish(_) => Release(s, p, After(h.st, Entry(h.phase.written, h.phase.rec)))
      case Abort(_) => Release(s, p, h.st)
      case Crash(_) =>
        s.(handles := s.handles - {p}, lock := if s.lock == Some(p) then None else s.lock)
  }

  // ------------------------------------------------------------------
  // The invariant

  /** What the whole file says, read from the start. */
  ghost function Whole(f: Format, file: Bytes): Scan {
    ScanFrom(Taking(f), EMPTY, file)
  }

  /** The records the file holds. */
  ghost function Committed(f: Format, file: Bytes): seq<Record> {
    Whole(f, file).recs
  }

  /** The records form an intact hash chain; anything else in the file is debris at its end. */
  ghost predicate FileOk(f: Format, file: Bytes) {
    var sc := Whole(f, file);
    sc.outcome != Failed && Intact(f.suite, sc.recs)
  }

  /** Debris, if any, is one unterminated chunk: what a writer leaves, at work or crashed. */
  ghost predicate OpenTail(f: Format, file: Bytes) {
    var sc := Whole(f, file);
    sc.outcome == Torn ==> sc.st.offset <= |file| && NL !in file[sc.st.offset..]
  }

  /** The handle has consumed exactly the first `offset` bytes, and can resume there. */
  ghost predicate HandleOk(f: Format, file: Bytes, st: ChainState) {
    var o := st.offset;
    && o <= |file|
    && Whole(f, file[..o]).outcome == Clean && Whole(f, file[..o]).st == st
    && (Closed(file[..o]) || o == |file| || file[o] == NL)
  }

  ghost predicate PhaseOk(f: Format, file: Bytes, h: Handle) {
    match h.phase
    case Idle => true
    case Locked(op) => op.Some? ==> ComputeHash(f.suite, op.value) == op.value.recordHash
    case Repairing(op) => h.st == Whole(f, file).st && Accepts(f, h.st, op)
    case Truncated(op) => h.st == Whole(f, file).st && |file| == h.st.offset && Accepts(f, h.st, op)
    case Writing(rec, w) =>
      && w <= |LineOf(f, rec)| && |file| == h.st.offset + w
      && file[h.st.offset..] == LineOf(f, rec)[..w]
      && Closed(file[..h.st.offset]) && Links(f.suite, rec, h.st.len, h.st.tipHash)
  }

  ghost predicate Accepts(f: Format, st: ChainState, op: Option<Record>) {
    op.Some? ==> Links(f.suite, op.value, st.len, st.tipHash)
  }

  /** The file is well formed, every handle can resume in it and is where its phase says. */
  ghost predicate Consistent(f: Format, s: System) {
    && FileOk(f, s.file)
    && (forall p :: p in s.handles ==> HandleOk(f, s.file, s.handles[p].st))
    && (forall p :: p in s.handles ==> PhaseOk(f, s.file, s.handles[p]))
  }

  /** Whoever is inside an operation holds the lock, and whoever holds the lock is inside an operation. */
  ghost predicate Exclusive(s: System) {
    && (forall p :: p in s.handles && !s.handles[p].phase.Idle? ==> s.lock == Some(p))
    && (s.lock.Some? ==> InsideAppend(s, s.lock.value))
  }

  ghost predicate Inv(f: Format, s: System) {
    Consistent(f, s) && Exclusive(s)
  }

  /** The handle is alive and inside an operation. */
  predicate InsideAppend(s: System, p: nat) {
    p in s.handles && !s.handles[p].phase.Idle?
  }

  ghost predicate Init(f: Format, s: System) {
    FileOk(f, s.file) && s.handles == map[] && s.lock == None
  }

  // ------------------------------------------------------------------
  // Reading

  /** A handle that can resume catches up with the whole file. */
  lemma CatchUp(f: Format, file: Bytes, st: ChainState)
    requires HandleOk(f, file, st)
    ensures Refresh(f, file, st).st == Whole(f, file).st
    ensures Refresh(f, file, st).outcome == Whole(f, file).outcome
    ensures Committed(f, file) == Committed(f, file[..st.offset]) + Refresh(f, file, st).recs
  {
    var a, x := file[..st.offset], file[st.offset..];
    CutInTwo(file, st.offset);
    assert x != [] ==> x[0] == file[st.offset];
    Resumed(f, a, x, st);
  }

  lemma Resumed(f: Format, a: Bytes, x: Bytes, st: ChainState)
    requires Whole(f, a).outcome == Clean && Whole(f, a).st == st
    requires Closed(a) || x == [] || x[0] == NL
    ensures Whole(f, a + x) == Then(Whole(f, a), ScanFrom(Taking(f), st, x))
  {
    Resume(Taking(f), EMPTY, a, x);
  }

  /** Where the whole scan stopped is a place to resume. */
  lemma WholeIsResumable(f: Format, file: Bytes)
    requires Whole(f, file).outcome != Failed
    ensures HandleOk(f, file, Whole(f, file).st)
    ensures Committed(f, file[..Whole(f, file).st.offset]) == Committed(f, file)
    ensures Whole(f, file).outcome == Clean ==> Whole(f, file).st.offset == |file|
    ensures Whole(f, file).outcome == Torn ==> Closed(file[..Whole(f, file).st.offset])
  {
    var m := ScanStops(Taking(f), EMPTY, file);
  }

  /** A handle is never ahead of the file, and what it remembers is a prefix of the records. */
  lemma HandleDescribesPrefix(f: Format, file: Bytes, st: ChainState)
    requires HandleOk(f, file, st) && Whole(f, file).outcome != Failed
    ensures st.offset <= Whole(f, file).st.offset && st.len <= |Committed(f, file)|
    ensures Committed(f, file[..st.offset]) == Committed(f, file)[..st.len]
    ensures st.tipHash == Tip(Committed(f, file)[..st.len])
    ensures st.tipRecord == if st.len == 0 then None else Some(Committed(f, file)[st.len - 1])
  {
    NeverAhead(f, file, st);
    var seen, more := Committed(f, file[..st.offset]), Refresh(f, file, st).recs;
    Remembers(f, file[..st.offset], st);
    Remembered(st, seen, more);
    assert Committed(f, file) == seen + more by {
      CatchUp(f, file, st);
    }
  }

  lemma Remembers(f: Format, a: Bytes, st: ChainState)
    requires Whole(f, a).st == st
    ensures st.len == |Committed(f, a)| && st.tipHash == Tip(Committed(f, a))
    ensures st.tipRecord == if Committed(f, a) == [] then None else Some(Committed(f, a)[|Committed(f, a)| - 1])
  {
    ScanReports(Taking(f), EMPTY, a);
  }

  lemma NeverAhead(f: Format, file: Bytes, st: ChainState)
    requires HandleOk(f, file, st) && Whole(f, file).outcome != Failed
    ensures st.offset <= Whole(f, file).st.offset
  {
    CatchUp(f, file, st);
    var m := ScanStops(Taking(f), st, file[st.offset..]);
  }

  lemma Remembered(st: ChainState, seen: seq<Record>, more: seq<Record>)
    requires st.len == |seen| && st.tipHash == Tip(seen)
    requires st.tipRecord == if seen == [] then None else Some(seen[|seen| - 1])
    ensures seen == (seen + more)[..st.len] && st.tipHash == Tip((seen + more)[..st.len])
    ensures st.tipRecord == if st.len == 0 then None else Some((seen + more)[st.len - 1])
  {
    TakeConcat(seen, more, st.len);
    TakeAll(seen);
  }

  // ------------------------------------------------------------------
  // What a file says, from its bytes

  /**
   Behind `base`, which holds records and blank lines and nothing else, stands
   a line with text that is not the next record: debris, or what no writer leaves.
   */
  ghost predicate StopsIn(f: Format, base: Bytes, line: Bytes, text: Bytes, rest: Bytes, outcome: Outcome) {
    && Whole(f, base).outcome == Clean && Closed(base)
    && IsLine(line, rest) && TextOf(line, text) && text != []
    && !IsNext(Committed(f, base), f.decode(text))
    && outcome == if IsDebris(f, line, rest, text) then Torn else Failed
  }

  /** What a line decodes to is the record after these. */
  predicate IsNext(recs: seq<Record>, rec: Option<Record>) {
    rec.Some? && rec.value.index == |recs| && rec.value.prevHash == Tip(recs)
  }

  ghost predicate StopsSomewhere(f: Format, file: Bytes, outcome: Outcome) {
    exists base, line, text, rest ::
      StopsIn(f, base, line, text, rest, outcome) && file == base + (line + rest)
  }

  lemma NextContinues(f: Format, base: Bytes, rec: Option<Record>)
    ensures Continues(Whole(f, base).st, rec) <==> IsNext(Committed(f, base), rec)
  {
    ScanReports(Taking(f), EMPTY, base);
  }

  /** Behind a base, a blank line adds nothing and the next record is added. */
  lemma LineAdds(f: Format, base: Bytes, line: Bytes, text: Bytes)
    requires Whole(f, base).outcome == Clean && Closed(base) && IsLine(line, []) && TextOf(line, text)
    requires text == [] || IsNext(Committed(f, base), f.decode(text))
    ensures Whole(f, base + line).outcome == Clean
    ensures Committed(f, base + line) == Committed(f, base) + if text == [] then [] else [f.decode(text).value]
  {
    var st := Whole(f, base).st;
    assert line + [] == line;
    NextContinues(f, base, f.decode(text));
    if text == [] {
      BlankPasses(f, st, line, []);
    } else {
      RecordIsRead(f, st, line, text, [], f.decode(text).value);
    }
    Resume(Taking(f), EMPTY, base, line);
  }

  /** Behind a base, any other text stops the scan and decides the outcome. */
  lemma LineStops(f: Format, base: Bytes, line: Bytes, text: Bytes, rest: Bytes, outcome: Outcome)
    requires StopsIn(f, base, line, text, rest, outcome)
    ensures Whole(f, base + (line + rest)) == Scan(Whole(f, base).st, Committed(f, base), outcome)
  {
    var st := Whole(f, base).st;
    NextContinues(f, base, f.decode(text));
    OtherTextStops(f, st, line, text, rest);
    Resume(Taking(f), EMPTY, base, line + rest);
    ThenNothing(Whole(f, base), st, outcome);
  }

  lemma StopFound(f: Format, file: Bytes, outcome: Outcome)
    returns (base: Bytes, line: Bytes, text: Bytes, rest: Bytes)
    requires Whole(f, file).outcome == outcome != Clean
    ensures file == base + (line + rest) && StopsIn(f, base, line, text, rest, outcome)
  {
    base, line, text, rest := FindStop(f, EMPTY, file, outcome);
    NextContinues(f, base, f.decode(text));
  }

  /**
   A file is torn exactly when an unterminated or last line decodes to nothing,
   and fails exactly when any other line decodes to nothing or to the wrong record.
   */
  lemma StopIff(f: Format, file: Bytes, outcome: Outcome)
    requires outcome != Clean
    ensures Whole(f, file).outcome == outcome <==> StopsSomewhere(f, file, outcome)
  {
    if Whole(f, file).outcome == outcome {
      var base, line, text, rest := StopFound(f, file, outcome);
    }
    if StopsSomewhere(f, file, outcome) {
      var base, line, text, rest :| StopsIn(f, base, line, text, rest, outcome) && file == base + (line + rest);
      LineStops(f, base, line, text, rest, outcome);
    }
  }

  /** Nothing, or an unterminated or last line that decodes to nothing. */
  ghost predicate Debris(f: Format, b: Bytes) {
    b != [] ==> exists line, text, rest ::
      IsLine(line, rest) && TextOf(line, text) && text != [] && IsDebris(f, line, rest, text) && b == line + rest
  }

  /** What follows the last record of a file that did not fail is debris. */
  lemma TailIsDebris(f: Format, file: Bytes)
    requires Whole(f, file).outcome != Failed
    ensures var o := Whole(f, file).st.offset;
            o <= |file| && Debris(f, file[o..]) && Committed(f, file[..o]) == Committed(f, file)
  {
    WholeIsResumable(f, file);
    if Whole(f, file).outcome == Torn {
      var base, line, text, rest := StopFound(f, file, Torn);
      LineStops(f, base, line, text, rest, Torn);
      WholeIsResumable(f, base);
      assert file[|base|..] == line + rest;
    }
  }

  // ------------------------------------------------------------------
  // Steps that leave the file alone

  /** Only the lock holder is inside an operation. */
  lemma OthersIdle(f: Format, s: System, p: nat)
    requires Inv(f, s) && p in s.handles && !s.handles[p].phase.Idle?
    ensures s.lock == Some(p)
    ensures forall q :: q in s.handles && q != p ==> s.handles[q].phase.Idle?
  {
  }

  lemma PutKeepsInv(f: Format, s: System, p: nat, h: Handle, lock: Option<nat>)
    requires Inv(f, s) && HandleOk(f, s.file, h.st) && PhaseOk(f, s.file, h)
    requires !h.phase.Idle? ==> lock == Some(p)
    requires forall q :: q in s.handles && q != p && !s.handles[q].phase.Idle? ==> lock == Some(q)
    requires lock.Some? ==> if lock.value == p then !h.phase.Idle? else InsideAppend(s, lock.value)
    ensures Inv(f, Put(s, p, h).(lock := lock))
  {
  }

  lemma EmptyIsResumable(f: Format, file: Bytes)
    ensures HandleOk(f, file, EMPTY)
  {
    TakeAll(file);
  }

  lemma QuietStep(f: Format, s: System, e: Event)
    requires Inv(f, s) && Enabled(f, s, e) && (e.Open? || e.Look? || e.Acquire? || e.Abort? || e.Crash?)
    ensures Inv(f, Apply(f, s, e)) && Apply(f, s, e).file == s.file
  {
    match e
    case Open(p) =>
      EmptyIsResumable(f, s.file);
      PutKeepsInv(f, s, p, Handle(EMPTY, Idle), s.lock);
    case Look(p) =>
      CatchUp(f, s.file, s.handles[p].st);
      WholeIsResumable(f, s.file);
      PutKeepsInv(f, s, p, Handle(Whole(f, s.file).st, Idle), s.lock);
    case Acquire(p, op) =>
      PutKeepsInv(f, s, p, s.handles[p].(phase := Locked(op)), Some(p));
    case Abort(p) =>
      OthersIdle(f, s, p);
      PutKeepsInv(f, s, p, Handle(s.handles[p].st, Idle), None);
    case Crash(p) =>
  }

  lemma CheckStep(f: Format, s: System, p: nat)
    requires Inv(f, s) && Enabled(f, s, Check(p))
    ensures Inv(f, Apply(f, s, Check(p))) && Apply(f, s, Check(p)).file == s.file
  {
    var h := s.handles[p];
    OthersIdle(f, s, p);
    CatchUp(f, s.file, h.st);
    WholeIsResumable(f, s.file);
    var st := Whole(f, s.file).st;
    if Extends(st, h.phase.op) {
      PutKeepsInv(f, s, p, Handle(st, Repairing(h.phase.op)), Some(p));
    } else {
      PutKeepsInv(f, s, p, Handle(st, Idle), None);
    }
  }

  // ------------------------------------------------------------------
  // Steps of the lock holder that change the file

  /** A new file that is well formed and in which every handle can still resume. */
  lemma HolderStep(f: Format, s: System, p: nat, file': Bytes, h': Handle, lock': Option<nat>)
    requires Exclusive(s) && InsideAppend(s, p)
    requires FileOk(f, file') && HandleOk(f, file', h'.st) && PhaseOk(f, file', h')
    requires forall q :: q in s.handles && q != p ==> HandleOk(f, file', s.handles[q].st)
    requires lock' == if h'.phase.Idle? then None else Some(p)
    ensures Inv(f, System(file', lock', s.handles[p := h']))
  {
    StaysExclusive(s, p, file', h', lock');
    HandlesStay(f, file', s.handles, p, h', s.handles[p := h']);
    PhasesStay(f, file', s.handles, p, h', s.handles[p := h']);
  }

  lemma StaysExclusive(s: System, p: nat, file': Bytes, h': Handle, lock': Option<nat>)
    requires Exclusive(s) && InsideAppend(s, p) && lock' == if h'.phase.Idle? then None else Some(p)
    ensures Exclusive(System(file', lock', s.handles[p := h']))
    ensures forall q :: q in s.handles && q != p ==> s.handles[q].phase.Idle?
  {
  }

  lemma HandlesStay(f: Format, file: Bytes, handles: map<nat, Handle>, p: nat, h': Handle,
                    handles': map<nat, Handle>)
    requires handles' == handles[p := h'] && HandleOk(f, file, h'.st)
    requires forall q :: q in handles && q != p ==> HandleOk(f, file, handles[q].st)
    ensures forall q :: q in handles' ==> HandleOk(f, file, handles'[q].st)
  {
  }

  lemma PhasesStay(f: Format, file: Bytes, handles: map<nat, Handle>, p: nat, h': Handle,
                   handles': map<nat, Handle>)
    requires handles' == handles[p := h'] && PhaseOk(f, file, h')
    requires forall q :: q in handles && q != p ==> handles[q].phase.Idle?
    ensures forall q :: q in handles' ==> PhaseOk(f, file, handles'[q])
  {
  }

  /** The same bytes up to the offset, and still a place to resume. */
  lemma StillResumable(f: Format, file: Bytes, file': Bytes, st: ChainState)
    requires HandleOk(f, file, st) && st.offset <= |file'| && file'[..st.offset] == file[..st.offset]
    requires Closed(file[..st.offset]) || st.offset == |file'| || file'[st.offset] == NL
    ensures HandleOk(f, file', st)
  {
  }

  /** Dropping what follows the last record. */
  lemma TruncateFile(f: Format, file: Bytes)
    requires FileOk(f, file)
    ensures var o := Whole(f, file).st.offset;
            && o <= |file|
            && Whole(f, file[..o]) == Scan(Whole(f, file).st, Committed(f, file), Clean)
            && FileOk(f, file[..o])
  {
    WholeIsResumable(f, file);
  }

  lemma TruncateHandle(f: Format, file: Bytes, st: ChainState)
    requires FileOk(f, file) && HandleOk(f, file, st)
    ensures Whole(f, file).st.offset <= |file| && HandleOk(f, file[..Whole(f, file).st.offset], st)
  {
    WholeIsResumable(f, file);
    NeverAhead(f, file, st);
    var o, m := st.offset, Whole(f, file).st.offset;
    TakeDrop(file, o, m - o);
    StillResumable(f, file, file[..m], st);
  }

  lemma TruncateStep(f: Format, s: System, p: nat)
    requires Inv(f, s) && Enabled(f, s, Truncate(p))
    ensures Inv(f, Apply(f, s, Truncate(p))) && OpenTail(f, Apply(f, s, Truncate(p)).file)
    ensures Committed(f, Apply(f, s, Truncate(p)).file) == Committed(f, s.file)
  {
    var h := s.handles[p];
    var file' := s.file[..h.st.offset];
    TruncateFile(f, s.file);
    TakeAll(s.file);
    forall q | q in s.handles ensures HandleOk(f, file', s.handles[q].st) {
      TruncateHandle(f, s.file, s.handles[q].st);
    }
    HolderStep(f, s, p, file', h.(phase := Truncated(h.phase.op)), s.lock);
    OthersIdle(f, s, p);
  }

  /** Ending the last line of a cleanly scanned file. */
  lemma NewlineFile(f: Format, file: Bytes)
    requires FileOk(f, file) && Whole(f, file).outcome == Clean
    ensures var st := Whole(f, file).st;
            Whole(f, file + [NL]) == Scan(st.(offset := st.offset + 1), Committed(f, file), Clean)
    ensures FileOk(f, file + [NL])
  {
    var st := Whole(f, file).st;
    Resumed(f, file, [NL], st);
    BlankScan(Taking(f), st);
    ThenNothing(Whole(f, file), st.(offset := st.offset + 1), Clean);
  }

  lemma NewlineStep(f: Format, s: System, p: nat)
    requires Inv(f, s) && Enabled(f, s, Newline(p))
    ensures Inv(f, Apply(f, s, Newline(p))) && OpenTail(f, Apply(f, s, Newline(p)).file)
    ensures Committed(f, Apply(f, s, Newline(p)).file) == Committed(f, s.file)
  {
    var h := s.handles[p];
    AtEndOfFile(f, s, p);
    NewlineApplies(f, s, p, if s.file != [] && s.file[|s.file| - 1] != NL then s.file + [NL] else s.file);
    if s.file != [] && s.file[|s.file| - 1] != NL {
      EndsLine(f, s, p);
    } else {
      EndsRepair(f, s, p, s.file, h.st);
    }
  }

  lemma AtEndOfFile(f: Format, s: System, p: nat)
    requires Inv(f, s) && p in s.handles && s.handles[p].phase.Truncated?
    ensures s.handles[p].st.offset == |s.file| && Whole(f, s.file) == Scan(s.handles[p].st, Committed(f, s.file), Clean)
  {
    WholeIsResumable(f, s.file);
    TakeAll(s.file);
  }

  /** What the step does to a file the handle stands at the end of. */
  lemma NewlineApplies(f: Format, s: System, p: nat, file': Bytes)
    requires Enabled(f, s, Newline(p)) && s.handles[p].st.offset == |s.file|
    requires file' == if s.file != [] && s.file[|s.file| - 1] != NL then s.file + [NL] else s.file
    ensures var op, st', s' := s.handles[p].phase.op, s.handles[p].st.(offset := |file'|), Apply(f, s, Newline(p));
            s' == if op.None? then System(file', None, s.handles[p := Handle(st', Idle)])
                  else System(file', s.lock, s.handles[p := Handle(st', Writing(op.value, 0))])
  {
    TakeAll(s.file);
    assert s.file + [NL] + [] == s.file + [NL];
  }

  lemma EndsLine(f: Format, s: System, p: nat)
    requires Inv(f, s) && p in s.handles && s.handles[p].phase.Truncated?
    requires s.file != [] && s.file[|s.file| - 1] != NL
    ensures var op, st', file' := s.handles[p].phase.op, s.handles[p].st.(offset := |s.file| + 1), s.file + [NL];
            && Whole(f, file') == Scan(st', Committed(f, s.file), Clean)
            && (op.None? ==> Inv(f, System(file', None, s.handles[p := Handle(st', Idle)])))
            && (op.Some? ==> Inv(f, System(file', s.lock, s.handles[p := Handle(st', Writing(op.value, 0))])))
  {
    AtEndOfFile(f, s, p);
    NewlineFile(f, s.file);
    forall q | q in s.handles ensures HandleOk(f, s.file + [NL], s.handles[q].st) {
      NewlineHandle(f, s.file, s.handles[q].st);
    }
    EndsRepair(f, s, p, s.file + [NL], s.handles[p].st.(offset := |s.file| + 1));
  }

  lemma NewlineHandle(f: Format, file: Bytes, st: ChainState)
    requires HandleOk(f, file, st)
    ensures HandleOk(f, file + [NL], st)
  {
    TakeConcat(file, [NL], st.offset);
    StillResumable(f, file, file + [NL], st);
  }

  /** The repaired file ends in a newline and the handle stands at its end. */
  lemma EndsRepair(f: Format, s: System, p: nat, file': Bytes, st': ChainState)
    requires Inv(f, s) && p in s.handles && s.handles[p].phase.Truncated?
    requires FileOk(f, file') && Closed(file') && |file'| == st'.offset
    requires Whole(f, file') == Scan(st', Committed(f, s.file), Clean)
    requires Accepts(f, st', s.handles[p].phase.op)
    requires forall q :: q in s.handles && q != p ==> HandleOk(f, file', s.handles[q].st)
    ensures var op := s.handles[p].phase.op;
            && (op.None? ==> Inv(f, System(file', None, s.handles[p := Handle(st', Idle)])))
            && (op.Some? ==> Inv(f, System(file', s.lock, s.handles[p := Handle(st', Writing(op.value, 0))])))
  {
    var op := s.handles[p].phase.op;
    TakeAll(file');
    OthersIdle(f, s, p);
    if op.None? {
      HolderStep(f, s, p, file', Handle(st', Idle), None);
    } else {
      TakeAll(LineOf(f, op.value));
      HolderStep(f, s, p, file', Handle(st', Writing(op.value, 0)), s.lock);
    }
  }

  // ------------------------------------------------------------------
  // Writing a line

  /** A well-formed file extended by the first `k` bytes of a linked record's line. */
  lemma PartialLine(f: Format, base: Bytes, rec: Record, k: nat)
    requires GoodFormat(f) && FileOk(f, base) && Closed(base) && Whole(f, base).outcome == Clean
    requires Links(f.suite, rec, Whole(f, base).st.len, Whole(f, base).st.tipHash)
    requires k <= |LineOf(f, rec)|
    ensures var file, st, recs, e := base + LineOf(f, rec)[..k], Whole(f, base).st, Committed(f, base), f.encode(rec);
            && FileOk(f, file) && OpenTail(f, file)
            && Whole(f, file) == if k == 0 then Scan(st, recs, Clean)
                                 else if k < |e| then Scan(st, recs, Torn)
                                 else Scan(After(st, Entry(k, rec)), recs + [rec], Clean)
  {
    var part, st := LineOf(f, rec)[..k], Whole(f, base).st;
    assert EncodesWell(f, rec);
    Resume(Taking(f), EMPTY, base, part);
    ScanLine(f, st, rec, k);
    ScanReports(Taking(f), EMPTY, base);
    IntactAppend(f.suite, Committed(f, base), rec);
    WholeIsResumable(f, base);
    assert Committed(f, base) + [] == Committed(f, base);
    if 0 < k < |f.encode(rec)| {
      assert (base + part)[|base|..] == part;
      assert part == f.encode(rec)[..k];
    }
  }

  /** The writer's base: everything before the line it is writing. */
  lemma WriterBase(f: Format, file: Bytes, h: Handle)
    requires FileOk(f, file) && HandleOk(f, file, h.st) && PhaseOk(f, file, h) && h.phase.Writing?
    ensures var base := file[..h.st.offset];
            && file == base + LineOf(f, h.phase.rec)[..h.phase.written]
            && FileOk(f, base) && Closed(base) && Whole(f, base).outcome == Clean && Whole(f, base).st == h.st
  {
    CutInTwo(file, h.st.offset);
    HandleDescribesPrefix(f, file, h.st);
    IntactPrefix(f.suite, Committed(f, file), h.st.len);
  }

  /** A handle that stopped at the end of a half-written line stopped just before its newline. */
  lemma WriteKeepsHandle(f: Format, base: Bytes, rec: Record, w: nat, k: nat, st: ChainState)
    requires GoodFormat(f) && FileOk(f, base) && Closed(base) && Whole(f, base).outcome == Clean
    requires Links(f.suite, rec, Whole(f, base).st.len, Whole(f, base).st.tipHash)
    requires w < k <= |LineOf(f, rec)|
    requires HandleOk(f, base + LineOf(f, rec)[..w], st)
    ensures HandleOk(f, base + LineOf(f, rec)[..k], st)
  {
    var line := LineOf(f, rec);
    var file, file', o := base + line[..w], base + line[..k], st.offset;
    PartialLine(f, base, rec, w);
    ExtendTake(base, line, w, k);
    TakeConcat(file, line[w..k], o);
    assert Closed(file[..o]) || o == |file'| || file'[o] == NL by {
      if o == |file| {
        TakeAll(file);
        UnclosedMidLine(f, base, rec, w);
      } else if file[o] == NL {
        assert file'[o] == file[o];
      }
    }
    StillResumable(f, file, file', st);
  }

  lemma UnclosedMidLine(f: Format, base: Bytes, rec: Record, w: nat)
    requires GoodFormat(f) && Closed(base) && w < |LineOf(f, rec)|
    ensures Closed(base + LineOf(f, rec)[..w]) ==> w == 0
    ensures w == 0 ==> Closed(base + LineOf(f, rec)[..w])
    ensures w == |f.encode(rec)| ==> LineOf(f, rec)[w] == NL
  {
    assert EncodesWell(f, rec);
    if w == 0 {
      TakeAll(LineOf(f, rec));
      assert base + [] == base;
    } else {
      assert LineOf(f, rec)[..w][w - 1] == f.encode(rec)[w - 1];
    }
  }

  lemma WriteStep(f: Format, s: System, p: nat, k: nat)
    requires GoodFormat(f) && Inv(f, s) && Enabled(f, s, Write(p, k))
    ensures Inv(f, Apply(f, s, Write(p, k))) && OpenTail(f, Apply(f, s, Write(p, k)).file)
    ensures var rec, was, now := s.handles[p].phase.rec, Committed(f, s.file),
              Committed(f, Apply(f, s, Write(p, k)).file);
            now == was || now == was + [rec]
  {
    var h := s.handles[p];
    var rec, w, base, line := h.phase.rec, h.phase.written, s.file[..h.st.offset], LineOf(f, h.phase.rec);
    var file' := base + line[..k];
    WriterBase(f, s.file, h);
    ExtendTake(base, line, w, k);
    PartialLine(f, base, rec, w);
    PartialLine(f, base, rec, k);
    forall q | q in s.handles ensures HandleOk(f, file', s.handles[q].st) {
      WriteKeepsHandle(f, base, rec, w, k, s.handles[q].st);
    }
    TakeConcat(base, line[..k], |base|);
    TakeAll(base);
    OthersIdle(f, s, p);
    HolderStep(f, s, p, file', h.(phase := Writing(rec, k)), s.lock);
  }

  lemma FinishStep(f: Format, s: System, p: nat)
    requires GoodFormat(f) && Inv(f, s) && Enabled(f, s, Finish(p))
    ensures Inv(f, Apply(f, s, Finish(p))) && Apply(f, s, Finish(p)).file == s.file
    ensures var rec, recs := s.handles[p].phase.rec, Committed(f, s.file);
            rec.index == |recs| - 1 && recs[rec.index] == rec
  {
    var h := s.handles[p];
    var rec, w, base := h.phase.rec, h.phase.written, s.file[..h.st.offset];
    WriterBase(f, s.file, h);
    PartialLine(f, base, rec, w);
    ScanReports(Taking(f), EMPTY, base);
    WholeIsResumable(f, s.file);
    OthersIdle(f, s, p);
    PutKeepsInv(f, s, p, Handle(Whole(f, s.file).st, Idle), None);
  }

  // ------------------------------------------------------------------
  // Whole runs

  /**
   Every step keeps the invariant. It adds at most one record, at the end, and
   only by a write of the record the lock holder is appending.
   */
  lemma Step(f: Format, s: System, e: Event)
    requires GoodFormat(f) && Inv(f, s) && Enabled(f, s, e)
    ensures Inv(f, Apply(f, s, e))
    ensures var was, now := Committed(f, s.file), Committed(f, Apply(f, s, e).file);
            now == was || (e.Write? && now == was + [s.handles[e.p].phase.rec])
    ensures var was, now := Committed(f, s.file), Committed(f, Apply(f, s, e).file);
            now == was || (|now| == |was| + 1 && now[..|was|] == was)
  {
    match e
    case Check(p) => CheckStep(f, s, p);
    case Truncate(p) => TruncateStep(f, s, p);
    case Newline(p) => NewlineStep(f, s, p);
    case Write(p, k) => WriteStep(f, s, p, k);
    case Finish(p) => FinishStep(f, s, p);
    case _ => QuietStep(f, s, e);
  }

  /**
   What a step leaves its handle with. A look, the check under the lock and a
   finished append leave it knowing the whole file, an aborted operation what it
   knew; a checked append goes on exactly when its record is the file's next.
   */
  lemma StepLeaves(f: Format, s: System, e: Event)
    requires GoodFormat(f) && Inv(f, s) && Enabled(f, s, e) && !e.Open? && !e.Crash?
    ensures var s', p := Apply(f, s, e), e.p;
            && p in s'.handles
            && (e.Look? || e.Check? || e.Finish? ==>
                  s'.file == s.file && s'.handles[p].st == Whole(f, s.file).st)
            && (e.Abort? ==> s'.file == s.file && s'.handles[p] == Handle(s.handles[p].st, Idle))
            && (e.Check? && s.handles[p].phase.op.Some? ==>
                  (InsideAppend(s', p) <==> IsNext(Committed(f, s.file), s.handles[p].phase.op)))
  {
    var h := s.handles[e.p];
    if e.Look? || e.Check? {
      CatchUp(f, s.file, h.st);
      Remembers(f, s.file, Whole(f, s.file).st);
    } else if e.Finish? {
      WriterBase(f, s.file, h);
      PartialLine(f, s.file[..h.st.offset], h.phase.rec, h.phase.written);
    }
  }

  /** A step of one handle changes no other. */
  lemma StepsAlone(f: Format, s: System, e: Event, q: nat)
    requires Enabled(f, s, e) && q != e.p
    ensures q in Apply(f, s, e).handles <==> q in s.handles
    ensures q in s.handles ==> Apply(f, s, e).handles[q] == s.handles[q]
  {
  }

  /** Whoever holds the lock is alive and inside an operation; its failure or its death frees the lock. */
  lemma HolderFrees(f: Format, s: System, q: nat)
    requires Inv(f, s) && s.lock == Some(q)
    ensures InsideAppend(s, q)
    ensures Enabled(f, s, Abort(q)) && Apply(f, s, Abort(q)).lock.None?
    ensures Enabled(f, s, Crash(q)) && Apply(f, s, Crash(q)).lock.None?
  {
  }

  /** `states` is the run of `events` from `states[0]`. */
  ghost predicate Run(f: Format, states: seq<System>, events: seq<Event>) {
    && |states| == |events| + 1
    && forall i {:trigger StepAt(f, states, events, i)} :: 0 <= i < |events| ==> StepAt(f, states, events, i)
  }

  ghost predicate StepAt(f: Format, states: seq<System>, events: seq<Event>, i: nat)
    requires |states| == |events| + 1 && i < |events|
  {
    Enabled(f, states[i], events[i]) && states[i + 1] == Apply(f, states[i], events[i])
  }

  ghost predicate Takes(f: Format, s: System, e: Event, s': System) {
    Enabled(f, s, e) && s' == Apply(f, s, e) && Inv(f, s')
  }

  lemma LocksFree(f: Format, s: System, p: nat, rec: Record) returns (s': System)
    requires GoodFormat(f) && Inv(f, s) && s.lock.None? && p in s.handles
    requires ComputeHash(f.suite, rec) == rec.recordHash
    ensures Takes(f, s, Acquire(p, Some(rec)), s') && s'.file == s.file
    ensures p in s'.handles && s'.handles[p].phase == Locked(Some(rec))
  {
    s' := Apply(f, s, Acquire(p, Some(rec)));
    QuietStep(f, s, Acquire(p, Some(rec)));
  }

  lemma ChecksNext(f: Format, s: System, p: nat, rec: Record) returns (s': System)
    requires GoodFormat(f) && Inv(f, s) && p in s.handles && s.handles[p].phase == Locked(Some(rec))
    requires IsNext(Committed(f, s.file), Some(rec))
    ensures Takes(f, s, Check(p), s') && s'.file == s.file
    ensures p in s'.handles && s'.handles[p].phase == Repairing(Some(rec))
  {
    s' := Apply(f, s, Check(p));
    CheckStep(f, s, p);
    CatchUp(f, s.file, s.handles[p].st);
    ScanReports(Taking(f), EMPTY, s.file);
  }

  lemma Repairs(f: Format, s: System, p: nat, rec: Record) returns (mid: System, s': System)
    requires GoodFormat(f) && Inv(f, s) && p in s.handles && s.handles[p].phase == Repairing(Some(rec))
    ensures Takes(f, s, Truncate(p), mid) && Takes(f, mid, Newline(p), s')
    ensures Committed(f, s'.file) == Committed(f, s.file)
    ensures p in s'.handles && s'.handles[p].phase == Writing(rec, 0)
  {
    mid := Apply(f, s, Truncate(p));
    TruncateStep(f, s, p);
    s' := Apply(f, mid, Newline(p));
    NewlineStep(f, mid, p);
  }

  lemma Writes(f: Format, s: System, p: nat, rec: Record) returns (mid: System, s': System)
    requires GoodFormat(f) && Inv(f, s) && p in s.handles && s.handles[p].phase == Writing(rec, 0)
    requires rec.index == |Committed(f, s.file)|
    ensures Takes(f, s, Write(p, |LineOf(f, rec)|), mid) && Takes(f, mid, Finish(p), s')
    ensures Committed(f, s'.file) == Committed(f, s.file) + [rec] && s'.lock.None?
  {
    mid := Apply(f, s, Write(p, |LineOf(f, rec)|));
    WriteStep(f, s, p, |LineOf(f, rec)|);
    s' := Apply(f, mid, Finish(p));
    FinishStep(f, mid, p);
  }

  /**
   With the lock free, whatever the tail of the file looks like, any handle can
   append the next record in six steps; the last frees the lock again.
   */
  lemma AppendCompletes(f: Format, s: System, p: nat, rec: Record)
    returns (s1: System, s2: System, s3: System, s4: System, s5: System, s6: System)
    requires GoodFormat(f) && Inv(f, s) && s.lock.None? && p in s.handles
    requires Links(f.suite, rec, |Committed(f, s.file)|, Tip(Committed(f, s.file)))
    ensures Takes(f, s, Acquire(p, Some(rec)), s1) && Takes(f, s1, Check(p), s2)
    ensures Takes(f, s2, Truncate(p), s3) && Takes(f, s3, Newline(p), s4)
    ensures Takes(f, s4, Write(p, |LineOf(f, rec)|), s5) && Takes(f, s5, Finish(p), s6)
    ensures Committed(f, s6.file) == Committed(f, s.file) + [rec] && s6.lock.None?
  {
    s1 := LocksFree(f, s, p, rec);
    s2 := ChecksNext(f, s1, p, rec);
    s3, s4 := Repairs(f, s2, p, rec);
    s5, s6 := Writes(f, s4, p, rec);
  }

  lemma {:induction false} RunKeepsInv(f: Format, states: seq<System>, events: seq<Event>, i: nat)
    requires GoodFormat(f) && Run(f, states, events) && Init(f, states[0]) && i < |states|
    ensures Inv(f, states[i])
  {
    if i == 0 {
    } else {
      RunKeepsInv(f, states, events, i - 1);
      assert StepAt(f, states, events, i - 1);
      KeepsInv(f, states[i - 1], events[i - 1], states[i]);
    }
  }

  lemma KeepsInv(f: Format, s: System, e: Event, s': System)
    requires GoodFormat(f) && Inv(f, s) && Enabled(f, s, e) && s' == Apply(f, s, e)
    ensures Inv(f, s')
  {
    Step(f, s, e);
  }

  /** No step leaves terminated debris where there was none. */
  lemma StepKeepsTail(f: Format, s: System, e: Event)
    requires GoodFormat(f) && Inv(f, s) && Enabled(f, s, e) && OpenTail(f, s.file)
    ensures OpenTail(f, Apply(f, s, e).file)
  {
    match e
    case Check(p) => CheckStep(f, s, p);
    case Truncate(p) => TruncateStep(f, s, p);
    case Newline(p) => NewlineStep(f, s, p);
    case Write(p, k) => WriteStep(f, s, p, k);
    case Finish(p) => FinishStep(f, s, p);
    case _ => QuietStep(f, s, e);
  }

  /** What holds at first and is kept from each state to the next holds in all. */
  lemma {:induction false} Throughout(holds: seq<bool>, i: nat)
    requires i < |holds| && holds[0] && forall k :: 0 < k < |holds| && holds[k - 1] ==> holds[k]
    ensures holds[i]
  {
    if i == 0 {
    } else {
      Throughout(holds, i - 1);
    }
  }

  lemma OneStepKeepsTail(f: Format, states: seq<System>, events: seq<Event>, i: nat)
    requires GoodFormat(f) && Run(f, states, events) && Init(f, states[0]) && i < |events|
    requires OpenTail(f, states[i].file)
    ensures OpenTail(f, states[i + 1].file)
  {
    RunKeepsInv(f, states, events, i);
    assert StepAt(f, states, events, i);
    KeepsTail(f, states[i], events[i], states[i + 1]);
  }

  lemma KeepsTail(f: Format, s: System, e: Event, s': System)
    requires GoodFormat(f) && Inv(f, s) && Enabled(f, s, e) && s' == Apply(f, s, e) && OpenTail(f, s.file)
    ensures OpenTail(f, s'.file)
  {
    StepKeepsTail(f, s, e);
  }

  ghost predicate TailAt(f: Format, states: seq<System>, k: nat) {
    k < |states| && OpenTail(f, states[k].file)
  }

  lemma StepsKeepTail(f: Format, states: seq<System>, events: seq<Event>, k: nat)
    requires GoodFormat(f) && Run(f, states, events) && Init(f, states[0]) && k < |events|
    ensures TailAt(f, states, k) ==> TailAt(f, states, k + 1)
  {
    if TailAt(f, states, k) {
      OneStepKeepsTail(f, states, events, k);
    }
  }

  lemma RunKeepsTail(f: Format, states: seq<System>, events: seq<Event>, i: nat)
    requires GoodFormat(f) && Run(f, states, events) && Init(f, states[0]) && i < |states|
    requires TailAt(f, states, 0)
    ensures TailAt(f, states, i)
  {
    var holds := seq(|states|, k requires 0 <= k < |states| => TailAt(f, states, k));
    forall k | 0 < k < |holds| && holds[k - 1] ensures holds[k] {
      StepsKeepTail(f, states, events, k - 1);
    }
    Throughout(holds, i);
  }

  lemma OneStepGrows(f: Format, states: seq<System>, events: seq<Event>, i: nat)
    requires GoodFormat(f) && Run(f, states, events) && Init(f, states[0]) && i < |events|
    ensures Committed(f, states[i].file) <= Committed(f, states[i + 1].file)
  {
    RunKeepsInv(f, states, events, i);
    assert StepAt(f, states, events, i);
    Step(f, states[i], events[i]);
  }

  lemma {:induction false} PrefixChain<T>(hist: seq<seq<T>>, i: nat, j: nat)
    requires i <= j < |hist| && forall k :: 0 < k < |hist| ==> hist[k - 1] <= hist[k]
    ensures hist[i] <= hist[j]
  {
    if i >= j {
    } else {
      PrefixChain(hist, i, j - 1);
    }
  }

  /** Every earlier sequence of records is a prefix of every later one. */
  lemma OnlyGrows(f: Format, states: seq<System>, events: seq<Event>, i: nat, j: nat)
    requires GoodFormat(f) && Run(f, states, events) && Init(f, states[0]) && i <= j < |states|
    ensures Committed(f, states[i].file) <= Committed(f, states[j].file)
  {
    var hist := seq(|states|, k requires 0 <= k < |states| => Committed(f, states[k].file));
    forall k | 0 < k < |hist| ensures hist[k - 1] <= hist[k] {
      OneStepGrows(f, states, events, k - 1);
    }
    PrefixChain(hist, i, j);
  }

  /**
   Safety: in every run of any number of writers, from any intact file, the
   records on disk are at all times an intact hash chain, and every earlier
   sequence of records is a prefix of every later one.
   */
  lemma Safety(f: Format, states: seq<System>, events: seq<Event>, i: nat, j: nat)
    requires GoodFormat(f) && Run(f, states, events) && Init(f, states[0]) && i <= j < |states|
    ensures Intact(f.suite, Committed(f, states[j].file))
    ensures Committed(f, states[i].file) <= Committed(f, states[j].file)
  {
    RunKeepsInv(f, states, events, j);
    OnlyGrows(f, states, events, i, j);
  }

  /** Every handle's offset, length, tip hash and tip record describe a prefix of those records. */
  lemma HandlesDescribePrefixes(f: Format, states: seq<System>, events: seq<Event>, i: nat, p: nat)
    requires GoodFormat(f) && Run(f, states, events) && Init(f, states[0])
    requires i < |states| && p in states[i].handles
    ensures DescribesPrefix(f, states[i].file, states[i].handles[p].st)
  {
    RunKeepsInv(f, states, events, i);
    InvDescribes(f, states[i], p);
  }

  /** Offset, length, tip hash and tip record are those of the records in the first `offset` bytes, a prefix of all. */
  ghost predicate DescribesPrefix(f: Format, file: Bytes, st: ChainState) {
    var recs := Committed(f, file);
    && st.offset <= |file| && st.len <= |recs|
    && Committed(f, file[..st.offset]) == recs[..st.len]
    && st.tipHash == Tip(recs[..st.len])
    && st.tipRecord == if st.len == 0 then None else Some(recs[st.len - 1])
  }

  lemma InvDescribes(f: Format, s: System, p: nat)
    requires Inv(f, s) && p in s.handles
    ensures DescribesPrefix(f, s.file, s.handles[p].st)
  {
    HandleDescribes(f, s.file, s.handles[p].st);
  }

  lemma HandleDescribes(f: Format, file: Bytes, st: ChainState)
    requires FileOk(f, file) && HandleOk(f, file, st)
    ensures DescribesPrefix(f, file, st)
  {
    HandleDescribesPrefix(f, file, st);
  }

  /** A record whose append returned Ok stays at its index for ever. */
  lemma AckedRecordsStay(f: Format, states: seq<System>, events: seq<Event>, i: nat, j: nat)
    requires GoodFormat(f) && Run(f, states, events) && Init(f, states[0])
    requires i < |events| && events[i].Finish? && i < j < |states|
    ensures events[i].p in states[i].handles && states[i].handles[events[i].p].phase.Writing?
    ensures var rec, recs := states[i].handles[events[i].p].phase.rec, Committed(f, states[j].file);
            rec.index < |recs| && recs[rec.index] == rec
  {
    assert StepAt(f, states, events, i);
    RunKeepsInv(f, states, events, i);
    FinishStep(f, states[i], events[i].p);
    Safety(f, states, events, i, j);
  }

  /** No handle of a run ever finds the file shrunk, corrupt or out of sequence. */
  lemma RefreshNeverFails(f: Format, states: seq<System>, events: seq<Event>, i: nat, p: nat)
    requires GoodFormat(f) && Run(f, states, events) && Init(f, states[0])
    requires i < |states| && p in states[i].handles
    ensures Refresh(f, states[i].file, states[i].handles[p].st).outcome != Failed
    ensures Refresh(f, states[i].file, states[i].handles[p].st).st.len == |Committed(f, states[i].file)|
  {
    RunKeepsInv(f, states, events, i);
    CatchUp(f, states[i].file, states[i].handles[p].st);
    ScanReports(Taking(f), EMPTY, states[i].file);
  }

  /** A reader of a well-formed file yields exactly its records when any debris is unterminated, and only then. */
  lemma ReaderIff(f: Format, file: Bytes)
    requires FileOk(f, file)
    ensures ReadItems(f, file) == Wrap(Committed(f, file)) <==> OpenTail(f, file)
  {
    var m := ScanStops(Taking(f), EMPTY, file);
    ReaderSeesScan(f, EMPTY, file, m);
    var tail := file[m..];
    if Whole(f, file).outcome == Torn {
      TornReads(f, Whole(f, file).st, tail);
    }
    NothingMore(Wrap(Committed(f, file)), ReadItems(f, tail));
  }

  lemma NothingMore<T>(a: seq<T>, b: seq<T>)
    ensures a + b == a <==> b == []
  {
    if a + b == a {
      assert |a + b| == |a|;
    }
  }

  /**
   A lock-free reader over the bytes of any reachable state, mid-write and
   after crashes included, yields exactly the committed records and no error,
   and the verifier finds that stream intact. The run starts from a file whose
   debris, if any, is unterminated, as writers leave it.
   */
  lemma ReaderSeesCommitted(f: Format, states: seq<System>, events: seq<Event>, i: nat)
    requires GoodFormat(f) && Run(f, states, events) && Init(f, states[0]) && i < |states|
    requires OpenTail(f, states[0].file)
    ensures ReadItems(f, states[i].file) == Wrap(Committed(f, states[i].file))
    ensures var items := ReadItems(f, states[i].file);
            LongestIntact(f.suite, items, |items|) && Report(items, |items|).intact
  {
    RunKeepsInv(f, states, events, i);
    RunKeepsTail(f, states, events, i);
    ReaderIff(f, states[i].file);
    IntactIffLongest(f.suite, Committed(f, states[i].file));
  }
}
