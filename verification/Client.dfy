/**
 The SDK transport: one `writ check --stdio` process, requests written to it in
 order, and response lines matched to them first in, first out.

 A response settles the oldest request in flight and must carry its id.
 Anything else - a line that is no JSON, an answer nobody waits for, another
 id, a line over the size limit, a timeout, the process going away - poisons the
 process: it is dropped and every request in flight is rejected.

 The state machine takes one event at a time: a request, a chunk of output, the
 end of a process, a timer, the two halves of `close`. Events of a process that
 was dropped are ignored. `Transport` is the object whose handlers these are.
 */
module Client {
  import opened Bytes
  import opened Text
  import Utf8

  /** A parsed response line; absent fields are `None`. */
  datatype Msg = NotObject | Object(version: Option<int>, id: Option<string>, error: Option<string>)

  /** `parse` is `JSON.parse`, `None` when it throws. */
  datatype Config = Config(parse: string -> Option<Msg>, maxLine: nat, respawn: bool)

  datatype Error = Closed | Timeout | Protocol | Unavailable | Remote(code: string)

  datatype Outcome = Resolved(line: string) | Rejected(error: Error)

  /** How the promise of request number `id` was settled. */
  datatype Settlement = Settlement(id: nat, outcome: Outcome)

  /**
   The fields of the client. `proc` numbers the processes spawned, `queue`
   holds the requests in flight, `settled` what became of the others, oldest first.
   */
  datatype State = State(
    proc: Option<nat>,
    spawned: nat,
    queue: seq<nat>,
    buffer: string,
    seqNo: nat,
    closed: bool,
    broken: Option<Error>,
    settled: seq<Settlement>)

  const INITIAL := State(None, 0, [], "", 0, false, None, [])

  const PROTOCOL_VERSION := 1

  function RequestId(n: nat): string {
    "r" + Decimal(n)
  }

  /** What `trim` strips. */
  predicate IsSpace(c: char) {
    var n := c as int;
    9 <= n <= 13 || n in {0x20, 0xA0, 0x1680, 0x2028, 0x2029, 0x202F, 0x205F, 0x3000, 0xFEFF} || 0x2000 <= n <= 0x200A
  }

  predicate IsBlank(s: string) {
    forall i :: 0 <= i < |s| ==> IsSpace(s[i])
  }

  function WithoutCr(s: string): string {
    if s != "" && s[|s| - 1] == '\r' then s[..|s| - 1] else s
  }

  /** The position of the first newline, or the length when there is none. */
  function LineEnd(s: string): (n: nat)
    ensures n <= |s| && (n < |s| ==> s[n] == '\n') && forall i :: 0 <= i < n ==> s[i] != '\n'
  {
    if s == "" || s[0] == '\n' then 0 else 1 + LineEnd(s[1..])
  }

  predicate TooLong(c: Config, partial: string) {
    |Utf8.Encode(partial)| > c.maxLine
  }

  // ------------------------------------------------------------------
  // Transitions

  function AllRejected(queue: seq<nat>, e: Error): seq<Settlement> {
    seq(|queue|, i requires 0 <= i < |queue| => Settlement(queue[i], Rejected(e)))
  }

  function FailAll(st: State, e: Error): State {
    st.(queue := [], settled := st.settled + AllRejected(st.queue, e))
  }

  function Poison(st: State, e: Error): State {
    FailAll(st.(proc := None, broken := Some(e), buffer := ""), e)
  }

  /** The line answers the request at the head of the queue. */
  predicate Answers(c: Config, line: string, id: nat) {
    var msg := c.parse(line);
    && msg.Some? && msg.value.Object?
    && msg.value.version == Some(PROTOCOL_VERSION) && msg.value.id == Some(RequestId(id))
  }

  function OutcomeOf(c: Config, line: string): Outcome
    requires c.parse(line).Some? && c.parse(line).value.Object?
  {
    var error := c.parse(line).value.error;
    if error.Some? then Rejected(Remote(error.value)) else Resolved(line)
  }

  function OnLine(c: Config, st: State, line: string): State {
    if st.queue == [] || !Answers(c, line, st.queue[0]) then Poison(st, Protocol)
    else st.(queue := st.queue[1..], settled := st.settled + [Settlement(st.queue[0], OutcomeOf(c, line))])
  }

  /** Take the first complete line off the buffer; a blank one is skipped. */
  function TakeLine(c: Config, st: State): (next: State)
    requires LineEnd(st.buffer) < |st.buffer|
    ensures |next.buffer| < |st.buffer|
  {
    var nl := LineEnd(st.buffer);
    var line, rest := WithoutCr(st.buffer[..nl]), st.(buffer := st.buffer[nl + 1..]);
    if IsBlank(line) then rest else OnLine(c, rest, line)
  }

  /** Take lines until none is left or one poisons the process. */
  function Drain(c: Config, st: State): State
    decreases |st.buffer|
  {
    if LineEnd(st.buffer) == |st.buffer| then
      if TooLong(c, st.buffer) then Poison(st, Protocol) else st
    else
      var next := TakeLine(c, st);
      if next.proc.None? then next else Drain(c, next)
  }

  /** Draining, one line at a time. */
  lemma DrainOne(c: Config, st: State)
    requires LineEnd(st.buffer) < |st.buffer| && st.proc.Some?
    ensures var nl := LineEnd(st.buffer);
            var raw, rest := WithoutCr(st.buffer[..nl]), st.(buffer := st.buffer[nl + 1..]);
            var next := OnLine(c, rest, raw);
            && Drain(c, st) == (if IsBlank(raw) then Drain(c, rest) else if next.proc.None? then next else Drain(c, next))
            && (next.proc.Some? ==> next.buffer == rest.buffer)
  {
  }

  function OnData(c: Config, st: State, chunk: string): State {
    Drain(c, st.(buffer := st.buffer + chunk))
  }

  /** May a request be sent at all? */
  predicate Open(c: Config, st: State) {
    !st.closed && (st.broken.None? || c.respawn)
  }

  function Spawned(st: State): State {
    if st.proc.Some? then st else st.(proc := Some(st.spawned), spawned := st.spawned + 1, broken := None, buffer := "")
  }

  function Enqueued(st: State): State {
    st.(seqNo := st.seqNo + 1, queue := st.queue + [st.seqNo + 1])
  }

  /** A request that is refused at once leaves no trace. */
  function Request(c: Config, st: State, launches: bool, writable: bool): State {
    if !Open(c, st) || (st.proc.None? && !launches) then st
    else
      var sent := Enqueued(Spawned(st));
      if writable then sent else Poison(sent, Protocol)
  }

  /**
   What can happen. Events of a process carry its number: those of a process
   already dropped are ignored. A timer fires only for a request in flight.
   `close` sets `closed` at once and finishes when the process is gone.
   */
  datatype Event =
    | Send(launches: bool, writable: bool)
    | Data(p: nat, chunk: string)
    | Gone(p: nat, error: Error)
    | Expire(id: nat)
    | CloseBegin
    | CloseEnd

  function Step(c: Config, st: State, e: Event): State {
    match e
    case Send(launches, writable) => Request(c, st, launches, writable)
    case Data(p, chunk) => if st.proc == Some(p) then OnData(c, st, chunk) else st
    case Gone(p, error) => if st.proc == Some(p) then Poison(st, error) else st
    case Expire(id) => if id in st.queue then Poison(st, Timeout) else st
    case CloseBegin => st.(closed := true)
    case CloseEnd => if st.closed then FailAll(st, Closed).(proc := None) else st
  }

  function Run(c: Config, es: seq<Event>): State {
    if es == [] then INITIAL else Step(c, Run(c, es[..|es| - 1]), es[|es| - 1])
  }

  // ------------------------------------------------------------------
  // The invariant

  function Ids(settled: seq<Settlement>): (ids: seq<nat>)
    ensures |ids| == |settled| && forall i :: 0 <= i < |ids| ==> ids[i] == settled[i].id
  {
    seq(|settled|, i requires 0 <= i < |settled| => settled[i].id)
  }

  /** 1, 2, ..., n. */
  function UpTo(n: nat): (ids: seq<nat>)
    ensures |ids| == n && forall i :: 0 <= i < n ==> ids[i] == i + 1
  {
    seq(n, i => i + 1)
  }

  /** The line is a response of version 1 to request `id`, with or without an error. */
  ghost predicate IsResponse(c: Config, line: string, id: nat, error: Option<string>) {
    c.parse(line) == Some(Object(Some(1), Some("r" + Decimal(id)), error))
  }

  /** A request is resolved only with a response that carries its own id and no error. */
  ghost predicate OwnAnswers(c: Config, settled: seq<Settlement>) {
    forall i :: 0 <= i < |settled| && settled[i].outcome.Resolved? ==>
      IsResponse(c, settled[i].outcome.line, settled[i].id, None)
  }

  /**
   The requests settled, in the order they were settled, followed by the
   requests in flight, are exactly the requests sent, in the order they were
   sent. So each is settled at most once, first in first out, and unsettled
   means in the queue.
   */
  ghost predicate InOrder(st: State) {
    Ids(st.settled) + st.queue == UpTo(st.seqNo)
  }

  ghost predicate Inv(c: Config, st: State) {
    && InOrder(st)
    && OwnAnswers(c, st.settled)
    && (st.proc.None? ==> st.queue == [])
    && (!c.respawn && st.spawned > 0 ==> st.spawned == 1 && (st.proc.Some? || st.closed || st.broken.Some?))
  }

  /** What a step never does: forget a settlement or reopen a closed client. */
  ghost predicate Extends(st: State, st': State) {
    && st.settled <= st'.settled && st.seqNo <= st'.seqNo && st.spawned <= st'.spawned
    && (st.closed ==> st'.closed && st'.seqNo == st.seqNo && st'.spawned == st.spawned)
    && (st.closed && st.proc.None? ==> st'.proc.None?)
  }

  lemma FailAllKeeps(c: Config, st: State, e: Error)
    requires InOrder(st) && OwnAnswers(c, st.settled)
    ensures var st' := FailAll(st, e);
            InOrder(st') && OwnAnswers(c, st'.settled) && st'.queue == [] && st.settled <= st'.settled
  {
    var st' := FailAll(st, e);
    assert Ids(st'.settled) == Ids(st.settled) + st.queue;
  }

  lemma OnLineKeeps(c: Config, st: State, line: string)
    requires Inv(c, st) && st.proc.Some?
    ensures Inv(c, OnLine(c, st, line)) && Extends(st, OnLine(c, st, line))
  {
    if st.queue == [] || !Answers(c, line, st.queue[0]) {
      FailAllKeeps(c, st.(proc := None, broken := Some(Protocol), buffer := ""), Protocol);
    } else {
      var st' := OnLine(c, st, line);
      assert Ids(st'.settled) == Ids(st.settled) + [st.queue[0]];
      assert Ids(st'.settled) + st'.queue == Ids(st.settled) + st.queue;
    }
  }

  lemma TakeLineKeeps(c: Config, st: State)
    requires Inv(c, st) && st.proc.Some? && LineEnd(st.buffer) < |st.buffer|
    ensures Inv(c, TakeLine(c, st)) && Extends(st, TakeLine(c, st))
  {
    var nl := LineEnd(st.buffer);
    OnLineKeeps(c, st.(buffer := st.buffer[nl + 1..]), WithoutCr(st.buffer[..nl]));
  }

  lemma {:induction false} DrainKeeps(c: Config, st: State)
    requires Inv(c, st) && st.proc.Some?
    ensures Inv(c, Drain(c, st)) && Extends(st, Drain(c, st))
    decreases |st.buffer|
  {
    if LineEnd(st.buffer) == |st.buffer| {
      FailAllKeeps(c, st.(proc := None, broken := Some(Protocol), buffer := ""), Protocol);
    } else {
      TakeLineKeeps(c, st);
      var next := TakeLine(c, st);
      if next.proc.Some? {
        DrainKeeps(c, next);
      }
    }
  }

  lemma RequestKeeps(c: Config, st: State, launches: bool, writable: bool)
    requires Inv(c, st)
    ensures Inv(c, Request(c, st, launches, writable)) && Extends(st, Request(c, st, launches, writable))
  {
    if Open(c, st) && (st.proc.Some? || launches) {
      var sent := Enqueued(Spawned(st));
      assert Ids(sent.settled) + sent.queue == (Ids(st.settled) + st.queue) + [sent.seqNo];
      assert UpTo(sent.seqNo) == UpTo(st.seqNo) + [sent.seqNo];
      FailAllKeeps(c, sent.(proc := None, broken := Some(Protocol), buffer := ""), Protocol);
    }
  }

  lemma StepKeeps(c: Config, st: State, e: Event)
    requires Inv(c, st)
    ensures Inv(c, Step(c, st, e)) && Extends(st, Step(c, st, e))
  {
    match e
    case Send(launches, writable) => RequestKeeps(c, st, launches, writable);
    case Data(p, chunk) =>
      if st.proc == Some(p) {
        DrainKeeps(c, st.(buffer := st.buffer + chunk));
      }
    case Gone(_, error) => FailAllKeeps(c, st.(proc := None, broken := Some(error), buffer := ""), error);
    case Expire(_) => FailAllKeeps(c, st.(proc := None, broken := Some(Timeout), buffer := ""), Timeout);
    case CloseBegin =>
    case CloseEnd => FailAllKeeps(c, st, Closed);
  }

  /** Over every run: the invariant holds, and no settlement is ever taken back. */
  lemma {:induction false} RunKeeps(c: Config, es: seq<Event>)
    ensures Inv(c, Run(c, es))
    ensures es != [] ==> Extends(Run(c, es[..|es| - 1]), Run(c, es))
  {
    if es == [] {
    } else {
      RunKeeps(c, es[..|es| - 1]);
      StepKeeps(c, Run(c, es[..|es| - 1]), es[|es| - 1]);
    }
  }

  /** No request is settled twice, and none that is settled is still in flight. */
  lemma SettledOnce(c: Config, st: State)
    requires Inv(c, st)
    ensures forall i, j :: 0 <= i < j < |st.settled| ==> st.settled[i].id < st.settled[j].id
    ensures forall i, j :: 0 <= i < |st.settled| && 0 <= j < |st.queue| ==> st.settled[i].id < st.queue[j]
    ensures forall id: nat :: 1 <= id <= st.seqNo ==>
              (id in st.queue <==> forall i :: 0 <= i < |st.settled| ==> st.settled[i].id != id)
  {
    var n, all := |st.settled|, Ids(st.settled) + st.queue;
    assert forall i :: 0 <= i < n ==> all[i] == st.settled[i].id;
    assert forall j :: 0 <= j < |st.queue| ==> all[n + j] == st.queue[j];
    forall id: nat | 1 <= id <= st.seqNo
      ensures id in st.queue <==> forall i :: 0 <= i < n ==> st.settled[i].id != id
    {
      assert all[id - 1] == id;
      if id - 1 >= n {
        assert st.queue[id - 1 - n] == id;
      }
    }
  }

  // ------------------------------------------------------------------
  // What each event does

  /** The process is dropped and every request in flight is rejected, oldest first, with the error. */
  ghost predicate Drops(st: State, st': State, e: Error) {
    && st'.proc.None? && st'.queue == [] && st'.buffer == "" && st'.broken == Some(e)
    && st'.spawned == st.spawned && st'.seqNo == st.seqNo && st'.closed == st.closed
    && Rejects(st, st', e)
  }

  ghost predicate Rejects(st: State, st': State, e: Error) {
    && st.settled <= st'.settled && |st'.settled| == |st.settled| + |st.queue|
    && forall i :: 0 <= i < |st.queue| ==> st'.settled[|st.settled| + i] == Settlement(st.queue[i], Rejected(e))
  }

  /** The first line of the text, where it ends in a newline. */
  lemma {:induction false} LineEndAt(line: string, rest: string)
    requires '\n' !in line
    ensures LineEnd(line + "\n" + rest) == |line|
  {
    var s := line + "\n" + rest;
    if line == "" {
    } else {
      assert s[1..] == line[1..] + "\n" + rest;
      LineEndAt(line[1..], rest);
    }
  }

  /** The buffer holds one line and its end, which may be a carriage return and a newline. */
  ghost predicate HoldsLine(text: string, line: string) {
    '\n' !in line && ((text == line + "\n" && (line == "" || line[|line| - 1] != '\r')) || text == line + "\r\n")
  }

  lemma LineIsTaken(c: Config, st: State, line: string)
    requires HoldsLine(st.buffer, line)
    ensures LineEnd(st.buffer) < |st.buffer|
    ensures TakeLine(c, st) == if IsBlank(line) then st.(buffer := "") else OnLine(c, st.(buffer := ""), line)
  {
    var b := st.buffer;
    if b == line + "\r\n" {
      LineEndAt(line + "\r", "");
      assert b == line + "\r" + "\n" + "";
      assert b[..|line| + 1] == line + "\r" && (line + "\r")[..|line|] == line;
    } else {
      LineEndAt(line, "");
      assert b == line + "\n" + "";
      assert b[..|line|] == line;
    }
  }

  /** With one line in the buffer, draining takes it and has nothing left to take. */
  lemma DrainsLine(c: Config, st: State, line: string)
    requires HoldsLine(st.buffer, line) && st.proc.Some?
    ensures Drain(c, st) == if IsBlank(line) then st.(buffer := "") else OnLine(c, st.(buffer := ""), line)
  {
    LineIsTaken(c, st, line);
    var next := TakeLine(c, st);
    if next.proc.Some? {
      assert next.buffer == "" && LineEnd(next.buffer) == 0 && Utf8.Encode(next.buffer) == [];
      assert Drain(c, next) == next;
    }
  }

  /**
   A line that answers the oldest request settles that one and no other: with
   the line itself, or with the error code in it. The process stays up.
   */
  lemma ResponseSettles(c: Config, st: State, p: nat, chunk: string, line: string, error: Option<string>)
    requires st.proc == Some(p) && st.queue != [] && HoldsLine(st.buffer + chunk, line) && !IsBlank(line)
    requires IsResponse(c, line, st.queue[0], error)
    ensures var outcome := if error.None? then Resolved(line) else Rejected(Remote(error.value));
            Step(c, st, Data(p, chunk)) ==
            st.(buffer := "", queue := st.queue[1..], settled := st.settled + [Settlement(st.queue[0], outcome)])
  {
    DrainsLine(c, st.(buffer := st.buffer + chunk), line);
  }

  /** Any other line with something in it drops the process; a blank one does nothing. */
  lemma OtherLineDrops(c: Config, st: State, p: nat, chunk: string, line: string)
    requires st.proc == Some(p) && HoldsLine(st.buffer + chunk, line)
    requires st.queue == [] || forall error :: !IsResponse(c, line, st.queue[0], error)
    ensures var st' := Step(c, st, Data(p, chunk));
            if IsBlank(line) then st' == st.(buffer := "") else Drops(st, st', Protocol)
  {
    DrainsLine(c, st.(buffer := st.buffer + chunk), line);
    if st.queue != [] && Answers(c, line, st.queue[0]) {
      assert IsResponse(c, line, st.queue[0], c.parse(line).value.error);
    }
  }

  /** Spaces, tabs and carriage returns alone are blank; a line with a brace, a quote or a letter in it is not. */
  lemma BlankIs(line: string)
    ensures (forall i :: 0 <= i < |line| ==> line[i] in " \t\r") ==> IsBlank(line)
    ensures (exists i :: 0 <= i < |line| && '!' <= line[i] <= '~') ==> !IsBlank(line)
  {
    if forall i :: 0 <= i < |line| ==> line[i] in " \t\r" {
      forall i | 0 <= i < |line| ensures IsSpace(line[i]) {
        assert line[i] in " \t\r";
      }
    }
  }

  /** A request joins the end of the queue of a live process, the one there is or a new one with an empty buffer. */
  ghost predicate Joins(st: State, st': State) {
    && st'.queue == st.queue + [st.seqNo + 1] && st'.seqNo == st.seqNo + 1
    && st'.closed == st.closed && st'.settled == st.settled
    && if st.proc.Some? then st'.proc == st.proc && st'.spawned == st.spawned && st'.buffer == st.buffer
                             && st'.broken == st.broken
       else st'.proc == Some(st.spawned) && st'.spawned == st.spawned + 1 && st'.buffer == "" && st'.broken.None?
  }

  /**
   The other events: a request is sent, or drops the process when it cannot be
   written, or is refused; a dying process and a timer that runs out drop the
   process; what comes of a process already dropped, or of a timer already
   cleared, is ignored; a closed client rejects what is left.
   */
  lemma EventSays(c: Config, st: State, e: Event)
    requires !e.Data?
    ensures var st' := Step(c, st, e);
            match e
            case Send(launches, writable) =>
              if st.closed || (st.broken.Some? && !c.respawn) || (st.proc.None? && !launches) then st' == st
              else if writable then Joins(st, st')
              else exists sent :: Joins(st, sent) && Drops(sent, st', Protocol)
            case Gone(p, error) => if st.proc == Some(p) then Drops(st, st', error) else st' == st
            case Expire(id) => if id in st.queue then Drops(st, st', Timeout) else st' == st
            case CloseBegin => st' == st.(closed := true)
            case CloseEnd =>
              if !st.closed then st' == st
              else Rejects(st, st', Closed) && st'.queue == [] && st'.proc.None? && st'.closed
            case _ => true
  {
    if e.Send? {
      SendJoins(c, st, e.launches);
    }
  }

  lemma SendJoins(c: Config, st: State, launches: bool)
    ensures Open(c, st) && (st.proc.Some? || launches) ==>
              var sent := Enqueued(Spawned(st));
              Joins(st, sent) && Drops(sent, Poison(sent, Protocol), Protocol)
  {
  }

  /** Text without a newline waits in the buffer, unless its bytes are over the limit. */
  lemma PartialWaits(c: Config, st: State, p: nat, chunk: string)
    requires st.proc == Some(p) && '\n' !in st.buffer + chunk
    ensures var st' := Step(c, st, Data(p, chunk));
            if |Utf8.Encode(st.buffer + chunk)| > c.maxLine then Drops(st, st', Protocol)
            else st' == st.(buffer := st.buffer + chunk)
  {
    var b := st.buffer + chunk;
    assert LineEnd(b) < |b| ==> b[LineEnd(b)] == '\n';
    assert Drain(c, st.(buffer := b)) == if TooLong(c, b) then Poison(st.(buffer := b), Protocol) else st.(buffer := b);
  }

  lemma StaleDataIgnored(c: Config, st: State, p: nat, chunk: string)
    requires st.proc != Some(p)
    ensures Step(c, st, Data(p, chunk)) == st
  {
  }

  // ------------------------------------------------------------------
  // Chunking

  /** The unfinished line at the end of the text. */
  function Partial(s: string): (r: string)
    decreases |s|
  {
    var nl := LineEnd(s);
    if nl == |s| then s else Partial(s[nl + 1..])
  }

  lemma {:induction false} LineEndConcat(a: string, b: string)
    requires LineEnd(a) < |a|
    ensures LineEnd(a + b) == LineEnd(a)
    ensures (a + b)[..LineEnd(a)] == a[..LineEnd(a)] && (a + b)[LineEnd(a) + 1..] == a[LineEnd(a) + 1..] + b
  {
    if a[0] == '\n' {
    } else {
      LineEndConcat(a[1..], b);
      assert (a + b)[1..] == a[1..] + b;
    }
  }

  /** A line never looks at the bytes after it. */
  lemma OnLineBuffer(c: Config, st: State, line: string, more: string)
    requires st.proc.Some?
    ensures var next, next' := OnLine(c, st, line), OnLine(c, st.(buffer := more), line);
            if next.proc.None? then next' == next else next' == next.(buffer := more) && next.proc == st.proc
  {
  }

  lemma TakeLineConcat(c: Config, st: State, more: string)
    requires st.proc.Some? && LineEnd(st.buffer) < |st.buffer|
    ensures LineEnd(st.buffer + more) < |st.buffer + more|
    ensures var next, next' := TakeLine(c, st), TakeLine(c, st.(buffer := st.buffer + more));
            if next.proc.None? then next' == next
            else next' == next.(buffer := next.buffer + more) && next.proc == st.proc
                 && next.buffer == st.buffer[LineEnd(st.buffer) + 1..]
  {
    var a, nl := st.buffer, LineEnd(st.buffer);
    LineEndConcat(a, more);
    OnLineBuffer(c, st.(buffer := a[nl + 1..]), WithoutCr(a[..nl]), a[nl + 1..] + more);
  }

  /** Draining, then adding text and draining again, is draining it all. */
  lemma {:induction false} DrainTwice(c: Config, st: State, more: string)
    requires st.proc.Some? && !TooLong(c, Partial(st.buffer))
    ensures var once := Drain(c, st);
            Drain(c, st.(buffer := st.buffer + more)) == if once.proc == st.proc then OnData(c, once, more) else once
    decreases |st.buffer|
  {
    if LineEnd(st.buffer) == |st.buffer| {
    } else {
      TakeLineConcat(c, st, more);
      var next := TakeLine(c, st);
      if next.proc.Some? {
        DrainTwice(c, next, more);
      }
    }
  }

  /** An unfinished line over the limit never survives: the process is dropped, whatever came before it. */
  lemma {:induction false} OverlongPoisons(c: Config, st: State)
    requires st.proc.Some? && TooLong(c, Partial(st.buffer))
    ensures var next := Drain(c, st);
            next.proc.None? && next.queue == [] && next.broken == Some(Protocol)
    decreases |st.buffer|
  {
    if LineEnd(st.buffer) == |st.buffer| {
    } else {
      TakeLineConcat(c, st, "");
      var next := TakeLine(c, st);
      if next.proc.Some? {
        OverlongPoisons(c, next);
      }
    }
  }

  function Joined(chunks: seq<string>): string {
    if chunks == [] then "" else Joined(chunks[..|chunks| - 1]) + chunks[|chunks| - 1]
  }

  /** The chunks as data events of process `p`, one after the other. */
  function Fed(c: Config, st: State, p: nat, chunks: seq<string>): State {
    if chunks == [] then st
    else Step(c, Fed(c, st, p, chunks[..|chunks| - 1]), Data(p, chunks[|chunks| - 1]))
  }

  /** At no boundary between two chunks is the unfinished line over the limit. */
  ghost predicate ShortPartials(c: Config, st: State, chunks: seq<string>) {
    forall k :: 0 <= k < |chunks| ==> !TooLong(c, Partial(st.buffer + Joined(chunks[..k])))
  }

  /** How the output is cut into chunks makes no difference: the same lines, the same settlements, the same state. */
  lemma {:induction false} ChunkingIsInvisible(c: Config, st: State, p: nat, chunks: seq<string>)
    requires st.proc == Some(p) && ShortPartials(c, st, chunks) && chunks != []
    ensures Fed(c, st, p, chunks) == Step(c, st, Data(p, Joined(chunks)))
    decreases |chunks|
  {
    var n := |chunks| - 1;
    var init, last := chunks[..n], chunks[n];
    if n == 0 {
      assert Joined(init) == "" && Joined(chunks) == last;
    } else {
      ShorterPartials(c, st, chunks);
      ChunkingIsInvisible(c, st, p, init);
      OneMoreChunk(c, st, p, Joined(init), last);
    }
  }

  lemma ShorterPartials(c: Config, st: State, chunks: seq<string>)
    requires ShortPartials(c, st, chunks) && chunks != []
    ensures ShortPartials(c, st, chunks[..|chunks| - 1])
  {
    var init := chunks[..|chunks| - 1];
    forall k | 0 <= k < |init| ensures !TooLong(c, Partial(st.buffer + Joined(init[..k]))) {
      assert init[..k] == chunks[..k];
    }
  }

  lemma OneMoreChunk(c: Config, st: State, p: nat, text: string, last: string)
    requires st.proc == Some(p) && !TooLong(c, Partial(st.buffer + text))
    ensures Step(c, Step(c, st, Data(p, text)), Data(p, last)) == Step(c, st, Data(p, text + last))
  {
    var fed := st.(buffer := st.buffer + text);
    DrainTwice(c, fed, last);
    Regroup(st.buffer, text, last);
  }

  // ------------------------------------------------------------------
  // The client as the object it is

  class Transport {
    const c: Config
    var proc: Option<nat>
    var spawned: nat
    var queue: seq<nat>
    var buffer: string
    var seqNo: nat
    var closed: bool
    var broken: Option<Error>
    var settled: seq<Settlement>

    ghost function Current(): State
      reads this
    {
      State(proc, spawned, queue, buffer, seqNo, closed, broken, settled)
    }

    constructor (c: Config)
      ensures this.c == c && Current() == INITIAL
    {
      this.c := c;
      proc, spawned, queue, buffer := None, 0, [], "";
      seqNo, closed, broken, settled := 0, false, None, [];
    }

    method FailPending(e: Error)
      modifies this
      ensures Current() == FailAll(old(Current()), e)
    {
      var pending := queue;
      queue := [];
      for i := 0 to |pending|
        invariant Current() == old(Current()).(queue := [], settled := old(settled) + AllRejected(pending, e)[..i])
      {
        settled := settled + [Settlement(pending[i], Rejected(e))];
        assert AllRejected(pending, e)[..i + 1] == AllRejected(pending, e)[..i] + [Settlement(pending[i], Rejected(e))];
      }
      TakeAll(AllRejected(pending, e));
    }

    method Break(e: Error)
      modifies this
      ensures Current() == Poison(old(Current()), e)
    {
      proc := None;
      broken := Some(e);
      buffer := "";
      FailPending(e);
    }

    method Line(raw: string)
      modifies this
      ensures Current() == OnLine(c, old(Current()), raw)
    {
      var msg := c.parse(raw);
      if msg.None? { Break(Protocol); return; }
      if queue == [] { Break(Protocol); return; }
      var head := queue[0];
      if !msg.value.Object? || msg.value.version != Some(PROTOCOL_VERSION) || msg.value.id != Some(RequestId(head)) {
        Break(Protocol);
        return;
      }
      queue := queue[1..];
      if msg.value.error.Some? {
        settled := settled + [Settlement(head, Rejected(Remote(msg.value.error.value)))];
        return;
      }
      settled := settled + [Settlement(head, Resolved(raw))];
    }

    method Receive(chunk: string)
      requires proc.Some?
      modifies this
      ensures Current() == OnData(c, old(Current()), chunk)
    {
      buffer := buffer + chunk;
      ghost var goal := Drain(c, Current());
      var nl := LineEnd(buffer);
      while nl < |buffer|
        invariant nl == LineEnd(buffer) && proc.Some? && Drain(c, Current()) == goal
        decreases |buffer|
      {
        DrainOne(c, Current());
        var raw := WithoutCr(buffer[..nl]);
        buffer := buffer[nl + 1..];
        if !IsBlank(raw) {
          Line(raw);
          if proc.None? { return; }
        }
        nl := LineEnd(buffer);
      }
      if |Utf8.Encode(buffer)| > c.maxLine {
        Break(Protocol);
      }
    }

    method Call(launches: bool, writable: bool) returns (refused: Option<Error>)
      modifies this
      ensures Current() == Request(c, old(Current()), launches, writable)
      ensures refused.Some? <==> Current().seqNo == old(seqNo)
      ensures refused == if old(closed) then Some(Closed)
                         else if old(broken).Some? && !c.respawn then old(broken)
                         else if old(proc).None? && !launches then Some(Unavailable) else None
    {
      if closed { return Some(Closed); }
      if broken.Some? && !c.respawn { return broken; }
      if proc.None? {
        if !launches { return Some(Unavailable); }
        proc, spawned, broken, buffer := Some(spawned), spawned + 1, None, "";
      }
      seqNo := seqNo + 1;
      queue := queue + [seqNo];
      if !writable {
        Break(Protocol);
      }
      return None;
    }

    /** A timer that was not cleared. */
    method TimedOut(id: nat)
      modifies this
      ensures Current() == Step(c, old(Current()), Expire(id))
    {
      if id in queue { Break(Timeout); }
    }

    method OnEvent(e: Event)
      modifies this
      ensures Current() == Step(c, old(Current()), e)
    {
      match e
      case Send(launches, writable) => var _ := Call(launches, writable);
      case Data(p, chunk) => if proc == Some(p) { Receive(chunk); }
      case Gone(p, error) => if proc == Some(p) { Break(error); }
      case Expire(id) => TimedOut(id);
      case CloseBegin => closed := true;
      case CloseEnd =>
        if closed {
          FailPending(Closed);
          proc := None;
        }
    }
  }
}
