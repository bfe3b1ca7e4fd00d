/**
 Incremental scanning of a line-oriented file, independent of what a line
 means: a scan that remembers its offset can stop and resume while the file
 grows behind it.
 */
module LineScan {
  import opened Bytes
  import opened Ledger

  const NL: byte := 10

  predicate Closed(b: Bytes) {
    b == [] || b[|b| - 1] == NL
  }

  /** What a handle remembers of the file. */
  datatype ChainState = ChainState(offset: nat, len: nat, tipHash: string, tipRecord: Option<Record>)

  const EMPTY := ChainState(0, 0, GENESIS, None)

  /** Ran to the end; stopped at bytes that are no record; found a broken chain or corruption. */
  datatype Outcome = Clean | Torn | Failed

  /** How the first line is taken: skipped, consumed as a record, or a reason to stop. */
  datatype Line = Blank(n: nat) | Entry(n: nat, rec: Record) | Stop(outcome: Outcome)

  /**
   The rules any way of taking lines obeys: a taken line ends at its newline or
   at the end of the bytes; what follows a terminated line is irrelevant to it;
   and a newline that arrives late only lengthens the line it ends.
   */
  ghost predicate TakesLines(t: (ChainState, Bytes) -> Line) {
    && (forall st, b {:trigger t(st, b)} :: b != [] && !t(st, b).Stop? ==>
          && 1 <= t(st, b).n <= |b|
          && (b[t(st, b).n - 1] == NL || t(st, b).n == |b|))
    && (forall st, b {:trigger t(st, b)} :: t(st, b).Stop? ==> t(st, b).outcome != Clean)
    && (forall st, x {:trigger t(st, x)} :: x != [] && x[0] == NL ==> t(st, x) == Blank(1))
    && (forall st, a, x {:trigger IgnoresRest(t, st, a, x)} :: IgnoresRest(t, st, a, x))
    && (forall st, a, x {:trigger LateNewline(t, st, a, x)} :: LateNewline(t, st, a, x))
    && (forall st, b, k: nat {:trigger CutAfter(t, st, b, k)} :: CutAfter(t, st, b, k))
  }

  ghost predicate IgnoresRest(t: (ChainState, Bytes) -> Line, st: ChainState, a: Bytes, x: Bytes) {
    var l := t(st, a);
    a != [] && !l.Stop? && 1 <= l.n <= |a| && a[l.n - 1] == NL ==> t(st, a + x) == l
  }

  ghost predicate LateNewline(t: (ChainState, Bytes) -> Line, st: ChainState, a: Bytes, x: Bytes) {
    var l := t(st, a);
    a != [] && !l.Stop? && 1 <= l.n <= |a| && a[l.n - 1] != NL && x != [] && x[0] == NL ==>
      t(st, a + x) == l.(n := |a| + 1)
  }

  ghost predicate CutAfter(t: (ChainState, Bytes) -> Line, st: ChainState, b: Bytes, k: nat) {
    var l := t(st, b);
    b != [] && !l.Stop? && l.n <= k <= |b| ==> t(st, b[..k]) == l
  }

  type Taker = t: (ChainState, Bytes) -> Line | TakesLines(t) witness (BlankTakes(); (st, b) => BlankTaker(b))

  lemma BlankTakes()
    ensures TakesLines((st, b) => BlankTaker(b))
  {
    var t := (st: ChainState, b: Bytes) => BlankTaker(b);
    assert forall st, a, x :: IgnoresRest(t, st, a, x);
    assert forall st, a, x :: LateNewline(t, st, a, x);
    assert forall st, b, k: nat :: CutAfter(t, st, b, k);
  }

  function BlankTaker(b: Bytes): Line {
    if b != [] && b[0] == NL then Blank(1) else Stop(Torn)
  }

  function After(st: ChainState, l: Line): ChainState
    requires !l.Stop?
  {
    if l.Blank? then st.(offset := st.offset + l.n)
    else ChainState(st.offset + l.n, st.len + 1, l.rec.recordHash, Some(l.rec))
  }

  function Consumed(l: Line): seq<Record> {
    if l.Entry? then [l.rec] else []
  }

  datatype Scan = Scan(st: ChainState, recs: seq<Record>, outcome: Outcome)

  /** One scan continued by another. */
  function Then(a: Scan, b: Scan): Scan {
    Scan(b.st, a.recs + b.recs, b.outcome)
  }

  /** Take lines until the bytes end or a line says stop. */
  function ScanFrom(t: Taker, st: ChainState, rest: Bytes): Scan
    decreases |rest|
  {
    if rest == [] then Scan(st, [], Clean)
    else
      var l := t(st, rest);
      if l.Stop? then Scan(st, [], l.outcome)
      else Then(Scan(After(st, l), Consumed(l), Clean), ScanFrom(t, After(st, l), rest[l.n..]))
  }

  /**
   A scan may stop after any cleanly scanned prefix and resume: at a line
   boundary always, and after an unterminated line if its newline follows.
   */
  lemma {:induction false} Resume(t: Taker, st: ChainState, a: Bytes, x: Bytes)
    requires ScanFrom(t, st, a).outcome == Clean
    requires Closed(a) || x == [] || x[0] == NL
    ensures ScanFrom(t, st, a + x) == Then(ScanFrom(t, st, a), ScanFrom(t, ScanFrom(t, st, a).st, x))
    decreases |a|
  {
    if a == [] {
      assert a + x == x;
      ThenNone(st, ScanFrom(t, st, x));
    } else if x == [] {
      assert a + x == a;
      ThenEnd(ScanFrom(t, st, a));
    } else {
      var l := CleanHead(t, st, a);
      if a[l.n - 1] == NL {
        var rest := a[l.n..];
        Resume(t, After(st, l), rest, x);
        var first := ScanFrom(t, After(st, l), rest);
        ResumeAfterLine(t, st, a, x, first, ScanFrom(t, first.st, x));
      } else {
        ResumeInLine(t, st, a, x);
      }
    }
  }

  /** The first line of what scans cleanly is taken, and what follows it scans cleanly. */
  lemma CleanHead(t: Taker, st: ChainState, a: Bytes) returns (l: Line)
    requires ScanFrom(t, st, a).outcome == Clean && a != []
    ensures l == t(st, a) && !l.Stop? && 1 <= l.n <= |a| && (a[l.n - 1] == NL || l.n == |a|)
    ensures ScanFrom(t, After(st, l), a[l.n..]).outcome == Clean
    ensures Closed(a) && a[l.n - 1] == NL ==> Closed(a[l.n..])
  {
    l := t(st, a);
    ScanSplits(t, st, a, l, ScanFrom(t, After(st, l), a[l.n..]));
  }

  lemma ThenEnd(a: Scan)
    ensures Then(a, Scan(a.st, [], Clean)) == Scan(a.st, a.recs, Clean)
  {
    assert a.recs + [] == a.recs;
  }

  /** A scan is its first line and the scan of what follows it. */
  lemma ScanSplits(t: Taker, st: ChainState, b: Bytes, l: Line, sc: Scan)
    requires b != [] && l == t(st, b) && !l.Stop? && sc == ScanFrom(t, After(st, l), b[l.n..])
    ensures ScanFrom(t, st, b) == Then(Scan(After(st, l), Consumed(l), Clean), sc)
  {
  }

  /** A scan that takes, or stops at, the line in front. */
  lemma ScanLineAhead(t: Taker, st: ChainState, line: Bytes, rest: Bytes, l: Line)
    requires line != [] && l == t(st, line + rest) && (!l.Stop? ==> l.n == |line|)
    ensures ScanFrom(t, st, line + rest) ==
            if l.Stop? then Scan(st, [], l.outcome)
            else Then(Scan(After(st, l), Consumed(l), Clean), ScanFrom(t, After(st, l), rest))
  {
    assert (line + rest)[|line|..] == rest;
  }

  lemma ScanPasses(t: Taker, st: ChainState, line: Bytes, rest: Bytes, st': ChainState)
    requires line != [] && t(st, line + rest) == Blank(|line|) && st' == st.(offset := st.offset + |line|)
    ensures ScanFrom(t, st, line + rest) == ScanFrom(t, st', rest)
  {
    ScanLineAhead(t, st, line, rest, Blank(|line|));
    ThenNone(st', ScanFrom(t, st', rest));
  }

  lemma ScanReads(t: Taker, st: ChainState, line: Bytes, rest: Bytes, rec: Record, st': ChainState)
    requires line != [] && t(st, line + rest) == Entry(|line|, rec)
    requires st' == ChainState(st.offset + |line|, st.len + 1, rec.recordHash, Some(rec))
    ensures ScanFrom(t, st, line + rest) == Then(Scan(st', [rec], Clean), ScanFrom(t, st', rest))
  {
    var l := Entry(|line|, rec);
    assert After(st, l) == st' && Consumed(l) == [rec];
    ScanLineAhead(t, st, line, rest, l);
  }

  lemma ThenNone(st: ChainState, more: Scan)
    ensures Then(Scan(st, [], Clean), more) == more
  {
    assert [] + more.recs == more.recs;
  }

  /** What scans cleanly behind a taken line scans cleanly with it. */
  lemma CleanBehind(t: Taker, st: ChainState, line: Bytes, h: Bytes, l: Line)
    requires line != [] && Closed(line) && Closed(h) && t(st, line + h) == l && !l.Stop? && l.n == |line|
    requires ScanFrom(t, After(st, l), h).outcome == Clean
    ensures ScanFrom(t, st, line + h).outcome == Clean && Closed(line + h)
    ensures ScanFrom(t, st, line + h).st == ScanFrom(t, After(st, l), h).st
  {
    ScanLineAhead(t, st, line, h, l);
    if h != [] {
      assert (line + h)[|line + h| - 1] == h[|h| - 1];
    } else {
      assert line + h == line;
    }
  }

  /** Scanning on from the state gives the goal. */
  ghost predicate LeadsTo(t: Taker, file: Bytes, st: ChainState, goal: Scan) {
    && st.offset <= |file|
    && var sc := ScanFrom(t, st, file[st.offset..]);
       sc.st == goal.st && sc.outcome == goal.outcome
  }

  lemma TakeOne(t: Taker, file: Bytes, st: ChainState, goal: Scan)
    requires LeadsTo(t, file, st, goal) && st.offset < |file|
    ensures var l := t(st, file[st.offset..]);
            if l.Stop? then goal.st == st && goal.outcome == l.outcome
            else LeadsTo(t, file, After(st, l), goal)
  {
    var rest := file[st.offset..];
    var l := t(st, rest);
    if !l.Stop? {
      TakeFrom(t, st, rest, l, goal, rest[l.n..]);
      TakeDrop(file, st.offset, l.n);
    }
  }

  lemma TakeFrom(t: Taker, st: ChainState, rest: Bytes, l: Line, goal: Scan, more: Bytes)
    requires rest != [] && l == t(st, rest) && !l.Stop? && more == rest[l.n..]
    requires ScanFrom(t, st, rest).st == goal.st && ScanFrom(t, st, rest).outcome == goal.outcome
    ensures ScanFrom(t, After(st, l), more).st == goal.st && ScanFrom(t, After(st, l), more).outcome == goal.outcome
  {
    ScanSplits(t, st, rest, l, ScanFrom(t, After(st, l), more));
  }

  lemma ResumeAfterLine(t: Taker, st: ChainState, a: Bytes, x: Bytes, first: Scan, second: Scan)
    requires a != [] && !t(st, a).Stop? && a[t(st, a).n - 1] == NL
    requires first == ScanFrom(t, After(st, t(st, a)), a[t(st, a).n..])
    requires Then(first, second) == ScanFrom(t, After(st, t(st, a)), a[t(st, a).n..] + x)
    ensures ScanFrom(t, st, a).st == first.st && ScanFrom(t, st, a + x) == Then(ScanFrom(t, st, a), second)
  {
    var l := t(st, a);
    assert IgnoresRest(t, st, a, x);
    DropConcat(a, x, l.n);
    ScanSplits(t, st, a, l, first);
    ScanSplits(t, st, a + x, l, Then(first, second));
    ThenAssociative(Scan(After(st, l), Consumed(l), Clean), first, second);
  }

  lemma ResumeInLine(t: Taker, st: ChainState, a: Bytes, x: Bytes)
    requires a != [] && !t(st, a).Stop? && a[t(st, a).n - 1] != NL && x != [] && x[0] == NL
    ensures ScanFrom(t, st, a + x) == Then(ScanFrom(t, st, a), ScanFrom(t, ScanFrom(t, st, a).st, x))
  {
    var l := t(st, a);
    TakeAll(a);
    assert LateNewline(t, st, a, x);
    LateDrop(a, x);
    assert ScanFrom(t, st, a) == Scan(After(st, l), Consumed(l), Clean);
    assert t(After(st, l), x) == Blank(1);
  }

  lemma BlankScan(t: Taker, st: ChainState)
    ensures ScanFrom(t, st, [NL]) == Scan(st.(offset := st.offset + 1), [], Clean)
  {
    assert t(st, [NL]) == Blank(1);
    TakeAll([NL]);
  }

  lemma LateDrop(a: Bytes, x: Bytes)
    requires x != []
    ensures (a + x)[|a| + 1..] == x[1..]
  {
  }

  lemma ThenNothing(a: Scan, st: ChainState, outcome: Outcome)
    ensures Then(a, Scan(st, [], outcome)) == Scan(st, a.recs, outcome)
  {
    assert a.recs + [] == a.recs;
  }

  lemma ThenAssociative(a: Scan, b: Scan, c: Scan)
    ensures Then(Then(a, b), c) == Then(a, Then(b, c))
  {
    assert a.recs + b.recs + c.recs == a.recs + (b.recs + c.recs);
  }

  /**
   The scan of `b` consumes its first `m` bytes, which scan cleanly on their
   own. Stopped cleanly, that is all of `b`; torn, it is a line boundary before
   a chunk the scan would stop at again.
   */
  ghost predicate StopsAt(t: Taker, st: ChainState, b: Bytes, m: nat) {
    m <= |b| && StopsWith(t, st, b[..m], b[m..], ScanFrom(t, st, b))
  }

  ghost predicate StopsWith(t: Taker, st: ChainState, head: Bytes, tail: Bytes, sc: Scan) {
    && sc.st.offset == st.offset + |head|
    && ScanFrom(t, st, head) == Scan(sc.st, sc.recs, Clean)
    && (sc.outcome == Clean ==> tail == [])
    && (sc.outcome == Torn ==> Closed(head) && tail != [] && ScanFrom(t, sc.st, tail) == Scan(sc.st, [], Torn))
  }

  lemma {:induction false} ScanStops(t: Taker, st: ChainState, b: Bytes) returns (m: nat)
    requires ScanFrom(t, st, b).outcome != Failed
    ensures StopsAt(t, st, b, m)
    decreases |b|
  {
    if b == [] || t(st, b).Stop? {
      StopsHere(t, st, b);
      m := 0;
    } else {
      var l := t(st, b);
      var k := ScanStops(t, After(st, l), b[l.n..]);
      m := l.n + k;
      StopsAfterLine(t, st, b, l, k, m);
    }
  }

  /** Where the scan stops, seen from behind its first line. */
  lemma StopsNext(t: Taker, st: ChainState, b: Bytes, m: nat, l: Line) returns (k: nat)
    requires b != [] && l == t(st, b) && !l.Stop? && ScanFrom(t, st, b).outcome != Failed && StopsAt(t, st, b, m)
    ensures StopsAt(t, After(st, l), b[l.n..], k) && ScanFrom(t, After(st, l), b[l.n..]).outcome != Failed
    ensures m == l.n + k && b[l.n..][k..] == b[m..]
    ensures ScanFrom(t, st, b).recs == Consumed(l) + ScanFrom(t, After(st, l), b[l.n..]).recs
  {
    ScanSplits(t, st, b, l, ScanFrom(t, After(st, l), b[l.n..]));
    k := ScanStops(t, After(st, l), b[l.n..]);
    TakeDrop(b, l.n, k);
  }

  lemma StopsAfterLine(t: Taker, st: ChainState, b: Bytes, l: Line, k: nat, m: nat)
    requires b != [] && l == t(st, b) && !l.Stop? && m == l.n + k
    requires StopsAt(t, After(st, l), b[l.n..], k)
    ensures StopsAt(t, st, b, m)
  {
    var sc := ScanFrom(t, After(st, l), b[l.n..]);
    TakeDrop(b, l.n, k);
    assert CutAfter(t, st, b, m);
    StopsLater(t, st, b[..m], b[m..], l, sc);
    ScanSplits(t, st, b, l, sc);
  }

  lemma StopsHere(t: Taker, st: ChainState, b: Bytes)
    requires b == [] || t(st, b).Stop?
    ensures StopsAt(t, st, b, 0)
  {
    TakeAll(b);
  }

  lemma StopsLater(t: Taker, st: ChainState, head: Bytes, tail: Bytes, l: Line, sc: Scan)
    requires head != [] && l == t(st, head) && !l.Stop? && StopsWith(t, After(st, l), head[l.n..], tail, sc)
    requires l.n == |head| && tail != [] ==> head[l.n - 1] == NL
    ensures StopsWith(t, st, head, tail, Then(Scan(After(st, l), Consumed(l), Clean), sc))
  {
    ScanSplits(t, st, head, l, Scan(sc.st, sc.recs, Clean));
    if sc.outcome == Torn {
      ClosedLater(head, l.n);
    }
  }

  /** What ends in a closed part is closed. */
  lemma ClosedLater(head: Bytes, n: nat)
    requires 0 < n <= |head| && Closed(head[n..]) && (n == |head| ==> head[n - 1] == NL)
    ensures Closed(head)
  {
    if n < |head| {
      assert head[n..][|head| - n - 1] == head[|head| - 1];
    }
  }

  /** A scan never goes back. */
  lemma {:induction false} ScanMoves(t: Taker, st: ChainState, b: Bytes)
    ensures ScanFrom(t, st, b).st.offset >= st.offset
    decreases |b|
  {
    if b == [] || t(st, b).Stop? {
    } else {
      var l := t(st, b);
      ScanMoves(t, After(st, l), b[l.n..]);
    }
  }

  /** What the scan reports is what it read: length, tip hash and tip record. */
  lemma {:induction false} ScanReports(t: Taker, st: ChainState, b: Bytes)
    ensures var sc := ScanFrom(t, st, b);
            && sc.st.len == st.len + |sc.recs|
            && sc.st.tipHash == (if sc.recs == [] then st.tipHash else Tip(sc.recs))
            && sc.st.tipRecord == (if sc.recs == [] then st.tipRecord else Some(sc.recs[|sc.recs| - 1]))
    decreases |b|
  {
    if b == [] {
    } else {
      var l := t(st, b);
      if !l.Stop? {
        ScanReports(t, After(st, l), b[l.n..]);
      }
    }
  }

}
