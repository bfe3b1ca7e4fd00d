/**
 The JSONL ledger file: line trimming, the incremental scan that `refresh`
 performs from a remembered offset, and the lock-free reader.
 */
module FileScan {
  import opened Bytes
  import opened Ledger
  import opened LineScan

  /** The record format of the file: JSON encoding and decoding, plus the hash suite. */
  datatype Format = Format(suite: Suite, encode: Record -> Bytes, decode: Bytes -> Option<Record>)

  predicate IsSpace(b: byte) {
    b == 32 || b == 9 || b == 10 || b == 12 || b == 13
  }

  /**
   What the file format relies on: a record decodes back from its one line,
   which starts and ends with a non-blank byte, and no proper prefix of the
   line decodes.
   */
  ghost predicate EncodesWell(f: Format, r: Record) {
    var e := f.encode(r);
    && f.decode(e) == Some(r)
    && NL !in e && e != [] && !IsSpace(e[0]) && !IsSpace(e[|e| - 1])
    && forall k :: 0 <= k < |e| ==> f.decode(e[..k]) == None
  }

  ghost predicate GoodFormat(f: Format) {
    forall r {:trigger f.encode(r)} :: EncodesWell(f, r)
  }

  // ------------------------------------------------------------------
  // Lines

  /** First non-blank position from `i` on. */
  function TextStart(b: Bytes, i: nat): (s: nat)
    requires i <= |b|
    ensures i <= s <= |b|
    decreases |b| - i
  {
    if i < |b| && IsSpace(b[i]) then TextStart(b, i + 1) else i
  }

  /** One past the last non-blank position below `j`. */
  function TextEnd(b: Bytes, j: nat): (e: nat)
    requires j <= |b|
    ensures e <= j
  {
    if j > 0 && IsSpace(b[j - 1]) then TextEnd(b, j - 1) else j
  }

  /** `trim_ascii`. */
  function Trim(b: Bytes): Bytes {
    var s, e := TextStart(b, 0), TextEnd(b, |b|);
    if s < e then b[s..e] else []
  }

  /** One past the first newline from `i` on, or the end. */
  function LineEnd(b: Bytes, i: nat): (n: nat)
    requires i <= |b|
    ensures i <= n <= |b| && (i < |b| ==> i < n)
    decreases |b| - i
  {
    if i == |b| then i else if b[i] == NL then i + 1 else LineEnd(b, i + 1)
  }

  /** Length of the chunk `read_until(b'\n')` returns: through the newline, or to the end. */
  function LineLen(b: Bytes): (n: nat)
    requires b != []
    ensures 1 <= n <= |b|
  {
    LineEnd(b, 0)
  }

  // ------------------------------------------------------------------
  // The scan

  function FirstLine(f: Format, st: ChainState, rest: Bytes): (l: Line)
    requires rest != []
    ensures !l.Stop? ==> l.n == LineLen(rest)
  {
    var n := LineLen(rest);
    var text := Trim(rest[..n]);
    if text == [] then Blank(n)
    else match f.decode(text)
      case Some(rec) => if rec.index != st.len || rec.prevHash != st.tipHash then Stop(Failed) else Entry(n, rec)
      case None => if rest[n - 1] != NL || Trim(rest[n..]) == [] then Stop(Torn) else Stop(Failed)
  }

  /** The first line of `b` is its first `n` bytes. */
  ghost predicate FirstLineIs(b: Bytes, n: nat) {
    && 1 <= n <= |b|
    && (forall i :: 0 <= i < n - 1 ==> b[i] != NL)
    && (b[n - 1] == NL || n == |b|)
  }

  lemma {:induction false} LineEndIs(b: Bytes, i: nat, n: nat)
    requires i < n && FirstLineIs(b, n)
    ensures LineEnd(b, i) == n
    decreases n - i
  {
    if i >= n - 1 {
    } else {
      LineEndIs(b, i + 1, n);
    }
  }

  lemma {:induction false} LineEndStops(b: Bytes, i: nat)
    requires i < |b| && forall j :: 0 <= j < i ==> b[j] != NL
    ensures FirstLineIs(b, LineEnd(b, i))
    decreases |b| - i
  {
    if b[i] == NL || i + 1 == |b| {
    } else {
      LineEndStops(b, i + 1);
    }
  }

  lemma LineLenIs(b: Bytes, n: nat)
    requires b != []
    ensures FirstLineIs(b, n) <==> LineLen(b) == n
  {
    LineEndStops(b, 0);
    if FirstLineIs(b, n) {
      LineEndIs(b, 0, n);
    }
  }

  lemma {:induction false} TextStartSpace(b: Bytes, x: byte, i: nat)
    requires IsSpace(x) && i <= |b|
    ensures TextStart(b + [x], i) == if TextStart(b, i) == |b| then |b| + 1 else TextStart(b, i)
    decreases |b| - i
  {
    if i < |b| {
      assert (b + [x])[i] == b[i];
      if IsSpace(b[i]) {
        TextStartSpace(b, x, i + 1);
      }
    } else {
      assert (b + [x])[i] == x;
    }
  }

  lemma {:induction false} TextEndPrefix(b: Bytes, x: Bytes, j: nat)
    requires j <= |b|
    ensures TextEnd(b + x, j) == TextEnd(b, j)
  {
    if j == 0 {
    } else {
      assert (b + x)[j - 1] == b[j - 1];
      TextEndPrefix(b, x, j - 1);
    }
  }

  /** A trailing blank does not change the text of a line. */
  lemma TrimSpace(b: Bytes, x: byte)
    requires IsSpace(x)
    ensures Trim(b + [x]) == Trim(b)
  {
    TextStartSpace(b, x, 0);
    TextEndPrefix(b, [x], |b|);
    assert (b + [x])[|b|] == x;
    assert TextEnd(b + [x], |b| + 1) == TextEnd(b, |b|);
    var s, e := TextStart(b, 0), TextEnd(b, |b|);
    if s < e {
      assert (b + [x])[s..e] == b[s..e];
    }
  }

  /** Bytes after a terminated first line do not change how it is taken. */
  lemma FirstLineStable(f: Format, st: ChainState, a: Bytes, x: Bytes)
    requires a != [] && a[LineLen(a) - 1] == NL && !FirstLine(f, st, a).Stop?
    ensures FirstLine(f, st, a + x) == FirstLine(f, st, a)
  {
    var n := LineLen(a);
    LineLenIs(a, n);
    LineLenIs(a + x, n);
    assert (a + x)[..n] == a[..n];
  }

  /** An unterminated line already consumed, and its newline seen later. */
  lemma LateNewline(f: Format, st: ChainState, a: Bytes, x: Bytes)
    requires a != [] && a[LineLen(a) - 1] != NL && !FirstLine(f, st, a).Stop?
    requires x != [] && x[0] == NL
    ensures var l := FirstLine(f, st, a);
            FirstLine(f, st, a + x) == l.(n := |a| + 1) && l.n == |a|
  {
    LineLenIs(a, LineLen(a));
    LineLenIs(a + x, |a| + 1);
    assert a[..|a|] == a;
    assert (a + x)[..|a| + 1] == a + [NL];
    TrimSpace(a, NL);
  }

  lemma EmptyLine(f: Format, st: ChainState, x: Bytes)
    requires x != [] && x[0] == NL
    ensures FirstLine(f, st, x) == Blank(1)
  {
    LineLenIs(x, 1);
    assert x[..1] == [NL];
    assert TextEnd([NL], 1) == TextEnd([NL], 0) == 0;
  }

  lemma FirstLineCut(f: Format, st: ChainState, b: Bytes, k: nat)
    requires b != [] && !FirstLine(f, st, b).Stop? && LineLen(b) <= k <= |b|
    ensures FirstLine(f, st, b[..k]) == FirstLine(f, st, b)
  {
    var n := LineLen(b);
    LineLenIs(b, n);
    LineLenIs(b[..k], n);
    assert b[..k][..n] == b[..n];
  }

  lemma TakenLines(f: Format, st: ChainState, b: Bytes)
    requires b != [] && !FirstLine(f, st, b).Stop?
    ensures var n := FirstLine(f, st, b).n; 1 <= n <= |b| && (b[n - 1] == NL || n == |b|)
  {
    LineLenIs(b, LineLen(b));
  }

  /** `refresh`'s way of taking lines obeys the rules. */
  lemma TakesFirstLines(f: Format)
    ensures TakesLines((st, b) => if b == [] then Stop(Torn) else FirstLine(f, st, b))
  {
    var t := (st: ChainState, b: Bytes) => if b == [] then Stop(Torn) else FirstLine(f, st, b);
    forall st, b | b != [] && !t(st, b).Stop?
      ensures 1 <= t(st, b).n <= |b| && (b[t(st, b).n - 1] == NL || t(st, b).n == |b|)
    {
      TakenLines(f, st, b);
    }
    forall st, x | x != [] && x[0] == NL ensures t(st, x) == Blank(1) {
      EmptyLine(f, st, x);
    }
    forall st, a, x ensures IgnoresRest(t, st, a, x) {
      RestIgnored(f, t, st, a, x);
    }
    forall st, a, x ensures LineScan.LateNewline(t, st, a, x) {
      NewlineLater(f, t, st, a, x);
    }
    forall st, b, k: nat ensures CutAfter(t, st, b, k) {
      if b != [] && !t(st, b).Stop? && t(st, b).n <= k <= |b| {
        FirstLineCut(f, st, b, k);
      }
    }
  }

  lemma RestIgnored(f: Format, t: (ChainState, Bytes) -> Line, st: ChainState, a: Bytes, x: Bytes)
    requires t == ((st, b) => if b == [] then Stop(Torn) else FirstLine(f, st, b))
    ensures IgnoresRest(t, st, a, x)
  {
    if a != [] && !t(st, a).Stop? && 1 <= t(st, a).n <= |a| && a[t(st, a).n - 1] == NL {
      FirstLineStable(f, st, a, x);
    }
  }

  lemma NewlineLater(f: Format, t: (ChainState, Bytes) -> Line, st: ChainState, a: Bytes, x: Bytes)
    requires t == ((st, b) => if b == [] then Stop(Torn) else FirstLine(f, st, b))
    ensures LineScan.LateNewline(t, st, a, x)
  {
    if a != [] && !t(st, a).Stop? && 1 <= t(st, a).n <= |a| && a[t(st, a).n - 1] != NL && x != [] && x[0] == NL {
      LateNewline(f, st, a, x);
    }
  }

  function Taking(f: Format): Taker {
    TakesFirstLines(f);
    (st, b) => if b == [] then Stop(Torn) else FirstLine(f, st, b)
  }

  /** Scanning the line of a record that links to the state, cut anywhere. */
  lemma ScanLine(f: Format, st: ChainState, rec: Record, k: nat)
    requires EncodesWell(f, rec) && rec.index == st.len && rec.prevHash == st.tipHash
    requires k <= |f.encode(rec)| + 1
    ensures var e := f.encode(rec);
            ScanFrom(Taking(f), st, (e + [NL])[..k]) ==
            if k == 0 then Scan(st, [], Clean)
            else if k < |e| then Scan(st, [], Torn)
            else Scan(After(st, Entry(k, rec)), [rec], Clean)
  {
    var e := f.encode(rec);
    var b := (e + [NL])[..k];
    if k == 0 {
    } else if k <= |e| {
      assert b == e[..k];
      LineLenIs(b, k);
      assert b[..k] == b && b[k..] == [];
      TrimPrefix(e, k);
    } else {
      assert b == e + [NL];
      LineLenIs(b, k);
      assert b[..k] == b && b[k..] == [];
      TrimSpace(e, NL);
      TrimPrefix(e, |e|);
    }
  }

  /** A prefix of a line trims to a shorter prefix, never to nothing. */
  lemma TrimPrefix(e: Bytes, k: nat)
    requires e != [] && !IsSpace(e[0]) && !IsSpace(e[|e| - 1]) && 1 <= k <= |e|
    ensures exists j :: 1 <= j <= k && Trim(e[..k]) == e[..j] && (k == |e| ==> j == k)
  {
    var j := TextEnd(e[..k], k);
    TextEndPositive(e[..k], k);
    assert Trim(e[..k]) == e[..k][0..j] == e[..j];
  }

  lemma {:induction false} TextEndPositive(b: Bytes, j: nat)
    requires b != [] && !IsSpace(b[0]) && 1 <= j <= |b|
    ensures TextEnd(b, j) >= 1
  {
    if j == 1 || !IsSpace(b[j - 1]) {
    } else {
      TextEndPositive(b, j - 1);
    }
  }

  // ------------------------------------------------------------------
  // Readers

  /** `record_iter`: one item per non-blank terminated line, and a last unterminated one if it decodes. */
  function ReadItems(f: Format, rest: Bytes): seq<Item>
    decreases |rest|
  {
    if rest == [] then []
    else
      var n := LineLen(rest);
      var text := Trim(rest[..n]);
      if text == [] then ReadItems(f, rest[n..])
      else match f.decode(text)
        case Some(rec) => [Ok(rec)] + ReadItems(f, rest[n..])
        case None => if rest[n - 1] != NL then [] else [Err("not a ledger record")] + ReadItems(f, rest[n..])
  }

  /** A line the scan takes, the reader yields. */
  lemma ReadsLine(f: Format, st: ChainState, b: Bytes, l: Line)
    requires b != [] && l == FirstLine(f, st, b) && !l.Stop?
    ensures ReadItems(f, b) == Wrap(Consumed(l)) + ReadItems(f, b[l.n..])
  {
    if l.Blank? {
      assert Wrap([]) + ReadItems(f, b[l.n..]) == ReadItems(f, b[l.n..]);
    } else {
      assert Wrap([l.rec]) == [Ok(l.rec)];
    }
  }

  /** A chunk that stops the scan as torn ends the reader exactly when unterminated. */
  lemma ReadsTorn(f: Format, st: ChainState, b: Bytes)
    requires b != [] && FirstLine(f, st, b) == Stop(Torn)
    ensures ReadItems(f, b) == [] <==> NL !in b
  {
    LineLenIs(b, LineLen(b));
    assert b[LineLen(b) - 1] in b;
  }

  /** The bytes that stop a scan as torn are nothing to a reader exactly when unterminated. */
  lemma TornReads(f: Format, st: ChainState, tail: Bytes)
    requires tail != [] && ScanFrom(Taking(f), st, tail) == Scan(st, [], Torn)
    ensures ReadItems(f, tail) == [] <==> NL !in tail
  {
    var l := Taking(f)(st, tail);
    assert l == FirstLine(f, st, tail);
    if l.Stop? {
      ReadsTorn(f, st, tail);
    } else {
      ScanSplits(Taking(f), st, tail, l, ScanFrom(Taking(f), After(st, l), tail[l.n..]));
      ScanMoves(Taking(f), After(st, l), tail[l.n..]);
    }
  }

  /** A lock-free reader sees the scanned records, and then what it makes of the bytes that stopped the scan. */
  lemma {:induction false} ReaderSeesScan(f: Format, st: ChainState, b: Bytes, m: nat)
    requires ScanFrom(Taking(f), st, b).outcome != Failed && StopsAt(Taking(f), st, b, m)
    ensures ReadItems(f, b) == Wrap(ScanFrom(Taking(f), st, b).recs) + ReadItems(f, b[m..])
    decreases |b|
  {
    if b == [] || Taking(f)(st, b).Stop? {
      TakeAll(b);
      assert Wrap([]) + ReadItems(f, b) == ReadItems(f, b);
    } else {
      var l := Taking(f)(st, b);
      assert l == FirstLine(f, st, b);
      var k := StopsNext(Taking(f), st, b, m, l);
      ReaderSeesScan(f, After(st, l), b[l.n..], k);
      ReadsBehind(f, st, b, l, ScanFrom(Taking(f), After(st, l), b[l.n..]).recs, ReadItems(f, b[m..]));
    }
  }

  lemma ReadsBehind(f: Format, st: ChainState, b: Bytes, l: Line, recs: seq<Record>, tail: seq<Item>)
    requires b != [] && l == FirstLine(f, st, b) && !l.Stop? && ReadItems(f, b[l.n..]) == Wrap(recs) + tail
    ensures ReadItems(f, b) == Wrap(Consumed(l) + recs) + tail
  {
    ReadsLine(f, st, b, l);
    ReadsOn(Consumed(l), recs, tail);
  }

  // ------------------------------------------------------------------
  // Lines as bytes

  /** Space, tab, newline, form feed or carriage return. */
  predicate Blank5(b: byte) {
    b == 0x20 || b == 0x09 || b == 0x0A || b == 0x0C || b == 0x0D
  }

  ghost predicate AllBlank(b: Bytes) {
    forall i :: 0 <= i < |b| ==> Blank5(b[i])
  }

  /** The part of the line from `i` to `j` is its text: blanks around it, and none at its ends. */
  ghost predicate TextAt(line: Bytes, text: Bytes, i: nat, j: nat) {
    && i <= j <= |line| && text == line[i..j]
    && AllBlank(line[..i]) && AllBlank(line[j..])
    && (i < j ==> !Blank5(line[i]) && !Blank5(line[j - 1]))
  }

  ghost predicate TextOf(line: Bytes, text: Bytes) {
    exists i: nat, j: nat :: TextAt(line, text, i, j)
  }

  /** One line of a file and what stands behind it: only the last line can lack its newline. */
  ghost predicate IsLine(line: Bytes, rest: Bytes) {
    && line != [] && (forall i :: 0 <= i < |line| - 1 ==> line[i] != NL)
    && (Closed(line) || rest == [])
  }

  /** The debris an append may cut off: an unterminated line, or a last one, that decodes to nothing. */
  ghost predicate IsDebris(f: Format, line: Bytes, rest: Bytes, text: Bytes) {
    f.decode(text) == None && (!Closed(line) || AllBlank(rest))
  }

  predicate Continues(st: ChainState, rec: Option<Record>) {
    rec.Some? && rec.value.index == st.len && rec.value.prevHash == st.tipHash
  }

  lemma {:induction false} TextStartAt(b: Bytes, i: nat, k: nat)
    requires i <= k <= |b| && (forall j :: i <= j < k ==> Blank5(b[j])) && (k < |b| ==> !Blank5(b[k]))
    ensures TextStart(b, i) == k
    decreases k - i
  {
    if i == k {
    } else {
      TextStartAt(b, i + 1, k);
    }
  }

  lemma {:induction false} TextEndAt(b: Bytes, j: nat, k: nat)
    requires k <= j <= |b| && (forall i :: k <= i < j ==> Blank5(b[i])) && (k > 0 ==> !Blank5(b[k - 1]))
    ensures TextEnd(b, j) == k
  {
    if j == k {
    } else {
      TextEndAt(b, j - 1, k);
    }
  }

  /** A line has one text, and trimming finds it. */
  lemma TrimIs(line: Bytes, text: Bytes)
    requires TextOf(line, text)
    ensures Trim(line) == text
  {
    var i: nat, j: nat :| TextAt(line, text, i, j);
    if i < j {
      TextFound(line, text, i, j);
    } else {
      NoText(line, i);
    }
  }

  lemma TextFound(line: Bytes, text: Bytes, i: nat, j: nat)
    requires TextAt(line, text, i, j) && i < j
    ensures Trim(line) == text
  {
    forall k | 0 <= k < i ensures Blank5(line[k]) {
      assert line[k] == line[..i][k];
    }
    forall k | j <= k < |line| ensures Blank5(line[k]) {
      assert line[k] == line[j..][k - j];
    }
    TextStartAt(line, 0, i);
    TextEndAt(line, |line|, j);
  }

  lemma NoText(line: Bytes, i: nat)
    requires i <= |line| && AllBlank(line[..i]) && AllBlank(line[i..])
    ensures Trim(line) == []
  {
    forall k | 0 <= k < |line| ensures Blank5(line[k]) {
      assert line[k] == if k < i then line[..i][k] else line[i..][k - i];
    }
    TextStartAt(line, 0, |line|);
  }

  lemma {:induction false} TextStartSkips(b: Bytes, i: nat, k: nat)
    requires i <= |b| && i <= k < TextStart(b, i)
    ensures Blank5(b[k])
    decreases k - i
  {
    if i == k {
    } else {
      TextStartSkips(b, i + 1, k);
    }
  }

  lemma {:induction false} TextEndSkips(b: Bytes, j: nat, k: nat)
    requires j <= |b| && TextEnd(b, j) <= k < j
    ensures Blank5(b[k])
  {
    if k == j - 1 {
    } else {
      TextEndSkips(b, j - 1, k);
    }
  }

  lemma {:induction false} TextStartStops(b: Bytes, i: nat)
    requires i <= |b| && TextStart(b, i) < |b|
    ensures !Blank5(b[TextStart(b, i)])
    decreases |b| - i
  {
    if IsSpace(b[i]) {
      TextStartStops(b, i + 1);
    }
  }

  lemma {:induction false} TextEndStops(b: Bytes, j: nat)
    requires j <= |b| && TextEnd(b, j) > 0
    ensures !Blank5(b[TextEnd(b, j) - 1])
  {
    if IsSpace(b[j - 1]) {
      TextEndStops(b, j - 1);
    }
  }

  /** Every line has a text. */
  lemma TrimText(line: Bytes)
    ensures TextOf(line, Trim(line))
  {
    var i, j := TextStart(line, 0), TextEnd(line, |line|);
    forall k | 0 <= k < i ensures Blank5(line[k]) {
      TextStartSkips(line, 0, k);
    }
    forall k | j <= k < |line| ensures Blank5(line[k]) {
      TextEndSkips(line, |line|, k);
    }
    if i < j {
      TextStartStops(line, 0);
      TextEndStops(line, |line|);
      assert TextAt(line, Trim(line), i, j);
    } else {
      forall k | 0 <= k < |line| ensures Blank5(line[k]) {
        assert k < i || k >= j;
      }
      assert line[|line|..|line|] == [];
      assert TextAt(line, [], |line|, |line|);
    }
  }

  lemma BlankIff(b: Bytes)
    ensures Trim(b) == [] <==> AllBlank(b)
  {
    TrimText(b);
    if AllBlank(b) {
      assert b[|b|..|b|] == [];
      assert TextAt(b, [], |b|, |b|);
      TrimIs(b, []);
    }
    if Trim(b) == [] {
      var i: nat, j: nat :| TextAt(b, [], i, j);
      assert forall k :: 0 <= k < i ==> b[k] == b[..i][k];
      assert forall k :: j <= k < |b| ==> b[k] == b[j..][k - j];
    }
  }

  lemma LineAhead(line: Bytes, rest: Bytes)
    requires IsLine(line, rest)
    ensures LineLen(line + rest) == |line| && (line + rest)[..|line|] == line && (line + rest)[|line|..] == rest
  {
    var b, n := line + rest, |line|;
    assert forall i :: 0 <= i < n ==> b[i] == line[i];
    LineLenIs(b, n);
  }

  /** How the first line is taken, from its bytes. */
  lemma LineTaken(f: Format, st: ChainState, line: Bytes, text: Bytes, rest: Bytes)
    requires IsLine(line, rest) && TextOf(line, text)
    ensures var rec := f.decode(text);
            Taking(f)(st, line + rest) ==
            if text == [] then Blank(|line|)
            else if Continues(st, rec) then Entry(|line|, rec.value)
            else Stop(if IsDebris(f, line, rest, text) then Torn else Failed)
  {
    LineAhead(line, rest);
    TrimIs(line, text);
    BlankIff(rest);
    assert Taking(f)(st, line + rest) == FirstLine(f, st, line + rest);
    assert (line + rest)[|line| - 1] == line[|line| - 1];
  }

  /** A blank line is passed over. */
  lemma BlankPasses(f: Format, st: ChainState, line: Bytes, rest: Bytes)
    requires IsLine(line, rest) && TextOf(line, [])
    ensures ScanFrom(Taking(f), st, line + rest) == ScanFrom(Taking(f), st.(offset := st.offset + |line|), rest)
  {
    LineTaken(f, st, line, [], rest);
    ScanPasses(Taking(f), st, line, rest, st.(offset := st.offset + |line|));
  }

  /** A record that continues the chain is read. */
  lemma RecordIsRead(f: Format, st: ChainState, line: Bytes, text: Bytes, rest: Bytes, rec: Record)
    requires IsLine(line, rest) && TextOf(line, text) && text != []
    requires f.decode(text) == Some(rec) && Continues(st, Some(rec))
    ensures var st' := ChainState(st.offset + |line|, st.len + 1, rec.recordHash, Some(rec));
            ScanFrom(Taking(f), st, line + rest) == Then(Scan(st', [rec], Clean), ScanFrom(Taking(f), st', rest))
  {
    LineTaken(f, st, line, text, rest);
    var st' := ChainState(st.offset + |line|, st.len + 1, rec.recordHash, Some(rec));
    ScanReads(Taking(f), st, line, rest, rec, st');
  }

  /**
   Any other text stops the scan: as a torn tail if it decodes to no record and
   is unterminated or nothing but blanks follow it, as a failure in every other case.
   */
  lemma OtherTextStops(f: Format, st: ChainState, line: Bytes, text: Bytes, rest: Bytes)
    requires IsLine(line, rest) && TextOf(line, text) && text != [] && !Continues(st, f.decode(text))
    ensures ScanFrom(Taking(f), st, line + rest) == Scan(st, [], if IsDebris(f, line, rest, text) then Torn else Failed)
  {
    LineTaken(f, st, line, text, rest);
    ScanLineAhead(Taking(f), st, line, rest, Stop(if IsDebris(f, line, rest, text) then Torn else Failed));
  }

  /** What the reader makes of it: it yields every record, linked or not, and an error for any other terminated line. */
  lemma LineYields(f: Format, line: Bytes, text: Bytes, rest: Bytes)
    requires IsLine(line, rest) && TextOf(line, text)
    ensures var items, more, rec := ReadItems(f, line + rest), ReadItems(f, rest), f.decode(text);
            if text == [] then items == more
            else if rec.Some? then items == [Ok(rec.value)] + more
            else if !Closed(line) then items == []
            else items == [Err("not a ledger record")] + more
  {
    LineAhead(line, rest);
    TrimIs(line, text);
    assert (line + rest)[|line| - 1] == line[|line| - 1];
    ReadsFirst(f, line + rest, |line|, text, rest);
  }

  lemma ReadsFirst(f: Format, b: Bytes, n: nat, text: Bytes, rest: Bytes)
    requires b != [] && n == LineLen(b) && Trim(b[..n]) == text && b[n..] == rest
    ensures ReadItems(f, b) == if text == [] then ReadItems(f, rest)
                               else if f.decode(text).Some? then [Ok(f.decode(text).value)] + ReadItems(f, rest)
                               else if b[n - 1] != NL then []
                               else [Err("not a ledger record")] + ReadItems(f, rest)
  {
  }

  /** Bytes in front of a line that stops the scan with the outcome. */
  ghost predicate StopsBefore(f: Format, st: ChainState, head: Bytes, line: Bytes, text: Bytes, rest: Bytes,
                              outcome: Outcome) {
    var sc := ScanFrom(Taking(f), st, head);
    && sc.outcome == Clean && Closed(head) && IsLine(line, rest) && TextOf(line, text) && text != []
    && !Continues(sc.st, f.decode(text))
    && outcome == if IsDebris(f, line, rest, text) then Torn else Failed
  }

  /** The first line of some bytes, its text, and what stands behind it. */
  lemma TakeApart(b: Bytes) returns (line: Bytes, text: Bytes, rest: Bytes)
    requires b != []
    ensures b == line + rest && IsLine(line, rest) && TextOf(line, text)
  {
    var n := LineLen(b);
    LineLenIs(b, n);
    CutInTwo(b, n);
    line, text, rest := b[..n], Trim(b[..n]), b[n..];
    TrimText(line);
  }

  lemma StopsAtOnce(f: Format, st: ChainState, line: Bytes, text: Bytes, rest: Bytes, outcome: Outcome)
    requires IsLine(line, rest) && TextOf(line, text) && text != [] && !Continues(st, f.decode(text))
    requires outcome == if IsDebris(f, line, rest, text) then Torn else Failed
    ensures StopsBefore(f, st, [], line, text, rest, outcome) && [] + (line + rest) == line + rest
  {
    assert ScanFrom(Taking(f), st, []) == Scan(st, [], Clean);
  }

  /** A scan that stops stops at a line. */
  lemma {:induction false} FindStop(f: Format, st: ChainState, b: Bytes, outcome: Outcome)
    returns (head: Bytes, line: Bytes, text: Bytes, rest: Bytes)
    requires ScanFrom(Taking(f), st, b).outcome == outcome != Clean
    ensures b == head + (line + rest) && StopsBefore(f, st, head, line, text, rest, outcome)
    decreases |b|
  {
    line, text, rest := TakeApart(b);
    LineTaken(f, st, line, text, rest);
    var l := Taking(f)(st, line + rest);
    ScanLineAhead(Taking(f), st, line, rest, l);
    if l.Stop? {
      head := [];
      StopsAtOnce(f, st, line, text, rest, outcome);
    } else {
      head, line, text, rest := FindStopBehind(f, st, line, text, rest, l, outcome);
    }
  }

  lemma {:induction false} FindStopBehind(f: Format, st: ChainState, first: Bytes, what: Bytes, b: Bytes, l: Line,
                                          outcome: Outcome)
    returns (head: Bytes, line: Bytes, text: Bytes, rest: Bytes)
    requires IsLine(first, b) && TextOf(first, what) && l == Taking(f)(st, first + b) && !l.Stop? && l.n == |first|
    requires ScanFrom(Taking(f), After(st, l), b).outcome == outcome != Clean
    ensures first + b == head + (line + rest) && StopsBefore(f, st, head, line, text, rest, outcome)
    decreases |first| + |b|, 0
  {
    var h;
    h, line, text, rest := FindStop(f, After(st, l), b, outcome);
    head := first + h;
    Regroup(first, h, line + rest);
    LineTaken(f, st, first, what, b);
    NothingFollows(first, b);
    StopsLaterOn(f, st, first, what, l, h, line, text, rest, outcome);
  }

  lemma NothingFollows(line: Bytes, b: Bytes)
    requires IsLine(line, b) && b != []
    ensures Closed(line)
  {
  }

  lemma StopsLaterOn(f: Format, st: ChainState, first: Bytes, what: Bytes, l: Line,
                     h: Bytes, line: Bytes, text: Bytes, rest: Bytes, outcome: Outcome)
    requires first != [] && Closed(first) && IsLine(first, h) && TextOf(first, what) && !l.Stop? && l.n == |first|
    requires l == if what == [] then Blank(|first|)
                  else if Continues(st, f.decode(what)) then Entry(|first|, f.decode(what).value) else Stop(Failed)
    requires StopsBefore(f, After(st, l), h, line, text, rest, outcome)
    ensures StopsBefore(f, st, first + h, line, text, rest, outcome)
  {
    LineTaken(f, st, first, what, h);
    CleanBehind(Taking(f), st, first, h, l);
  }

  lemma ReadsOn(first: seq<Record>, more: seq<Record>, tail: seq<Item>)
    ensures Wrap(first) + (Wrap(more) + tail) == Wrap(first + more) + tail
  {
    WrapConcat(first, more);
    Regroup(Wrap(first), Wrap(more), tail);
  }

  lemma WrapConcat(a: seq<Record>, b: seq<Record>)
    ensures Wrap(a + b) == Wrap(a) + Wrap(b)
  {
  }
}
