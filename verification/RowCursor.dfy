/**
 The keyset-paged cursor over the SQLite ledger table, against the plain
 ordered scan it stands for.

 The cursor holds no statement between two calls: it remembers the next key and
 a buffer of decoded rows, and queries one page when the buffer runs out. A
 page shorter than asked for, or one that ends at the greatest key there is,
 is the last. Between two calls other connections may append.

 The plain scan is the table filtered by key, in key order; it is defined
 without pages, and shown to list every row that qualifies exactly once.
 */
module RowCursor {
  import opened Bytes
  import opened Ledger

  /** `text` is `None` when the column does not hold readable text. */
  datatype Row = Row(idx: int, text: Option<string>)

  const I64_MAX := 0x7fff_ffff_ffff_ffff

  /** A table in primary-key order. */
  ghost predicate Ordered(t: seq<Row>) {
    && (forall i, j :: 0 <= i < j < |t| ==> t[i].idx < t[j].idx)
    && forall i :: 0 <= i < |t| ==> t[i].idx <= I64_MAX
  }

  /** How many rows a page holds, and how a record is parsed. */
  datatype Config = Config(page: nat, parse: string -> Option<Record>)

  function DecodeRow(c: Config, row: Row): Item {
    if row.text.None? then Err("unreadable")
    else
      var rec := c.parse(row.text.value);
      if rec.None? then Err("malformed")
      else if rec.value.index != row.idx then Err("row key")
      else Ok(rec.value)
  }

  /** A row yields the record its text parses to, if that bears the row's key; every other row yields an error. */
  lemma RowSays(c: Config, row: Row)
    ensures DecodeRow(c, row).Ok? <==>
            row.text.Some? && c.parse(row.text.value).Some? && c.parse(row.text.value).value.index == row.idx
    ensures DecodeRow(c, row).Ok? ==> Some(DecodeRow(c, row).value) == c.parse(row.text.value)
  {
  }

  function DecodeAll(c: Config, rows: seq<Row>): (items: seq<Item>)
    ensures |items| == |rows| && forall i :: 0 <= i < |rows| ==> items[i] == DecodeRow(c, rows[i])
  {
    seq(|rows|, i requires 0 <= i < |rows| => DecodeRow(c, rows[i]))
  }

  /** The plain scan: rows with a key of at least `from`, in order. */
  function Select(t: seq<Row>, from: int): (rows: seq<Row>) {
    if t == [] then []
    else (if t[0].idx >= from then [t[0]] else []) + Select(t[1..], from)
  }

  /** One page query. */
  function Page(c: Config, t: seq<Row>, from: int): (rows: seq<Row>) {
    var rows := Select(t, from);
    if |rows| <= c.page then rows else rows[..c.page]
  }

  // ------------------------------------------------------------------
  // The cursor

  datatype State = State(nextIdx: int, buf: seq<Item>, done: bool)

  const START := State(0, [], false)

  function Absorb(c: Config, st: State, rows: seq<Row>): State {
    if rows == [] then st
    else
      var before, last := Absorb(c, st, rows[..|rows| - 1]), rows[|rows| - 1];
      if last.idx < I64_MAX then before.(nextIdx := last.idx + 1, buf := before.buf + [DecodeRow(c, last)])
      else before.(done := true, buf := before.buf + [DecodeRow(c, last)])
  }

  /** `None` is a query that failed. */
  function Fill(c: Config, st: State, t: Option<seq<Row>>): State {
    if t.None? then st.(buf := st.buf + [Err("sql")], done := true)
    else
      var rows := Page(c, t.value, st.nextIdx);
      Absorb(c, if |rows| < c.page then st.(done := true) else st, rows)
  }

  function Next(c: Config, st: State, t: Option<seq<Row>>): (State, Option<Item>) {
    var st' := if st.buf == [] && !st.done then Fill(c, st, t) else st;
    if st'.buf == [] then (st', None) else (st'.(buf := st'.buf[1..]), Some(st'.buf[0]))
  }

  /** The cursor and what it has yielded after one call per table. */
  function Scan(c: Config, tables: seq<Option<seq<Row>>>): (State, seq<Item>) {
    if tables == [] then (START, [])
    else
      var (st, out) := Scan(c, tables[..|tables| - 1]);
      var (st', item) := Next(c, st, tables[|tables| - 1]);
      (st', if item.Some? then out + [item.value] else out)
  }

  class Cursor {
    const c: Config
    var nextIdx: int
    var buf: seq<Item>
    var done: bool

    ghost function Current(): State
      reads this
    {
      State(nextIdx, buf, done)
    }

    constructor (c: Config)
      ensures this.c == c && Current() == START
    {
      this.c := c;
      nextIdx, buf, done := 0, [], false;
    }

    method FillPage(t: Option<seq<Row>>)
      modifies this
      ensures Current() == Fill(c, old(Current()), t)
    {
      if t.None? {
        buf, done := buf + [Err("sql")], true;
        return;
      }
      var rows := Page(c, t.value, nextIdx);
      if |rows| < c.page {
        done := true;
      }
      ghost var st := Current();
      for i := 0 to |rows|
        invariant Current() == Absorb(c, st, rows[..i])
      {
        assert rows[..i + 1][..i] == rows[..i];
        if rows[i].idx < I64_MAX {
          nextIdx := rows[i].idx + 1;
        } else {
          done := true;
        }
        buf := buf + [DecodeRow(c, rows[i])];
      }
      TakeAll(rows);
    }

    method NextItem(t: Option<seq<Row>>) returns (item: Option<Item>)
      modifies this
      ensures (Current(), item) == Next(c, old(Current()), t)
    {
      if buf == [] && !done {
        FillPage(t);
      }
      if buf == [] { return None; }
      item := Some(buf[0]);
      buf := buf[1..];
    }
  }

  // ------------------------------------------------------------------
  // Page queries against the plain scan

  /** The plain scan lists rows of the table that qualify ... */
  lemma {:induction false} SelectIn(t: seq<Row>, from: int, i: nat)
    requires i < |Select(t, from)|
    ensures Select(t, from)[i] in t && Select(t, from)[i].idx >= from
  {
    if t[0].idx < from {
      SelectIn(t[1..], from, i);
    } else if i > 0 {
      SelectIn(t[1..], from, i - 1);
    }
  }

  /** ... in ascending key order, so each once. */
  lemma {:induction false} SelectOrdered(t: seq<Row>, from: int)
    requires Ordered(t)
    ensures Ordered(Select(t, from))
  {
    if t == [] {
    } else {
      SelectOrdered(t[1..], from);
      forall i | 0 <= i < |Select(t[1..], from)| ensures t[0].idx < Select(t[1..], from)[i].idx {
        HeadIsLeast(t, from, i);
      }
      OrderedCons(t[0], Select(t[1..], from));
    }
  }

  lemma OrderedCons(x: Row, rows: seq<Row>)
    requires Ordered(rows) && x.idx <= I64_MAX
    requires forall i :: 0 <= i < |rows| ==> x.idx < rows[i].idx
    ensures Ordered([x] + rows) && [] + rows == rows
  {
  }

  /** Nothing that qualifies is missed. */
  lemma {:induction false} SelectMisses(t: seq<Row>, from: int, i: nat)
    requires i < |t| && t[i].idx >= from
    ensures t[i] in Select(t, from)
  {
    if i == 0 {
    } else {
      SelectMisses(t[1..], from, i - 1);
    }
  }

  lemma {:induction false} SelectAll(t: seq<Row>, from: int)
    requires forall i :: 0 <= i < |t| ==> t[i].idx >= from
    ensures Select(t, from) == t
  {
    if t == [] {
    } else {
      SelectAll(t[1..], from);
      assert t == [t[0]] + t[1..];
    }
  }

  /** Below the head of an ordered table nothing follows. */
  lemma HeadIsLeast(t: seq<Row>, from: int, i: nat)
    requires Ordered(t) && t != [] && i < |Select(t[1..], from)|
    ensures t[0].idx < Select(t[1..], from)[i].idx
  {
    SelectIn(t[1..], from, i);
  }

  /** The rows of an ordered table from position `b` on are those that qualify. */
  ghost predicate StartsAt(t: seq<Row>, from: int, b: nat) {
    b <= |t| && (forall i :: 0 <= i < b ==> t[i].idx < from) && forall i :: b <= i < |t| ==> t[i].idx >= from
  }

  lemma {:induction false} SelectSuffix(t: seq<Row>, from: int, b: nat)
    requires StartsAt(t, from, b)
    ensures Select(t, from) == t[b..]
  {
    if b == 0 {
      SelectAll(t, from);
    } else {
      assert forall i :: 0 <= i < |t[1..]| ==> t[1..][i] == t[i + 1];
      SelectSuffix(t[1..], from, b - 1);
      assert t[1..][b - 1..] == t[b..];
    }
  }

  lemma FindStart(t: seq<Row>, from: int) returns (b: nat)
    requires Ordered(t)
    ensures StartsAt(t, from, b)
  {
    b := 0;
    while b < |t| && t[b].idx < from
      invariant b <= |t| && forall i :: 0 <= i < b ==> t[i].idx < from
    {
      b := b + 1;
    }
  }

  /** Asking again from just past the m-th row gives the rows after it. */
  lemma SelectAfter(t: seq<Row>, from: int, m: nat)
    requires Ordered(t) && 0 < m <= |Select(t, from)|
    ensures Select(t, Select(t, from)[m - 1].idx + 1) == Select(t, from)[m..]
  {
    var b := FindStart(t, from);
    SelectSuffix(t, from, b);
    NextStart(t, b + m);
    SelectSuffix(t, t[b + m - 1].idx + 1, b + m);
    assert t[b..][m - 1] == t[b + m - 1] && t[b..][m..] == t[b + m..];
  }

  lemma NextStart(t: seq<Row>, n: nat)
    requires Ordered(t) && 0 < n <= |t|
    ensures StartsAt(t, t[n - 1].idx + 1, n)
  {
  }

  lemma {:induction false} SelectConcat(t: seq<Row>, more: seq<Row>, from: int)
    ensures Select(t + more, from) == Select(t, from) + Select(more, from)
  {
    if t == [] {
      assert t + more == more;
    } else {
      assert (t + more)[1..] == t[1..] + more;
      SelectConcat(t[1..], more, from);
      Regroup(if t[0].idx >= from then [t[0]] else [], Select(t[1..], from), Select(more, from));
    }
  }

  // ------------------------------------------------------------------
  // The invariant

  /** All rows a scan is about. */
  function Rows(t: seq<Row>): (rows: seq<Row>) {
    Select(t, 0)
  }

  /** Where the next page starts once `m` rows are behind the cursor. */
  function Resume(rows: seq<Row>, m: nat): int
    requires m <= |rows|
  {
    if m == 0 then 0 else rows[m - 1].idx + 1
  }

  /** The cursor has yielded the first `n` rows, buffers the next ones, and resumes after those. */
  ghost predicate At(c: Config, st: State, rows: seq<Row>, n: nat) {
    var m := n + |st.buf|;
    && m <= |rows|
    && st.buf == DecodeAll(c, rows[n..m])
    && (!st.done ==> st.nextIdx == Resume(rows, m))
  }

  /** A cursor that says it is done has the rest of the table in its buffer. */
  ghost predicate DoneIsEnd(st: State, rows: seq<Row>, n: nat) {
    st.done ==> n + |st.buf| == |rows|
  }

  /** Appending to the table moves nothing the cursor has seen. */
  lemma AtGrows(c: Config, st: State, t: seq<Row>, more: seq<Row>, n: nat)
    requires At(c, st, Rows(t), n)
    ensures At(c, st, Rows(t + more), n)
  {
    SelectConcat(t, more, 0);
    var m := n + |st.buf|;
    assert Rows(t + more)[n..m] == Rows(t)[n..m];
  }

  lemma {:induction false} AbsorbMeans(c: Config, st: State, rows: seq<Row>)
    requires Ordered(rows)
    ensures var st' := Absorb(c, st, rows);
            && st'.buf == st.buf + DecodeAll(c, rows)
            && (st'.done <==> st.done || (rows != [] && rows[|rows| - 1].idx == I64_MAX))
            && (rows != [] && !st'.done ==> st'.nextIdx == rows[|rows| - 1].idx + 1)
            && (rows == [] ==> st' == st)
  {
    if rows == [] {
    } else {
      var n := |rows| - 1;
      AbsorbMeans(c, st, rows[..n]);
      assert DecodeAll(c, rows) == DecodeAll(c, rows[..n]) + [DecodeRow(c, rows[n])];
    }
  }

  lemma ResumeSelects(t: seq<Row>, m: nat)
    requires Ordered(t) && m <= |Rows(t)|
    ensures Select(t, Resume(Rows(t), m)) == Rows(t)[m..]
  {
    if m > 0 {
      SelectAfter(t, 0, m);
    }
  }

  lemma Slice<T>(b: seq<T>, m: nat, k: nat)
    requires m + k <= |b|
    ensures b[m..][..k] == b[m..m + k] && (m + k == |b| ==> b[m..] == b[m..m + k])
  {
  }

  lemma OrderedPart(rows: seq<Row>, i: nat, j: nat)
    requires Ordered(rows) && i <= j <= |rows|
    ensures Ordered(rows[i..j])
    ensures i < j < |rows| ==> rows[i..j][j - i - 1].idx < I64_MAX
  {
    if i < j < |rows| {
      assert rows[j - 1].idx < rows[j].idx;
    }
  }

  /** A page query is the next stretch of the scan: short, or up to the greatest key, only at its end. */
  lemma PageIsNext(c: Config, t: seq<Row>, m: nat)
    requires Ordered(t) && m <= |Rows(t)|
    ensures var rows, all := Page(c, t, Resume(Rows(t), m)), Rows(t);
            && m + |rows| <= |all| && rows == all[m..m + |rows|] && Ordered(rows)
            && (|rows| < c.page ==> m + |rows| == |all|)
            && |rows| <= c.page
            && (rows != [] && rows[|rows| - 1].idx == I64_MAX ==> m + |rows| == |all|)
  {
    var all := Rows(t);
    ResumeSelects(t, m);
    SelectOrdered(t, 0);
    var k := if |all| - m <= c.page then |all| - m else c.page;
    Slice(all, m, k);
    OrderedPart(all, m, m + k);
  }

  lemma FillKeeps(c: Config, st: State, t: seq<Row>, n: nat)
    requires Ordered(t) && At(c, st, Rows(t), n) && st.buf == [] && !st.done
    ensures var st' := Fill(c, st, Some(t));
            At(c, st', Rows(t), n) && DoneIsEnd(st', Rows(t), n) && (c.page > 0 && st'.buf == [] ==> st'.done)
  {
    var all, rows := Rows(t), Page(c, t, st.nextIdx);
    PageIsNext(c, t, n);
    FillAt(c, st, all, n, rows);
  }

  lemma FillAt(c: Config, st: State, all: seq<Row>, n: nat, rows: seq<Row>)
    requires st.buf == [] && !st.done && Ordered(rows)
    requires n + |rows| <= |all| && rows == all[n..n + |rows|] && st.nextIdx == Resume(all, n)
    requires |rows| < c.page || (rows != [] && rows[|rows| - 1].idx == I64_MAX) ==> n + |rows| == |all|
    ensures var st' := Absorb(c, if |rows| < c.page then st.(done := true) else st, rows);
            At(c, st', all, n) && DoneIsEnd(st', all, n) && (c.page > 0 && st'.buf == [] ==> st'.done)
  {
    var st0 := if |rows| < c.page then st.(done := true) else st;
    AbsorbMeans(c, st0, rows);
    assert st0.buf + DecodeAll(c, rows) == DecodeAll(c, rows);
    FilledAt(c, Absorb(c, st0, rows), all, n, rows);
  }

  lemma FilledAt(c: Config, st: State, all: seq<Row>, n: nat, rows: seq<Row>)
    requires st.buf == DecodeAll(c, rows) && n + |rows| <= |all| && rows == all[n..n + |rows|]
    requires |rows| < c.page || (rows != [] && rows[|rows| - 1].idx == I64_MAX) ==> n + |rows| == |all|
    requires st.done <==> |rows| < c.page || (rows != [] && rows[|rows| - 1].idx == I64_MAX)
    requires !st.done ==> st.nextIdx == if rows == [] then Resume(all, n) else rows[|rows| - 1].idx + 1
    ensures At(c, st, all, n) && DoneIsEnd(st, all, n) && (c.page > 0 && st.buf == [] ==> st.done)
  {
    assert |st.buf| == |rows|;
    if rows != [] {
      assert all[n + |rows| - 1] == rows[|rows| - 1];
    }
  }

  /** One call yields the next row, or nothing and then the table as last queried is exhausted. */
  lemma NextKeeps(c: Config, st: State, t: seq<Row>, n: nat)
    requires Ordered(t) && At(c, st, Rows(t), n) && c.page > 0
    ensures var (st', item) := Next(c, st, Some(t));
            if item.Some? then
              && n < |Rows(t)| && item.value == DecodeRow(c, Rows(t)[n]) && At(c, st', Rows(t), n + 1)
              && (DoneIsEnd(st, Rows(t), n) ==> DoneIsEnd(st', Rows(t), n + 1))
            else
              && At(c, st', Rows(t), n) && st'.done && st'.buf == []
              && (DoneIsEnd(st, Rows(t), n) ==> n == |Rows(t)| && DoneIsEnd(st', Rows(t), n))
  {
    var filled := st;
    if st.buf == [] && !st.done {
      FillKeeps(c, st, t, n);
      filled := Fill(c, st, Some(t));
    }
    var rows, m := Rows(t), n + |filled.buf|;
    if filled.buf != [] {
      Behead(c, rows, n, m);
    }
  }

  lemma Behead(c: Config, rows: seq<Row>, n: nat, m: nat)
    requires n < m <= |rows|
    ensures DecodeAll(c, rows[n..m])[1..] == DecodeAll(c, rows[n + 1..m])
    ensures DecodeAll(c, rows[n..m])[0] == DecodeRow(c, rows[n])
  {
  }

  // ------------------------------------------------------------------
  // Whole scans

  /** Every query succeeds, and the table is only appended to. */
  ghost predicate Growing(tables: seq<Option<seq<Row>>>) {
    && (forall i :: 0 <= i < |tables| ==> tables[i].Some? && Ordered(tables[i].value))
    && forall i :: 0 < i < |tables| ==> tables[i - 1].value <= tables[i].value
  }

  function Last(tables: seq<Option<seq<Row>>>): seq<Row>
    requires forall i :: 0 <= i < |tables| ==> tables[i].Some?
  {
    if tables == [] then [] else tables[|tables| - 1].value
  }

  lemma GrowingInit(tables: seq<Option<seq<Row>>>)
    requires Growing(tables) && tables != []
    ensures var init := tables[..|tables| - 1];
            && Growing(init) && Last(init) <= Last(tables)
            && Ordered(Last(tables)) && tables[|tables| - 1] == Some(Last(tables))
  {
  }

  /**
   With appends between any two calls, what was yielded is a prefix of the final table, each row
   once and in order.
   */
  lemma {:induction false} YieldsPrefix(c: Config, tables: seq<Option<seq<Row>>>)
    requires Growing(tables) && c.page > 0
    ensures var (st, out) := Scan(c, tables);
            At(c, st, Rows(Last(tables)), |out|) && out == DecodeAll(c, Rows(Last(tables))[..|out|])
  {
    if tables == [] {
    } else {
      var init := tables[..|tables| - 1];
      GrowingInit(tables);
      YieldsPrefix(c, init);
      var (st, out) := Scan(c, init);
      OneCall(c, st, out, Last(init), Last(tables));
    }
  }

  lemma CutPrefix<T>(a: seq<T>, b: seq<T>)
    requires a <= b
    ensures b == a + b[|a|..]
  {
  }

  /** One more call, after the table grew from `was` to `t`. */
  lemma OneCall(c: Config, st: State, out: seq<Item>, was: seq<Row>, t: seq<Row>)
    requires Ordered(t) && was <= t && c.page > 0
    requires At(c, st, Rows(was), |out|) && out == DecodeAll(c, Rows(was)[..|out|])
    ensures var (st', item) := Next(c, st, Some(t));
            var out' := if item.Some? then out + [item.value] else out;
            At(c, st', Rows(t), |out'|) && out' == DecodeAll(c, Rows(t)[..|out'|])
  {
    var more := t[|was|..];
    CutPrefix(was, t);
    AtGrows(c, st, was, more, |out|);
    SelectConcat(was, more, 0);
    NextKeeps(c, st, t, |out|);
    ExtendOut(c, Rows(was), Rows(t), out);
  }

  lemma ExtendOut(c: Config, rows: seq<Row>, rows': seq<Row>, out: seq<Item>)
    requires rows <= rows' && |out| <= |rows| && out == DecodeAll(c, rows[..|out|])
    ensures out == DecodeAll(c, rows'[..|out|])
    ensures |out| < |rows'| ==> out + [DecodeRow(c, rows'[|out|])] == DecodeAll(c, rows'[..|out| + 1])
  {
  }

  /** `k` calls on one table. */
  function Repeat(t: seq<Row>, k: nat): seq<Option<seq<Row>>> {
    if k == 0 then [] else Repeat(t, k - 1) + [Some(t)]
  }

  /** The number of rows the first `k` calls can yield. */
  function Yielded(rows: seq<Row>, k: nat): nat {
    if k <= |rows| then k else |rows|
  }

  /** The first `k` calls have yielded as many rows, or all there are. */
  ghost predicate YieldedAll(c: Config, t: seq<Row>, k: nat, st: State, out: seq<Item>) {
    && out == DecodeAll(c, Rows(t)[..Yielded(Rows(t), k)])
    && At(c, st, Rows(t), |out|) && DoneIsEnd(st, Rows(t), |out|)
  }

  lemma CallAtRest(c: Config, st: State, out: seq<Item>, t: seq<Row>, k: nat)
    requires Ordered(t) && c.page > 0 && YieldedAll(c, t, k, st, out)
    ensures var (st', item) := Next(c, st, Some(t));
            YieldedAll(c, t, k + 1, st', if item.Some? then out + [item.value] else out)
  {
    NextKeeps(c, st, t, |out|);
    ExtendOut(c, Rows(t), Rows(t), out);
  }

  /** On a table at rest, the first k calls yield its first k rows, and every later call nothing. */
  lemma {:induction false} YieldsAll(c: Config, t: seq<Row>, k: nat)
    requires Ordered(t) && c.page > 0
    ensures YieldedAll(c, t, k, Scan(c, Repeat(t, k)).0, Scan(c, Repeat(t, k)).1)
  {
    if k == 0 {
    } else {
      var before := Repeat(t, k - 1);
      YieldsAll(c, t, k - 1);
      CallAtRest(c, Scan(c, before).0, Scan(c, before).1, t, k - 1);
      ScanSnoc(c, before, Some(t));
    }
  }

  /** A failed query ends the scan with one error item, whatever the database does later. */
  lemma {:induction false} FailureEnds(c: Config, tables: seq<Option<seq<Row>>>, later: seq<Option<seq<Row>>>)
    requires Scan(c, tables).0.buf == [] && !Scan(c, tables).0.done
    ensures var (st, out) := Scan(c, tables + [None] + later);
            st.done && st.buf == [] && out == Scan(c, tables).1 + [Err("sql")]
    decreases |later|
  {
    if later == [] {
      ScanSnoc(c, tables, None);
      assert tables + [None] + later == tables + [None];
    } else {
      var n := |later| - 1;
      FailureEnds(c, tables, later[..n]);
      StaysDone(c, tables + [None] + later[..n], later[n]);
      Unsnoc(later);
      Regroup(tables + [None], later[..n], [later[n]]);
    }
  }

  lemma StaysDone(c: Config, tables: seq<Option<seq<Row>>>, t: Option<seq<Row>>)
    requires Scan(c, tables).0.done && Scan(c, tables).0.buf == []
    ensures Scan(c, tables + [t]) == Scan(c, tables)
  {
    ScanSnoc(c, tables, t);
  }

  /** One more call. */
  lemma ScanSnoc(c: Config, tables: seq<Option<seq<Row>>>, t: Option<seq<Row>>)
    ensures var (st, out) := Scan(c, tables);
            var (st', item) := Next(c, st, t);
            Scan(c, tables + [t]) == (st', if item.Some? then out + [item.value] else out)
  {
    Snoc(tables, t);
  }

}
