/**
 The facts assumed of JSON are not contradictory: for every hash function there
 is a record format that satisfies all of them.

 A record becomes a binary tree, field by field: numbers count, strings and
 lists are spines, options and verdicts carry a tag. Each step is injective, so
 the tree says everything about the record.

 A tree is spelled in prefix notation with two letters, neither of them a
 newline or blank. A spelling followed by anything can be cut in one way only,
 so no proper prefix of a spelling is a spelling.
 */
module Witness {
  import opened Bytes
  import opened Ledger
  import opened FileScan

  datatype Tree = Leaf | Fork(left: Tree, right: Tree)

  const LEAF: byte := 76
  const FORK: byte := 70

  function Spell(t: Tree): (b: Bytes)
    ensures b != []
  {
    match t
    case Leaf => [LEAF]
    case Fork(l, r) => [FORK] + (Spell(l) + Spell(r))
  }

  /** A spelling followed by anything is cut in one way only. */
  lemma {:induction false} SpellSplits(a: Tree, b: Tree, x: Bytes, y: Bytes)
    requires Spell(a) + x == Spell(b) + y
    ensures a == b && x == y
  {
    assert (Spell(a) + x)[0] == Spell(a)[0] && (Spell(b) + y)[0] == Spell(b)[0];
    assert (Spell(a) + x)[1..] == (Spell(b) + y)[1..];
    if a.Fork? {
      AfterFork(a, x);
      AfterFork(b, y);
      SpellSplits(a.left, b.left, Spell(a.right) + x, Spell(b.right) + y);
      SpellSplits(a.right, b.right, x, y);
    } else {
      assert (Spell(a) + x)[1..] == x && (Spell(b) + y)[1..] == y;
    }
  }

  lemma AfterFork(a: Tree, x: Bytes)
    requires a.Fork?
    ensures (Spell(a) + x)[1..] == Spell(a.left) + (Spell(a.right) + x)
  {
  }

  lemma {:induction false} SpellLetters(t: Tree, i: nat)
    requires i < |Spell(t)|
    ensures Spell(t)[i] == LEAF || Spell(t)[i] == FORK
  {
    if t.Fork? && i > 0 {
      var n := |Spell(t.left)|;
      if i - 1 < n {
        SpellLetters(t.left, i - 1);
      } else {
        SpellLetters(t.right, i - 1 - n);
      }
    }
  }

  // ------------------------------------------------------------------
  // Values as trees

  function OfNat(n: nat): Tree {
    if n == 0 then Leaf else Fork(Leaf, OfNat(n - 1))
  }

  lemma {:induction false} NatInjective(n: nat, m: nat)
    requires OfNat(n) == OfNat(m)
    ensures n == m
  {
    if n == 0 || m == 0 {
    } else {
      NatInjective(n - 1, m - 1);
    }
  }

  function OfString(s: string): Tree {
    if s == "" then Leaf else Fork(OfNat(s[0] as nat), OfString(s[1..]))
  }

  lemma {:induction false} StringInjective(s: string, t: string)
    requires OfString(s) == OfString(t)
    ensures s == t
  {
    if s == "" || t == "" {
    } else {
      NatInjective(s[0] as nat, t[0] as nat);
      StringInjective(s[1..], t[1..]);
      assert s == [s[0]] + s[1..] && t == [t[0]] + t[1..];
    }
  }

  function OfStrings(ss: seq<string>): Tree {
    if ss == [] then Leaf else Fork(OfString(ss[0]), OfStrings(ss[1..]))
  }

  lemma {:induction false} StringsInjective(a: seq<string>, b: seq<string>)
    requires OfStrings(a) == OfStrings(b)
    ensures a == b
  {
    if a == [] || b == [] {
    } else {
      StringInjective(a[0], b[0]);
      StringsInjective(a[1..], b[1..]);
      assert a == [a[0]] + a[1..] && b == [b[0]] + b[1..];
    }
  }

  function OfText(o: Option<string>): Tree {
    if o.None? then Leaf else Fork(OfString(o.value), Leaf)
  }

  lemma TextInjective(a: Option<string>, b: Option<string>)
    requires OfText(a) == OfText(b)
    ensures a == b
  {
    if a.Some? && b.Some? {
      StringInjective(a.value, b.value);
    }
  }

  function OfNumber(o: Option<nat>): Tree {
    if o.None? then Leaf else Fork(OfNat(o.value), Leaf)
  }

  lemma NumberInjective(a: Option<nat>, b: Option<nat>)
    requires OfNumber(a) == OfNumber(b)
    ensures a == b
  {
    if a.Some? && b.Some? {
      NatInjective(a.value, b.value);
    }
  }

  function OfStatus(o: Option<int>): Tree {
    if o.None? then Leaf
    else if o.value >= 0 then Fork(Leaf, OfNat(o.value))
    else Fork(Fork(Leaf, Leaf), OfNat(-o.value))
  }

  lemma StatusInjective(a: Option<int>, b: Option<int>)
    requires OfStatus(a) == OfStatus(b)
    ensures a == b
  {
    if a.Some? && b.Some? {
      NatInjective(if a.value >= 0 then a.value else -a.value, if b.value >= 0 then b.value else -b.value);
    }
  }

  function OfBool(b: bool): Tree {
    if b then Fork(Leaf, Leaf) else Leaf
  }

  function OfApprover(o: Option<Approver>): Tree {
    if o.None? then Leaf
    else Fork(OfNat(KindTag(o.value.kind)), OfString(o.value.id))
  }

  function KindTag(k: ApproverKind): nat {
    match k case Tui => 0 case OutOfBand => 1 case Rbac => 2
  }

  lemma ApproverInjective(a: Option<Approver>, b: Option<Approver>)
    requires OfApprover(a) == OfApprover(b)
    ensures a == b
  {
    if a.Some? && b.Some? {
      NatInjective(KindTag(a.value.kind), KindTag(b.value.kind));
      StringInjective(a.value.id, b.value.id);
    }
  }

  function OfCall(o: Option<ToolCall>): Tree {
    if o.None? then Leaf
    else
      var c := o.value;
      Fork(OfStrings([c.callId, c.sessionId, c.tool, c.agent, c.args]), Leaf)
  }

  lemma CallInjective(a: Option<ToolCall>, b: Option<ToolCall>)
    requires OfCall(a) == OfCall(b)
    ensures a == b
  {
    if a.Some? && b.Some? {
      var (c, d) := (a.value, b.value);
      var (x, y) := ([c.callId, c.sessionId, c.tool, c.agent, c.args],
                     [d.callId, d.sessionId, d.tool, d.agent, d.args]);
      StringsInjective(x, y);
      assert x[0] == y[0] && x[1] == y[1] && x[2] == y[2] && x[3] == y[3] && x[4] == y[4];
    }
  }

  function OfVerdict(o: Option<Verdict>): Tree {
    if o.None? then Leaf
    else match o.value
      case Allow(r) => Fork(OfNat(0), OfText(r))
      case Deny(r, why, at) => Fork(OfNat(1), Fork(OfString(r), Fork(OfString(why), OfText(at))))
      case Ask(r, diff, t, i, at) =>
        Fork(OfNat(2), Fork(OfString(r), Fork(OfString(diff), Fork(OfNumber(t), Fork(OfBool(i), OfText(at))))))
      case Redact(r, ps) => Fork(OfNat(3), Fork(OfString(r), OfStrings(ps)))
  }

  function Tag(v: Verdict): nat {
    match v case Allow(_) => 0 case Deny(_, _, _) => 1 case Ask(_, _, _, _, _) => 2 case Redact(_, _) => 3
  }

  lemma VerdictInjective(a: Option<Verdict>, b: Option<Verdict>)
    requires OfVerdict(a) == OfVerdict(b)
    ensures a == b
  {
    if a.Some? && b.Some? {
      NatInjective(Tag(a.value), Tag(b.value));
      match a.value
      case Allow(r) => TextInjective(r, b.value.allowRule);
      case Deny(r, why, at) =>
        StringInjective(r, b.value.denyRule);
        StringInjective(why, b.value.reason);
        TextInjective(at, b.value.denyAt);
      case Ask(r, diff, t, i, at) =>
        StringInjective(r, b.value.askRule);
        StringInjective(diff, b.value.diff);
        NumberInjective(t, b.value.timeoutMs);
        TextInjective(at, b.value.askAt);
      case Redact(r, ps) =>
        StringInjective(r, b.value.redactRule);
        StringsInjective(ps, b.value.patterns);
    }
  }

  function Strings(r: Record): seq<string> {
    [r.callId, r.sessionId, r.inputHash, r.recordedAt, r.prevHash, r.recordHash]
  }

  function OfRecord(r: Record): Tree {
    Fork(OfNat(r.schemaVersion), Fork(OfBool(r.kind.Decision?), Fork(OfNat(r.index), Fork(OfStrings(Strings(r)),
      Fork(OfCall(r.call), Fork(OfVerdict(r.verdict), Fork(OfText(r.ruleId), Fork(OfApprover(r.approver),
        Fork(OfNumber(r.decisionIndex), Fork(OfText(r.backend),
                                             Fork(OfStatus(r.exitStatus), OfText(r.outputHash))))))))))))
  }

  lemma RecordInjective(r: Record, q: Record)
    requires OfRecord(r) == OfRecord(q)
    ensures r == q
  {
    NatInjective(r.schemaVersion, q.schemaVersion);
    NatInjective(r.index, q.index);
    StringsInjective(Strings(r), Strings(q));
    var (x, y) := (Strings(r), Strings(q));
    assert x[0] == y[0] && x[1] == y[1] && x[2] == y[2] && x[3] == y[3] && x[4] == y[4] && x[5] == y[5];
    CallInjective(r.call, q.call);
    VerdictInjective(r.verdict, q.verdict);
    TextInjective(r.ruleId, q.ruleId);
    ApproverInjective(r.approver, q.approver);
    NumberInjective(r.decisionIndex, q.decisionIndex);
    TextInjective(r.backend, q.backend);
    StatusInjective(r.exitStatus, q.exitStatus);
    TextInjective(r.outputHash, q.outputHash);
  }

  // ------------------------------------------------------------------
  // The format

  function Encoded(r: Record): Bytes {
    Spell(OfRecord(r))
  }

  ghost function Decoded(b: Bytes): Option<Record> {
    if exists r :: Encoded(r) == b then
      var r :| Encoded(r) == b;
      Some(r)
    else None
  }

  /** No spelling is a prefix of another. */
  lemma PrefixFree(r: Record, q: Record, k: nat)
    requires k <= |Encoded(r)| && Encoded(q) == Encoded(r)[..k]
    ensures q == r && k == |Encoded(r)|
  {
    CutInTwo(Encoded(r), k);
    assert Encoded(r) + [] == Encoded(r);
    SpellSplits(OfRecord(q), OfRecord(r), Encoded(r)[k..], []);
    RecordInjective(q, r);
  }

  /** For every hash function, everything assumed of JSON can be had at once. */
  lemma FormatExists(sha: HashFn) returns (f: Format)
    ensures f.suite.sha == sha && GoodFormat(f) && Faithful(f.suite)
  {
    f := Format(Suite(sha, r => Encoded(r)), r => Encoded(r), b => Decoded(b));
    forall r ensures EncodesWell(f, r) {
      WellEncoded(f, r);
    }
    forall r, q | f.suite.payload(r) == f.suite.payload(q) ensures r == q {
      TakeAll(Encoded(r));
      PrefixFree(r, q, |Encoded(r)|);
    }
  }

  lemma WellEncoded(f: Format, r: Record)
    requires forall q {:trigger f.encode(q)} :: f.encode(q) == Encoded(q)
    requires forall b {:trigger f.decode(b)} :: f.decode(b) == Decoded(b)
    ensures EncodesWell(f, r)
  {
    var e := Encoded(r);
    TakeAll(e);
    forall q | Encoded(q) == e ensures q == r {
      PrefixFree(r, q, |e|);
    }
    forall i | 0 <= i < |e| ensures e[i] == LEAF || e[i] == FORK {
      SpellLetters(OfRecord(r), i);
    }
    forall k | 0 <= k < |e| ensures Decoded(e[..k]) == None {
      forall q ensures Encoded(q) != e[..k] {
        if Encoded(q) == e[..k] {
          PrefixFree(r, q, k);
        }
      }
    }
  }
}
