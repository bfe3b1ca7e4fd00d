/**
 The Rego backend. A `when` expression becomes a disjunction of rule bodies;
 `not` becomes a reference to a generated helper rule; an else chain picks the
 first matching rule. Proved to return the native verdict on every policy in
 which no `not` stands inside another, and proved to emit a self-recursive
 helper on every other.
 */
module Rego {
  import opened Bytes
  import opened Text
  import opened Ledger
  import opened Policy

  // ------------------------------------------------------------------
  // The target: rules with bodies, negation and undefined references

  datatype Name = Matcher(i: nat) | Helper(k: nat)

  datatype Line =
    | Never
    | Test(field: Field, op: Op)
    | LowerIs(field: Field, w: string)
    | LowerEndsWith(field: Field, w: string)
    | NotRule(name: Name)

  type Body = seq<Line>

  datatype Def = Def(name: Name, body: Body)

  /** A module, the builtins it runs with and the call it runs on. `lower` is Rego's, which is Unicode-aware. */
  datatype World = World(matchers: seq<Def>, helpers: seq<Def>, rx: Regex, lower: string -> string, ctx: Context) {
    function Defs(): seq<Def> {
      matchers + helpers
    }
  }

  /** A line other than a rule reference; a reference to an absent field is undefined and fails. */
  predicate TestHolds(w: World, l: Line) {
    match l
    case Never => false
    case NotRule(_) => false
    case _ =>
      var v := FieldValue(l.field, w.ctx);
      && v.Some?
      && match l
         case Test(_, op) => EvalOp(w.rx, op, v.value)
         case LowerIs(_, s) => w.lower(v.value) == s
         case LowerEndsWith(_, s) => HasSuffix(w.lower(v.value), s)
         case _ => false
  }

  ghost function Names(w: World): set<Name> {
    set d | d in w.Defs() :: d.name
  }

  /** Evaluation of a rule by name; `None` when a rule depends on itself. */
  ghost function EvalRule(w: World, name: Name, seen: set<Name>): Option<bool>
    decreases Names(w) - seen, 0
  {
    if name in seen then None
    else if name !in Names(w) then Some(false)
    else EvalDefs(w, w.Defs(), name, seen + {name})
  }

  ghost function EvalLine(w: World, l: Line, seen: set<Name>): Option<bool>
    decreases Names(w) - seen, 1
  {
    if l.NotRule? then
      var r := EvalRule(w, l.name, seen);
      if r.None? then None else Some(!r.value)
    else Some(TestHolds(w, l))
  }

  ghost function EvalBody(w: World, body: Body, seen: set<Name>): Option<bool>
    decreases Names(w) - seen, 2, |body|
  {
    if body == [] then Some(true)
    else
      var first := EvalLine(w, body[0], seen);
      if first == Some(true) then EvalBody(w, body[1..], seen) else first
  }

  /** The bodies of `name` among `defs`, tried in order. */
  ghost function EvalDefs(w: World, defs: seq<Def>, name: Name, seen: set<Name>): Option<bool>
    decreases Names(w) - seen, 3, |defs|
  {
    if defs == [] then Some(false)
    else
      var first := if defs[0].name == name then EvalBody(w, defs[0].body, seen) else Some(false);
      if first == Some(false) then EvalDefs(w, defs[1..], name, seen) else first
  }

  // ------------------------------------------------------------------
  // Code generation

  /** Bodies and the helpers emitted so far, or the panic of `field_ref` on an unknown field. */
  datatype Gen = Panic | Gen(bodies: seq<Body>, helpers: seq<Def>)

  function CompareLine(f: Field, op: Op): Line {
    if f.Unknown? then Never else Test(f, op)
  }

  function EntryLines(f: Field, entry: string): seq<Line> {
    match WildcardBase(entry)
    case Some(base) => [LowerIs(f, AsciiLower(base)), LowerEndsWith(f, "." + AsciiLower(base))]
    case None => [Test(f, Eq(entry))]
  }

  function ListBodies(f: Field, list: seq<string>): seq<Body> {
    if list == [] then []
    else
      var lines := EntryLines(f, list[0]);
      seq(|lines|, i requires 0 <= i < |lines| => [lines[i]]) + ListBodies(f, list[1..])
  }

  function Named(name: Name, bodies: seq<Body>): (defs: seq<Def>)
    ensures |defs| == |bodies|
  {
    seq(|bodies|, i requires 0 <= i < |bodies| => Def(name, bodies[i]))
  }

  function Bodies(e: Expr, helpers: seq<Def>): Gen
    decreases e, 0
  {
    match e
    case Or(a, b) =>
      var x := Bodies(a, helpers);
      if x.Panic? then Panic
      else
        var y := Bodies(b, x.helpers);
        if y.Panic? then Panic else Gen(x.bodies + y.bodies, y.helpers)
    case And(a, b) =>
      var x := Bodies(a, helpers);
      if x.Panic? then Panic else Cross(x.bodies, b, x.helpers)
    case Not(inner) =>
      // The name is taken before the operand is compiled.
      var name := Helper(|helpers|);
      var x := Bodies(inner, helpers);
      if x.Panic? then Panic else Gen([[NotRule(name)]], x.helpers + Named(name, x.bodies))
    case Pred(Compare(f, op)) => Gen([[CompareLine(f, op)]], helpers)
    case Pred(In(f, list)) =>
      if list == [] then Gen([[Never]], helpers)
      else if f.Unknown? then Panic
      else Gen(ListBodies(f, list), helpers)
  }

  /** The right operand is compiled again for every body of the left one. */
  function Cross(lefts: seq<Body>, b: Expr, helpers: seq<Def>): Gen
    decreases b, |lefts| + 1
  {
    if lefts == [] then Gen([], helpers)
    else
      var y := Bodies(b, helpers);
      if y.Panic? then Panic
      else
        var more := Cross(lefts[1..], b, y.helpers);
        if more.Panic? then Panic else Gen(Prefixed(lefts[0], y.bodies) + more.bodies, more.helpers)
  }

  function Prefixed(left: Body, rights: seq<Body>): seq<Body> {
    seq(|rights|, i requires 0 <= i < |rights| => left + rights[i])
  }

  /** Matchers and helpers of the first `n` rules. */
  datatype Module = Broken | Module(matchers: seq<Def>, helpers: seq<Def>)

  function GenRules(rules: seq<Rule>): Module {
    if rules == [] then Module([], [])
    else
      var n := |rules| - 1;
      var before := GenRules(rules[..n]);
      if before.Broken? then Broken
      else
        var g := Bodies(rules[n].when, before.helpers);
        if g.Panic? then Broken
        else Module(before.matchers + Named(Matcher(n), g.bodies), g.helpers)
  }

  /** `Codegen` pushes helper rules while it builds bodies. */
  class Codegen {
    var helpers: seq<Def>

    constructor ()
      ensures helpers == []
    {
      helpers := [];
    }

    method CompileExpr(e: Expr) returns (out: Option<seq<Body>>)
      modifies this
      ensures var g := Bodies(e, old(helpers));
              if g.Panic? then out.None? else out == Some(g.bodies) && helpers == g.helpers
      decreases e, 0
    {
      match e
      case Or(a, b) =>
        out := CompileExpr(a);
        if out.None? { return; }
        var more := CompileExpr(b);
        out := if more.None? then None else Some(out.value + more.value);
      case And(a, b) =>
        out := CompileExpr(a);
        if out.None? { return; }
        out := CompileCross(out.value, b);
      case Not(inner) =>
        var name := Helper(|helpers|);
        out := CompileExpr(inner);
        if out.None? { return; }
        helpers := helpers + Named(name, out.value);
        out := Some([[NotRule(name)]]);
      case Pred(p) =>
        var g := Bodies(e, helpers);
        out := if g.Panic? then None else Some(g.bodies);
    }

    method CompileCross(lefts: seq<Body>, b: Expr) returns (out: Option<seq<Body>>)
      modifies this
      ensures var g := Cross(lefts, b, old(helpers));
              if g.Panic? then out.None? else out == Some(g.bodies) && helpers == g.helpers
      decreases b, |lefts| + 1
    {
      if lefts == [] { return Some([]); }
      var rights := CompileExpr(b);
      if rights.None? { return None; }
      var more := CompileCross(lefts[1..], b);
      out := if more.None? then None else Some(Prefixed(lefts[0], rights.value) + more.value);
    }
  }

  method GenerateModule(p: Policy) returns (m: Module)
    ensures m == GenRules(p.rules)
  {
    var cg := new Codegen();
    var matchers: seq<Def> := [];
    for i := 0 to |p.rules|
      invariant Module(matchers, cg.helpers) == GenRules(p.rules[..i])
    {
      assert p.rules[..i + 1][..i] == p.rules[..i];
      var bodies := cg.CompileExpr(p.rules[i].when);
      if bodies.None? {
        BrokenStays(p.rules, i + 1);
        return Broken;
      }
      matchers := matchers + Named(Matcher(i), bodies.value);
    }
    assert p.rules[..|p.rules|] == p.rules;
    return Module(matchers, cg.helpers);
  }

  lemma {:induction false} BrokenStays(rules: seq<Rule>, n: nat)
    requires n <= |rules| && GenRules(rules[..n]).Broken?
    ensures GenRules(rules).Broken?
    decreases |rules| - n
  {
    if n < |rules| {
      assert rules[..n + 1][..n] == rules[..n];
      BrokenStays(rules, n + 1);
    } else {
      assert rules[..n] == rules;
    }
  }

  // ------------------------------------------------------------------
  // The domain of the theorem

  predicate HasNot(e: Expr) {
    match e
    case Or(a, b) => HasNot(a) || HasNot(b)
    case And(a, b) => HasNot(a) || HasNot(b)
    case Not(_) => true
    case Pred(_) => false
  }

  /** A `not` inside another. */
  predicate NestedNot(e: Expr) {
    match e
    case Or(a, b) => NestedNot(a) || NestedNot(b)
    case And(a, b) => NestedNot(a) || NestedNot(b)
    case Not(inner) => HasNot(inner)
    case Pred(_) => false
  }

  /** `in` over an unknown field and a non-empty list. */
  predicate UnknownMember(e: Expr) {
    match e
    case Or(a, b) => UnknownMember(a) || UnknownMember(b)
    case And(a, b) => UnknownMember(a) || UnknownMember(b)
    case Not(inner) => UnknownMember(inner)
    case Pred(Compare(_, _)) => false
    case Pred(In(f, list)) => f.Unknown? && list != []
  }

  /** What the lines of a list entry test. */
  predicate EntryHit(lower: string -> string, entry: string, v: string) {
    match WildcardBase(entry)
    case Some(base) => lower(v) == AsciiLower(base) || HasSuffix(lower(v), "." + AsciiLower(base))
    case None => v == entry
  }

  /** Rego's `lower`, which is Unicode-aware, and ASCII lowercasing put the value in the same lists. */
  ghost predicate ListAgrees(lower: string -> string, list: seq<string>, v: string) {
    (exists i :: 0 <= i < |list| && EntryHit(lower, list[i], v)) <==>
    (exists i :: 0 <= i < |list| && ListEntryMatches(list[i], v))
  }

  /** So it is wherever the expression tests membership. */
  ghost predicate LowerAgrees(lower: string -> string, e: Expr, ctx: Context) {
    match e
    case Or(a, b) => LowerAgrees(lower, a, ctx) && LowerAgrees(lower, b, ctx)
    case And(a, b) => LowerAgrees(lower, a, ctx) && LowerAgrees(lower, b, ctx)
    case Not(inner) => LowerAgrees(lower, inner, ctx)
    case Pred(Compare(_, _)) => true
    case Pred(In(f, list)) =>
      FieldValue(f, ctx).Some? ==> ListAgrees(lower, list, FieldValue(f, ctx).value)
  }

  /** The same lowercasing gives the same answer, and only wildcards lowercase. */
  lemma SameLower(lower: string -> string, list: seq<string>, v: string)
    requires lower(v) == AsciiLower(v) || forall i :: 0 <= i < |list| ==> WildcardBase(list[i]).None?
    ensures ListAgrees(lower, list, v)
  {
    assert forall i :: 0 <= i < |list| ==> (EntryHit(lower, list[i], v) <==> ListEntryMatches(list[i], v));
  }

  /** A lowercasing that is the ASCII one on ASCII text is good enough for every call with ASCII values. */
  lemma {:induction false} AsciiAgrees(lower: string -> string, e: Expr, ctx: Context)
    requires forall s {:trigger lower(s)} :: IsAscii(s) ==> lower(s) == AsciiLower(s)
    requires forall f {:trigger FieldValue(f, ctx)} ::
               FieldValue(f, ctx).Some? ==> IsAscii(FieldValue(f, ctx).value)
    ensures LowerAgrees(lower, e, ctx)
  {
    match e
    case Or(a, b) =>
      AsciiAgrees(lower, a, ctx);
      AsciiAgrees(lower, b, ctx);
    case And(a, b) =>
      AsciiAgrees(lower, a, ctx);
      AsciiAgrees(lower, b, ctx);
    case Not(inner) => AsciiAgrees(lower, inner, ctx);
    case Pred(Compare(_, _)) =>
    case Pred(In(f, list)) =>
      if FieldValue(f, ctx).Some? {
        SameLower(lower, list, FieldValue(f, ctx).value);
      }
  }

  /** Every expression compiles to at least one body. */
  lemma {:induction false} BodiesNonEmpty(e: Expr, helpers: seq<Def>)
    requires !Bodies(e, helpers).Panic?
    ensures Bodies(e, helpers).bodies != []
    decreases e
  {
    match e
    case Or(a, b) => BodiesNonEmpty(a, helpers);
    case And(a, b) =>
      BodiesNonEmpty(a, helpers);
      var x := Bodies(a, helpers);
      BodiesNonEmpty(b, x.helpers);
    case Not(inner) =>
    case Pred(p) =>
  }

  /** Generation panics exactly on a membership test of an unknown field. */
  lemma {:induction false} PanicsIff(e: Expr, helpers: seq<Def>)
    ensures Bodies(e, helpers).Panic? <==> UnknownMember(e)
    decreases e, 0
  {
    match e
    case Or(a, b) =>
      PanicsIff(a, helpers);
      if !Bodies(a, helpers).Panic? { PanicsIff(b, Bodies(a, helpers).helpers); }
    case And(a, b) =>
      PanicsIff(a, helpers);
      var x := Bodies(a, helpers);
      if !x.Panic? {
        BodiesNonEmpty(a, helpers);
        CrossPanicsIff(x.bodies, b, x.helpers);
      }
    case Not(inner) => PanicsIff(inner, helpers);
    case Pred(p) =>
  }

  /** So a policy has no module exactly when one of its rules makes such a test. */
  lemma {:induction false} BrokenIff(rules: seq<Rule>)
    ensures GenRules(rules).Broken? <==> exists i :: 0 <= i < |rules| && UnknownMember(rules[i].when)
  {
    if rules == [] {
    } else {
      var n := |rules| - 1;
      BrokenIff(rules[..n]);
      assert forall i :: 0 <= i < n ==> rules[..n][i] == rules[i];
      var before := GenRules(rules[..n]);
      if before.Module? {
        PanicsIff(rules[n].when, before.helpers);
      }
    }
  }

  lemma {:induction false} CrossPanicsIff(lefts: seq<Body>, b: Expr, helpers: seq<Def>)
    ensures Cross(lefts, b, helpers).Panic? <==> lefts != [] && UnknownMember(b)
    decreases b, |lefts| + 1
  {
    if lefts == [] {
    } else {
      PanicsIff(b, helpers);
      if !UnknownMember(b) { CrossPanicsIff(lefts[1..], b, Bodies(b, helpers).helpers); }
    }
  }

  // ------------------------------------------------------------------
  // Helper names

  ghost predicate Flat(body: Body) {
    forall i :: 0 <= i < |body| ==> !body[i].NotRule?
  }

  ghost predicate AllFlat(bodies: seq<Body>) {
    forall i :: 0 <= i < |bodies| ==> Flat(bodies[i])
  }

  /** A helper is named by a position at or before its own, and its body refers to no rule. */
  ghost predicate HelpersOk(h: seq<Def>) {
    forall j :: 0 <= j < |h| ==> h[j].name.Helper? && h[j].name.k <= j && Flat(h[j].body)
  }

  /** `h'` is `h` and later helpers, whose names are all new. */
  ghost predicate Later(h: seq<Def>, h': seq<Def>) {
    h <= h' && forall j :: |h| <= j < |h'| ==> h'[j].name.Helper? && h'[j].name.k >= |h|
  }

  lemma LaterTransitive(a: seq<Def>, b: seq<Def>, c: seq<Def>)
    requires Later(a, b) && Later(b, c)
    ensures Later(a, c)
  {
    forall j | |a| <= j < |c| ensures c[j].name.Helper? && c[j].name.k >= |a| {
      if j < |b| { assert c[j] == b[j]; }
    }
  }

  /** Without `not`, nothing is pushed and no body refers to a rule. */
  lemma {:induction false} FlatBodies(e: Expr, h: seq<Def>)
    requires !HasNot(e) && !Bodies(e, h).Panic?
    ensures Bodies(e, h).helpers == h && AllFlat(Bodies(e, h).bodies)
    decreases e, 0
  {
    match e
    case Or(a, b) =>
      FlatBodies(a, h);
      FlatBodies(b, h);
    case And(a, b) =>
      FlatBodies(a, h);
      FlatCross(Bodies(a, h).bodies, b, h);
    case Pred(Compare(_, _)) =>
    case Pred(In(f, list)) => FlatList(f, list);
  }

  lemma {:induction false} FlatCross(lefts: seq<Body>, b: Expr, h: seq<Def>)
    requires !HasNot(b) && AllFlat(lefts) && !Cross(lefts, b, h).Panic?
    ensures Cross(lefts, b, h).helpers == h && AllFlat(Cross(lefts, b, h).bodies)
    decreases b, |lefts| + 1
  {
    if lefts == [] {
    } else {
      FlatBodies(b, h);
      FlatCross(lefts[1..], b, h);
    }
  }

  lemma {:induction false} FlatList(f: Field, list: seq<string>)
    ensures AllFlat(ListBodies(f, list))
  {
    if list == [] {
    } else {
      FlatList(f, list[1..]);
    }
  }

  /** Without nested `not`, every helper body is flat and every new name is fresh. */
  lemma {:induction false} HelpersGrow(e: Expr, h: seq<Def>)
    requires HelpersOk(h) && !NestedNot(e) && !Bodies(e, h).Panic?
    ensures HelpersOk(Bodies(e, h).helpers) && Later(h, Bodies(e, h).helpers)
    decreases e, 0
  {
    match e
    case Or(a, b) =>
      HelpersGrow(a, h);
      HelpersGrow(b, Bodies(a, h).helpers);
      LaterTransitive(h, Bodies(a, h).helpers, Bodies(e, h).helpers);
    case And(a, b) =>
      HelpersGrow(a, h);
      CrossGrows(Bodies(a, h).bodies, b, Bodies(a, h).helpers);
      LaterTransitive(h, Bodies(a, h).helpers, Bodies(e, h).helpers);
    case Not(inner) => FlatBodies(inner, h);
    case Pred(_) =>
  }

  lemma {:induction false} CrossGrows(lefts: seq<Body>, b: Expr, h: seq<Def>)
    requires HelpersOk(h) && !NestedNot(b) && !Cross(lefts, b, h).Panic?
    ensures HelpersOk(Cross(lefts, b, h).helpers) && Later(h, Cross(lefts, b, h).helpers)
    decreases b, |lefts| + 1
  {
    if lefts == [] {
    } else {
      HelpersGrow(b, h);
      CrossGrows(lefts[1..], b, Bodies(b, h).helpers);
      LaterTransitive(h, Bodies(b, h).helpers, Cross(lefts, b, h).helpers);
    }
  }

  // ------------------------------------------------------------------
  // Meaning of bodies

  ghost predicate FlatHolds(w: World, body: Body) {
    forall i :: 0 <= i < |body| ==> TestHolds(w, body[i])
  }

  ghost predicate RuleHolds(w: World, defs: seq<Def>, name: Name) {
    exists j :: 0 <= j < |defs| && defs[j].name == name && FlatHolds(w, defs[j].body)
  }

  ghost predicate LineHolds(w: World, l: Line) {
    if l.NotRule? then !RuleHolds(w, w.Defs(), l.name) else TestHolds(w, l)
  }

  ghost predicate BodyHolds(w: World, body: Body) {
    forall i :: 0 <= i < |body| ==> LineHolds(w, body[i])
  }

  ghost predicate SomeHolds(w: World, bodies: seq<Body>) {
    exists i :: 0 <= i < |bodies| && BodyHolds(w, bodies[i])
  }

  lemma SomeHoldsConcat(w: World, a: seq<Body>, b: seq<Body>)
    ensures SomeHolds(w, a + b) <==> SomeHolds(w, a) || SomeHolds(w, b)
  {
    assert forall i :: 0 <= i < |a| ==> (a + b)[i] == a[i];
    assert forall i :: 0 <= i < |b| ==> (a + b)[|a| + i] == b[i];
    if SomeHolds(w, b) {
      var i :| 0 <= i < |b| && BodyHolds(w, b[i]);
      assert BodyHolds(w, (a + b)[|a| + i]);
    }
    if SomeHolds(w, a + b) {
      var i :| 0 <= i < |a + b| && BodyHolds(w, (a + b)[i]);
      if i >= |a| { assert BodyHolds(w, b[i - |a|]); }
    }
  }

  lemma BodyHoldsConcat(w: World, x: Body, y: Body)
    ensures BodyHolds(w, x + y) <==> BodyHolds(w, x) && BodyHolds(w, y)
  {
    assert forall i :: 0 <= i < |x| ==> (x + y)[i] == x[i];
    assert forall i :: 0 <= i < |y| ==> (x + y)[|x| + i] == y[i];
    if BodyHolds(w, x + y) {
      forall i | 0 <= i < |y| ensures LineHolds(w, y[i]) {
        assert LineHolds(w, (x + y)[|x| + i]);
      }
    }
  }

  lemma PrefixedHolds(w: World, left: Body, rights: seq<Body>)
    ensures SomeHolds(w, Prefixed(left, rights)) <==> BodyHolds(w, left) && SomeHolds(w, rights)
  {
    forall i | 0 <= i < |rights|
      ensures BodyHolds(w, Prefixed(left, rights)[i]) <==> BodyHolds(w, left) && BodyHolds(w, rights[i])
    {
      BodyHoldsConcat(w, left, rights[i]);
    }
  }

  lemma OneLine(w: World, l: Line)
    ensures SomeHolds(w, [[l]]) <==> LineHolds(w, l)
  {
    assert [[l]][0] == [l];
    assert BodyHolds(w, [l]) <==> LineHolds(w, [l][0]);
  }

  lemma {:induction false} ListMeans(w: World, f: Field, list: seq<string>)
    requires !f.Unknown?
    ensures var v := FieldValue(f, w.ctx);
            SomeHolds(w, ListBodies(f, list)) <==>
            v.Some? && exists i :: 0 <= i < |list| && EntryHit(w.lower, list[i], v.value)
  {
    if list == [] {
    } else {
      var v := FieldValue(f, w.ctx);
      var lines, rest := EntryLines(f, list[0]), list[1..];
      var firsts := seq(|lines|, i requires 0 <= i < |lines| => [lines[i]]);
      EntryMeans(w, f, list[0], firsts);
      ListMeans(w, f, rest);
      SomeHoldsConcat(w, firsts, ListBodies(f, rest));
      if v.Some? {
        AnyOfList(w.lower, list, v.value);
      }
    }
  }

  lemma AnyOfList(lower: string -> string, list: seq<string>, v: string)
    requires list != []
    ensures (exists i :: 0 <= i < |list| && EntryHit(lower, list[i], v)) <==>
            EntryHit(lower, list[0], v) || exists i :: 0 <= i < |list[1..]| && EntryHit(lower, list[1..][i], v)
  {
    assert forall i :: 0 <= i < |list[1..]| ==> list[1..][i] == list[i + 1];
    if exists i :: 0 <= i < |list| && EntryHit(lower, list[i], v) {
      var i :| 0 <= i < |list| && EntryHit(lower, list[i], v);
      if i > 0 { assert EntryHit(lower, list[1..][i - 1], v); }
    }
    if exists i :: 0 <= i < |list[1..]| && EntryHit(lower, list[1..][i], v) {
      var i :| 0 <= i < |list[1..]| && EntryHit(lower, list[1..][i], v);
      assert EntryHit(lower, list[i + 1], v);
    }
  }

  lemma EntryMeans(w: World, f: Field, entry: string, bodies: seq<Body>)
    requires bodies == seq(|EntryLines(f, entry)|, i requires 0 <= i < |EntryLines(f, entry)| =>
                           [EntryLines(f, entry)[i]])
    ensures var v := FieldValue(f, w.ctx);
            SomeHolds(w, bodies) <==> v.Some? && EntryHit(w.lower, entry, v.value)
  {
    var lines := EntryLines(f, entry);
    OneLine(w, lines[0]);
    if WildcardBase(entry).Some? {
      OneLine(w, lines[1]);
      assert bodies == [[lines[0]]] + [[lines[1]]];
      SomeHoldsConcat(w, [[lines[0]]], [[lines[1]]]);
    } else {
      assert bodies == [[lines[0]]];
    }
  }

  // ------------------------------------------------------------------
  // Compilation preserves meaning

  /** The module's rules: matchers, and the helpers of `h`. */
  ghost predicate HelpersAre(w: World, h: seq<Def>) {
    w.helpers == h && forall j :: 0 <= j < |w.matchers| ==> w.matchers[j].name.Matcher?
  }

  lemma HelpersOnly(w: World, h: seq<Def>, name: Name)
    requires HelpersAre(w, h) && name.Helper?
    ensures RuleHolds(w, w.Defs(), name) <==> RuleHolds(w, h, name)
  {
    RuleHoldsConcat(w, w.matchers, h, name);
    assert w.Defs() == w.matchers + h;
  }

  lemma RuleHoldsConcat(w: World, a: seq<Def>, b: seq<Def>, name: Name)
    ensures RuleHolds(w, a + b, name) <==> RuleHolds(w, a, name) || RuleHolds(w, b, name)
  {
    var all := a + b;
    if RuleHolds(w, a, name) {
      var j :| 0 <= j < |a| && a[j].name == name && FlatHolds(w, a[j].body);
      assert all[j] == a[j];
    }
    if RuleHolds(w, b, name) {
      var j :| 0 <= j < |b| && b[j].name == name && FlatHolds(w, b[j].body);
      assert all[|a| + j] == b[j];
    }
  }

  /** A freshly named block of flat helpers means the disjunction of its bodies. */
  lemma HelperMeans(w: World, before: seq<Def>, bodies: seq<Body>, all: seq<Def>)
    requires HelpersOk(before) && AllFlat(bodies) && bodies != []
    requires Later(before + Named(Helper(|before|), bodies), all)
    ensures RuleHolds(w, all, Helper(|before|)) <==> SomeHolds(w, bodies)
  {
    var n, name := |before|, Helper(|before|);
    var upto := before + Named(name, bodies);
    assert forall i :: 0 <= i < |bodies| ==> all[n + i] == upto[n + i] == Def(name, bodies[i]);
    assert forall j :: 0 <= j < n ==> all[j] == upto[j] == before[j];
    forall i | 0 <= i < |bodies| ensures BodyHolds(w, bodies[i]) <==> FlatHolds(w, bodies[i]) {
      FlatMeans(w, bodies[i]);
    }
    if SomeHolds(w, bodies) {
      var i :| 0 <= i < |bodies| && BodyHolds(w, bodies[i]);
      assert all[n + i].name == name && FlatHolds(w, all[n + i].body);
    }
    if RuleHolds(w, all, name) {
      var j :| 0 <= j < |all| && all[j].name == name && FlatHolds(w, all[j].body);
      assert n <= j < n + |bodies|;
      assert all[j] == Def(name, bodies[j - n]);
    }
  }

  lemma FlatMeans(w: World, body: Body)
    requires Flat(body)
    ensures BodyHolds(w, body) <==> FlatHolds(w, body)
  {
    assert forall i :: 0 <= i < |body| ==> (LineHolds(w, body[i]) <==> TestHolds(w, body[i]));
  }

  /** Everything a proof about one compiled expression assumes. */
  ghost predicate Compiles(w: World, e: Expr, h: seq<Def>, all: seq<Def>) {
    && HelpersOk(h) && !NestedNot(e) && !UnknownMember(e) && LowerAgrees(w.lower, e, w.ctx)
    && !Bodies(e, h).Panic? && Later(Bodies(e, h).helpers, all) && HelpersAre(w, all)
  }

  /** The disjunction of the generated bodies is the expression. */
  lemma {:induction false} BodiesMean(w: World, e: Expr, h: seq<Def>, all: seq<Def>)
    requires Compiles(w, e, h, all)
    ensures SomeHolds(w, Bodies(e, h).bodies) <==> EvalExpr(w.rx, e, w.ctx)
    decreases e, 0
  {
    match e
    case Or(a, b) =>
      var x := Bodies(a, h);
      HelpersGrow(a, h);
      HelpersGrow(b, x.helpers);
      LaterTransitive(x.helpers, Bodies(e, h).helpers, all);
      BodiesMean(w, a, h, all);
      BodiesMean(w, b, x.helpers, all);
      SomeHoldsConcat(w, x.bodies, Bodies(b, x.helpers).bodies);
    case And(a, b) =>
      var x := Bodies(a, h);
      HelpersGrow(a, h);
      CrossGrows(x.bodies, b, x.helpers);
      LaterTransitive(x.helpers, Bodies(e, h).helpers, all);
      BodiesMean(w, a, h, all);
      CrossMeans(w, x.bodies, b, x.helpers, all);
    case Not(inner) =>
      OperandCompiles(w, inner, h, all);
      BodiesMean(w, inner, h, all);
      NotMeans(w, inner, h, all);
    case Pred(Compare(f, op)) => OneLine(w, CompareLine(f, op));
    case Pred(In(f, list)) =>
      if list == [] {
        OneLine(w, Never);
      } else {
        ListMeans(w, f, list);
      }
  }

  lemma OperandCompiles(w: World, inner: Expr, h: seq<Def>, all: seq<Def>)
    requires Compiles(w, Not(inner), h, all)
    ensures Compiles(w, inner, h, all)
  {
    FlatBodies(inner, h);
    NotFree(inner);
    HelpersGrow(Not(inner), h);
    LaterTransitive(h, Bodies(Not(inner), h).helpers, all);
  }

  /** Negating the helper negates the operand. */
  lemma NotMeans(w: World, inner: Expr, h: seq<Def>, all: seq<Def>)
    requires Compiles(w, Not(inner), h, all) && !Bodies(inner, h).Panic?
    ensures SomeHolds(w, Bodies(Not(inner), h).bodies) <==> !SomeHolds(w, Bodies(inner, h).bodies)
  {
    FlatBodies(inner, h);
    BodiesNonEmpty(inner, h);
    HelperMeans(w, h, Bodies(inner, h).bodies, all);
    HelpersOnly(w, all, Helper(|h|));
    OneLine(w, NotRule(Helper(|h|)));
  }

  lemma {:induction false} NotFree(e: Expr)
    requires !HasNot(e)
    ensures !NestedNot(e)
  {
    match e
    case Or(a, b) => NotFree(a); NotFree(b);
    case And(a, b) => NotFree(a); NotFree(b);
    case Pred(_) =>
  }

  /** Compiling the right operand once per left body still means the conjunction. */
  lemma {:induction false} CrossMeans(w: World, lefts: seq<Body>, b: Expr, h: seq<Def>, all: seq<Def>)
    requires HelpersOk(h) && !NestedNot(b) && !UnknownMember(b) && LowerAgrees(w.lower, b, w.ctx)
    requires !Cross(lefts, b, h).Panic? && Later(Cross(lefts, b, h).helpers, all) && HelpersAre(w, all)
    ensures SomeHolds(w, Cross(lefts, b, h).bodies) <==> SomeHolds(w, lefts) && EvalExpr(w.rx, b, w.ctx)
    decreases b, |lefts| + 1
  {
    if lefts == [] {
    } else {
      var y := Bodies(b, h);
      HelpersGrow(b, h);
      CrossGrows(lefts[1..], b, y.helpers);
      LaterTransitive(y.helpers, Cross(lefts, b, h).helpers, all);
      BodiesMean(w, b, h, all);
      CrossMeans(w, lefts[1..], b, y.helpers, all);
      PrefixedHolds(w, lefts[0], y.bodies);
      SomeHoldsConcat(w, Prefixed(lefts[0], y.bodies), Cross(lefts[1..], b, y.helpers).bodies);
      SomeHoldsConcat(w, [lefts[0]], lefts[1..]);
      assert lefts == [lefts[0]] + lefts[1..];
      assert SomeHolds(w, [lefts[0]]) <==> BodyHolds(w, [lefts[0]][0]);
    }
  }

  // ------------------------------------------------------------------
  // Evaluating the module

  lemma {:induction false} EvalFlat(w: World, body: Body, seen: set<Name>)
    requires Flat(body)
    ensures EvalBody(w, body, seen) == Some(FlatHolds(w, body))
    decreases |body|
  {
    if body == [] {
    } else {
      EvalFlat(w, body[1..], seen);
      FlatCons(w, body);
    }
  }

  lemma FlatCons(w: World, body: Body)
    requires body != []
    ensures FlatHolds(w, body) <==> TestHolds(w, body[0]) && FlatHolds(w, body[1..])
  {
    assert forall i :: 0 <= i < |body[1..]| ==> body[1..][i] == body[i + 1];
    if TestHolds(w, body[0]) && FlatHolds(w, body[1..]) {
      forall i | 0 <= i < |body| ensures TestHolds(w, body[i]) {
        if i > 0 { assert body[1..][i - 1] == body[i]; }
      }
    }
  }

  /** A helper is true when one of its flat bodies is. */
  lemma {:induction false} EvalHelperDefs(w: World, defs: seq<Def>, name: Name, seen: set<Name>)
    requires forall j :: 0 <= j < |defs| && defs[j].name == name ==> Flat(defs[j].body)
    ensures EvalDefs(w, defs, name, seen) == Some(RuleHolds(w, defs, name))
    decreases |defs|
  {
    if defs == [] {
    } else {
      EvalHelperDefs(w, defs[1..], name, seen);
      if defs[0].name == name { EvalFlat(w, defs[0].body, seen); }
      RuleHoldsCons(w, defs, name);
    }
  }

  lemma RuleHoldsCons(w: World, defs: seq<Def>, name: Name)
    requires defs != []
    ensures RuleHolds(w, defs, name) <==>
            (defs[0].name == name && FlatHolds(w, defs[0].body)) || RuleHolds(w, defs[1..], name)
  {
    assert forall j :: 0 <= j < |defs[1..]| ==> defs[1..][j] == defs[j + 1];
    if RuleHolds(w, defs, name) {
      var j :| 0 <= j < |defs| && defs[j].name == name && FlatHolds(w, defs[j].body);
      if j > 0 { assert defs[1..][j - 1] == defs[j]; }
    }
    if RuleHolds(w, defs[1..], name) {
      var j :| 0 <= j < |defs[1..]| && defs[1..][j].name == name && FlatHolds(w, defs[1..][j].body);
      assert defs[j + 1].name == name;
    }
  }

  /** A module whose helpers are flat: its matchers may refer to helpers, and nothing else refers to a rule. */
  ghost predicate Stratified(w: World) {
    && HelpersOk(w.helpers)
    && forall j :: 0 <= j < |w.matchers| ==> w.matchers[j].name.Matcher? && RefersToHelpers(w.matchers[j].body)
  }

  ghost predicate RefersToHelpers(body: Body) {
    forall i :: 0 <= i < |body| && body[i].NotRule? ==> body[i].name.Helper?
  }

  lemma EvalHelper(w: World, name: Name, seen: set<Name>)
    requires Stratified(w) && name.Helper? && name !in seen
    ensures EvalRule(w, name, seen) == Some(RuleHolds(w, w.Defs(), name))
  {
    EvalHelperDefs(w, w.Defs(), name, seen + {name});
  }

  lemma {:induction false} EvalMatcherBody(w: World, body: Body, seen: set<Name>)
    requires Stratified(w) && RefersToHelpers(body) && forall n :: n in seen ==> n.Matcher?
    ensures EvalBody(w, body, seen) == Some(BodyHolds(w, body))
    decreases |body|
  {
    if body == [] {
    } else {
      if body[0].NotRule? { EvalHelper(w, body[0].name, seen); }
      EvalMatcherBody(w, body[1..], seen);
      BodyHoldsConcat(w, [body[0]], body[1..]);
      assert body == [body[0]] + body[1..];
      assert BodyHolds(w, [body[0]]) <==> LineHolds(w, [body[0]][0]);
    }
  }

  ghost predicate MatcherHolds(w: World, defs: seq<Def>, name: Name) {
    exists j :: 0 <= j < |defs| && defs[j].name == name && BodyHolds(w, defs[j].body)
  }

  lemma {:induction false} EvalMatcherDefs(w: World, defs: seq<Def>, name: Name, seen: set<Name>)
    requires Stratified(w) && (forall n :: n in seen ==> n.Matcher?)
    requires forall j :: 0 <= j < |defs| && defs[j].name == name ==> RefersToHelpers(defs[j].body)
    ensures EvalDefs(w, defs, name, seen) == Some(MatcherHolds(w, defs, name))
    decreases |defs|
  {
    if defs == [] {
    } else {
      EvalMatcherDefs(w, defs[1..], name, seen);
      if defs[0].name == name { EvalMatcherBody(w, defs[0].body, seen); }
      MatcherHoldsConcat(w, [defs[0]], defs[1..], name);
      assert defs == [defs[0]] + defs[1..];
      assert MatcherHolds(w, [defs[0]], name) <==> [defs[0]][0].name == name && BodyHolds(w, [defs[0]][0].body);
    }
  }

  lemma MatcherHoldsConcat(w: World, a: seq<Def>, b: seq<Def>, name: Name)
    ensures MatcherHolds(w, a + b, name) <==> MatcherHolds(w, a, name) || MatcherHolds(w, b, name)
  {
    assert forall j :: 0 <= j < |a| ==> (a + b)[j] == a[j];
    assert forall j :: 0 <= j < |b| ==> (a + b)[|a| + j] == b[j];
    if MatcherHolds(w, b, name) {
      var j :| 0 <= j < |b| && b[j].name == name && BodyHolds(w, b[j].body);
      assert (a + b)[|a| + j].name == name;
    }
    if MatcherHolds(w, a + b, name) {
      var j :| 0 <= j < |a + b| && (a + b)[j].name == name && BodyHolds(w, (a + b)[j].body);
      if j >= |a| { assert b[j - |a|].name == name; }
    }
  }

  /** In a stratified module a matcher is true exactly when one of its bodies holds. */
  lemma EvalMatcher(w: World, i: nat)
    requires Stratified(w)
    ensures EvalRule(w, Matcher(i), {}) == Some(MatcherHolds(w, w.matchers, Matcher(i)))
  {
    var name := Matcher(i);
    EvalMatcherDefs(w, w.Defs(), name, {name});
    MatcherHoldsConcat(w, w.matchers, w.helpers, name);
    assert !MatcherHolds(w, w.helpers, name);
    if name in Names(w) {
      assert {} + {name} == {name};
    } else {
      assert forall j :: 0 <= j < |w.Defs()| ==> w.Defs()[j] in w.Defs();
      assert !MatcherHolds(w, w.Defs(), name);
    }
  }

  // ------------------------------------------------------------------
  // Whole policies

  /** Every rule is in the domain of the theorem. */
  ghost predicate InDomain(lower: string -> string, rules: seq<Rule>, ctx: Context) {
    forall i :: 0 <= i < |rules| ==>
      && !NestedNot(rules[i].when) && !UnknownMember(rules[i].when) && LowerAgrees(lower, rules[i].when, ctx)
  }

  ghost predicate NamedBelow(defs: seq<Def>, n: nat) {
    forall j :: 0 <= j < |defs| ==> defs[j].name.Matcher? && defs[j].name.i < n && RefersToHelpers(defs[j].body)
  }

  /** The generated module is stratified and its helper names never clash. */
  lemma {:induction false} ModuleIsStratified(lower: string -> string, rules: seq<Rule>, ctx: Context)
    requires InDomain(lower, rules, ctx)
    ensures var m := GenRules(rules);
            m.Module? && HelpersOk(m.helpers) && NamedBelow(m.matchers, |rules|)
  {
    if rules == [] {
    } else {
      var n := |rules| - 1;
      ModuleIsStratified(lower, rules[..n], ctx);
      var before, e := GenRules(rules[..n]), rules[n].when;
      PanicsIff(e, before.helpers);
      HelpersGrow(e, before.helpers);
      BodiesRefer(e, before.helpers);
    }
  }

  ghost predicate AllRefer(bodies: seq<Body>) {
    forall i :: 0 <= i < |bodies| ==> RefersToHelpers(bodies[i])
  }

  /** Generated bodies refer to nothing but helpers. */
  lemma {:induction false} BodiesRefer(e: Expr, h: seq<Def>)
    requires !Bodies(e, h).Panic?
    ensures AllRefer(Bodies(e, h).bodies)
    decreases e, 0
  {
    match e
    case Or(a, b) =>
      BodiesRefer(a, h);
      BodiesRefer(b, Bodies(a, h).helpers);
    case And(a, b) =>
      BodiesRefer(a, h);
      CrossRefers(Bodies(a, h).bodies, b, Bodies(a, h).helpers);
    case Not(_) =>
    case Pred(Compare(_, _)) =>
    case Pred(In(f, list)) => FlatList(f, list);
  }

  lemma {:induction false} CrossRefers(lefts: seq<Body>, b: Expr, h: seq<Def>)
    requires AllRefer(lefts) && !Cross(lefts, b, h).Panic?
    ensures AllRefer(Cross(lefts, b, h).bodies)
    decreases b, |lefts| + 1
  {
    if lefts == [] {
    } else {
      BodiesRefer(b, h);
      CrossRefers(lefts[1..], b, Bodies(b, h).helpers);
    }
  }

  /** Matcher `i` of the whole module means rule `i`. */
  lemma {:induction false} RulesMean(w: World, rules: seq<Rule>, i: nat)
    requires InDomain(w.lower, rules, w.ctx) && i < |rules|
    requires GenRules(rules).Module? && Later(GenRules(rules).helpers, w.helpers) && HelpersAre(w, w.helpers)
    ensures MatcherHolds(w, GenRules(rules).matchers, Matcher(i)) <==> EvalExpr(w.rx, rules[i].when, w.ctx)
  {
    var n := |rules| - 1;
    var before, e := GenRules(rules[..n]), rules[n].when;
    var g := Bodies(e, before.helpers);
    ModuleIsStratified(w.lower, rules[..n], w.ctx);
    HelpersGrow(e, before.helpers);
    MatcherHoldsConcat(w, before.matchers, Named(Matcher(n), g.bodies), Matcher(i));
    NamedHolds(w, Matcher(n), g.bodies, Matcher(i));
    if i < n {
      LaterTransitive(before.helpers, g.helpers, w.helpers);
      RulesMean(w, rules[..n], i);
    } else {
      BodiesMean(w, e, before.helpers, w.helpers);
    }
  }

  lemma NamedHolds(w: World, name: Name, bodies: seq<Body>, asked: Name)
    ensures MatcherHolds(w, Named(name, bodies), asked) <==> name == asked && SomeHolds(w, bodies)
  {
    if name == asked && SomeHolds(w, bodies) {
      var i :| 0 <= i < |bodies| && BodyHolds(w, bodies[i]);
      assert Named(name, bodies)[i].name == asked;
    }
  }

  ghost function WorldOf(m: Module, rx: Regex, lower: string -> string, ctx: Context): World
    requires m.Module?
  {
    World(m.matchers, m.helpers, rx, lower, ctx)
  }

  /** Every rule's matcher evaluates, without error, to the rule's `when`. */
  lemma MatchersMean(rx: Regex, lower: string -> string, p: Policy, ctx: Context, i: nat)
    requires InDomain(lower, p.rules, ctx) && i < |p.rules|
    ensures GenRules(p.rules).Module?
    ensures EvalRule(WorldOf(GenRules(p.rules), rx, lower, ctx), Matcher(i), {}) ==
            Some(EvalExpr(rx, p.rules[i].when, ctx))
  {
    ModuleIsStratified(lower, p.rules, ctx);
    var w := WorldOf(GenRules(p.rules), rx, lower, ctx);
    EvalMatcher(w, i);
    RulesMean(w, p.rules, i);
  }

  /** `data.writ.decision`: the else chain from rule `i` on; `None` is an evaluation error. */
  ghost function Decision(w: World, i: nat, n: nat): Option<string>
    requires i <= n
    decreases n - i
  {
    if i == n then Some("default")
    else
      var hit := EvalRule(w, Matcher(i), {});
      if hit.None? then None else if hit.value then Some(Decimal(i)) else Decision(w, i + 1, n)
  }

  /**
   For a rule that tests membership the condition on `lower` is needed as well:
   its matcher evaluates to the rule's `when` exactly where the two
   lowercasings put the field's value in the same list.
   */
  lemma MembershipIff(rx: Regex, lower: string -> string, rule: Rule, f: Field, list: seq<string>, ctx: Context)
    requires rule.when == Pred(In(f, list)) && !f.Unknown? && list != []
    ensures GenRules([rule]).Module?
    ensures EvalRule(WorldOf(GenRules([rule]), rx, lower, ctx), Matcher(0), {}) == Some(EvalExpr(rx, rule.when, ctx))
            <==> LowerAgrees(lower, rule.when, ctx)
  {
    var bodies := ListBodies(f, list);
    MembershipModule(rule, f, list);
    var w := WorldOf(GenRules([rule]), rx, lower, ctx);
    BodiesRefer(rule.when, []);
    AloneMatcher(w, bodies);
    ListMeans(w, f, list);
  }

  lemma AloneMatcher(w: World, bodies: seq<Body>)
    requires w.matchers == Named(Matcher(0), bodies) && w.helpers == [] && AllRefer(bodies)
    ensures EvalRule(w, Matcher(0), {}) == Some(SomeHolds(w, bodies))
  {
    EvalMatcher(w, 0);
    NamedHolds(w, Matcher(0), bodies, Matcher(0));
  }

  lemma MembershipModule(rule: Rule, f: Field, list: seq<string>)
    requires rule.when == Pred(In(f, list)) && !f.Unknown? && list != []
    ensures GenRules([rule]) == Module(Named(Matcher(0), ListBodies(f, list)), [])
  {
    var bodies := ListBodies(f, list);
    assert Bodies(rule.when, []) == Gen(bodies, []);
    assert [rule][..0] == [] && GenRules([]) == Module([], []);
    assert [] + Named(Matcher(0), bodies) == Named(Matcher(0), bodies);
  }

  /** A value that a Unicode lowercasing turns into ASCII: the Kelvin sign is in `*.k` for Rego alone. */
  lemma KelvinDiffers(lower: string -> string, v: string)
    requires v == "\U{212A}" && lower(v) == "k"
    ensures !ListAgrees(lower, ["*.k"], v)
  {
    var entry := "*.k";
    assert entry[2..] == "k" && AsciiLower("k") == "k";
    assert ["*.k"][0] == entry && EntryHit(lower, entry, v);
    assert AsciiLower(v)[0] == '\U{212A}' && |AsciiLower(v)| == 1;
    assert !ListEntryMatches(entry, v);
  }

  /** An instance of the panic: membership of a field that does not exist. */
  lemma UnknownFieldPanics(rule: Rule, list: seq<string>)
    requires rule.when == Pred(In(Unknown, list))
    ensures GenRules([rule]).Broken? <==> list != []
  {
    BrokenIff([rule]);
    assert [rule][0] == rule;
  }

  const FAIL_CLOSED := "engine-rego-fail-closed"

  function FailClosed(why: string): Verdict {
    Deny(FAIL_CLOSED,
         "The Rego engine could not evaluate this call (" + why + "); the call is denied (fail closed).", None)
  }

  function VerdictForDecision(p: Policy, decision: string, ctx: Context): Verdict {
    if decision == "default" then DefaultFor(p.default)
    else match ParseNat(decision)
      case Some(i) => if i < |p.rules| then VerdictFor(p.rules[i], ctx)
        else FailClosed("decision references an unknown rule")
      case None => FailClosed("decision is not a rule index")
  }

  ghost function Evaluate(rx: Regex, lower: string -> string, p: Policy, ctx: Context): Verdict
    requires GenRules(p.rules).Module?
  {
    match Decision(WorldOf(GenRules(p.rules), rx, lower, ctx), 0, |p.rules|)
    case Some(d) => VerdictForDecision(p, d, ctx)
    case None => FailClosed("evaluation failed")
  }

  /**
   What a decision becomes, whatever text the engine answered: the default, the
   rule whose number it is, and a denial if it is neither.
   */
  lemma DecisionSays(p: Policy, decision: string, ctx: Context)
    ensures var v := VerdictForDecision(p, decision, ctx);
            && (decision == "default" ==> SaysDefault(p.default, v))
            && (forall i | 0 <= i < |p.rules| && ParseNat(decision) == Some(i) :: SaysRule(p.rules[i], v))
            && (decision != "default" && (ParseNat(decision).None? || ParseNat(decision).value >= |p.rules|)
                ==> DeniedBy("engine-rego-fail-closed", v))
  {
    DefaultIsNoNumber();
    var n := ParseNat(decision);
    if decision == "default" {
      DefaultIsSaid(p.default);
    } else if n.None? {
      FailsClosed("decision is not a rule index");
    } else if n.value >= |p.rules| {
      FailsClosed("decision references an unknown rule");
    } else {
      RuleIsSaid(p.rules[n.value], ctx);
    }
  }

  lemma FailsClosed(why: string)
    ensures DeniedBy("engine-rego-fail-closed", FailClosed(why))
  {
  }

  lemma DefaultIsNoNumber()
    ensures ParseNat("default").None?
  {
    assert !IsDigit("default"[6]);
  }

  /** A module that decides nothing denies the call. */
  lemma UndecidedDenies(rx: Regex, lower: string -> string, p: Policy, ctx: Context)
    requires GenRules(p.rules).Module?
    requires Decision(WorldOf(GenRules(p.rules), rx, lower, ctx), 0, |p.rules|).None?
    ensures DeniedBy("engine-rego-fail-closed", Evaluate(rx, lower, p, ctx))
  {
  }

  lemma {:induction false} DecisionIsFirst(rx: Regex, lower: string -> string, p: Policy, ctx: Context, i: nat)
    requires InDomain(lower, p.rules, ctx) && i <= |p.rules| && GenRules(p.rules).Module?
    requires forall j :: 0 <= j < i ==> !EvalExpr(rx, p.rules[j].when, ctx)
    ensures var d := Decision(WorldOf(GenRules(p.rules), rx, lower, ctx), i, |p.rules|);
            d.Some? && IsVerdict(rx, p, ctx, VerdictForDecision(p, d.value, ctx))
    decreases |p.rules| - i
  {
    if i == |p.rules| {
      assert FirstMatch(rx, p, ctx, i);
    } else {
      MatchersMean(rx, lower, p, ctx, i);
      if EvalExpr(rx, p.rules[i].when, ctx) {
        assert FirstMatch(rx, p, ctx, i);
        NumberDecides(p, i, ctx);
      } else {
        DecisionIsFirst(rx, lower, p, ctx, i + 1);
      }
    }
  }

  /** A decision that is a rule's number gives that rule's verdict. */
  lemma NumberDecides(p: Policy, i: nat, ctx: Context)
    requires i < |p.rules|
    ensures VerdictForDecision(p, Decimal(i), ctx) == VerdictAt(p, ctx, i)
  {
    DecimalRoundTrip(i);
    assert IsDigit(Decimal(i)[0]) && !IsDigit("default"[0]);
  }

  /** The Rego engine returns the native verdict on every policy in the domain, for every call. */
  lemma EngineAgrees(rx: Regex, lower: string -> string, p: Policy, ctx: Context)
    requires InDomain(lower, p.rules, ctx)
    ensures GenRules(p.rules).Module? && IsVerdict(rx, p, ctx, Evaluate(rx, lower, p, ctx))
  {
    ModuleIsStratified(lower, p.rules, ctx);
    DecisionIsFirst(rx, lower, p, ctx, 0);
  }

  // ------------------------------------------------------------------
  // Outside the domain

  ghost predicate SelfRecursive(defs: seq<Def>) {
    exists j :: 0 <= j < |defs| && NotRule(defs[j].name) in defs[j].body
  }

  /** The first `not` compiled in an expression takes the name of the next helper. */
  lemma {:induction false} FirstNot(e: Expr, h: seq<Def>)
    requires HasNot(e) && !Bodies(e, h).Panic?
    ensures exists i :: 0 <= i < |Bodies(e, h).bodies| && NotRule(Helper(|h|)) in Bodies(e, h).bodies[i]
    decreases e, 0
  {
    var line := NotRule(Helper(|h|));
    match e
    case Or(a, b) =>
      var x := Bodies(a, h);
      var all := Bodies(e, h).bodies;
      if HasNot(a) {
        FirstNot(a, h);
        var i :| 0 <= i < |x.bodies| && line in x.bodies[i];
        assert all[i] == x.bodies[i];
      } else {
        FlatBodies(a, h);
        FirstNot(b, h);
        var y := Bodies(b, h);
        var i :| 0 <= i < |y.bodies| && line in y.bodies[i];
        assert all[|x.bodies| + i] == y.bodies[i];
      }
    case And(a, b) =>
      var x := Bodies(a, h);
      if HasNot(a) {
        FirstNot(a, h);
        var i :| 0 <= i < |x.bodies| && line in x.bodies[i];
        CrossKeeps(x.bodies, b, x.helpers, i, line);
      } else {
        FlatBodies(a, h);
        BodiesNonEmpty(a, h);
        FirstNot(b, h);
        var y := Bodies(b, h);
        var i :| 0 <= i < |y.bodies| && line in y.bodies[i];
        assert Bodies(e, h).bodies[i] == x.bodies[0] + y.bodies[i];
      }
    case Not(_) =>
      assert Bodies(e, h).bodies[0][0] == line;
  }

  /** A line of a left body survives in some body of the product. */
  lemma {:induction false} CrossKeeps(lefts: seq<Body>, b: Expr, h: seq<Def>, i: nat, line: Line)
    requires i < |lefts| && line in lefts[i] && !Cross(lefts, b, h).Panic?
    ensures exists k :: 0 <= k < |Cross(lefts, b, h).bodies| && line in Cross(lefts, b, h).bodies[k]
    decreases |lefts|
  {
    var y, all := Bodies(b, h), Cross(lefts, b, h).bodies;
    if i == 0 {
      BodiesNonEmpty(b, h);
      assert all[0] == lefts[0] + y.bodies[0];
    } else {
      CrossKeeps(lefts[1..], b, y.helpers, i - 1, line);
      var more := Cross(lefts[1..], b, y.helpers).bodies;
      var k :| 0 <= k < |more| && line in more[k];
      assert all[|Prefixed(lefts[0], y.bodies)| + k] == more[k];
    }
  }

  /** A nested `not` makes its outer helper refer to itself. */
  lemma {:induction false} NestedIsRecursive(e: Expr, h: seq<Def>)
    requires NestedNot(e) && !Bodies(e, h).Panic?
    ensures SelfRecursive(Bodies(e, h).helpers)
    decreases e, 0
  {
    match e
    case Or(a, b) =>
      var x := Bodies(a, h);
      if NestedNot(a) {
        NestedIsRecursive(a, h);
        OnlyGrow(b, x.helpers);
        StillRecursive(x.helpers, Bodies(e, h).helpers);
      } else {
        NestedIsRecursive(b, x.helpers);
      }
    case And(a, b) =>
      var x := Bodies(a, h);
      if NestedNot(a) {
        NestedIsRecursive(a, h);
        OnlyGrowCross(x.bodies, b, x.helpers);
        StillRecursive(x.helpers, Bodies(e, h).helpers);
      } else {
        BodiesNonEmpty(a, h);
        NestedIsRecursive(b, x.helpers);
        OnlyGrowCross(x.bodies[1..], b, Bodies(b, x.helpers).helpers);
        StillRecursive(Bodies(b, x.helpers).helpers, Bodies(e, h).helpers);
      }
    case Not(inner) =>
      var x := Bodies(inner, h);
      FirstNot(inner, h);
      var i :| 0 <= i < |x.bodies| && NotRule(Helper(|h|)) in x.bodies[i];
      assert Bodies(e, h).helpers[|x.helpers| + i] == Def(Helper(|h|), x.bodies[i]);
  }

  lemma StillRecursive(a: seq<Def>, b: seq<Def>)
    requires SelfRecursive(a) && a <= b
    ensures SelfRecursive(b)
  {
    var j :| 0 <= j < |a| && NotRule(a[j].name) in a[j].body;
    assert b[j] == a[j];
  }

  lemma {:induction false} OnlyGrow(e: Expr, h: seq<Def>)
    requires !Bodies(e, h).Panic?
    ensures h <= Bodies(e, h).helpers
    decreases e, 0
  {
    match e
    case Or(a, b) =>
      OnlyGrow(a, h);
      OnlyGrow(b, Bodies(a, h).helpers);
    case And(a, b) =>
      OnlyGrow(a, h);
      OnlyGrowCross(Bodies(a, h).bodies, b, Bodies(a, h).helpers);
    case Not(inner) => OnlyGrow(inner, h);
    case Pred(_) =>
  }

  lemma {:induction false} OnlyGrowCross(lefts: seq<Body>, b: Expr, h: seq<Def>)
    requires !Cross(lefts, b, h).Panic?
    ensures h <= Cross(lefts, b, h).helpers
    decreases b, |lefts| + 1
  {
    if lefts == [] {
    } else {
      OnlyGrow(b, h);
      OnlyGrowCross(lefts[1..], b, Bodies(b, h).helpers);
    }
  }

  /** A rule refers to itself in the generated module exactly when some rule nests `not` inside `not`. */
  lemma {:induction false} RecursiveIff(rules: seq<Rule>)
    requires GenRules(rules).Module?
    ensures SelfRecursive(GenRules(rules).helpers) <==> exists i :: 0 <= i < |rules| && NestedNot(rules[i].when)
    ensures (forall i :: 0 <= i < |rules| ==> !NestedNot(rules[i].when)) ==> HelpersOk(GenRules(rules).helpers)
  {
    if rules == [] {
    } else {
      var n := |rules| - 1;
      RecursiveIff(rules[..n]);
      var before, e := GenRules(rules[..n]), rules[n].when;
      OnlyGrow(e, before.helpers);
      assert forall i :: 0 <= i < n ==> rules[..n][i] == rules[i];
      if NestedNot(e) {
        NestedIsRecursive(e, before.helpers);
      } else if exists i :: 0 <= i < n && NestedNot(rules[i].when) {
        StillRecursive(before.helpers, GenRules(rules).helpers);
      } else {
        HelpersGrow(e, before.helpers);
        assert HelpersOk(GenRules(rules).helpers);
      }
    }
  }

  lemma {:induction false} EvalAbsent(w: World, defs: seq<Def>, name: Name, seen: set<Name>)
    requires forall j :: 0 <= j < |defs| ==> defs[j].name != name
    ensures EvalDefs(w, defs, name, seen) == Some(false)
    decreases |defs|
  {
    if defs == [] {
    } else {
      EvalAbsent(w, defs[1..], name, seen);
    }
  }

  ghost predicate SomeFlat(w: World, bodies: seq<Body>) {
    exists i :: 0 <= i < |bodies| && FlatHolds(w, bodies[i])
  }

  /** Flat bodies are tried first: what follows matters only when none of them holds. */
  lemma {:induction false} EvalFlatFirst(w: World, name: Name, bodies: seq<Body>, rest: seq<Def>, seen: set<Name>)
    requires AllFlat(bodies)
    ensures EvalDefs(w, Named(name, bodies) + rest, name, seen) ==
            if SomeFlat(w, bodies) then Some(true) else EvalDefs(w, rest, name, seen)
    decreases |bodies|
  {
    var defs := Named(name, bodies) + rest;
    if bodies == [] {
      assert defs == rest;
    } else {
      EvalFlatFirst(w, name, bodies[1..], rest, seen);
      EvalFlat(w, bodies[0], seen);
      assert defs[1..] == Named(name, bodies[1..]) + rest && defs[0] == Def(name, bodies[0]);
      SomeFlatCons(w, bodies);
    }
  }

  lemma SomeFlatCons(w: World, bodies: seq<Body>)
    requires bodies != []
    ensures SomeFlat(w, bodies) <==> FlatHolds(w, bodies[0]) || SomeFlat(w, bodies[1..])
  {
    assert forall i :: 0 <= i < |bodies[1..]| ==> bodies[1..][i] == bodies[i + 1];
    if SomeFlat(w, bodies) {
      var i :| 0 <= i < |bodies| && FlatHolds(w, bodies[i]);
      if i > 0 { assert bodies[1..][i - 1] == bodies[i]; }
    }
  }

  /** What flat bodies mean depends on the call alone. */
  lemma FlatMeaning(w: World, e: Expr)
    requires !HasNot(e) && !UnknownMember(e) && LowerAgrees(w.lower, e, w.ctx)
    ensures var g := Bodies(e, []);
            g.Gen? && g.helpers == [] && AllFlat(g.bodies) && (SomeFlat(w, g.bodies) <==> EvalExpr(w.rx, e, w.ctx))
  {
    PanicsIff(e, []);
    FlatBodies(e, []);
    NotFree(e);
    var bodies, alone := Bodies(e, []).bodies, World([], [], w.rx, w.lower, w.ctx);
    BodiesMean(alone, e, [], []);
    forall i | 0 <= i < |bodies| ensures BodyHolds(alone, bodies[i]) <==> FlatHolds(w, bodies[i]) {
      FlatMeans(alone, bodies[i]);
      assert forall k :: 0 <= k < |bodies[i]| ==> (TestHolds(alone, bodies[i][k]) <==> TestHolds(w, bodies[i][k]));
    }
  }

  const C0 := Helper(0)

  /** The module of a single doubly negated rule. */
  lemma DoubleNegationModule(rule: Rule, e: Expr)
    requires rule.when == Not(Not(e)) && !Bodies(e, []).Panic? && Bodies(e, []).helpers == []
    ensures GenRules([rule]) ==
            Module([Def(Matcher(0), [NotRule(C0)])], Named(C0, Bodies(e, []).bodies) + [Def(C0, [NotRule(C0)])])
  {
    var bodies, line := Bodies(e, []).bodies, [NotRule(C0)];
    assert Bodies(Not(e), []) == Gen([line], [] + Named(C0, bodies));
    assert [] + Named(C0, bodies) == Named(C0, bodies);
    assert Named(C0, [line]) == [Def(C0, line)];
    assert Bodies(rule.when, []) == Gen([line], Named(C0, bodies) + [Def(C0, line)]);
    assert [rule][..0] == [];
    assert Named(Matcher(0), [line]) == [Def(Matcher(0), line)];
  }

  /** The helper finds its own name among its bodies once the real ones have failed. */
  lemma HelperChasesItself(w: World, bodies: seq<Body>, seen: set<Name>)
    requires AllFlat(bodies) && C0 !in seen
    requires w.matchers == [Def(Matcher(0), [NotRule(C0)])] && w.helpers == Named(C0, bodies) + [Def(C0, [NotRule(C0)])]
    ensures EvalRule(w, C0, seen) == if SomeFlat(w, bodies) then Some(true) else None
  {
    var last, inside := Def(C0, [NotRule(C0)]), seen + {C0};
    var defs := w.Defs();
    assert defs[|defs| - 1] == last && last in defs;
    assert defs[0].name == Matcher(0) && defs[1..] == w.helpers;
    EvalFlatFirst(w, C0, bodies, [last], inside);
    assert EvalRule(w, C0, inside) == None;
    assert EvalLine(w, last.body[0], inside) == None;
    assert EvalBody(w, last.body, inside) == None;
    assert [last][0] == last;
    assert EvalDefs(w, [last], C0, inside) == None;
  }

  lemma MatcherChases(w: World, bodies: seq<Body>)
    requires AllFlat(bodies)
    requires w.matchers == [Def(Matcher(0), [NotRule(C0)])] && w.helpers == Named(C0, bodies) + [Def(C0, [NotRule(C0)])]
    ensures EvalRule(w, Matcher(0), {}) == if SomeFlat(w, bodies) then Some(false) else None
  {
    var defs, body, seen := w.Defs(), [NotRule(C0)], {} + {Matcher(0)};
    assert defs[0] == Def(Matcher(0), body) && defs[0] in defs && defs[1..] == w.helpers;
    HelperChasesItself(w, bodies, seen);
    assert body[0] == NotRule(C0) && body[1..] == [];
    assert EvalBody(w, body, seen) == EvalLine(w, body[0], seen);
    EvalAbsent(w, w.helpers, Matcher(0), seen);
  }

  /**
   A double negation is never right. For every `not`-free `e` and every call,
   the matcher of `not not e` is false where `e` is true, so the rule is
   skipped and the default applies; and it is an error where `e` is false, so
   the call is denied. (An evaluator that tries a rule's bodies in order and
   stops at the first true one is assumed.)
   */
  lemma DoubleNegationIsWrong(rx: Regex, lower: string -> string, p: Policy, e: Expr, ctx: Context)
    requires |p.rules| == 1 && p.rules[0].when == Not(Not(e))
    requires !HasNot(e) && !UnknownMember(e) && LowerAgrees(lower, e, ctx)
    ensures GenRules(p.rules).Module?
    ensures EvalRule(WorldOf(GenRules(p.rules), rx, lower, ctx), Matcher(0), {}) ==
            if EvalExpr(rx, e, ctx) then Some(false) else None
    ensures if EvalExpr(rx, e, ctx)
            then Evaluate(rx, lower, p, ctx) == DefaultFor(p.default)
              && IsVerdict(rx, p, ctx, VerdictFor(p.rules[0], ctx))
            else DeniedBy("engine-rego-fail-closed", Evaluate(rx, lower, p, ctx))
                 && IsVerdict(rx, p, ctx, DefaultFor(p.default))
  {
    var rule := p.rules[0];
    assert p.rules == [rule];
    FlatMeaning(World([], [], rx, lower, ctx), e);
    DoubleNegationModule(rule, e);
    var w := WorldOf(GenRules(p.rules), rx, lower, ctx);
    FlatMeaning(w, e);
    MatcherChases(w, Bodies(e, []).bodies);
    assert EvalExpr(rx, Not(e), ctx) == !EvalExpr(rx, e, ctx) && EvalExpr(rx, rule.when, ctx) == EvalExpr(rx, e, ctx);
    assert FirstMatch(rx, p, ctx, if EvalExpr(rx, e, ctx) then 0 else 1);
  }

  /** It fails open: a rule that denies `bash`, doubly negated, lets `bash` through under a default of allow. */
  lemma DoubleNegationFailsOpen(rx: Regex, lower: string -> string, rule: Rule, ctx: Context)
    requires rule.when == Not(Not(Pred(Compare(Tool, Eq("bash"))))) && rule.verdict.RuleDeny? && ctx.tool == "bash"
    ensures var p := Policy(DefaultAllow, [rule]);
            && GenRules(p.rules).Module?
            && Evaluate(rx, lower, p, ctx) == Allow(Some("default"))
            && VerdictFor(rule, ctx).Deny? && IsVerdict(rx, p, ctx, VerdictFor(rule, ctx))
  {
    DoubleNegationIsWrong(rx, lower, Policy(DefaultAllow, [rule]), Pred(Compare(Tool, Eq("bash"))), ctx);
  }

}
