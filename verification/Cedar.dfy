/**
 The Cedar backend. Rules compile to Cedar expressions over a context record;
 the host evaluates regexes into numbered slots and picks the lowest satisfied
 permit. Proved to return the native verdict on every policy and call.
 */
module Cedar {
  import opened Bytes
  import opened Text
  import opened Ledger
  import opened Policy

  // ------------------------------------------------------------------
  // The target: the fragment of Cedar that is generated, with its errors

  datatype Value = BoolV(b: bool) | StrV(s: string) | RecV(attrs: map<string, Value>)

  datatype Glob = Star | Lit(c: char)

  datatype Cedar =
    | False
    | Str(s: string)
    | Root
    | Get(e: Cedar, attr: string)
    | Has(e: Cedar, attr: string)
    | Same(l: Cedar, r: Cedar)
    | Differ(l: Cedar, r: Cedar)
    | Like(e: Cedar, pat: seq<Glob>)
    | Both(l: Cedar, r: Cedar)
    | Either(l: Cedar, r: Cedar)
    | Negate(e: Cedar)

  predicate GlobMatch(pat: seq<Glob>, s: string)
    decreases |pat| + |s|
  {
    if pat == [] then s == ""
    else match pat[0]
      case Star => GlobMatch(pat[1..], s) || (s != "" && GlobMatch(pat, s[1..]))
      case Lit(c) => s != "" && s[0] == c && GlobMatch(pat[1..], s[1..])
  }

  /** `None` is an evaluation error: a missing attribute or an ill-typed operand. */
  function Eval(e: Cedar, ctx: map<string, Value>): Option<Value> {
    match e
    case False => Some(BoolV(false))
    case Str(s) => Some(StrV(s))
    case Root => Some(RecV(ctx))
    case Get(r, attr) =>
      var v := Eval(r, ctx);
      if v.Some? && v.value.RecV? && attr in v.value.attrs then Some(v.value.attrs[attr]) else None
    case Has(r, attr) =>
      var v := Eval(r, ctx);
      if v.Some? && v.value.RecV? then Some(BoolV(attr in v.value.attrs)) else None
    case Same(l, r) =>
      var x, y := Eval(l, ctx), Eval(r, ctx);
      if x.Some? && y.Some? then Some(BoolV(x.value == y.value)) else None
    case Differ(l, r) =>
      var x, y := Eval(l, ctx), Eval(r, ctx);
      if x.Some? && y.Some? then Some(BoolV(x.value != y.value)) else None
    case Like(l, pat) =>
      var v := Eval(l, ctx);
      if v.Some? && v.value.StrV? then Some(BoolV(GlobMatch(pat, v.value.s))) else None
    case Both(l, r) =>
      var v := Eval(l, ctx);
      if v.None? || !v.value.BoolV? then None
      else if !v.value.b then v
      else AsBool(Eval(r, ctx))
    case Either(l, r) =>
      var v := Eval(l, ctx);
      if v.None? || !v.value.BoolV? then None
      else if v.value.b then v
      else AsBool(Eval(r, ctx))
    case Negate(l) =>
      var v := Eval(l, ctx);
      if v.Some? && v.value.BoolV? then Some(BoolV(!v.value.b)) else None
  }

  function AsBool(v: Option<Value>): Option<Value> {
    if v.Some? && v.value.BoolV? then v else None
  }

  // ------------------------------------------------------------------
  // Code generation

  datatype Slot = Slot(field: Field, pattern: string)

  function FieldName(f: Field): Option<string> {
    match f
    case Tool => Some("tool")
    case Command => Some("command")
    case Path => Some("path")
    case UrlHost => Some("url_host")
    case Query => Some("query")
    case Agent => Some("agent")
    case Mode => Some("mode")
    case Server => Some("server")
    case Trust => Some("trust")
    case Unknown => None
  }

  predicate AlwaysPresent(f: Field) {
    f.Tool? || f.Agent? || f.Mode?
  }

  function Guard(f: Field, name: string, test: Cedar): Cedar {
    if AlwaysPresent(f) then test else Both(Has(Root, name), test)
  }

  /** Text in a `like` pattern, with its stars escaped. */
  function Literal(w: string): seq<Glob> {
    seq(|w|, i requires 0 <= i < |w| => Lit(w[i]))
  }

  function SlotName(k: nat): string {
    "m" + Decimal(k)
  }

  function OpTest(name: string, op: Op): Cedar
    requires !op.Matches?
  {
    var f := Get(Root, name);
    match op
    case Eq(w) => Same(f, Str(w))
    case Ne(w) => Differ(f, Str(w))
    case StartsWith(w) => Like(f, Literal(w) + [Star])
    case EndsWith(w) => Like(f, [Star] + Literal(w))
    case Contains(w) => Like(f, [Star] + Literal(w) + [Star])
  }

  function EntryTest(name: string, entry: string): Cedar {
    match WildcardBase(entry)
    case Some(base) =>
      var lowered := AsciiLower(base);
      var f := Get(Get(Root, "lc"), name);
      Either(Same(f, Str(lowered)), Like(f, [Star, Lit('.')] + Literal(lowered)))
    case None => Same(Get(Root, name), Str(entry))
  }

  /** The entries of a list joined with `||`. */
  function AnyEntry(name: string, list: seq<string>): Cedar
    requires list != []
  {
    if |list| == 1 then EntryTest(name, list[0])
    else Either(AnyEntry(name, list[..|list| - 1]), EntryTest(name, list[|list| - 1]))
  }

  function GenPred(p: Predicate, slots: seq<Slot>): (Cedar, seq<Slot>) {
    var name := FieldName(p.field);
    if name.None? then (False, slots)
    else match p
      case Compare(f, op) =>
        if op.Matches? then (Get(Get(Root, "re"), SlotName(|slots|)), slots + [Slot(f, op.pattern)])
        else (Guard(f, name.value, OpTest(name.value, op)), slots)
      case In(f, list) =>
        if list == [] then (False, slots) else (Guard(f, name.value, AnyEntry(name.value, list)), slots)
  }

  function GenExpr(e: Expr, slots: seq<Slot>): (Cedar, seq<Slot>) {
    match e
    case Or(a, b) =>
      var (x, s1) := GenExpr(a, slots);
      var (y, s2) := GenExpr(b, s1);
      (Either(x, y), s2)
    case And(a, b) =>
      var (x, s1) := GenExpr(a, slots);
      var (y, s2) := GenExpr(b, s1);
      (Both(x, y), s2)
    case Not(inner) =>
      var (x, s1) := GenExpr(inner, slots);
      (Negate(x), s1)
    case Pred(p) => GenPred(p, slots)
  }

  /** `Codegen` grows its slot table as it walks the expression. */
  class Codegen {
    var slots: seq<Slot>

    constructor ()
      ensures slots == []
    {
      slots := [];
    }

    method Expr(e: Expr) returns (c: Cedar)
      modifies this
      ensures (c, slots) == GenExpr(e, old(slots))
      decreases e
    {
      match e
      case Or(a, b) =>
        var x := Expr(a);
        var y := Expr(b);
        c := Either(x, y);
      case And(a, b) =>
        var x := Expr(a);
        var y := Expr(b);
        c := Both(x, y);
      case Not(inner) =>
        var x := Expr(inner);
        c := Negate(x);
      case Pred(p) =>
        var g := GenPred(p, slots);
        c := g.0;
        slots := g.1;
    }
  }

  function GenRules(rules: seq<Rule>): (seq<Cedar>, seq<Slot>) {
    if rules == [] then ([], [])
    else
      var (done, slots) := GenRules(rules[..|rules| - 1]);
      var (c, slots') := GenExpr(rules[|rules| - 1].when, slots);
      (done + [c], slots')
  }

  /** One permit per rule, sharing one slot table. */
  method Generate(p: Policy) returns (permits: seq<Cedar>, slots: seq<Slot>)
    ensures (permits, slots) == GenRules(p.rules)
  {
    var cg := new Codegen();
    permits := [];
    for i := 0 to |p.rules|
      invariant (permits, cg.slots) == GenRules(p.rules[..i])
    {
      assert p.rules[..i + 1][..i] == p.rules[..i];
      var c := cg.Expr(p.rules[i].when);
      permits := permits + [c];
    }
    assert p.rules[..|p.rules|] == p.rules;
    slots := cg.slots;
  }

  // ------------------------------------------------------------------
  // The request context

  /** What the host computes for a regex slot: false for an absent field. */
  predicate Hit(rx: Regex, slot: Slot, ctx: Context) {
    var v := FieldValue(slot.field, ctx);
    v.Some? && rx(slot.pattern, v.value)
  }

  /** The attribute of a field is there exactly when the call has it, and then holds `v` of its value. */
  ghost predicate FieldIs(attrs: map<string, Value>, f: Field, v: Option<string>) {
    var name := FieldName(f);
    name.Some? ==>
      && (name.value in attrs <==> v.Some?)
      && (v.Some? ==> attrs[name.value] == StrV(v.value))
  }

  function Lowered(v: Option<string>): Option<string> {
    if v.None? then None else Some(AsciiLower(v.value))
  }

  ghost predicate SlotIs(attrs: map<string, Value>, k: nat, hit: bool) {
    SlotName(k) in attrs && attrs[SlotName(k)] == BoolV(hit)
  }

  ghost predicate Describes(m: map<string, Value>, slots: seq<Slot>, rx: Regex, ctx: Context) {
    && (forall f {:trigger FieldValue(f, ctx)} :: FieldIs(m, f, FieldValue(f, ctx)))
    && "lc" in m && m["lc"].RecV?
    && (forall f {:trigger FieldValue(f, ctx)} :: FieldIs(m["lc"].attrs, f, Lowered(FieldValue(f, ctx))))
    && "re" in m && m["re"].RecV?
    && (forall k {:trigger slots[k]} :: 0 <= k < |slots| ==> SlotIs(m["re"].attrs, k, Hit(rx, slots[k], ctx)))
  }

  lemma NamesDistinct(f: Field, g: Field)
    ensures FieldName(f).Some? && FieldName(f) == FieldName(g) ==> f == g
    ensures FieldName(f) != Some("lc") && FieldName(f) != Some("re")
  {
    assert FieldName(f).Some? ==> |FieldName(f).value| > 2;
    if FieldName(f).Some? && FieldName(g).Some? {
      var a, b := FieldName(f).value, FieldName(g).value;
      assert a == b ==> |a| == |b| && a[0] == b[0] && a[1] == b[1] && a[2] == b[2];
    }
  }

  lemma SlotNamesDistinct(j: nat, k: nat)
    requires SlotName(j) == SlotName(k)
    ensures j == k
  {
    assert SlotName(j)[1..] == Decimal(j) && SlotName(k)[1..] == Decimal(k);
    DecimalInjective(j, k);
  }

  /** Cedar records refuse a duplicate attribute. */
  function Insert(r: Option<map<string, Value>>, name: string, v: Value): Option<map<string, Value>> {
    if r.None? || name in r.value then None else Some(r.value[name := v])
  }

  const FIELDS := [Tool, Command, Path, UrlHost, Query, Agent, Mode, Server, Trust]

  /** The record holds exactly the fields of `done` that are present. */
  ghost predicate Holds(attrs: map<string, Value>, done: seq<Field>, ctx: Context, lower: bool) {
    && (forall f {:trigger FieldValue(f, ctx)} ::
          var v := FieldValue(f, ctx);
          FieldIs(attrs, f, if f !in done then None else if lower then Lowered(v) else v))
    && "lc" !in attrs && "re" !in attrs
  }

  lemma HoldsOne(attrs: map<string, Value>, done: seq<Field>, f: Field, ctx: Context, lower: bool)
    requires Holds(attrs, done, ctx, lower) && f !in done && FieldName(f).Some?
    ensures var v, name := FieldValue(f, ctx), FieldName(f).value;
            if v.None? then Holds(attrs, done + [f], ctx, lower)
            else && name !in attrs
                 && Holds(attrs[name := StrV(if lower then AsciiLower(v.value) else v.value)], done + [f], ctx, lower)
  {
    var v, name := FieldValue(f, ctx), FieldName(f).value;
    assert FieldIs(attrs, f, None);
    NamesDistinct(f, f);
    var attrs' := if v.None? then attrs
                  else attrs[name := StrV(if lower then AsciiLower(v.value) else v.value)];
    forall g
      ensures var w := FieldValue(g, ctx);
              FieldIs(attrs', g, if g !in done + [f] then None else if lower then Lowered(w) else w)
    {
      NamesDistinct(f, g);
      assert g in done + [f] <==> g in done || g == f;
      var w := FieldValue(g, ctx);
      assert FieldIs(attrs, g, if g !in done then None else if lower then Lowered(w) else w);
    }
  }

  method BuildFields(ctx: Context, lower: bool) returns (r: Option<map<string, Value>>)
    ensures r.Some? && Holds(r.value, FIELDS, ctx, lower)
  {
    r := Some(map[]);
    HoldsNothing(ctx, lower);
    for i := 0 to |FIELDS|
      invariant r.Some? && Holds(r.value, FIELDS[..i], ctx, lower)
    {
      var f := FIELDS[i];
      var name, v := FieldName(f), FieldValue(f, ctx);
      FieldsDistinct(i);
      HoldsOne(r.value, FIELDS[..i], f, ctx, lower);
      assert FIELDS[..i] + [f] == FIELDS[..i + 1];
      if name.Some? && v.Some? {
        r := Insert(r, name.value, StrV(if lower then AsciiLower(v.value) else v.value));
      }
    }
    assert FIELDS[..|FIELDS|] == FIELDS;
  }

  lemma HoldsNothing(ctx: Context, lower: bool)
    ensures Holds(map[], FIELDS[..0], ctx, lower)
  {
    assert FIELDS[..0] == [];
    forall f
      ensures FieldIs(map[], f, if f !in FIELDS[..0] then None else if lower then Lowered(FieldValue(f, ctx))
                      else FieldValue(f, ctx))
    {
    }
  }

  lemma FieldsDistinct(i: nat)
    requires i < |FIELDS|
    ensures FIELDS[i] !in FIELDS[..i] && FieldName(FIELDS[i]).Some?
    ensures forall f: Field :: f in FIELDS <==> FieldName(f).Some?
  {
    assert FIELDS[0] == Tool && FIELDS[1] == Command && FIELDS[2] == Path && FIELDS[3] == UrlHost && FIELDS[4] == Query;
    assert FIELDS[5] == Agent && FIELDS[6] == Mode && FIELDS[7] == Server && FIELDS[8] == Trust;
  }

  method BuildSlots(rx: Regex, slots: seq<Slot>, ctx: Context) returns (r: Option<map<string, Value>>)
    ensures r.Some?
    ensures forall k :: 0 <= k < |slots| ==> SlotIs(r.value, k, Hit(rx, slots[k], ctx))
  {
    r := Some(map[]);
    for i := 0 to |slots|
      invariant r.Some? && SlotsSoFar(rx, slots, ctx, r.value, i)
    {
      AddSlot(rx, slots, ctx, r.value, i);
      r := Insert(r, SlotName(i), BoolV(Hit(rx, slots[i], ctx)));
    }
  }

  ghost predicate SlotsSoFar(rx: Regex, slots: seq<Slot>, ctx: Context, attrs: map<string, Value>, i: nat) {
    && i <= |slots|
    && (forall k :: 0 <= k < i ==> SlotIs(attrs, k, Hit(rx, slots[k], ctx)))
    && forall name :: name in attrs ==> exists k :: 0 <= k < i && name == SlotName(k)
  }

  lemma AddSlot(rx: Regex, slots: seq<Slot>, ctx: Context, attrs: map<string, Value>, i: nat)
    requires SlotsSoFar(rx, slots, ctx, attrs, i) && i < |slots|
    ensures SlotName(i) !in attrs
    ensures SlotsSoFar(rx, slots, ctx, attrs[SlotName(i) := BoolV(Hit(rx, slots[i], ctx))], i + 1)
  {
    FreshSlot(attrs, i);
  }

  lemma FreshSlot(attrs: map<string, Value>, i: nat)
    requires forall name :: name in attrs ==> exists k :: 0 <= k < i && name == SlotName(k)
    ensures SlotName(i) !in attrs
    ensures forall k :: 0 <= k < i ==> SlotName(k) != SlotName(i)
  {
    forall k | 0 <= k < i ensures SlotName(k) != SlotName(i) {
      if SlotName(k) == SlotName(i) {
        SlotNamesDistinct(k, i);
      }
    }
  }

  /** `context_for`: never fails, and describes the call. */
  method ContextFor(rx: Regex, slots: seq<Slot>, ctx: Context) returns (r: Option<map<string, Value>>)
    ensures r.Some? && Describes(r.value, slots, rx, ctx)
  {
    var pairs := BuildFields(ctx, false);
    var lowered := BuildFields(ctx, true);
    var re := BuildSlots(rx, slots, ctx);
    r := Insert(Insert(pairs, "lc", RecV(lowered.value)), "re", RecV(re.value));
    DescribesAll(pairs.value, lowered.value, re.value, slots, rx, ctx);
  }

  lemma DescribesAll(attrs: map<string, Value>, lowered: map<string, Value>, re: map<string, Value>,
                     slots: seq<Slot>, rx: Regex, ctx: Context)
    requires Holds(attrs, FIELDS, ctx, false) && Holds(lowered, FIELDS, ctx, true)
    requires forall k :: 0 <= k < |slots| ==> SlotIs(re, k, Hit(rx, slots[k], ctx))
    ensures "lc" != "re" && Describes(attrs["lc" := RecV(lowered)]["re" := RecV(re)], slots, rx, ctx)
  {
    var m := attrs["lc" := RecV(lowered)]["re" := RecV(re)];
    assert "lc"[0] != "re"[0];
    FieldsDistinct(0);
    forall f
      ensures FieldIs(m, f, FieldValue(f, ctx)) && FieldIs(lowered, f, Lowered(FieldValue(f, ctx)))
    {
      NamesDistinct(f, f);
    }
  }

  // ------------------------------------------------------------------
  // Globs

  lemma {:induction false} GlobLiteral(w: string, s: string)
    ensures GlobMatch(Literal(w), s) <==> s == w
  {
    if w == "" || s == "" {
    } else {
      assert Literal(w)[1..] == Literal(w[1..]);
      GlobLiteral(w[1..], s[1..]);
      assert w == [w[0]] + w[1..] && s == [s[0]] + s[1..];
    }
  }

  lemma {:induction false} GlobAnything(s: string)
    ensures GlobMatch([Star], s)
  {
    if s == "" {
    } else {
      GlobAnything(s[1..]);
    }
  }

  lemma {:induction false} GlobPrefix(w: string, s: string)
    ensures GlobMatch(Literal(w) + [Star], s) <==> w <= s
  {
    if w == "" {
      assert Literal(w) + [Star] == [Star];
      GlobAnything(s);
    } else if s != "" {
      assert (Literal(w) + [Star])[1..] == Literal(w[1..]) + [Star];
      GlobPrefix(w[1..], s[1..]);
      assert w == [w[0]] + w[1..] && s == [s[0]] + s[1..];
    }
  }

  /** A leading star skips any number of characters. */
  lemma {:induction false} GlobStar(p: seq<Glob>, s: string)
    ensures GlobMatch([Star] + p, s) <==> exists i :: 0 <= i <= |s| && GlobMatch(p, s[i..])
    decreases |s|
  {
    assert ([Star] + p)[1..] == p && s[0..] == s;
    if s == "" {
    } else {
      GlobStar(p, s[1..]);
      assert forall i :: 0 <= i <= |s| - 1 ==> s[1..][i..] == s[i + 1..];
      if GlobMatch([Star] + p, s[1..]) {
        var i :| 0 <= i <= |s[1..]| && GlobMatch(p, s[1..][i..]);
        assert GlobMatch(p, s[i + 1..]);
      }
      if i :| 0 <= i <= |s| && GlobMatch(p, s[i..]) && i != 0 {
        assert s[1..][i - 1..] == s[i..];
      }
    }
  }

  lemma GlobSuffix(w: string, s: string)
    ensures GlobMatch([Star] + Literal(w), s) <==> HasSuffix(s, w)
  {
    GlobStar(Literal(w), s);
    forall i | 0 <= i <= |s| ensures GlobMatch(Literal(w), s[i..]) <==> s[i..] == w {
      GlobLiteral(w, s[i..]);
    }
    assert forall i :: 0 <= i <= |s| && s[i..] == w ==> i == |s| - |w|;
  }

  lemma GlobInfix(w: string, s: string)
    ensures GlobMatch([Star] + Literal(w) + [Star], s) <==> HasInfix(s, w)
  {
    assert [Star] + Literal(w) + [Star] == [Star] + (Literal(w) + [Star]);
    GlobStar(Literal(w) + [Star], s);
    forall i | 0 <= i <= |s| ensures GlobMatch(Literal(w) + [Star], s[i..]) <==> w <= s[i..] {
      GlobPrefix(w, s[i..]);
    }
  }

  lemma GlobDotted(w: string, s: string)
    ensures GlobMatch([Star, Lit('.')] + Literal(w), s) <==> HasSuffix(s, "." + w)
  {
    assert [Star, Lit('.')] + Literal(w) == [Star] + Literal("." + w);
    GlobSuffix("." + w, s);
  }

  // ------------------------------------------------------------------
  // Compilation preserves meaning

  /** The expression evaluates, without error, to this boolean. */
  ghost predicate Yields(c: Cedar, m: map<string, Value>, b: bool) {
    Eval(c, m) == Some(BoolV(b))
  }

  lemma EvalAttr(name: string, m: map<string, Value>)
    ensures Eval(Get(Root, name), m) == if name in m then Some(m[name]) else None
    ensures Eval(Has(Root, name), m) == Some(BoolV(name in m))
  {
    assert Eval(Root, m) == Some(RecV(m));
  }

  lemma EvalNested(group: string, name: string, m: map<string, Value>)
    requires group in m && m[group].RecV? && name in m[group].attrs
    ensures Eval(Get(Get(Root, group), name), m) == Some(m[group].attrs[name])
  {
    EvalAttr(group, m);
  }

  lemma GuardYields(f: Field, v: Option<string>, name: string, test: Cedar, m: map<string, Value>, b: bool)
    requires FieldName(f) == Some(name) && FieldIs(m, f, v)
    requires AlwaysPresent(f) ==> v.Some?
    requires v.Some? ==> Yields(test, m, b)
    ensures Yields(Guard(f, name, test), m, v.Some? && b)
  {
    EvalAttr(name, m);
  }

  lemma OpYields(rx: Regex, name: string, op: Op, m: map<string, Value>, v: string)
    requires !op.Matches? && name in m && m[name] == StrV(v)
    ensures Yields(OpTest(name, op), m, EvalOp(rx, op, v))
  {
    EvalAttr(name, m);
    match op
    case StartsWith(w) => GlobPrefix(w, v);
    case EndsWith(w) => GlobSuffix(w, v);
    case Contains(w) => GlobInfix(w, v);
    case _ =>
  }

  lemma EntryYields(name: string, entry: string, m: map<string, Value>, v: string)
    requires name in m && m[name] == StrV(v)
    requires "lc" in m && m["lc"].RecV? && name in m["lc"].attrs && m["lc"].attrs[name] == StrV(AsciiLower(v))
    ensures Yields(EntryTest(name, entry), m, ListEntryMatches(entry, v))
  {
    EvalAttr(name, m);
    EvalNested("lc", name, m);
    if WildcardBase(entry).Some? {
      var lowered, f := AsciiLower(WildcardBase(entry).value), Get(Get(Root, "lc"), name);
      GlobDotted(lowered, AsciiLower(v));
      assert Yields(Same(f, Str(lowered)), m, AsciiLower(v) == lowered);
      assert Yields(Like(f, [Star, Lit('.')] + Literal(lowered)), m, HasSuffix(AsciiLower(v), "." + lowered));
    }
  }

  lemma {:induction false} AnyEntryYields(name: string, list: seq<string>, m: map<string, Value>, v: string)
    requires list != [] && name in m && m[name] == StrV(v)
    requires "lc" in m && m["lc"].RecV? && name in m["lc"].attrs && m["lc"].attrs[name] == StrV(AsciiLower(v))
    ensures Yields(AnyEntry(name, list), m, exists i :: 0 <= i < |list| && ListEntryMatches(list[i], v))
  {
    var n := |list| - 1;
    EntryYields(name, list[n], m, v);
    if n == 0 {
    } else {
      AnyEntryYields(name, list[..n], m, v);
    }
    AnyEntrySnoc(list, v);
  }

  lemma AnyEntrySnoc(list: seq<string>, v: string)
    requires list != []
    ensures var n := |list| - 1;
            (exists i :: 0 <= i < |list| && ListEntryMatches(list[i], v)) <==>
            (exists i :: 0 <= i < n && ListEntryMatches(list[..n][i], v)) || ListEntryMatches(list[n], v)
  {
    var n := |list| - 1;
    assert forall i :: 0 <= i < n ==> list[..n][i] == list[i];
  }

  lemma PredYields(rx: Regex, p: Predicate, slots: seq<Slot>, all: seq<Slot>, m: map<string, Value>, ctx: Context)
    requires GenPred(p, slots).1 <= all && Describes(m, all, rx, ctx)
    ensures slots <= GenPred(p, slots).1 && Yields(GenPred(p, slots).0, m, EvalPred(rx, p, ctx))
  {
    var f, v := p.field, FieldValue(p.field, ctx);
    if FieldName(f).Some? {
      var name := FieldName(f).value;
      assert FieldIs(m, f, v) && FieldIs(m["lc"].attrs, f, Lowered(v));
      match p
      case Compare(_, op) =>
        if op.Matches? {
          assert all[|slots|] == Slot(f, op.pattern);
          EvalNested("re", SlotName(|slots|), m);
        } else {
          if v.Some? { OpYields(rx, name, op, m, v.value); }
          GuardYields(f, v, name, OpTest(name, op), m, v.Some? && EvalOp(rx, op, v.value));
        }
      case In(_, list) =>
        if list != [] {
          var hit := v.Some? && exists i :: 0 <= i < |list| && ListEntryMatches(list[i], v.value);
          if v.Some? { AnyEntryYields(name, list, m, v.value); }
          GuardYields(f, v, name, AnyEntry(name, list), m, hit);
        }
    }
  }

  lemma {:induction false} SlotsGrow(e: Expr, slots: seq<Slot>)
    ensures slots <= GenExpr(e, slots).1
  {
    match e
    case Or(a, b) =>
      SlotsGrow(a, slots);
      SlotsGrow(b, GenExpr(a, slots).1);
    case And(a, b) =>
      SlotsGrow(a, slots);
      SlotsGrow(b, GenExpr(a, slots).1);
    case Not(inner) => SlotsGrow(inner, slots);
    case Pred(p) =>
  }

  /** The generated condition never errors and is true exactly when the rule's `when` is. */
  lemma {:induction false} ExprYields(rx: Regex, e: Expr, slots: seq<Slot>, all: seq<Slot>, m: map<string, Value>,
                                      ctx: Context)
    requires GenExpr(e, slots).1 <= all && Describes(m, all, rx, ctx)
    ensures Yields(GenExpr(e, slots).0, m, EvalExpr(rx, e, ctx))
  {
    match e
    case Or(a, b) =>
      SlotsGrow(b, GenExpr(a, slots).1);
      ExprYields(rx, a, slots, all, m, ctx);
      ExprYields(rx, b, GenExpr(a, slots).1, all, m, ctx);
    case And(a, b) =>
      SlotsGrow(b, GenExpr(a, slots).1);
      ExprYields(rx, a, slots, all, m, ctx);
      ExprYields(rx, b, GenExpr(a, slots).1, all, m, ctx);
    case Not(inner) => ExprYields(rx, inner, slots, all, m, ctx);
    case Pred(p) => PredYields(rx, p, slots, all, m, ctx);
  }

  lemma {:induction false} RulesYield(rx: Regex, rules: seq<Rule>, all: seq<Slot>, m: map<string, Value>,
                                      ctx: Context, i: nat)
    requires i < |rules| && GenRules(rules).1 <= all && Describes(m, all, rx, ctx)
    ensures |GenRules(rules).0| == |rules|
    ensures Yields(GenRules(rules).0[i], m, EvalExpr(rx, rules[i].when, ctx))
  {
    var n := |rules| - 1;
    var init := rules[..n];
    SlotsGrow(rules[n].when, GenRules(init).1);
    GenRulesLen(init);
    if i < n {
      RulesYield(rx, init, all, m, ctx, i);
    } else {
      ExprYields(rx, rules[n].when, GenRules(init).1, all, m, ctx);
    }
  }

  lemma {:induction false} GenRulesLen(rules: seq<Rule>)
    ensures |GenRules(rules).0| == |rules|
  {
    if rules == [] {
    } else {
      GenRulesLen(rules[..|rules| - 1]);
    }
  }

  // ------------------------------------------------------------------
  // Authorization and the verdict

  function PolicyId(i: nat): string {
    "r" + Decimal(i)
  }

  /** Inverse of `PolicyId`; `None` for anything else. */
  function RuleIndex(id: string): Option<nat> {
    if id == "" || id[0] != 'r' || id == "r" || exists k :: 1 <= k < |id| && !IsDigit(id[k]) then None
    else DigitsValue(id[1..])
  }

  lemma PolicyIdRoundTrip(i: nat)
    ensures RuleIndex(PolicyId(i)) == Some(i)
  {
    assert PolicyId(i)[1..] == Decimal(i);
    DecimalValue(i);
  }

  /** A policy id is an `r` and digits, nothing else, and names the rule with their value. */
  lemma RuleIndexIff(id: string, i: nat)
    ensures RuleIndex(id) == Some(i) <==> |id| > 1 && id[0] == 'r' && DigitsValue(id[1..]) == Some(i)
  {
    if |id| > 1 && DigitsValue(id[1..]).Some? {
      ValueIsDigits(id[1..]);
      assert forall k :: 1 <= k < |id| ==> id[k] == id[1..][k - 1];
    }
  }

  /** The authorizer's answer: which permits hold, and whether any failed to evaluate. */
  datatype Response = Response(errors: bool, reason: set<string>, allow: bool)

  function Authorize(permits: seq<Cedar>, m: map<string, Value>): Response {
    var reason := set i | 0 <= i < |permits| && Eval(permits[i], m) == Some(BoolV(true)) :: PolicyId(i);
    Response(exists i :: 0 <= i < |permits| && AsBool(Eval(permits[i], m)).None?, reason, reason != {})
  }

  const FAIL_CLOSED := "engine-cedar-fail-closed"

  function FailClosed(why: string): Verdict {
    Deny(FAIL_CLOSED,
         "The Cedar engine could not evaluate this call (" + why + "); the call is denied (fail closed).", None)
  }

  /** `decide`: the lowest satisfied permit; anything unexpected is a fail-closed denial. */
  method Decide(p: Policy, resp: Response, ctx: Context) returns (v: Verdict)
    ensures !Coherent(p, resp) ==> DeniedBy("engine-cedar-fail-closed", v)
    ensures Coherent(p, resp) ==>
              exists first :: Lowest(p, resp.reason, first) && v == VerdictAt(p, ctx, RuleOrDefault(p, first))
    ensures forall n :: !resp.errors && resp.allow == (resp.reason != {}) && KnownIds(p, resp)
              && LowestPermit(p, resp, n)
              ==> v == VerdictAt(p, ctx, n)
  {
    if resp.errors { return FailClosed("policy evaluation failed"); }
    var first := LowestRule(p, resp.reason);
    if first.Err? {
      UnknownPolicy(p, resp, first.error);
      return FailClosed("response references unknown policy");
    }
    if resp.allow != first.value.Some? {
      return FailClosed("Cedar decision is inconsistent with the satisfied rule set");
    }
    LowestIs(p, resp, first.value);
    return VerdictAt(p, ctx, RuleOrDefault(p, first.value));
  }

  /** The loop of `decide` over the satisfied policies, in any order; an id that is no rule's stops it. */
  method LowestRule(p: Policy, ids: set<string>) returns (r: Result<Option<nat>, string>)
    ensures r.Ok? ==> Lowest(p, ids, r.value)
    ensures r.Err? ==> r.error in ids && !NamesRule(p, r.error)
  {
    var first: Option<nat>, todo := None, ids;
    ghost var done: set<string> := {};
    while todo != {}
      invariant ids == done + todo && done !! todo
      invariant Lowest(p, done, first)
      decreases todo
    {
      var id :| id in todo;
      var i := RuleIndex(id);
      if i.None? || i.value >= |p.rules| { return Err(id); }
      LowestStep(p, done, first, id);
      first := if first.None? || i.value < first.value then i else first;
      todo, done := todo - {id}, done + {id};
    }
    assert done == ids;
    return Ok(first);
  }

  /** The policy id is that of a rule. */
  predicate NamesRule(p: Policy, id: string) {
    RuleIndex(id).Some? && RuleIndex(id).value < |p.rules|
  }

  /** No evaluation error, only ids of rules, and a decision that agrees with the satisfied set. */
  ghost predicate Coherent(p: Policy, resp: Response) {
    && !resp.errors
    && (forall id :: id in resp.reason ==> NamesRule(p, id))
    && resp.allow == (resp.reason != {})
  }

  function RuleOrDefault(p: Policy, first: Option<nat>): nat {
    if first.Some? then first.value else |p.rules|
  }

  /** `first` is the lowest rule index among the policy ids seen. */
  ghost predicate Lowest(p: Policy, ids: set<string>, first: Option<nat>) {
    && (first.Some? <==> ids != {})
    && (first.Some? ==> first.value < |p.rules| && exists id :: id in ids && RuleIndex(id) == first)
    && forall id :: id in ids ==> RuleIndex(id).Some? && first.value <= RuleIndex(id).value < |p.rules|
  }

  lemma LowestStep(p: Policy, ids: set<string>, first: Option<nat>, id: string)
    requires Lowest(p, ids, first) && RuleIndex(id).Some? && RuleIndex(id).value < |p.rules|
    ensures var i := RuleIndex(id);
            Lowest(p, ids + {id}, if first.None? || i.value < first.value then i else first)
  {
    assert id in ids + {id};
    if first.Some? {
      var x :| x in ids && RuleIndex(x) == first;
      assert x in ids + {id};
    }
  }

  /** Permit `n` is satisfied and no lower one is; `n` past the rules when none is. */
  ghost predicate LowestPermit(p: Policy, resp: Response, n: nat) {
    && n <= |p.rules|
    && (forall j :: 0 <= j < n ==> PolicyId(j) !in resp.reason)
    && (n < |p.rules| ==> PolicyId(n) in resp.reason)
  }

  ghost predicate KnownIds(p: Policy, resp: Response) {
    forall id :: id in resp.reason ==> exists i :: 0 <= i < |p.rules| && id == PolicyId(i)
  }

  lemma UnknownPolicy(p: Policy, resp: Response, id: string)
    requires id in resp.reason && (RuleIndex(id).None? || RuleIndex(id).value >= |p.rules|)
    ensures !KnownIds(p, resp)
  {
    if KnownIds(p, resp) {
      var i :| 0 <= i < |p.rules| && id == PolicyId(i);
      PolicyIdRoundTrip(i);
    }
  }

  lemma LowestIs(p: Policy, resp: Response, first: Option<nat>)
    requires Lowest(p, resp.reason, first)
    ensures forall n :: KnownIds(p, resp) && LowestPermit(p, resp, n) ==> n == RuleOrDefault(p, first)
  {
    forall n | KnownIds(p, resp) && LowestPermit(p, resp, n)
      ensures n == RuleOrDefault(p, first)
    {
      if first.Some? {
        var id :| id in resp.reason && RuleIndex(id) == first;
        var i :| 0 <= i < |p.rules| && id == PolicyId(i);
        PolicyIdRoundTrip(i);
      }
      PolicyIdRoundTrip(n);
    }
  }

  /** On a described context the authorizer reports no error and exactly the matching rules. */
  lemma AuthorizeMatches(rx: Regex, p: Policy, m: map<string, Value>, ctx: Context, n: nat)
    requires var (permits, slots) := GenRules(p.rules); Describes(m, slots, rx, ctx)
    requires FirstMatch(rx, p, ctx, n)
    ensures var resp := Authorize(GenRules(p.rules).0, m);
            !resp.errors && KnownIds(p, resp) && LowestPermit(p, resp, n)
  {
    var (permits, slots) := GenRules(p.rules);
    GenRulesLen(p.rules);
    var resp := Authorize(permits, m);
    forall i | 0 <= i < |permits|
      ensures Yields(permits[i], m, EvalExpr(rx, p.rules[i].when, ctx))
    {
      RulesYield(rx, p.rules, slots, m, ctx, i);
    }
    forall j | 0 <= j < n ensures PolicyId(j) !in resp.reason {
      PolicyIdRoundTrip(j);
      forall i | 0 <= i < |permits| ensures PolicyId(i) == PolicyId(j) ==> i == j {
        PolicyIdRoundTrip(i);
      }
    }
  }

  /** The Cedar engine returns the native verdict, for every policy and every call. */
  method Evaluate(rx: Regex, p: Policy, ctx: Context) returns (v: Verdict)
    ensures IsVerdict(rx, p, ctx, v)
  {
    var permits, slots := Generate(p);
    var m := ContextFor(rx, slots, ctx);
    if m.None? { return FailClosed("context construction failed"); }
    v := Decide(p, Authorize(permits, m.value), ctx);
    ghost var n := TheFirstMatch(rx, p, ctx, |p.rules|);
    AuthorizeMatches(rx, p, m.value, ctx, n);
  }

  ghost function TheFirstMatch(rx: Regex, p: Policy, ctx: Context, i: nat): (n: nat)
    requires i <= |p.rules|
    ensures n <= i
    ensures forall j :: 0 <= j < n ==> !EvalExpr(rx, p.rules[j].when, ctx)
    ensures n < i ==> EvalExpr(rx, p.rules[n].when, ctx)
  {
    if i == 0 then 0
    else
      var n := TheFirstMatch(rx, p, ctx, i - 1);
      if n < i - 1 then n else if EvalExpr(rx, p.rules[i - 1].when, ctx) then i - 1 else i
  }
}
