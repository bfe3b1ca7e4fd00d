/**
 The policy language all engines share: the compiled `when` expressions, the
 native evaluator and verdict construction.
 */
module Policy {
  import opened Bytes
  import opened Text
  import opened Ledger

  datatype Field = Tool | Command | Path | UrlHost | Query | Agent | Mode | Server | Trust | Unknown

  datatype Op =
    | Eq(w: string)
    | Ne(w: string)
    | StartsWith(w: string)
    | EndsWith(w: string)
    | Contains(w: string)
    | Matches(pattern: string)

  datatype Predicate = Compare(field: Field, op: Op) | In(field: Field, list: seq<string>)

  datatype Expr = Or(a: Expr, b: Expr) | And(a: Expr, b: Expr) | Not(inner: Expr) | Pred(p: Predicate)

  datatype InterceptMode = Mcp | ProcessWrap | SdkHook

  datatype Context = Context(
    tool: string,
    command: Option<string>,
    path: Option<string>,
    urlHost: Option<string>,
    query: Option<string>,
    server: Option<string>,
    trust: Option<string>,
    mode: InterceptMode,
    agent: string)

  /** The regex crate, shared by every engine: does the pattern match somewhere in the text? */
  type Regex = (string, string) -> bool

  // ------------------------------------------------------------------
  // Strings

  predicate HasSuffix(v: string, w: string) {
    |w| <= |v| && v[|v| - |w|..] == w
  }

  predicate HasInfix(v: string, w: string) {
    exists i :: 0 <= i <= |v| && w <= v[i..]
  }

  function LowerChar(c: char): char {
    if 'A' <= c <= 'Z' then c - 'A' + 'a' else c
  }

  function AsciiLower(s: string): string {
    seq(|s|, i requires 0 <= i < |s| => LowerChar(s[i]))
  }

  /** The base of a `*.base` list entry. */
  function WildcardBase(entry: string): Option<string> {
    if "*." <= entry then Some(entry[2..]) else None
  }

  // ------------------------------------------------------------------
  // Native evaluation

  function ModeName(m: InterceptMode): string {
    match m
    case Mcp => "mcp"
    case ProcessWrap => "processwrap"
    case SdkHook => "sdkhook"
  }

  function FieldValue(f: Field, ctx: Context): Option<string> {
    match f
    case Tool => Some(ctx.tool)
    case Command => ctx.command
    case Path => ctx.path
    case UrlHost => ctx.urlHost
    case Query => ctx.query
    case Agent => Some(ctx.agent)
    case Mode => Some(ModeName(ctx.mode))
    case Server => ctx.server
    case Trust => ctx.trust
    case Unknown => None
  }

  predicate ListEntryMatches(entry: string, v: string) {
    match WildcardBase(entry)
    case Some(base) => AsciiLower(v) == AsciiLower(base) || HasSuffix(AsciiLower(v), "." + AsciiLower(base))
    case None => entry == v
  }

  predicate EvalOp(rx: Regex, op: Op, v: string) {
    match op
    case Eq(w) => v == w
    case Ne(w) => v != w
    case StartsWith(w) => w <= v
    case EndsWith(w) => HasSuffix(v, w)
    case Contains(w) => HasInfix(v, w)
    case Matches(re) => rx(re, v)
  }

  /** An absent or unknown field matches nothing, whatever the operator. */
  predicate EvalPred(rx: Regex, p: Predicate, ctx: Context) {
    var v := FieldValue(p.field, ctx);
    && v.Some?
    && match p
       case Compare(_, op) => EvalOp(rx, op, v.value)
       case In(_, list) => exists i :: 0 <= i < |list| && ListEntryMatches(list[i], v.value)
  }

  predicate EvalExpr(rx: Regex, e: Expr, ctx: Context) {
    match e
    case Or(a, b) => EvalExpr(rx, a, ctx) || EvalExpr(rx, b, ctx)
    case And(a, b) => EvalExpr(rx, a, ctx) && EvalExpr(rx, b, ctx)
    case Not(inner) => !EvalExpr(rx, inner, ctx)
    case Pred(p) => EvalPred(rx, p, ctx)
  }

  // ------------------------------------------------------------------
  // What a predicate says

  /** Every field is the member of the call that bears its name, and no other. */
  lemma ReadsItsMember(rx: Regex, ctx: Context, w: string)
    ensures EvalPred(rx, Compare(Tool, Eq(w)), ctx) <==> ctx.tool == w
    ensures EvalPred(rx, Compare(Command, Eq(w)), ctx) <==> ctx.command == Some(w)
    ensures EvalPred(rx, Compare(Path, Eq(w)), ctx) <==> ctx.path == Some(w)
    ensures EvalPred(rx, Compare(UrlHost, Eq(w)), ctx) <==> ctx.urlHost == Some(w)
    ensures EvalPred(rx, Compare(Query, Eq(w)), ctx) <==> ctx.query == Some(w)
    ensures EvalPred(rx, Compare(Agent, Eq(w)), ctx) <==> ctx.agent == w
    ensures EvalPred(rx, Compare(Mode, Eq(w)), ctx) <==>
            (ctx.mode.Mcp? && w == "mcp") || (ctx.mode.ProcessWrap? && w == "processwrap")
            || (ctx.mode.SdkHook? && w == "sdkhook")
    ensures EvalPred(rx, Compare(Server, Eq(w)), ctx) <==> ctx.server == Some(w)
    ensures EvalPred(rx, Compare(Trust, Eq(w)), ctx) <==> ctx.trust == Some(w)
    ensures !EvalPred(rx, Compare(Unknown, Eq(w)), ctx)
  {
  }

  /** The value is the field's, as equality finds it. */
  predicate IsValue(rx: Regex, f: Field, ctx: Context, v: string) {
    EvalPred(rx, Compare(f, Eq(v)), ctx)
  }

  /** The operator on a value, by what the value is made of. */
  ghost predicate OpSays(rx: Regex, op: Op, v: string) {
    match op
    case Eq(w) => v == w
    case Ne(w) => v != w
    case StartsWith(w) => exists y :: v == w + y
    case EndsWith(w) => exists x :: v == x + w
    case Contains(w) => exists x, y :: v == x + w + y
    case Matches(re) => rx(re, v)
  }

  /** An operator that looks at the value equality finds; without one, nothing matches, `!=` included. */
  lemma CompareSays(rx: Regex, f: Field, op: Op, ctx: Context)
    ensures EvalPred(rx, Compare(f, op), ctx) <==> exists v :: IsValue(rx, f, ctx, v) && OpSays(rx, op, v)
  {
    var v := FieldValue(f, ctx);
    if v.Some? {
      assert IsValue(rx, f, ctx, v.value);
      OpIs(rx, op, v.value);
    }
  }

  lemma OpIs(rx: Regex, op: Op, v: string)
    ensures EvalOp(rx, op, v) <==> OpSays(rx, op, v)
  {
    match op
    case StartsWith(w) =>
      if w <= v { assert v == w + v[|w|..]; }
    case EndsWith(w) =>
      if HasSuffix(v, w) { assert v == v[..|v| - |w|] + w; }
    case Contains(w) => InfixIs(v, w);
    case _ =>
  }

  lemma InfixIs(v: string, w: string)
    ensures HasInfix(v, w) <==> exists x, y :: v == x + w + y
  {
    if HasInfix(v, w) {
      var i :| 0 <= i <= |v| && w <= v[i..];
      assert v == v[..i] + w + v[i + |w|..];
    }
    if x, y :| v == x + w + y {
      assert v[|x|..] == w + y;
    }
  }

  predicate SameLetter(c: char, d: char) {
    || c == d
    || ('a' <= c <= 'z' && d as int == c as int - 32)
    || ('a' <= d <= 'z' && c as int == d as int - 32)
  }

  /** Equal up to the case of ASCII letters. */
  ghost predicate SameButCase(a: string, b: string) {
    |a| == |b| && forall i :: 0 <= i < |a| ==> SameLetter(a[i], b[i])
  }

  /** The text ends in a dot and the base, up to case. */
  ghost predicate Subdomain(v: string, base: string) {
    exists k :: 0 <= k < |v| && v[k] == '.' && SameButCase(v[k + 1..], base)
  }

  /** What one list entry lets in. */
  ghost predicate EntrySays(entry: string, v: string) {
    if |entry| >= 2 && entry[0] == '*' && entry[1] == '.'
    then SameButCase(v, entry[2..]) || Subdomain(v, entry[2..])
    else v == entry
  }

  lemma LowerIs(a: string, b: string)
    ensures AsciiLower(a) == AsciiLower(b) <==> SameButCase(a, b)
  {
    if AsciiLower(a) == AsciiLower(b) {
      forall i | 0 <= i < |a| ensures SameLetter(a[i], b[i]) {
        assert AsciiLower(a)[i] == AsciiLower(b)[i];
      }
    }
    if SameButCase(a, b) {
      forall i | 0 <= i < |a| ensures AsciiLower(a)[i] == AsciiLower(b)[i] {
        assert SameLetter(a[i], b[i]);
      }
    }
  }

  lemma LowerCuts(v: string, n: nat)
    requires n < |v|
    ensures AsciiLower(v)[n..] == [LowerChar(v[n])] + AsciiLower(v[n + 1..])
  {
  }

  lemma ConsAlike(c: char, d: char, a: string, b: string)
    ensures [c] + a == [d] + b <==> c == d && a == b
  {
    assert ([c] + a)[0] == c && ([c] + a)[1..] == a;
    assert ([d] + b)[0] == d && ([d] + b)[1..] == b;
  }

  lemma SuffixIs(v: string, base: string)
    ensures HasSuffix(AsciiLower(v), "." + AsciiLower(base)) <==> Subdomain(v, base)
  {
    var n := |v| - |base| - 1;
    if n >= 0 {
      LowerIs(v[n + 1..], base);
      LowerCuts(v, n);
      ConsAlike(LowerChar(v[n]), '.', AsciiLower(v[n + 1..]), AsciiLower(base));
      SubdomainAt(v, base, n);
    }
  }

  /** The dot can only stand where the rest is as long as the base. */
  lemma SubdomainAt(v: string, base: string, n: nat)
    requires n + 1 + |base| == |v|
    ensures Subdomain(v, base) <==> v[n] == '.' && SameButCase(v[n + 1..], base)
  {
    if k :| 0 <= k < |v| && v[k] == '.' && SameButCase(v[k + 1..], base) {
      assert k == n;
    }
  }

  /** A wildcard entry lets in its base and every subdomain, in any case; a plain entry itself only. */
  lemma EntryIs(entry: string, v: string)
    ensures ListEntryMatches(entry, v) <==> EntrySays(entry, v)
  {
    var w := WildcardBase(entry);
    assert w.Some? <==> |entry| >= 2 && entry[0] == '*' && entry[1] == '.';
    if w.Some? {
      LowerIs(v, w.value);
      SuffixIs(v, w.value);
    }
  }

  /** Membership is being let in by some entry; an absent field is a member of nothing. */
  lemma InSays(rx: Regex, f: Field, list: seq<string>, ctx: Context)
    ensures EvalPred(rx, In(f, list), ctx) <==>
            exists v, i :: IsValue(rx, f, ctx, v) && 0 <= i < |list| && EntrySays(list[i], v)
  {
    var v := FieldValue(f, ctx);
    if v.Some? {
      assert IsValue(rx, f, ctx, v.value);
      forall i | 0 <= i < |list| ensures ListEntryMatches(list[i], v.value) <==> EntrySays(list[i], v.value) {
        EntryIs(list[i], v.value);
      }
    }
  }

  // ------------------------------------------------------------------
  // Rules and verdicts

  datatype RuleVerdict = RuleAllow | RuleDeny | RuleAsk | RuleRedact

  datatype Rule = Rule(
    id: string,
    when: Expr,
    verdict: RuleVerdict,
    reason: Option<string>,
    irreversible: bool,
    timeoutMs: Option<nat>,
    patterns: seq<string>,
    line: Option<nat>)

  datatype DefaultVerdict = DefaultAllow | DefaultAsk | DefaultDeny

  datatype Policy = Policy(default: DefaultVerdict, rules: seq<Rule>)

  const POLICY_FILE := "writ.yaml"

  function DefaultFor(d: DefaultVerdict): Verdict {
    match d
    case DefaultAllow => Allow(Some("default"))
    case DefaultAsk =>
      Ask("default", "No policy rule matched this call; the policy default is `ask`. A human must approve it.", None,
          false, None)
    case DefaultDeny => Deny("default", "No policy rule matched this call; the policy default is `deny`.", None)
  }

  function Detail(what: string, v: Option<string>): string {
    if v.None? then "" else ", " + what + " `" + v.value + "`"
  }

  function AskDiff(r: Rule, ctx: Context): string {
    "Rule `" + r.id + "` requires human approval for tool `" + ctx.tool + "`"
    + Detail("command", ctx.command) + Detail("path", ctx.path)
    + Detail("query", ctx.query) + Detail("host", ctx.urlHost)
  }

  function VerdictFor(r: Rule, ctx: Context): Verdict {
    var at := if r.line.None? then None else Some(POLICY_FILE + ":" + Decimal(r.line.value));
    match r.verdict
    case RuleAllow => Allow(Some(r.id))
    case RuleDeny =>
      var fallback := "Denied by rule `" + r.id + "`. The policy author did not provide a reason; inspect "
                      + (if at.Some? then at.value else POLICY_FILE) + ".";
      Deny(r.id, if r.reason.Some? then r.reason.value else fallback, at)
    case RuleAsk => Ask(r.id, if r.reason.Some? then r.reason.value else AskDiff(r, ctx), r.timeoutMs,
                        r.irreversible, at)
    case RuleRedact => Redact(r.id, r.patterns)
  }

  /** `i` is the first rule that matches, or the number of rules if none does. */
  ghost predicate FirstMatch(rx: Regex, p: Policy, ctx: Context, i: nat) {
    && i <= |p.rules|
    && (forall j :: 0 <= j < i ==> !EvalExpr(rx, p.rules[j].when, ctx))
    && (i < |p.rules| ==> EvalExpr(rx, p.rules[i].when, ctx))
  }

  function VerdictAt(p: Policy, ctx: Context, i: nat): Verdict {
    if i < |p.rules| then VerdictFor(p.rules[i], ctx) else DefaultFor(p.default)
  }

  /** What every engine must return: the first matching rule's verdict, or the default. */
  ghost predicate IsVerdict(rx: Regex, p: Policy, ctx: Context, v: Verdict) {
    exists i :: FirstMatch(rx, p, ctx, i) && v == VerdictAt(p, ctx, i)
  }

  /** First match wins, so two engines that meet `IsVerdict` agree. */
  lemma VerdictUnique(rx: Regex, p: Policy, ctx: Context, v: Verdict, w: Verdict)
    requires IsVerdict(rx, p, ctx, v) && IsVerdict(rx, p, ctx, w)
    ensures v == w
  {
    var i :| FirstMatch(rx, p, ctx, i) && v == VerdictAt(p, ctx, i);
    var j :| FirstMatch(rx, p, ctx, j) && w == VerdictAt(p, ctx, j);
    assert i == j;
  }

  /** A verdict that carries out the default. */
  ghost predicate SaysDefault(d: DefaultVerdict, v: Verdict) {
    match v
    case Allow(rule) => d.DefaultAllow? && rule == Some("default")
    case Ask(rule, diff, timeout, irreversible, at) =>
      d.DefaultAsk? && rule == "default" && diff != "" && timeout.None? && !irreversible && at.None?
    case Deny(rule, reason, at) => d.DefaultDeny? && rule == "default" && reason != "" && at.None?
    case Redact(_, _) => false
  }

  /** The reason is the author's, or else names the rule. */
  ghost predicate Explains(r: Rule, text: string) {
    if r.reason.Some? then text == r.reason.value else HasInfix(text, r.id)
  }

  /** The location is the rule's line of the policy file, if it is known. */
  ghost predicate PointsAt(r: Rule, at: Option<string>) {
    at == if r.line.None? then None else Some("writ.yaml:" + Decimal(r.line.value))
  }

  /** A verdict that carries out the rule. */
  ghost predicate SaysRule(r: Rule, v: Verdict) {
    match v
    case Allow(rule) => r.verdict.RuleAllow? && rule == Some(r.id)
    case Deny(rule, reason, at) => r.verdict.RuleDeny? && rule == r.id && Explains(r, reason) && PointsAt(r, at)
    case Ask(rule, diff, timeout, irreversible, at) =>
      && r.verdict.RuleAsk? && rule == r.id && Explains(r, diff) && PointsAt(r, at)
      && timeout == r.timeoutMs && irreversible == r.irreversible
    case Redact(rule, patterns) => r.verdict.RuleRedact? && rule == r.id && patterns == r.patterns
  }

  /** Denied on behalf of no rule of the policy, but of the engine that could not decide. */
  predicate DeniedBy(engine: string, v: Verdict) {
    v.Deny? && v.denyRule == engine && v.reason != "" && v.denyAt.None?
  }

  /**
   What every engine's verdict says: with no match it carries out the policy's
   default, and otherwise the first rule that matches, its settings included.
   */
  lemma VerdictSays(rx: Regex, p: Policy, ctx: Context, v: Verdict)
    requires IsVerdict(rx, p, ctx, v)
    ensures (forall j :: 0 <= j < |p.rules| ==> !EvalExpr(rx, p.rules[j].when, ctx)) ==> SaysDefault(p.default, v)
    ensures forall i | && 0 <= i < |p.rules| && EvalExpr(rx, p.rules[i].when, ctx)
                       && forall j :: 0 <= j < i ==> !EvalExpr(rx, p.rules[j].when, ctx)
              :: SaysRule(p.rules[i], v)
  {
    var n: nat :| FirstMatch(rx, p, ctx, n) && v == VerdictAt(p, ctx, n);
    if n < |p.rules| {
      RuleIsSaid(p.rules[n], ctx);
    } else {
      DefaultIsSaid(p.default);
    }
    forall i | && 0 <= i < |p.rules| && EvalExpr(rx, p.rules[i].when, ctx)
               && forall j :: 0 <= j < i ==> !EvalExpr(rx, p.rules[j].when, ctx)
      ensures i == n
    {
      assert FirstMatch(rx, p, ctx, i);
    }
  }

  lemma DefaultIsSaid(d: DefaultVerdict)
    ensures SaysDefault(d, DefaultFor(d))
  {
  }

  lemma RuleIsSaid(r: Rule, ctx: Context)
    ensures SaysRule(r, VerdictFor(r, ctx))
  {
    assert POLICY_FILE + ":" == "writ.yaml:";
    var at := if r.line.None? then POLICY_FILE else POLICY_FILE + ":" + Decimal(r.line.value);
    var tail := "`. The policy author did not provide a reason; inspect " + at + ".";
    Names("Denied by rule `", r.id, tail);
    assert "Denied by rule `" + r.id + tail ==
           "Denied by rule `" + r.id + "`. The policy author did not provide a reason; inspect " + at + ".";
    AskNames(r, ctx);
  }

  lemma Names(a: string, id: string, b: string)
    ensures HasInfix(a + id + b, id)
  {
    assert (a + id + b)[|a|..] == id + b;
  }

  lemma AskNames(r: Rule, ctx: Context)
    ensures HasInfix(AskDiff(r, ctx), r.id)
  {
    var tail := ctx.tool + "`" + Detail("command", ctx.command) + Detail("path", ctx.path)
                + Detail("query", ctx.query) + Detail("host", ctx.urlHost);
    Names("Rule `", r.id, "` requires human approval for tool `" + tail);
    AskParts(r.id, ctx.tool, Detail("command", ctx.command), Detail("path", ctx.path),
             Detail("query", ctx.query), Detail("host", ctx.urlHost));
  }

  lemma AskParts(id: string, tool: string, c: string, p: string, q: string, h: string)
    ensures "Rule `" + id + "` requires human approval for tool `" + tool + "`" + c + p + q + h ==
            "Rule `" + id + ("` requires human approval for tool `" + (tool + "`" + c + p + q + h))
  {
  }

  /** The native engine. */
  method Evaluate(rx: Regex, p: Policy, ctx: Context) returns (v: Verdict)
    ensures IsVerdict(rx, p, ctx, v)
  {
    for i := 0 to |p.rules|
      invariant forall j :: 0 <= j < i ==> !EvalExpr(rx, p.rules[j].when, ctx)
    {
      if EvalExpr(rx, p.rules[i].when, ctx) {
        assert FirstMatch(rx, p, ctx, i);
        return VerdictFor(p.rules[i], ctx);
      }
    }
    assert FirstMatch(rx, p, ctx, |p.rules|);
    return DefaultFor(p.default);
  }
}
